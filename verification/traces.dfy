/** Runs of the controller over sequences of input events, and what holds of
    every such run. */
module Traces {
  import opened PageNav

  /** An event the controller can receive for a page set of `pages` pages: the
      navigation dots only offer indices of existing pages. */
  predicate Admissible(e: Event, pages: nat)
  {
    e.PointClick? ==> 0 <= e.target < pages
  }

  predicate AllAdmissible(evs: seq<Event>, pages: nat)
  {
    forall i :: 0 <= i < |evs| ==> Admissible(evs[i], pages)
  }

  /** A run that uses only the wheel and the scroll container (no dot clicks). */
  predicate NoClicks(evs: seq<Event>)
  {
    forall i :: 0 <= i < |evs| ==> !evs[i].PointClick?
  }

  predicate OnlyWheel(evs: seq<Event>)
  {
    forall i :: 0 <= i < |evs| ==> evs[i].Wheel?
  }

  /** One event dispatched to its handler. */
  function Apply(s: State, e: Event, offsets: seq<real>): (r: Step)
    requires Inv(s, |offsets|) && Admissible(e, |offsets|)
    ensures Inv(r.next, |offsets|)
  {
    match e
    case Wheel(d) => OnWheel(s, d, offsets)
    case Scroll(pos) => OnScroll(s, pos, offsets)
    case PointClick(k) => OnPointClick(s, k, offsets)
    case Resize => OnResize(s, offsets)
  }

  /** The state after handling `evs` in order. */
  function Run(s: State, evs: seq<Event>, offsets: seq<real>): (r: State)
    requires Inv(s, |offsets|) && AllAdmissible(evs, |offsets|)
    ensures Inv(r, |offsets|)
    decreases |evs|
  {
    if evs == [] then s
    else Run(Apply(s, evs[0], offsets).next, evs[1..], offsets)
  }

  /** How many events of the run change the page index. */
  function Moves(s: State, evs: seq<Event>, offsets: seq<real>): nat
    requires Inv(s, |offsets|) && AllAdmissible(evs, |offsets|)
    decreases |evs|
  {
    if evs == [] then 0
    else
      var t := Apply(s, evs[0], offsets).next;
      (if t.page != s.page then 1 else 0) + Moves(t, evs[1..], offsets)
  }

  /** How many events of the run release the lock (a detected settle). */
  function Settles(s: State, evs: seq<Event>, offsets: seq<real>): nat
    requires Inv(s, |offsets|) && AllAdmissible(evs, |offsets|)
    decreases |evs|
  {
    if evs == [] then 0
    else
      var t := Apply(s, evs[0], offsets).next;
      (if s.lock && !t.lock then 1 else 0) + Settles(t, evs[1..], offsets)
  }

  function LockBit(s: State): nat { if s.lock then 1 else 0 }

  /** Wheel-driven navigation is serialised by the lock: without dot clicks, the
      page index changes at most once per detected settle, plus once if the run
      starts unlocked. */
  lemma {:induction false} MovesBoundedBySettles(s: State, evs: seq<Event>, offsets: seq<real>)
    requires Inv(s, |offsets|) && NoClicks(evs)
    ensures AllAdmissible(evs, |offsets|)
    ensures Moves(s, evs, offsets) + LockBit(s) <= Settles(s, evs, offsets) + LockBit(Run(s, evs, offsets))
    ensures Moves(s, evs, offsets) <= Settles(s, evs, offsets) + 1 - LockBit(s)
    decreases |evs|
  {
    assert AllAdmissible(evs, |offsets|) by {
      forall i | 0 <= i < |evs| ensures Admissible(evs[i], |offsets|) {
        assert !evs[i].PointClick?;
      }
    }
    if evs != [] {
      var t := Apply(s, evs[0], offsets).next;
      assert !evs[0].PointClick?;
      assert NoClicks(evs[1..]) by {
        forall i | 0 <= i < |evs[1..]| ensures !evs[1..][i].PointClick? {
          assert evs[1..][i] == evs[i + 1];
        }
      }
      MovesBoundedBySettles(t, evs[1..], offsets);
    }
  }

  /** Input arriving while the lock is held is dropped, not queued: any number of
      wheel events leave the state exactly as it was. */
  lemma {:induction false} WheelDroppedWhileLocked(s: State, evs: seq<Event>, offsets: seq<real>)
    requires Inv(s, |offsets|) && s.lock && OnlyWheel(evs)
    ensures AllAdmissible(evs, |offsets|)
    ensures Run(s, evs, offsets) == s && Moves(s, evs, offsets) == 0
    decreases |evs|
  {
    assert AllAdmissible(evs, |offsets|) by {
      forall i | 0 <= i < |evs| ensures Admissible(evs[i], |offsets|) {
        assert evs[i].Wheel?;
      }
    }
    if evs != [] {
      assert evs[0].Wheel?;
      assert OnlyWheel(evs[1..]) by {
        forall i | 0 <= i < |evs[1..]| ensures evs[1..][i].Wheel? {
          assert evs[1..][i] == evs[i + 1];
        }
      }
      WheelDroppedWhileLocked(s, evs[1..], offsets);
    }
  }

  /** `k` downward wheel gestures starting at page `from`, each followed by the
      animation reaching its target page's offset. */
  function DownGestures(from: int, k: nat, deltaY: real, offsets: seq<real>): (evs: seq<Event>)
    requires 0 <= from < |offsets|
    ensures |evs| == 2 * k && NoClicks(evs)
    decreases k
  {
    if k == 0 then []
    else
      var p := Min(from + 1, |offsets| - 1);
      [Wheel(deltaY), Scroll(offsets[p])] + DownGestures(p, k - 1, deltaY, offsets)
  }

  /** Each settled downward gesture advances one page until the last page, where
      further gestures change nothing: from page 0, `|offsets| - 1` gestures
      land on the last page, and more stay there, unlocked. */
  lemma {:induction false} DownGesturesReach(from: int, k: nat, deltaY: real, offsets: seq<real>)
    requires 0 <= from < |offsets| && deltaY > 0.0
    ensures AllAdmissible(DownGestures(from, k, deltaY, offsets), |offsets|)
    ensures Run(State(from, false, None), DownGestures(from, k, deltaY, offsets), offsets)
         == State(Min(from + k, |offsets| - 1), false, None)
    decreases k
  {
    var evs := DownGestures(from, k, deltaY, offsets);
    MovesBoundedBySettles(State(from, false, None), evs, offsets);
    if k > 0 {
      var s := State(from, false, None);
      var p := Min(from + 1, |offsets| - 1);
      var rest := DownGestures(p, k - 1, deltaY, offsets);
      assert evs == [Wheel(deltaY), Scroll(offsets[p])] + rest;
      assert evs[0] == Wheel(deltaY) && evs[1..] == [Scroll(offsets[p])] + rest;
      var s1 := OnWheel(s, deltaY, offsets).next;
      assert s1 == (if from == |offsets| - 1 then s else State(p, true, Some(p)));
      var s2 := OnScroll(s1, offsets[p], offsets).next;
      assert s2 == State(p, false, None);
      assert ([Scroll(offsets[p])] + rest)[0] == Scroll(offsets[p]);
      assert ([Scroll(offsets[p])] + rest)[1..] == rest;
      DownGesturesReach(p, k - 1, deltaY, offsets);
    }
  }
}
