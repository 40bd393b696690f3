/** Navigation state of the full-viewport paged-scroll controller and the way each
    input event transforms it. The page offsets are given numbers (the `offsetTop`
    of each page element, in page order); a scroll request is recorded as a value
    instead of being carried out. */
module PageNav {

  datatype Option<T> = None | Some(value: T)

  /** A `scrollTo` request sent to the scroll container: the target offset and
      whether the browser animates the movement. */
  datatype ScrollCommand = ScrollTo(top: real, smooth: bool)

  /** What the handlers read and write: the current page index, the scroll lock
      (`isScrolling`), and the page whose settle watcher is installed, if any. */
  datatype State = State(page: int, lock: bool, watch: Option<int>)

  /** The outcome of one event: the new state and the scroll request it issued. */
  datatype Step = Step(next: State, command: Option<ScrollCommand>)

  /** The inputs the controller reacts to. `Scroll` reports the container's live
      scroll position, which the browser's animation moves. */
  datatype Event = Wheel(deltaY: real) | Scroll(pos: real) | PointClick(target: int) | Resize

  const Initial: State := State(0, false, None)

  function Min(a: int, b: int): int { if a <= b then a else b }

  function Max(a: int, b: int): int { if a >= b then a else b }

  function Abs(x: real): real { if x < 0.0 then -x else x }

  function Sign(x: real): int { if x > 0.0 then 1 else if x < 0.0 then -1 else 0 }

  /** `x` forced into the range [lo, hi]. */
  function Clamp(x: int, lo: int, hi: int): (r: int)
    requires lo <= hi
    ensures lo <= r <= hi
    ensures lo <= x <= hi ==> r == x
  {
    if x < lo then lo else if x > hi then hi else x
  }

  /** The controller invariant for a page set of `pages` pages: the index is a
      valid page, the lock is held exactly while a settle watcher is installed
      (so watchers never accumulate), and a watcher targets a valid page. */
  predicate Inv(s: State, pages: nat)
  {
    0 <= s.page < pages &&
    (s.lock <==> s.watch.Some?) &&
    (s.watch.Some? ==> 0 <= s.watch.value < pages)
  }

  /** The first guard of the wheel handler: a step below the first page or past
      the last page. */
  predicate AtBoundary(page: int, deltaY: real, maxPage: int)
  {
    (deltaY > 0.0 && page == maxPage) || (deltaY < 0.0 && page == 0)
  }

  /** The page a wheel step aims at: one page in the direction of the wheel,
      kept inside the page set. */
  function NextPage(page: int, deltaY: real, maxPage: int): (r: int)
    requires 0 <= page <= maxPage
    ensures r == Clamp(page + Sign(deltaY), 0, maxPage)
    ensures !AtBoundary(page, deltaY, maxPage) ==> r == page + Sign(deltaY)
  {
    if deltaY > 0.0 then Min(page + 1, maxPage)
    else if deltaY < 0.0 then Max(page - 1, 0)
    else page
  }

  /** The settle test: the live position is strictly within one unit of the target. */
  function Settled(scrollTop: real, target: real): (r: bool)
    ensures r <==> Abs(scrollTop - target) < 1.0
  {
    scrollTop - 1.0 < target && target < scrollTop + 1.0
  }

  /** A wheel event. Ignored at the boundaries and while the lock is held;
      otherwise it moves one page, takes the lock, installs a watcher for the new
      page and asks for a smooth scroll to that page's offset. */
  function OnWheel(s: State, deltaY: real, offsets: seq<real>): (r: Step)
    requires Inv(s, |offsets|)
    ensures Inv(r.next, |offsets|)
    ensures AtBoundary(s.page, deltaY, |offsets| - 1) || s.lock ==> r == Step(s, None)
    ensures !(AtBoundary(s.page, deltaY, |offsets| - 1) || s.lock) ==>
      r.next.page == Clamp(s.page + Sign(deltaY), 0, |offsets| - 1) &&
      r.next.lock && r.next.watch == Some(r.next.page) &&
      r.command == Some(ScrollTo(offsets[r.next.page], true))
    ensures r.command.Some? <==> r.next != s
    ensures -1 <= r.next.page - s.page <= 1
  {
    var maxPage := |offsets| - 1;
    if AtBoundary(s.page, deltaY, maxPage) || s.lock then Step(s, None)
    else
      var p := NextPage(s.page, deltaY, maxPage);
      Step(State(p, true, Some(p)), Some(ScrollTo(offsets[p], true)))
  }

  /** A scroll event at live position `pos`, seen by the installed settle watcher
      (if any). The watcher releases the lock and removes itself once the position
      has settled on its page's offset; the page index never changes. */
  function OnScroll(s: State, pos: real, offsets: seq<real>): (r: Step)
    requires Inv(s, |offsets|)
    ensures Inv(r.next, |offsets|)
    ensures r.command == None && r.next.page == s.page
    ensures r.next != s <==> s.lock && Settled(pos, offsets[s.watch.value])
    ensures r.next != s ==> !r.next.lock && r.next.watch == None
    ensures s.watch.Some? && pos == offsets[s.watch.value] ==> !r.next.lock
  {
    match s.watch
    case Some(p) =>
      if Settled(pos, offsets[p]) then Step(State(s.page, false, None), None) else Step(s, None)
    case None => Step(s, None)
  }

  /** A click on navigation dot `k`: jumps straight to page `k` with a smooth
      scroll, whatever the lock; the lock and any installed watcher are left as
      they were. */
  function OnPointClick(s: State, k: int, offsets: seq<real>): (r: Step)
    requires Inv(s, |offsets|) && 0 <= k < |offsets|
    ensures Inv(r.next, |offsets|)
    ensures r.next.page == k && r.next.lock == s.lock && r.next.watch == s.watch
    ensures r.command == Some(ScrollTo(offsets[k], true))
  {
    Step(s.(page := k), Some(ScrollTo(offsets[k], true)))
  }

  /** A window resize: re-asserts the current page's offset with an immediate
      (non-animated) scroll and changes no state. */
  function OnResize(s: State, offsets: seq<real>): (r: Step)
    requires Inv(s, |offsets|)
    ensures r.next == s
    ensures r.command == Some(ScrollTo(offsets[s.page], false))
  {
    Step(s, Some(ScrollTo(offsets[s.page], false)))
  }

  /** The scroll requests a step adds to the container's request log. */
  function Issued(c: Option<ScrollCommand>): seq<ScrollCommand>
  {
    if c.Some? then [c.value] else []
  }

  /** The per-page flag `isCurrentPage` handed to each page, and equally the
      highlight of each navigation dot: true exactly for the current index. */
  function ActiveFlags(page: int, count: nat): (flags: seq<bool>)
    ensures |flags| == count
    ensures forall k :: 0 <= k < count ==> (flags[k] <==> k == page)
  {
    seq(count, k => k == page)
  }

  /** The number of true flags. */
  function CountTrue(flags: seq<bool>): nat
  {
    if flags == [] then 0
    else CountTrue(flags[..|flags| - 1]) + (if flags[|flags| - 1] then 1 else 0)
  }

  /** Exactly one page is active (and one dot highlighted) when the index is a
      valid page, and none otherwise. */
  lemma {:induction false} ExactlyOneActive(page: int, count: nat)
    ensures CountTrue(ActiveFlags(page, count)) == if 0 <= page < count then 1 else 0
  {
    if count > 0 {
      var flags := ActiveFlags(page, count);
      assert flags[..count - 1] == ActiveFlags(page, count - 1);
      ExactlyOneActive(page, count - 1);
    }
  }
}
