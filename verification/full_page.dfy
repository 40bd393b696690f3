/** The `FullScrollPage` component as an object whose handlers update its fields
    in place. The browser is represented by two fields: the live scroll position,
    which only the environment moves (through `HandleScrollEnd`), and the log of
    `scrollTo` requests the handlers have sent to the container. */
module FullPage {
  import opened PageNav

  /** The offsets of a registry whose every slot holds a page, in page order. */
  function Values(slots: seq<Option<real>>): (offsets: seq<real>)
    requires forall k :: 0 <= k < |slots| ==> slots[k].Some?
    ensures |offsets| == |slots|
    ensures forall k :: 0 <= k < |slots| ==> slots[k] == Some(offsets[k])
  {
    seq(|slots|, k requires 0 <= k < |slots| => slots[k].value)
  }

  /** Writing element `i` of a script array: an existing slot is overwritten, a
      write past the end grows the array to `i + 1` slots, leaving empty slots in
      between. */
  function Store(slots: seq<Option<real>>, i: nat, v: real): (r: seq<Option<real>>)
    ensures |r| == Max(|slots|, i + 1)
    ensures r[i] == Some(v)
    ensures forall k :: 0 <= k < |r| && k != i ==> r[k] == (if k < |slots| then slots[k] else None)
  {
    if i < |slots| then slots[i := Some(v)]
    else slots + seq(i - |slots|, _ => None) + [Some(v)]
  }

  class FullScrollPage {
    /** The number of child pages; fixed for the component's lifetime. */
    const pages: nat
    /** The page-element registry: the offset of each registered page element,
        `None` for a slot no element has been written to. */
    var pageRefs: seq<Option<real>>
    var currentPageNum: int
    var isScrolling: bool
    /** The page whose settle watcher is listening to scroll events, if any. */
    var scrollWatch: Option<int>
    /** The container's live scroll position. */
    var scrollTop: real
    /** Every `scrollTo` request sent to the container, oldest first. */
    var scrollLog: seq<ScrollCommand>

    function NavState(): State
      reads this
    {
      State(currentPageNum, isScrolling, scrollWatch)
    }

    ghost predicate Valid()
      reads this
    {
      Inv(NavState(), pages)
    }

    /** Every page has registered its element, and nothing else has. */
    ghost predicate Ready()
      reads this
    {
      |pageRefs| == pages && forall k :: 0 <= k < pages ==> pageRefs[k].Some?
    }

    ghost function Offsets(): (offsets: seq<real>)
      reads this
      requires Ready()
      ensures |offsets| == pages
    {
      Values(pageRefs)
    }

    /** Mounting: the state starts at page 0 with the lock released, each page
        element registers itself in page order, then the registry refresh runs. */
    constructor Mount(offsets: seq<real>)
      requires |offsets| >= 1
      ensures pages == |offsets| && Valid() && Ready() && Offsets() == offsets
      ensures NavState() == Initial && scrollLog == [] && scrollTop == 0.0
    {
      pages := |offsets|;
      pageRefs := [];
      currentPageNum := 0;
      isScrolling := false;
      scrollWatch := None;
      scrollTop := 0.0;
      scrollLog := [];
      new;
      var i := 0;
      while i < pages
        invariant 0 <= i <= pages
        invariant |pageRefs| == i
        invariant forall k :: 0 <= k < i ==> pageRefs[k] == Some(offsets[k])
        invariant NavState() == Initial && scrollLog == [] && scrollTop == 0.0
      {
        AttachPage(i, Some(offsets[i]));
        i := i + 1;
      }
      RefreshRegistry();
    }

    /** The ref callback of page `index`: a mounted element is written into the
        registry at its index; a detached element (`None`) is ignored. */
    method AttachPage(index: nat, el: Option<real>)
      requires index < pages
      modifies this
      ensures pageRefs == if el.Some? then Store(old(pageRefs), index, el.value) else old(pageRefs)
      ensures NavState() == old(NavState()) && scrollLog == old(scrollLog) && scrollTop == old(scrollTop)
      ensures |pageRefs| <= Max(|old(pageRefs)|, pages)
    {
      if el.Some? {
        pageRefs := Store(pageRefs, index, el.value);
      }
    }

    /** The registry refresh: the registry is cut down to one slot per page, then
        each page's slot is re-registered unless the element already appears in
        the registry, which an element read from the registry always does, so
        that pass never writes. */
    method RefreshRegistry()
      modifies this
      ensures pageRefs == old(pageRefs)[..Min(|old(pageRefs)|, pages)]
      ensures |pageRefs| <= pages
      ensures NavState() == old(NavState()) && scrollLog == old(scrollLog) && scrollTop == old(scrollTop)
    {
      pageRefs := pageRefs[..Min(|pageRefs|, pages)];
      ghost var cut := pageRefs;
      var index := 0;
      while index < pages
        invariant 0 <= index <= pages
        invariant pageRefs == cut
        invariant NavState() == old(NavState()) && scrollLog == old(scrollLog) && scrollTop == old(scrollTop)
      {
        var pageRef := if index < |pageRefs| then pageRefs[index] else None;
        if pageRef.Some? && pageRef !in pageRefs {
          pageRefs := Store(pageRefs, index, pageRef.value);
        }
        index := index + 1;
      }
    }

    /** The wheel handler. */
    method HandleWheel(deltaY: real)
      requires Valid() && Ready()
      modifies this
      ensures Valid() && Ready() && pageRefs == old(pageRefs) && scrollTop == old(scrollTop)
      ensures var step := OnWheel(old(NavState()), deltaY, Offsets());
        NavState() == step.next && scrollLog == old(scrollLog) + Issued(step.command)
    {
      var maxPage := |pageRefs| - 1;
      var minPage := 0;
      if (deltaY > 0.0 && currentPageNum == maxPage) || (deltaY < 0.0 && currentPageNum == minPage) {
        return;
      }
      if isScrolling {
        return;
      }
      var nextPage := currentPageNum;
      if deltaY > 0.0 {
        nextPage := Min(currentPageNum + 1, maxPage);
      } else if deltaY < 0.0 {
        nextPage := Max(currentPageNum - 1, minPage);
      }
      isScrolling := true;
      scrollLog := scrollLog + [ScrollTo(pageRefs[nextPage].value, true)];
      scrollWatch := Some(nextPage);
      currentPageNum := nextPage;
    }

    /** A scroll event at live position `pos`: the container's position moves,
        and the installed settle watcher, if any, releases the lock and removes
        itself once the position is within one unit of its page's offset. */
    method HandleScrollEnd(pos: real)
      requires Valid() && Ready()
      modifies this
      ensures Valid() && Ready() && pageRefs == old(pageRefs) && scrollLog == old(scrollLog)
      ensures scrollTop == pos
      ensures NavState() == OnScroll(old(NavState()), pos, Offsets()).next
    {
      scrollTop := pos;
      if scrollWatch.Some? {
        var targetScrollTop := pageRefs[scrollWatch.value].value;
        if Settled(scrollTop, targetScrollTop) {
          isScrolling := false;
          scrollWatch := None;
        }
      }
    }

    /** The navigation-dot handler for dot `pageNum`. */
    method HandlePointClick(pageNum: int)
      requires Valid() && Ready() && 0 <= pageNum < pages
      modifies this
      ensures Valid() && Ready() && pageRefs == old(pageRefs) && scrollTop == old(scrollTop)
      ensures var step := OnPointClick(old(NavState()), pageNum, Offsets());
        NavState() == step.next && scrollLog == old(scrollLog) + Issued(step.command)
    {
      currentPageNum := pageNum;
      scrollLog := scrollLog + [ScrollTo(pageRefs[pageNum].value, true)];
    }

    /** The window-resize handler. */
    method HandleResize()
      requires Valid() && Ready()
      modifies this
      ensures Valid() && Ready() && pageRefs == old(pageRefs) && scrollTop == old(scrollTop)
      ensures var step := OnResize(old(NavState()), Offsets());
        NavState() == step.next && scrollLog == old(scrollLog) + Issued(step.command)
    {
      scrollLog := scrollLog + [ScrollTo(pageRefs[currentPageNum].value, false)];
    }

    /** The `isCurrentPage` flag handed to each page in order (and the highlight
        of each navigation dot): exactly one, the current page's, is set. */
    function ActivePages(): (flags: seq<bool>)
      reads this
      requires Valid()
      ensures |flags| == pages && CountTrue(flags) == 1 && flags[currentPageNum]
    {
      ExactlyOneActive(currentPageNum, pages);
      ActiveFlags(currentPageNum, pages)
    }
  }

  /** Three pages: two downward wheel gestures, each settled, reach the last
      page; a third is ignored at the boundary. */
  method ThreePageDescent() returns (p: FullScrollPage)
    ensures fresh(p) && p.Valid()
    ensures p.currentPageNum == 2 && !p.isScrolling
    ensures p.scrollLog == [ScrollTo(900.0, true), ScrollTo(1800.0, true)]
  {
    p := new FullScrollPage.Mount([0.0, 900.0, 1800.0]);
    p.HandleWheel(120.0);
    assert p.currentPageNum == 1 && p.isScrolling && p.scrollLog == [ScrollTo(900.0, true)];
    p.HandleWheel(-120.0);
    assert p.currentPageNum == 1;
    p.HandleScrollEnd(450.0);
    assert p.isScrolling;
    p.HandleScrollEnd(899.5);
    assert !p.isScrolling;
    p.HandleWheel(120.0);
    assert p.currentPageNum == 2;
    p.HandleScrollEnd(1800.0);
    p.HandleWheel(120.0);
  }

  /** A dot click during a wheel animation moves the index but leaves the wheel's
      watcher on its old target, so settling on the clicked page does not release
      the lock and further wheel input stays blocked. */
  method ClickDuringAnimation() returns (p: FullScrollPage)
    ensures fresh(p) && p.Valid()
    ensures p.currentPageNum == 2 && p.isScrolling && p.scrollWatch == Some(1)
  {
    p := new FullScrollPage.Mount([0.0, 900.0, 1800.0]);
    p.HandleWheel(120.0);
    p.HandlePointClick(2);
    assert p.isScrolling && p.scrollWatch == Some(1);
    p.HandleScrollEnd(1800.0);
    p.HandleWheel(-120.0);
  }
}
