# Paged-scroll controller: a Dafny model of `FullScrollPage`

`FullScrollPage` shows N child pages stacked in a full-viewport container and
turns scrolling into page-by-page navigation:

- A wheel event moves at most one page. It takes a scroll lock and asks the
  container for a smooth scroll to that page's stored offset.
- A settle watcher releases the lock once the live scroll position lies
  strictly within one unit of the target offset.
- A navigation dot jumps straight to its page and ignores the lock.
- A window resize re-asserts the current page's offset without animating.

The project has three modules:

- `PageNav` (`page_nav.dfy`) holds the navigation state: the page index, the
  lock, and the page the installed settle watcher targets. It gives one
  transition function per event and the controller invariant `Inv`. `Inv`
  says the index is a valid page and the lock is held exactly while a watcher
  is installed, so watchers never pile up. It also defines the rule that
  exactly one page is current.
- `Traces` (`traces.dfy`) runs the controller over event sequences. It proves:
  - without dot clicks, the page index changes at most once per detected
    settle, plus once when the run starts unlocked;
  - wheel input during an animation is dropped, not queued;
  - settled downward gestures reach the last page and then stay there.
- `FullPage` (`full_page.dfy`) holds the class `FullScrollPage`. Its fields
  have the component's names (`pageRefs`, `currentPageNum`, `isScrolling`).
  Its handler methods update those fields in place. Each method's `ensures`
  ties the new state, and the scroll requests it logged, to the `PageNav`
  transition of the old state.

Page offsets are given numbers. A scroll request is recorded in `scrollLog`
and not carried out. The browser's smooth-scroll animation is the environment:
it reports positions through `HandleScrollEnd`, and any sequence of positions
may arrive.

Behaviour of the code that the model keeps as written:

- The handlers read registry entries without a guard
  (`full-page.tsx:30`, `:54`, `:60`, `:84`), so every handler requires
  `Ready()`: the registry holds exactly one entry per page.
- The re-registration pass of the registry refresh (`full-page.tsx:18-23`)
  never writes, because an element read from the registry is always included
  in it. `RefreshRegistry` models that pass and proves it leaves the truncated
  registry unchanged.
- A zero wheel delta is not a no-op. The handler still takes the lock,
  installs a watcher for the current page and requests a scroll to that
  page's offset.
- The wheel handler takes the last page from the registry length
  (`pageRefs.length - 1`), not from the number of children. Under `Ready()` the
  two agree.

## Model

| member | source | states |
|---|---|---|
| `PageNav.NextPage` | src/components/full-page.tsx:45-50 | the wheel target is `clamp(index + sign(deltaY), 0, N-1)`; away from the boundary it is exactly one step in the wheel's direction (no step for a zero delta) |
| `PageNav.Settled` | src/components/full-page.tsx:61-63 | the settle test holds exactly when the live position is strictly less than one unit away from the target offset |
| `PageNav.OnWheel` | src/components/full-page.tsx:34-73 | at the boundary, or while the lock is held, nothing changes and no scroll is requested; otherwise the index moves to the clamped next page, the lock is taken, a watcher for that page is installed and a smooth scroll to its offset is requested; a scroll is requested exactly when the state changes; the index moves by at most one; the invariant is kept |
| `PageNav.OnScroll` | src/components/full-page.tsx:58-68 | a scroll event never changes the index or requests a scroll; it changes the state exactly when the lock is held and the position has settled on the watched page's offset, and then it releases the lock and removes the watcher; reaching the exact target always releases |
| `PageNav.OnPointClick` | src/components/full-page.tsx:26-33 | a dot click sets the index to the clicked page whatever the lock, leaves the lock and watcher as they were, requests a smooth scroll to the page's offset, and keeps the invariant |
| `PageNav.OnResize` | src/components/full-page.tsx:82-86 | a resize leaves the index, lock and watcher unchanged and requests a non-animated scroll to the current page's offset |
| `PageNav.ActiveFlags` | src/components/full-page.tsx:107-109 | page `k` receives `isCurrentPage` exactly when `k` is the current index |
| `PageNav.ExactlyOneActive` | src/components/full-page.tsx:113-121 | exactly one flag is set (one page current, one dot highlighted) when the index is a valid page, none otherwise |
| `Traces.Apply` | src/components/full-page.tsx:26-86 | dispatching any event a page set can receive to its handler keeps the controller invariant |
| `Traces.Run` | src/components/full-page.tsx:26-86 | after any run of events from a state that satisfies the controller invariant, the invariant still holds: the index lies in [0, N-1] and the lock is held exactly while one watcher is installed |
| `Traces.MovesBoundedBySettles` | src/components/full-page.tsx:43-72 | over any run of wheel, scroll and resize events, the number of index changes is at most the number of detected settles plus one, and no more than the settles when the run starts locked |
| `Traces.WheelDroppedWhileLocked` | src/components/full-page.tsx:43 | while the lock is held, any number of wheel events leaves the state exactly as it was |
| `Traces.DownGestures` | src/components/full-page.tsx:37-49 | the event run that `DownGesturesReach` is about: k downward wheel gestures, each followed by the animation reaching its target; it has 2k events and no dot click |
| `Traces.DownGesturesReach` | src/components/full-page.tsx:37-49 | from page `from`, unlocked, k settled downward gestures end on page `min(from + k, N-1)` with the lock released, so N-1 gestures from page 0 reach the last page and more leave it there |
| `FullPage.Store` | src/components/full-page.tsx:100-104 | writing slot `i` of the registry sets that slot and no other; a write past the end grows the registry to `i + 1` slots with empty slots between |
| `FullPage.FullScrollPage.Mount` | src/components/full-page.tsx:7-24 | after mounting, the index is 0, the lock is released, no watcher is installed, nothing has been scrolled, and every page's offset is registered in page order |
| `FullPage.FullScrollPage.AttachPage` | src/components/full-page.tsx:100-104 | a page element's ref callback writes its offset at its own index, ignores a detached element, changes nothing else, and never grows the registry past N slots when it had at most N |
| `FullPage.FullScrollPage.RefreshRegistry` | src/components/full-page.tsx:15-24 | the registry is truncated to at most N entries and otherwise unchanged; the navigation state and scroll log are untouched |
| `FullPage.FullScrollPage.HandleWheel` | src/components/full-page.tsx:34-73 | the new navigation state and logged scroll request are those of `OnWheel` on the old state; the registry and live position are untouched; the invariant is kept |
| `FullPage.FullScrollPage.HandleScrollEnd` | src/components/full-page.tsx:58-68 | the live position becomes the reported one, and the navigation state is that of `OnScroll`; no scroll is requested |
| `FullPage.FullScrollPage.HandlePointClick` | src/components/full-page.tsx:26-33 | the new state and logged request are those of `OnPointClick`: index set to the clicked page, lock and watcher untouched |
| `FullPage.FullScrollPage.HandleResize` | src/components/full-page.tsx:82-86 | the state is unchanged and the logged request is a non-animated scroll to the current page's offset |
| `FullPage.FullScrollPage.ActivePages` | src/components/full-page.tsx:97-110 | the rendered pages receive one flag each, and exactly one of them, the current page's, is set |
| `FullPage.ThreePageDescent` | src/components/full-page.tsx:34-73 | with three pages: a wheel step moves to page 1; input during the animation is dropped; the lock is released only within one unit of page 1's offset; a second step reaches page 2 and a third is ignored |
| `FullPage.ClickDuringAnimation` | src/components/full-page.tsx:26-68 | a dot click during a wheel animation moves the index but leaves the watcher on the wheel's target, so settling on the clicked page keeps the lock and further wheel input is dropped |

## Left out

- The container reference's null checks (`full-page.tsx:27`, the `?.` calls at `:53`, `:59`, `:66`, `:70`, `:78`, `:83`): the model assumes the container is mounted. Wheel and scroll events come from the container itself, and clicks and resizes arrive only while it is rendered.
- Attaching and detaching listeners in effects (`full-page.tsx:75-80`, `:88-93`): this is React lifecycle plumbing. Handlers are methods that read the current fields. The model therefore does not capture the window between a state update and the re-binding of `handleWheel`, in which a second wheel event could still see the old `isScrolling`.
- The browser's smooth-scroll animation, `scrollTo` itself, `offsetTop` measurement and `cloneElement`: offsets are given numbers, scroll requests are logged values, and scroll positions are arbitrary environment input.
- Real numbers stand for the script's floating-point numbers. Rounding is not modelled.
- Pages with no children: every handler requires at least one page. With none, a downward wheel step would read registry index -1.
- The handlers require a complete registry (`Ready()`), because the code reads entries without a guard. What the code does when an entry is missing (a script error) is not modelled.
- `character-info/character-info-page.tsx` and `character-info/transform-name.tsx` are not part of this model: they hold static data tables and presentational rendering without control logic.
- CSS classes, animation timings and images are cosmetic.
