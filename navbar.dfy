/**
 * The navigation bar's reaction to scrolling. One global, `lastScroll`, holds
 * the previous offset; each scroll event compares the new offset with it:
 * at or above the top only the shadow changes, scrolling down hides the bar,
 * scrolling up shows it with a deeper shadow. Then `lastScroll` is updated.
 */
module Navbar {
  import opened Wrappers

  const ShadowAtTop := "0 2px 10px rgba(0,0,0,0.1)"
  const ShadowScrolledUp := "0 2px 15px rgba(0,0,0,0.15)"
  const Hidden := "translateY(-100%)"
  const Shown := "translateY(0)"

  /** The three-way decision of the scroll handler. */
  datatype ScrollAction = AtTop | ScrollingDown | ScrollingUp

  function Decide(currentScroll: int, lastScroll: int): (a: ScrollAction)
    ensures a == AtTop <==> currentScroll <= 0
    ensures a == ScrollingDown <==> 0 < currentScroll && lastScroll < currentScroll
    ensures a == ScrollingUp <==> 0 < currentScroll <= lastScroll
  {
    if currentScroll <= 0 then AtTop
    else if currentScroll > lastScroll then ScrollingDown
    else ScrollingUp
  }

  /** `lastScroll` and the two inline style properties the handler writes ("" = never set). */
  datatype NavState = NavState(lastScroll: int, transform: string, boxShadow: string)

  const Initial := NavState(0, "", "")

  /** One scroll event: the styles the decision writes, the others kept, and the new offset remembered. */
  function Step(s: NavState, currentScroll: int): (t: NavState)
    ensures t.lastScroll == currentScroll
    ensures currentScroll <= 0 ==> t.transform == s.transform && t.boxShadow == ShadowAtTop
    ensures 0 < currentScroll && s.lastScroll < currentScroll ==> t.transform == Hidden && t.boxShadow == s.boxShadow
    ensures 0 < currentScroll <= s.lastScroll ==> t.transform == Shown && t.boxShadow == ShadowScrolledUp
  {
    match Decide(currentScroll, s.lastScroll)
    case AtTop => NavState(currentScroll, s.transform, ShadowAtTop)
    case ScrollingDown => NavState(currentScroll, Hidden, s.boxShadow)
    case ScrollingUp => NavState(currentScroll, Shown, ShadowScrolledUp)
  }

  /** A sequence of scroll events handled in order. */
  function Replay(s: NavState, events: seq<int>): (t: NavState)
    ensures events == [] ==> t == s
    ensures (forall k :: 0 <= k < |events| ==> events[k] <= 0) ==> t.transform == s.transform
    ensures (forall k :: 0 <= k < |events| ==> events[k] <= 0) && events != [] ==> t.boxShadow == ShadowAtTop
  {
    if events == [] then s else Step(Replay(s, events[..|events| - 1]), events[|events| - 1])
  }

  /** The object the handler works on: the global and the navbar's style. */
  class NavbarController {
    var lastScroll: int
    var transform: string
    var boxShadow: string

    function State(): NavState
      reads this
    {
      NavState(lastScroll, transform, boxShadow)
    }

    constructor ()
      ensures State() == Initial
    {
      lastScroll, transform, boxShadow := 0, "", "";
    }

    /** The `scroll` listener, with `window.pageYOffset` passed in. */
    method OnScroll(currentScroll: int)
      modifies this
      ensures State() == Step(old(State()), currentScroll)
    {
      if currentScroll <= 0 {
        boxShadow := ShadowAtTop;
      } else if currentScroll > lastScroll {
        transform := Hidden;
      } else {
        transform := Shown;
        boxShadow := ShadowScrolledUp;
      }
      lastScroll := currentScroll;
    }

    /** Handling events one by one leaves the controller in the replayed state. */
    method OnScrollAll(events: seq<int>)
      modifies this
      ensures State() == Replay(old(State()), events)
    {
      var i := 0;
      while i < |events|
        invariant 0 <= i <= |events|
        invariant State() == Replay(old(State()), events[..i])
      {
        assert events[..i + 1][..i] == events[..i];
        OnScroll(events[i]);
        i := i + 1;
      }
      assert events[..i] == events;
    }
  }

  // ----- what a run of events leaves behind -----

  /** The offset before event k: the remembered one for the first event, else the previous event. */
  function PrevOffset(s: NavState, events: seq<int>, k: nat): int
    requires k < |events|
  {
    if k == 0 then s.lastScroll else events[k - 1]
  }

  /** `lastScroll` is always the most recent offset. */
  lemma {:induction false} RemembersLastOffset(s: NavState, events: seq<int>)
    ensures Replay(s, events).lastScroll == if events == [] then s.lastScroll else events[|events| - 1]
  {
  }

  /** The index of the last event at a positive offset: only those touch the transform. */
  function LastPositive(events: seq<int>): (r: Option<nat>)
    ensures r.Some? ==> r.value < |events| && events[r.value] > 0
    ensures r.Some? ==> forall k :: r.value < k < |events| ==> events[k] <= 0
    ensures r.None? ==> forall k :: 0 <= k < |events| ==> events[k] <= 0
  {
    if events == [] then None
    else if events[|events| - 1] > 0 then Some(|events| - 1)
    else LastPositive(events[..|events| - 1])
  }

  /**
   * The bar is hidden exactly when the last event at a positive offset moved
   * down; events at the top leave it as it was (so a jump straight to the top
   * from a hidden state keeps it hidden; see JumpToTopKeepsHidden).
   */
  lemma {:induction false} TransformFollowsLastPositive(s: NavState, events: seq<int>)
    ensures Replay(s, events).transform ==
      match LastPositive(events)
      case None => s.transform
      case Some(k) => if events[k] > PrevOffset(s, events, k) then Hidden else Shown
  {
    if events != [] {
      var init := events[..|events| - 1];
      TransformFollowsLastPositive(s, init);
      RemembersLastOffset(s, init);
      assert Replay(s, events) == Step(Replay(s, init), events[|events| - 1]);
      if events[|events| - 1] <= 0 {
        assert LastPositive(events) == LastPositive(init);
        match LastPositive(init)
        case None =>
        case Some(k) =>
          assert PrevOffset(s, events, k) == PrevOffset(s, init, k);
      }
    }
  }

  /** An event that does not move down the page at a positive offset, i.e. one that sets the shadow. */
  predicate SetsShadow(s: NavState, events: seq<int>, k: nat)
    requires k < |events|
  {
    events[k] <= 0 || events[k] <= PrevOffset(s, events, k)
  }

  /** The index of the last event that sets the shadow. */
  function LastShadowSetter(s: NavState, events: seq<int>): (r: Option<nat>)
    ensures r.Some? ==> r.value < |events| && SetsShadow(s, events, r.value)
    ensures r.Some? ==> forall k :: r.value < k < |events| ==> !SetsShadow(s, events, k)
    ensures r.None? ==> forall k :: 0 <= k < |events| ==> !SetsShadow(s, events, k)
  {
    if events == [] then None
    else if SetsShadow(s, events, |events| - 1) then Some(|events| - 1)
    else
      var init := events[..|events| - 1];
      var r := LastShadowSetter(s, init);
      assert forall k :: 0 <= k < |init| ==> (SetsShadow(s, init, k) <==> SetsShadow(s, events, k)) by {
        forall k | 0 <= k < |init| ensures PrevOffset(s, init, k) == PrevOffset(s, events, k) { }
      }
      r
  }

  /** The shadow is the one written by the last event that was not a move down at a positive offset. */
  lemma {:induction false} ShadowFollowsLastSetter(s: NavState, events: seq<int>)
    ensures Replay(s, events).boxShadow ==
      match LastShadowSetter(s, events)
      case None => s.boxShadow
      case Some(k) => if events[k] <= 0 then ShadowAtTop else ShadowScrolledUp
  {
    if events != [] {
      var init := events[..|events| - 1];
      ShadowFollowsLastSetter(s, init);
      RemembersLastOffset(s, init);
      if !SetsShadow(s, events, |events| - 1) {
        match LastShadowSetter(s, init)
        case None =>
        case Some(k) =>
          assert PrevOffset(s, events, k) == PrevOffset(s, init, k);
      }
    }
  }

  /** From the initial state, scrolling down to 100 then jumping straight to 0 leaves the bar hidden. */
  lemma JumpToTopKeepsHidden()
    ensures Replay(Initial, [100, 0]).transform == Hidden
    ensures Replay(Initial, [100, 0]).boxShadow == ShadowAtTop
  {
    assert [100, 0][..1] == [100];
    assert [100][..0] == [];
  }
}
