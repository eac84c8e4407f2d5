// The clock by itself: it knows of every frame whether it is in use, how often it is pinned and whether its reference
// bit is set, and nothing of pages. What a frame is used for reaches it as events.
module ClockMachine {
  import opened Types
  import opened Clock

  datatype Mark = Mark(valid: bool, pins: nat, bit: bool) {
    predicate Idle() {
      !valid || (!bit && pins == 0)
    }

    predicate Evictable() {
      !valid || pins == 0
    }
  }

  const FREE: Mark := Mark(false, 0, false)

  datatype ClockState = ClockState(hand: nat, marks: seq<Mark>) {
    ghost predicate AnyIdle() {
      exists i | 0 <= i < |marks| :: marks[i].Idle()
    }

    ghost predicate AllPinned() {
      forall i | 0 <= i < |marks| :: !marks[i].Evictable()
    }

    // A frame that may be taken, in this state of affairs.
    ghost predicate Takeable(i: FrameId)
      requires i < |marks|
    {
      if AnyIdle() then marks[i].Idle() else marks[i].Evictable()
    }

    // The first one that the hand comes to.
    ghost predicate IsVictim(v: FrameId) {
      && hand < |marks| && v < |marks| && Takeable(v)
      && forall i | 0 <= i < |marks| && Takeable(i) :: StepsTo(hand, v, |marks|) <= StepsTo(hand, i, |marks|)
    }

    // Whether the hand, on its way to frame v, passes frame i. Without an idle frame it goes around once before.
    ghost predicate Passes(v: FrameId, i: FrameId) {
      && hand < |marks| && v < |marks| && i < |marks|
      && (!AnyIdle() || StepsTo(hand, i, |marks|) < StepsTo(hand, v, |marks|))
    }
  }

  // A page is found in a frame; a page is not cached, and is or is not found in its file; a pin is given back; frames
  // are emptied.
  datatype Event =
    | Hit(frame: FrameId) | Miss(found: bool) | Release(frame: FrameId) | Clear(frames: set<FrameId>) | Nothing

  // What an event does, and the frame that is handed out, if any.
  ghost predicate ClockStep(c: ClockState, e: Event, d: ClockState, handed: Option<FrameId>) {
    |d.marks| == |c.marks| &&
    match e
    case Hit(i) =>
      && i < |c.marks| && c.marks[i].valid && handed == Some(i) && d.hand == c.hand
      && d.marks == c.marks[i := c.marks[i].(pins := c.marks[i].pins + 1, bit := true)]
    case Miss(found) =>
      if c.AllPinned() then
        && handed == None && d.hand == c.hand
        && forall i | 0 <= i < |c.marks| :: d.marks[i] == c.marks[i].(bit := false)
      else
        && c.IsVictim(d.hand) && handed == (if found then Some(d.hand) else None)
        && forall i | 0 <= i < |c.marks| ::
             d.marks[i] == if i == d.hand then (if found then Mark(true, 1, true) else FREE)
                           else if c.Passes(d.hand, i) then c.marks[i].(bit := false)
                           else c.marks[i]
    case Release(i) =>
      && i < |c.marks| && c.marks[i].pins > 0 && handed == None && d.hand == c.hand
      && d.marks == c.marks[i := c.marks[i].(pins := c.marks[i].pins - 1)]
    case Clear(frames) =>
      && handed == None && d.hand == c.hand
      && forall i | 0 <= i < |c.marks| :: d.marks[i] == if i in frames then FREE else c.marks[i]
    case Nothing => handed == None && d == c
  }

  // The machine has no choice.
  lemma StepDetermined(c: ClockState, e: Event, d: ClockState, handed: Option<FrameId>, d': ClockState,
                       handed': Option<FrameId>)
    requires ClockStep(c, e, d, handed) && ClockStep(c, e, d', handed')
    ensures d' == d && handed' == handed
  {
    if e.Miss? && !c.AllPinned() {
      assert FrameAt(c.hand, StepsTo(c.hand, d.hand, |c.marks|), |c.marks|) == d.hand;
      assert StepsTo(c.hand, d.hand, |c.marks|) == StepsTo(c.hand, d'.hand, |c.marks|);
    }
    assert d'.marks == d.marks;
  }

  // ----- runs -----

  ghost predicate Trace(states: seq<ClockState>, events: seq<Event>, handed: seq<Option<FrameId>>) {
    && |states| == |events| + 1 && |handed| == |events|
    && forall k | 0 <= k < |events| :: ClockStep(states[k], events[k], states[k + 1], handed[k])
  }

  // What it hands out over a whole run is determined by the events.
  lemma {:induction false} TraceDetermined(states: seq<ClockState>, states': seq<ClockState>, events: seq<Event>,
                                           handed: seq<Option<FrameId>>, handed': seq<Option<FrameId>>)
    requires Trace(states, events, handed) && Trace(states', events, handed') && states'[0] == states[0]
    ensures states' == states && handed' == handed
  {
    hide ClockStep;
    for k := 0 to |events|
      invariant forall j | 0 <= j <= k :: states'[j] == states[j]
      invariant forall j | 0 <= j < k :: handed'[j] == handed[j]
    {
      StepDetermined(states[k], events[k], states[k + 1], handed[k], states'[k + 1], handed'[k]);
    }
  }

  // The hand passes frame i or stops on it, or the frame is emptied.
  ghost predicate Reaches(c: ClockState, e: Event, d: ClockState, i: FrameId) {
    match e
    case Miss(_) => c.AllPinned() || c.Passes(d.hand, i) || d.hand == i
    case Clear(frames) => i in frames
    case _ => false
  }

  // A frame that has been handed out keeps its reference bit until the hand reaches it.
  lemma {:induction false} BitKept(states: seq<ClockState>, events: seq<Event>, handed: seq<Option<FrameId>>, j: nat,
                                   k: nat, i: FrameId)
    requires Trace(states, events, handed) && j < k <= |events| && handed[j] == Some(i)
    requires forall t | j < t < k :: !Reaches(states[t], events[t], states[t + 1], i)
    ensures i < |states[k].marks| && states[k].marks[i].valid && states[k].marks[i].bit
    decreases k
  {
    assert ClockStep(states[k - 1], events[k - 1], states[k], handed[k - 1]);
    if k - 1 > j {
      BitKept(states, events, handed, j, k - 1, i);
    }
  }

  // Second chance: a frame handed out since the hand last reached it is not taken while another one is free or idle.
  lemma SecondChance(states: seq<ClockState>, events: seq<Event>, handed: seq<Option<FrameId>>, j: nat, k: nat,
                     i: FrameId)
    requires Trace(states, events, handed) && j < k < |events| && handed[j] == Some(i)
    requires forall t | j < t < k :: !Reaches(states[t], events[t], states[t + 1], i)
    requires events[k].Miss? && states[k].AnyIdle()
    ensures states[k + 1].hand != i
  {
    BitKept(states, events, handed, j, k, i);
    assert ClockStep(states[k], events[k], states[k + 1], handed[k]);
  }

  // While the frame after the hand is free it is the next to be taken, and nothing else changes: a new pool is filled
  // from its first frame to its last.
  lemma NextFreeIsTaken(c: ClockState, d: ClockState, handed: Option<FrameId>)
    requires c.hand < |c.marks| && ClockStep(c, Miss(true), d, handed)
    requires !c.marks[FrameAt(c.hand, 0, |c.marks|)].valid
    ensures var v := FrameAt(c.hand, 0, |c.marks|);
            handed == Some(v) && d == ClockState(v, c.marks[v := Mark(true, 1, true)])
  {
    var v := FrameAt(c.hand, 0, |c.marks|);
    assert c.marks[v].Idle() && StepsTo(c.hand, v, |c.marks|) == 0;
    assert FrameAt(c.hand, StepsTo(c.hand, d.hand, |c.marks|), |c.marks|) == d.hand;
    assert d.marks == c.marks[v := Mark(true, 1, true)];
  }

  lemma {:induction false} FillsInOrder(states: seq<ClockState>, events: seq<Event>, handed: seq<Option<FrameId>>,
                                        n: nat)
    requires n > 0 && Trace(states, events, handed) && |events| <= n
    requires states[0] == ClockState(n - 1, seq(n, _ => FREE)) && forall k | 0 <= k < |events| ::
                                                                    events[k] == Miss(true)
    ensures forall k | 0 <= k < |events| :: handed[k] == Some(k)
  {
    hide ClockStep;
    for k := 0 to |events|
      invariant states[k].hand == (if k == 0 then n - 1 else k - 1) && |states[k].marks| == n
      invariant forall i | k <= i < n :: states[k].marks[i] == FREE
      invariant forall j | 0 <= j < k :: handed[j] == Some(j)
    {
      assert ClockStep(states[k], events[k], states[k + 1], handed[k]);
      NextFreeIsTaken(states[k], states[k + 1], handed[k]);
    }
  }
}
