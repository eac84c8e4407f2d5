// Buffer frame descriptors and the choice of a victim by the clock (buffer.h, BufMgr::allocBuf).
module Clock {
  import opened Types

  datatype BufDesc = BufDesc(file: FileId, page: PageId, pinCnt: nat, dirty: bool, valid: bool, refbit: bool) {
    // A frame the first sweep takes: free, or neither referenced nor pinned.
    predicate Idle() {
      !valid || (!refbit && pinCnt == 0)
    }

    // A frame some sweep can take.
    predicate Evictable() {
      !valid || pinCnt == 0
    }
  }

  // BufDesc::Clear and BufDesc::Set.
  const CLEARED: BufDesc := BufDesc(0, INVALID_NUMBER, 0, false, false, false)

  function Loaded(file: FileId, page: PageId): BufDesc {
    BufDesc(file, page, 1, false, true, true)
  }

  // The frame the hand points to after k + 1 advances.
  function FrameAt(hand: nat, k: nat, n: nat): (i: nat)
    requires hand < n && k < n
    ensures i < n
  {
    if hand + 1 + k < n then hand + 1 + k else hand + 1 + k - n
  }

  // How many frames the hand passes before it comes to frame i.
  function StepsTo(hand: nat, i: nat, n: nat): (k: nat)
    requires hand < n && i < n
    ensures k < n && FrameAt(hand, k, n) == i
    ensures forall j | 0 <= j < n && FrameAt(hand, j, n) == i :: j == k
  {
    if i > hand then i - hand - 1 else i + n - hand - 1
  }

  predicate Takes(desc: BufDesc, second: bool) {
    if second then desc.Evictable() else desc.Idle()
  }

  // The first step, from step k on, at which the sweep finds a frame to take; the number of frames if none.
  function FirstTaken(descs: seq<BufDesc>, hand: nat, second: bool, k: nat): (step: nat)
    requires hand < |descs| && k <= |descs|
    ensures k <= step <= |descs|
    ensures forall j | k <= j < step :: !Takes(descs[FrameAt(hand, j, |descs|)], second)
    ensures step < |descs| ==> Takes(descs[FrameAt(hand, step, |descs|)], second)
    decreases |descs| - k
  {
    if k == |descs| || Takes(descs[FrameAt(hand, k, |descs|)], second) then k
    else FirstTaken(descs, hand, second, k + 1)
  }

  // Clears the reference bits of the first k frames after the hand.
  function ClearedTo(descs: seq<BufDesc>, hand: nat, k: nat): (cleared: seq<BufDesc>)
    requires hand < |descs|
    ensures |cleared| == |descs|
  {
    seq(|descs|, i requires 0 <= i < |descs| =>
      if StepsTo(hand, i, |descs|) < k then descs[i].(refbit := false) else descs[i])
  }

  // The victim, if any, and the descriptors with the reference bits as the sweeps leave them.
  datatype Choice = Choice(victim: Option<FrameId>, descs: seq<BufDesc>)

  function Choose(descs: seq<BufDesc>, hand: nat): (c: Choice)
    requires descs != [] ==> hand < |descs|
    ensures |c.descs| == |descs|
    ensures c.victim.Some? ==> c.victim.value < |descs|
  {
    if descs == [] then Choice(None, descs)
    else
      var n := |descs|;
      var first, second := FirstTaken(descs, hand, false, 0), FirstTaken(descs, hand, true, 0);
      if first < n then Choice(Some(FrameAt(hand, first, n)), ClearedTo(descs, hand, first))
      else if second < n then Choice(Some(FrameAt(hand, second, n)), ClearedTo(descs, hand, n))
      else Choice(None, ClearedTo(descs, hand, n))
  }

  // The clock finds a victim unless every frame holds a pinned page.
  lemma NoVictimIffAllPinned(descs: seq<BufDesc>, hand: nat)
    requires descs != [] ==> hand < |descs|
    ensures Choose(descs, hand).victim.None? <==> forall i | 0 <= i < |descs| :: descs[i].valid && descs[i].pinCnt > 0
  {
    if descs != [] {
      var n := |descs|;
      forall i | 0 <= i < n && Choose(descs, hand).victim.None?
        ensures descs[i].valid && descs[i].pinCnt > 0
      {
        assert !Takes(descs[FrameAt(hand, StepsTo(hand, i, n), n)], true);
      }
    }
  }

  // A search that fails has cleared every reference bit.
  lemma SearchedAll(descs: seq<BufDesc>, hand: nat)
    requires descs != [] ==> hand < |descs|
    ensures var c := Choose(descs, hand);
            c.victim.None? ==> forall i | 0 <= i < |descs| :: c.descs[i] == descs[i].(refbit := false)
  {
  }

  // The first idle frame after the hand is taken; when there is none, the first unpinned one.
  lemma VictimIsFirst(descs: seq<BufDesc>, hand: nat)
    requires hand < |descs| && Choose(descs, hand).victim.Some?
    ensures var n, c := |descs|, Choose(descs, hand);
            var k := StepsTo(hand, c.victim.value, n);
            var anyIdle := exists i | 0 <= i < n :: descs[i].Idle();
            && descs[c.victim.value].Evictable()
            && (anyIdle ==> descs[c.victim.value].Idle())
            && (forall i | 0 <= i < n && (if anyIdle then descs[i].Idle() else descs[i].Evictable()) ::
                  k <= StepsTo(hand, i, n))
            && (forall i | 0 <= i < n ::
                  c.descs[i] == if anyIdle && StepsTo(hand, i, n) >= k then descs[i] else descs[i].(refbit := false))
  {
    var n := |descs|;
    var first := FirstTaken(descs, hand, false, 0);
    forall i | 0 <= i < n && descs[i].Idle()
      ensures first <= StepsTo(hand, i, n)
    {
      assert FrameAt(hand, StepsTo(hand, i, n), n) == i;
    }
    forall i | 0 <= i < n && descs[i].Evictable()
      ensures FirstTaken(descs, hand, true, 0) <= StepsTo(hand, i, n)
    {
      assert FrameAt(hand, StepsTo(hand, i, n), n) == i;
    }
  }
}
