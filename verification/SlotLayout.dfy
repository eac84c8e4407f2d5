// How the records named by a directory lie in the page: they tile the bytes from the upper bound of
// the free space to the end of the page. Everything here is about directories, not about bytes.
module SlotLayout {
  import opened Types
  import opened SlotBytes

  ghost predicate Covered(slots: seq<PageSlot>, b: int) {
    exists k | 0 <= k < |slots| :: slots[k].Covers(b)
  }

  // Every record, the empty ones included, ends inside the page.
  predicate InPage(slots: seq<PageSlot>) {
    forall k | 0 <= k < |slots| && slots[k].Used() :: slots[k].End() <= DATA_SIZE
  }

  predicate Apart(a: PageSlot, b: PageSlot) {
    a.End() <= b.offset || b.End() <= a.offset
  }

  // No gap and no overlap: the non-empty records cover each byte of [upper, DATA_SIZE) exactly once,
  // and no other byte. An empty record may name any offset in the page.
  ghost predicate Tiled(slots: seq<PageSlot>, upper: nat) {
    && InPage(slots)
    && (forall k | 0 <= k < |slots| && slots[k].Occupied() :: upper <= slots[k].offset)
    && (forall j, k | 0 <= j < k < |slots| && slots[j].Occupied() && slots[k].Occupied() :: Apart(slots[j], slots[k]))
    && (forall b | upper <= b < DATA_SIZE :: Covered(slots, b))
  }

  predicate BlankWhenUnused(slots: seq<PageSlot>) {
    forall k | 0 <= k < |slots| && !slots[k].Used() :: slots[k] == FREE_SLOT
  }

  predicate EndsUsed(slots: seq<PageSlot>) {
    slots == [] || slots[|slots| - 1].Used()
  }

  // No empty record names an offset below b.
  predicate EmptyRecordsFrom(slots: seq<PageSlot>, b: nat) {
    forall k | 0 <= k < |slots| && slots[k].Used() && slots[k].length == 0 :: b <= slots[k].offset
  }

  // No record straddles byte b.
  ghost predicate Boundary(slots: seq<PageSlot>, b: int) {
    forall k | 0 <= k < |slots| && slots[k].Occupied() :: slots[k].End() <= b || b <= slots[k].offset
  }

  predicate Below(slot: PageSlot, b: nat) {
    slot.Used() && slot.offset < b
  }

  function Weight(slot: PageSlot, b: nat): nat {
    if Below(slot, b) then slot.length else 0
  }

  // What the scan over the directory adds up in move_bytes.
  function BytesBelow(slots: seq<PageSlot>, b: nat): nat {
    if slots == [] then 0 else BytesBelow(slots[..|slots| - 1], b) + Weight(slots[|slots| - 1], b)
  }

  // What the scan over the directory leaves in move_offset.
  function LowestBelow(slots: seq<PageSlot>, b: nat): (lowest: nat)
    ensures lowest <= b
    ensures forall k | 0 <= k < |slots| && Below(slots[k], b) :: lowest <= slots[k].offset
    ensures lowest == b || exists k | 0 <= k < |slots| :: Below(slots[k], b) && slots[k].offset == lowest
  {
    if slots == [] then b
    else
      var init, last := slots[..|slots| - 1], slots[|slots| - 1];
      var lowest := LowestBelow(init, b);
      assert forall k | 0 <= k < |init| :: init[k] == slots[k];
      if Below(last, b) && last.offset < lowest then last.offset else lowest
  }

  function CountUnused(slots: seq<PageSlot>): nat {
    if slots == [] then 0
    else CountUnused(slots[..|slots| - 1]) + if slots[|slots| - 1].Used() then 0 else 1
  }

  // The directory after every record below that of slot k has been moved up by its length.
  function Shifted(slots: seq<PageSlot>, k: nat): (shifted: seq<PageSlot>)
    requires k < |slots| && slots[k].Used() && InPage(slots)
    ensures |shifted| == |slots|
  {
    seq(|slots|, j requires 0 <= j < |slots| => ShiftedSlot(slots[j], slots[k]))
  }

  function ShiftedSlot(slot: PageSlot, hole: PageSlot): PageSlot
    requires hole.End() <= DATA_SIZE
  {
    if Below(slot, hole.offset) then slot.(offset := slot.offset + hole.length) else slot
  }

  function WithoutRecord(slots: seq<PageSlot>, k: nat): (remaining: seq<PageSlot>)
    requires k < |slots| && slots[k].Used() && InPage(slots)
    ensures |remaining| == |slots|
  {
    Shifted(slots, k)[k := FREE_SLOT]
  }

  // The directory without the unused entries at its end.
  function TrimTail(slots: seq<PageSlot>): (trimmed: seq<PageSlot>)
    ensures trimmed <= slots
    ensures EndsUsed(trimmed)
    ensures forall k | |trimmed| <= k < |slots| :: !slots[k].Used()
  {
    if EndsUsed(slots) then slots else TrimTail(slots[..|slots| - 1])
  }

  // ----- counting -----

  lemma WeightlessIsZero(slots: seq<PageSlot>, b: nat)
    requires forall k | 0 <= k < |slots| :: Weight(slots[k], b) == 0
    ensures BytesBelow(slots, b) == 0
  {
  }

  // When only slot k passes from one side to the other, the total changes by its weight.
  lemma {:induction false} OneSlotWeight(slots: seq<PageSlot>, b: nat, other: seq<PageSlot>, c: nat, k: nat)
    requires k < |slots| == |other|
    requires forall j | 0 <= j < |slots| && j != k :: Weight(slots[j], b) == Weight(other[j], c)
    ensures BytesBelow(other, c) == BytesBelow(slots, b) - Weight(slots[k], b) + Weight(other[k], c)
  {
    var n := |slots| - 1;
    if k < n {
      OneSlotWeight(slots[..n], b, other[..n], c, k);
    } else {
      SameWeights(slots[..n], b, other[..n], c);
    }
  }

  lemma {:induction false} SameWeights(slots: seq<PageSlot>, b: nat, other: seq<PageSlot>, c: nat)
    requires |slots| == |other|
    requires forall j | 0 <= j < |slots| :: Weight(slots[j], b) == Weight(other[j], c)
    ensures BytesBelow(other, c) == BytesBelow(slots, b)
  {
    if slots != [] {
      SameWeights(slots[..|slots| - 1], b, other[..|slots| - 1], c);
    }
  }

  lemma {:induction false} BytesBelowMonotone(slots: seq<PageSlot>, b: nat, c: nat)
    requires b <= c
    ensures BytesBelow(slots, b) <= BytesBelow(slots, c)
  {
    if slots != [] {
      BytesBelowMonotone(slots[..|slots| - 1], b, c);
    }
  }

  // The records below a boundary are as long together as the distance to the boundary.
  lemma {:induction false} BytesBelowBoundary(slots: seq<PageSlot>, upper: nat, b: nat)
    requires Tiled(slots, upper) && upper <= b <= DATA_SIZE && Boundary(slots, b)
    ensures BytesBelow(slots, b) == b - upper
    decreases b
  {
    if b == upper {
      WeightlessIsZero(slots, b);
    } else {
      assert Covered(slots, b - 1);
      var k :| 0 <= k < |slots| && slots[k].Covers(b - 1);
      var c := slots[k].offset;
      RecordStartsAtBoundary(slots, upper, k);
      BytesBelowBoundary(slots, upper, c);
      forall j | 0 <= j < |slots| && j != k
        ensures Weight(slots[j], c) == Weight(slots[j], b)
      {
        assert slots[j].Occupied() ==> Apart(slots[j], slots[k]);
      }
      OneSlotWeight(slots, c, slots, b, k);
    }
  }

  lemma RecordStartsAtBoundary(slots: seq<PageSlot>, upper: nat, k: nat)
    requires Tiled(slots, upper) && k < |slots| && slots[k].Occupied()
    ensures Boundary(slots, slots[k].offset)
  {
    forall j | 0 <= j < |slots| && slots[j].Occupied()
      ensures slots[j].End() <= slots[k].offset || slots[k].offset <= slots[j].offset
    {
      assert j != k ==> Apart(slots[j], slots[k]);
    }
  }

  // The block that deletion moves always fits in the page.
  lemma BlockFits(slots: seq<PageSlot>, upper: nat, k: nat)
    requires Tiled(slots, upper) && upper <= DATA_SIZE && k < |slots| && slots[k].Used()
    ensures var bytes := BytesBelow(slots, slots[k].offset);
            && LowestBelow(slots, slots[k].offset) + slots[k].length + bytes <= DATA_SIZE
            && (slots[k].Occupied() ==> bytes == slots[k].offset - upper)
            && (bytes > 0 ==> LowestBelow(slots, slots[k].offset) <= upper)
  {
    var o := slots[k].offset;
    if slots[k].Occupied() {
      RecordStartsAtBoundary(slots, upper, k);
      BytesBelowBoundary(slots, upper, o);
    } else {
      BytesBelowMonotone(slots, o, DATA_SIZE);
      BytesBelowBoundary(slots, upper, DATA_SIZE);
    }
    if BytesBelow(slots, o) > 0 {
      if forall j | 0 <= j < |slots| :: Weight(slots[j], o) == 0 {
        WeightlessIsZero(slots, o);
        assert false;
      }
      var j :| 0 <= j < |slots| && Weight(slots[j], o) > 0;
      assert Covered(slots, upper);
    }
  }

  // ----- what the operations keep -----

  lemma WithoutRecordTiles(slots: seq<PageSlot>, upper: nat, k: nat)
    requires Tiled(slots, upper) && k < |slots| && slots[k].Used()
    ensures Tiled(WithoutRecord(slots, k), upper + slots[k].length)
  {
    var hole := slots[k];
    var rest := WithoutRecord(slots, k);
    forall i, j | 0 <= i < j < |rest| && rest[i].Occupied() && rest[j].Occupied()
      ensures Apart(rest[i], rest[j])
    {
      assert Apart(slots[i], slots[j]);
      assert hole.Occupied() ==> Apart(slots[i], hole) && Apart(slots[j], hole);
    }
    forall j | 0 <= j < |rest| && rest[j].Used()
      ensures rest[j].End() <= DATA_SIZE && (rest[j].Occupied() ==> upper + hole.length <= rest[j].offset)
    {
      assert hole.Occupied() && slots[j].Occupied() ==> Apart(slots[j], hole);
    }
    forall b | upper + hole.length <= b < DATA_SIZE
      ensures Covered(rest, b)
    {
      var was := if b < hole.End() then b - hole.length else b;
      assert Covered(slots, was);
      var j :| 0 <= j < |slots| && slots[j].Covers(was);
      assert j != k ==> hole.Occupied() ==> Apart(slots[j], hole);
      assert rest[j].Covers(b);
    }
  }

  // A surviving record ends up on one side of where the erased record ended.
  lemma SurvivorPlace(slots: seq<PageSlot>, upper: nat, k: nat, j: nat)
    requires Tiled(slots, upper) && k < |slots| && j < |slots| && j != k && slots[k].Used() && slots[j].Used()
    ensures var slot, hole := slots[j], slots[k];
            var moved := ShiftedSlot(slot, hole);
            && hole.End() <= DATA_SIZE && slot.End() <= DATA_SIZE && moved.End() <= DATA_SIZE
            && (slot.length > 0 ==> upper + hole.length <= moved.offset)
            && (slot.length > 0 && hole.length > 0 ==>
                if Below(slot, hole.offset) then moved.End() <= hole.End() else hole.End() <= moved.offset)
  {
    assert slots[j].Occupied() && slots[k].Occupied() ==> Apart(slots[j], slots[k]);
  }

  lemma NewRecordTiles(slots: seq<PageSlot>, upper: nat, k: nat, flag: byte, length: uint16)
    requires Tiled(slots, upper) && upper <= DATA_SIZE && k < |slots| && !slots[k].Used() && length <= upper
    requires flag != 0
    ensures Tiled(slots[k := PageSlot(flag, upper - length, length)], upper - length)
  {
    var more := slots[k := PageSlot(flag, upper - length, length)];
    forall b | upper - length <= b < DATA_SIZE
      ensures Covered(more, b)
    {
      if b < upper {
        assert more[k].Covers(b);
      } else {
        assert Covered(slots, b);
        var j :| 0 <= j < |slots| && slots[j].Covers(b);
        assert more[j].Covers(b);
      }
    }
  }

  // Unused entries at the end of the directory do not matter.
  lemma PrefixTiles(slots: seq<PageSlot>, n: nat, upper: nat)
    requires n <= |slots| && forall k | n <= k < |slots| :: !slots[k].Used()
    ensures Tiled(slots, upper) <==> Tiled(slots[..n], upper)
  {
    forall b
      ensures Covered(slots, b) <==> Covered(slots[..n], b)
    {
      if Covered(slots, b) {
        var k :| 0 <= k < |slots| && slots[k].Covers(b);
        assert slots[..n][k].Covers(b);
      }
      if Covered(slots[..n], b) {
        var k :| 0 <= k < n && slots[..n][k].Covers(b);
        assert slots[k].Covers(b);
      }
    }
    if Tiled(slots[..n], upper) {
      var init := slots[..n];
      forall k | 0 <= k < |slots| && slots[k].Used()
        ensures k < n && init[k] == slots[k]
      {
      }
    }
  }

  lemma {:induction false} CountAfterUpdate(slots: seq<PageSlot>, k: nat, slot: PageSlot)
    requires k < |slots|
    ensures CountUnused(slots[k := slot])
         == CountUnused(slots) - (if slots[k].Used() then 0 else 1) + (if slot.Used() then 0 else 1)
  {
    var n := |slots| - 1;
    if k < n {
      assert slots[k := slot][..n] == slots[..n][k := slot];
      CountAfterUpdate(slots[..n], k, slot);
    } else {
      assert slots[k := slot][..n] == slots[..n];
    }
  }

  lemma {:induction false} CountSameFlags(slots: seq<PageSlot>, other: seq<PageSlot>)
    requires |slots| == |other| && forall k | 0 <= k < |slots| :: slots[k].Used() == other[k].Used()
    ensures CountUnused(slots) == CountUnused(other)
  {
    if slots != [] {
      CountSameFlags(slots[..|slots| - 1], other[..|slots| - 1]);
    }
  }

  lemma {:induction false} CountTrimmed(slots: seq<PageSlot>)
    ensures CountUnused(TrimTail(slots)) == CountUnused(slots) - (|slots| - |TrimTail(slots)|)
  {
    if slots != [] && !slots[|slots| - 1].Used() {
      CountTrimmed(slots[..|slots| - 1]);
    }
  }

  // The count says whether there is an unused entry.
  lemma {:induction false} CountIsZeroIffAllUsed(slots: seq<PageSlot>)
    ensures CountUnused(slots) <= |slots|
    ensures CountUnused(slots) == 0 <==> forall k | 0 <= k < |slots| :: slots[k].Used()
  {
    if slots != [] {
      var init := slots[..|slots| - 1];
      CountIsZeroIffAllUsed(init);
      assert forall k | 0 <= k < |init| :: init[k] == slots[k];
    }
  }

  // Removing a record just placed at the bottom leaves the other entries alone, unless an empty record
  // lies below it.
  lemma RemovedAgain(slots: seq<PageSlot>, upper: nat, after: seq<PageSlot>, k: nat)
    requires Tiled(slots, upper) && |slots| <= |after| && k < |after| && InPage(after)
    requires after[k].Used() && after[k].End() == upper && (k < |slots| ==> !slots[k].Used())
    requires forall j | 0 <= j < |slots| && j != k :: after[j] == slots[j]
    ensures var rest := WithoutRecord(after, k);
            && (forall j | 0 <= j < |slots| :: rest[j].Used() == slots[j].Used())
            && ((forall j | 0 <= j < |slots| && j != k :: rest[j] == slots[j])
                <==> after[k].length == 0 || EmptyRecordsFrom(slots, after[k].offset))
  {
    var rest, placed := WithoutRecord(after, k), after[k];
    if placed.length > 0 && !EmptyRecordsFrom(slots, placed.offset) {
      var j :| 0 <= j < |slots| && slots[j].Used() && slots[j].length == 0 && slots[j].offset < placed.offset;
      assert rest[j] != slots[j];
    }
  }

  lemma TrimOne(slots: seq<PageSlot>)
    requires slots != [] && !slots[|slots| - 1].Used() && EndsUsed(slots[..|slots| - 1])
    ensures TrimTail(slots) == slots[..|slots| - 1]
  {
  }
}
