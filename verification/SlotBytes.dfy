// The slot directory as it lies in the bytes of a page: SlotId k occupies the SLOT_SIZE bytes from
// SLOT_SIZE * (k - 1), as a flag, a padding byte, and two little-endian 16-bit numbers.
// Directory entries are indexed from 0 here, so entry k holds slot number k + 1.
module SlotBytes {
  import opened Types

  const DATA_SIZE: nat := 8176  // Page::SIZE minus the 16-byte page header
  const SLOT_SIZE: nat := 6     // sizeof(PageSlot)

  datatype PageSlot = PageSlot(flag: byte, offset: uint16, length: uint16) {
    predicate Used() {
      flag != 0
    }

    // Used, and owning at least one byte of the record area.
    predicate Occupied() {
      Used() && length > 0
    }

    predicate Covers(b: int) {
      Occupied() && offset <= b < End()
    }

    function End(): nat {
      offset + length
    }
  }

  const FREE_SLOT: PageSlot := PageSlot(0, 0, 0)

  function Word(low: byte, high: byte): uint16 {
    var w: nat := low + 256 * high;
    w
  }

  function SlotAt(data: seq<byte>, k: nat): PageSlot
    requires SLOT_SIZE * (k + 1) <= |data|
  {
    var i := SLOT_SIZE * k;
    PageSlot(data[i], Word(data[i + 2], data[i + 3]), Word(data[i + 4], data[i + 5]))
  }

  function Directory(data: seq<byte>, n: nat): (slots: seq<PageSlot>)
    requires SLOT_SIZE * n <= |data|
    ensures |slots| == n
  {
    seq(n, k requires 0 <= k < n => SlotAt(data, k))
  }

  function SlotByte(slot: PageSlot, field: nat, padding: byte): byte
  {
    match field
    case 0 => slot.flag
    case 2 => slot.offset % 256
    case 3 => slot.offset / 256
    case 4 => slot.length % 256
    case 5 => slot.length / 256
    case _ => padding
  }

  // Writes the given entries over the start of the data, leaving every padding byte as it was.
  function WriteDirectory(data: seq<byte>, slots: seq<PageSlot>): (written: seq<byte>)
    requires SLOT_SIZE * |slots| <= |data|
    ensures |written| == |data|
  {
    seq(|data|, j requires 0 <= j < |data| =>
      if j < SLOT_SIZE * |slots| then SlotByte(slots[j / SLOT_SIZE], j % SLOT_SIZE, data[j]) else data[j])
  }

  function PutSlot(data: seq<byte>, k: nat, slot: PageSlot): (written: seq<byte>)
    requires SLOT_SIZE * (k + 1) <= |data|
    ensures |written| == |data|
  {
    var i := SLOT_SIZE * k;
    data[i := slot.flag]
        [i + 2 := slot.offset % 256][i + 3 := slot.offset / 256]
        [i + 4 := slot.length % 256][i + 5 := slot.length / 256]
  }

  lemma ReadBackSlot(data: seq<byte>, k: nat, slot: PageSlot, j: nat)
    requires SLOT_SIZE * (k + 1) <= |data| && SLOT_SIZE * (j + 1) <= |data|
    ensures SlotAt(PutSlot(data, k, slot), j) == if j == k then slot else SlotAt(data, j)
  {
  }

  // An entry is five bytes. The padding byte and all bytes of other entries stay.
  lemma EntryBytes(data: seq<byte>, k: nat, slot: PageSlot, j: nat)
    requires SLOT_SIZE * (k + 1) <= |data| && j < |data|
    ensures var i, written := SLOT_SIZE * k, PutSlot(data, k, slot);
            && (j == i + 1 || j < i || i + SLOT_SIZE <= j ==> written[j] == data[j])
            && written[i] == slot.flag
            && Word(written[i + 2], written[i + 3]) == slot.offset
            && Word(written[i + 4], written[i + 5]) == slot.length
  {
  }

  // Byte SLOT_SIZE * k + c is field byte c of entry k.
  lemma SlotOfByte(k: nat, c: nat)
    requires c < SLOT_SIZE
    ensures (SLOT_SIZE * k + c) / SLOT_SIZE == k && (SLOT_SIZE * k + c) % SLOT_SIZE == c
  {
  }

  lemma WrittenByte(data: seq<byte>, slots: seq<PageSlot>, k: nat, c: nat)
    requires SLOT_SIZE * |slots| <= |data| && k < |slots| && c < SLOT_SIZE
    ensures SLOT_SIZE * k + c < SLOT_SIZE * |slots|
    ensures WriteDirectory(data, slots)[SLOT_SIZE * k + c] == SlotByte(slots[k], c, data[SLOT_SIZE * k + c])
  {
    SlotOfByte(k, c);
  }

  lemma ReadBackEntry(data: seq<byte>, slots: seq<PageSlot>, k: nat)
    requires SLOT_SIZE * |slots| <= |data| && k < |slots|
    ensures SlotAt(WriteDirectory(data, slots), k) == slots[k]
  {
    hide WriteDirectory;
    WrittenByte(data, slots, k, 0);
    WrittenByte(data, slots, k, 2);
    WrittenByte(data, slots, k, 3);
    WrittenByte(data, slots, k, 4);
    WrittenByte(data, slots, k, 5);
  }

  // Reading a directory back returns the entries that were written.
  lemma ReadBackDirectory(data: seq<byte>, slots: seq<PageSlot>)
    requires SLOT_SIZE * |slots| <= |data|
    ensures Directory(WriteDirectory(data, slots), |slots|) == slots
  {
    hide WriteDirectory, SlotAt;
    forall k | 0 <= k < |slots|
      ensures SlotAt(WriteDirectory(data, slots), k) == slots[k]
    {
      ReadBackEntry(data, slots, k);
    }
  }

  // A byte of an entry is what the entry read from it says.
  lemma ReadByte(data: seq<byte>, k: nat, c: nat)
    requires SLOT_SIZE * (k + 1) <= |data| && c < SLOT_SIZE
    ensures SlotByte(SlotAt(data, k), c, data[SLOT_SIZE * k + c]) == data[SLOT_SIZE * k + c]
  {
    hide Word;
    var i := SLOT_SIZE * k;
    BytesOfWord(data[i + 2], data[i + 3]);
    BytesOfWord(data[i + 4], data[i + 5]);
    assert c == 0 || c == 1 || c == 2 || c == 3 || c == 4 || c == 5;
  }

  lemma BytesOfWord(low: byte, high: byte)
    ensures Word(low, high) % 256 == low && Word(low, high) / 256 == high
  {
  }

  // Writing back what was read changes nothing.
  lemma RewriteDirectory(data: seq<byte>, n: nat)
    requires SLOT_SIZE * n <= |data|
    ensures WriteDirectory(data, Directory(data, n)) == data
  {
    hide WriteDirectory, SlotAt, SlotByte;
    var written := WriteDirectory(data, Directory(data, n));
    forall j | 0 <= j < |data|
      ensures written[j] == data[j]
    {
      if j < SLOT_SIZE * n {
        WrittenByte(data, Directory(data, n), j / SLOT_SIZE, j % SLOT_SIZE);
        ReadByte(data, j / SLOT_SIZE, j % SLOT_SIZE);
      } else {
        UnwrittenByte(data, Directory(data, n), j);
      }
    }
  }

  lemma UnwrittenByte(data: seq<byte>, slots: seq<PageSlot>, j: nat)
    requires SLOT_SIZE * |slots| <= j < |data|
    ensures WriteDirectory(data, slots)[j] == data[j]
  {
  }

  lemma PutByte(data: seq<byte>, k: nat, slot: PageSlot, j: nat)
    requires SLOT_SIZE * (k + 1) <= |data| && j < |data|
    ensures PutSlot(data, k, slot)[j] ==
            if SLOT_SIZE * k <= j < SLOT_SIZE * (k + 1) then SlotByte(slot, j - SLOT_SIZE * k, data[j]) else data[j]
  {
  }

  // Updating one entry in place is writing the directory with that entry replaced.
  lemma PutIntoDirectory(data: seq<byte>, slots: seq<PageSlot>, k: nat, slot: PageSlot)
    requires SLOT_SIZE * |slots| <= |data| && k < |slots|
    ensures PutSlot(WriteDirectory(data, slots), k, slot) == WriteDirectory(data, slots[k := slot])
  {
    hide WriteDirectory, PutSlot, SlotByte;
    var left, right := PutSlot(WriteDirectory(data, slots), k, slot), WriteDirectory(data, slots[k := slot]);
    forall j | 0 <= j < |data|
      ensures left[j] == right[j]
    {
      PutByte(WriteDirectory(data, slots), k, slot, j);
      if j < SLOT_SIZE * |slots| {
        WrittenByte(data, slots, j / SLOT_SIZE, j % SLOT_SIZE);
        WrittenByte(data, slots[k := slot], j / SLOT_SIZE, j % SLOT_SIZE);
        SameField(slots[j / SLOT_SIZE], slot, j % SLOT_SIZE, data[j]);
      } else {
        UnwrittenByte(data, slots, j);
        UnwrittenByte(data, slots[k := slot], j);
      }
    }
  }

  // Overwriting one entry with another leaves no trace of the first.
  lemma SameField(first: PageSlot, second: PageSlot, c: nat, padding: byte)
    ensures SlotByte(second, c, SlotByte(first, c, padding)) == SlotByte(second, c, padding)
  {
  }

  // The directory depends only on the bytes below its end.
  lemma SameBytesSameDirectory(a: seq<byte>, b: seq<byte>, n: nat)
    requires SLOT_SIZE * n <= |a| && SLOT_SIZE * n <= |b|
    requires forall j | 0 <= j < SLOT_SIZE * n :: a[j] == b[j]
    ensures Directory(a, n) == Directory(b, n)
  {
    forall k | 0 <= k < n
      ensures SlotAt(a, k) == SlotAt(b, k)
    {
      var i := SLOT_SIZE * k;
      assert a[i] == b[i] && a[i + 2] == b[i + 2] && a[i + 3] == b[i + 3];
      assert a[i + 4] == b[i + 4] && a[i + 5] == b[i + 5];
    }
  }
}
