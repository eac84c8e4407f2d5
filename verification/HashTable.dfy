// The chained hash table that finds the frame of a cached page (bufHashTbl.cpp, bufHashTbl.h).
module HashTable {
  import opened Types

  datatype Key = Key(file: FileId, page: PageId)

  datatype HashStatus = HashOk | HashAlreadyPresent | HashNotFound

  const WORD: nat := 0x1_0000_0000

  // The address is cut to a 32-bit int, the page number is added in unsigned 32-bit arithmetic, and the
  // remainder is unsigned too, so that no operand is ever negative.
  function Hash(key: Key, size: nat): (index: nat)
    requires 0 < size
    ensures index < size
  {
    (ToUnsigned(ToInt(key.file)) + key.page) % WORD % size
  }

  // Truncation of a 64-bit address to a signed 32-bit int.
  function ToInt(address: nat): int {
    var low := address % WORD;
    if low < WORD / 2 then low else low - WORD
  }

  function ToUnsigned(i: int): nat {
    i % WORD
  }

  // Pages of a file go to consecutive buckets, around the table, except where the 32-bit sum wraps; and one more byte
  // of address counts like one more page.
  lemma HashSteps(file: nat, page: nat, size: nat)
    requires 0 < size
    ensures Hash(Key(0, 0), size) == 0
    ensures Hash(Key(file + 1, page), size) == Hash(Key(file, page + 1), size)
    ensures var h := Hash(Key(file, page), size);
            Hash(Key(file, page + 1), size) ==
            if (file + page + 1) % WORD == 0 || h + 1 == size then 0 else h + 1
  {
    hide Hash, Sum, Bucket;
    HashIs(0, 0, size);
    HashIs(file, page, size);
    HashIs(file, page + 1, size);
    HashIs(file + 1, page, size);
    NextSum(file, page);
    NextBucket(Sum(file, page), size);
  }

  function Sum(file: nat, page: nat): nat {
    (file + page) % WORD
  }

  function Bucket(sum: nat, size: nat): nat
    requires 0 < size
  {
    sum % size
  }

  // The 32-bit conversions do not matter to the sum.
  lemma HashIs(file: nat, page: nat, size: nat)
    requires 0 < size
    ensures Hash(Key(file, page), size) == Bucket(Sum(file, page), size)
  {
    assert (ToUnsigned(ToInt(file)) + page) % WORD == (file + page) % WORD;
  }

  lemma NextSum(file: nat, page: nat)
    ensures Sum(0, 0) == 0 && Sum(file + 1, page) == Sum(file, page + 1)
    ensures Sum(file, page + 1) == if (file + page + 1) % WORD == 0 then 0 else Sum(file, page) + 1
  {
  }

  lemma NextBucket(sum: nat, size: nat)
    requires 0 < size
    ensures Bucket(0, size) == 0
    ensures Bucket(sum + 1, size) == if Bucket(sum, size) + 1 == size then 0 else Bucket(sum, size) + 1
  {
    Remainder(0, size, 0);
    NextRemainder(sum, size);
  }

  lemma Remainder(q: int, n: nat, r: nat)
    requires r < n
    ensures (q * n + r) % n == r
  {
    var d, e := (q * n + r) / n, (q * n + r) % n;
    assert (q - d) * n == e - r && (d - q) * n == r - e;
    if q > d {
      AtLeast(q - d, n);
    } else if q < d {
      AtLeast(d - q, n);
    }
  }

  lemma AtLeast(k: int, n: nat)
    requires k >= 1
    ensures k * n >= n
  {
  }

  lemma NextRemainder(a: nat, n: nat)
    requires n > 0
    ensures (a + 1) % n == if a % n + 1 == n then 0 else a % n + 1
  {
    var q, r := a / n, a % n;
    assert a == q * n + r;
    if r + 1 == n {
      assert a + 1 == (q + 1) * n + 0;
      Remainder(q + 1, n, 0);
    } else {
      Remainder(q, n, r + 1);
    }
  }

  class HashBucket {
    const key: Key
    const frame: FrameId
    var next: HashBucket?

    constructor (key: Key, frame: FrameId, next: HashBucket?)
      ensures this.key == key && this.frame == frame && this.next == next
    {
      this.key := key;
      this.frame := frame;
      this.next := next;
    }
  }

  // The nodes of a chain are linked in order and the last one ends it.
  ghost predicate Linked(first: HashBucket?, chain: seq<HashBucket>)
    reads chain
  {
    && first == (if chain == [] then null else chain[0])
    && forall k {:trigger chain[k].next} | 0 <= k < |chain| ::
         chain[k].next == if k + 1 < |chain| then chain[k + 1] else null
  }

  // ----- what the chains hold -----

  ghost predicate Has(chain: seq<HashBucket>, key: Key) {
    exists k | 0 <= k < |chain| :: chain[k].key == key
  }

  // Keys are distinct, hashed to the given bucket, and mapped as the map says.
  ghost predicate ChainHolds(chain: seq<HashBucket>, i: nat, size: nat, entries: map<Key, FrameId>)
    requires 0 < size
  {
    && (forall j, k | 0 <= j < k < |chain| :: chain[j].key != chain[k].key)
    && (forall k | 0 <= k < |chain| ::
          Hash(chain[k].key, size) == i && chain[k].key in entries && entries[chain[k].key] == chain[k].frame)
  }

  ghost predicate Represents(chains: seq<seq<HashBucket>>, entries: map<Key, FrameId>) {
    && |chains| > 0
    && (forall i | 0 <= i < |chains| :: ChainHolds(chains[i], i, |chains|, entries))
    && (forall key | key in entries :: Has(chains[Hash(key, |chains|)], key))
  }

  // Other chains do not notice a change to the entry of a key that hashes elsewhere.
  lemma OtherChain(chain: seq<HashBucket>, i: nat, size: nat, entries: map<Key, FrameId>, other: map<Key, FrameId>,
                   key: Key)
    requires 0 < size && ChainHolds(chain, i, size, entries) && Hash(key, size) != i
    requires forall k | k in entries && k != key :: k in other && other[k] == entries[k]
    ensures ChainHolds(chain, i, size, other)
  {
  }

  lemma LongerChain(chain: seq<HashBucket>, i: nat, size: nat, entries: map<Key, FrameId>, bucket: HashBucket)
    requires 0 < size && ChainHolds(chain, i, size, entries) && Hash(bucket.key, size) == i && !Has(chain, bucket.key)
    ensures ChainHolds([bucket] + chain, i, size, entries[bucket.key := bucket.frame])
    ensures forall key :: Has([bucket] + chain, key) <==> Has(chain, key) || key == bucket.key
  {
    var longer := [bucket] + chain;
    assert longer[0].key == bucket.key;
    forall key
      ensures Has(longer, key) <==> Has(chain, key) || key == bucket.key
    {
      if Has(chain, key) {
        var k :| 0 <= k < |chain| && chain[k].key == key;
        assert longer[k + 1].key == key;
      }
    }
  }

  lemma ShorterChain(chain: seq<HashBucket>, i: nat, size: nat, entries: map<Key, FrameId>, k: nat)
    requires 0 < size && ChainHolds(chain, i, size, entries) && k < |chain|
    ensures var shorter := chain[..k] + chain[k + 1..];
            && ChainHolds(shorter, i, size, entries - {chain[k].key})
            && forall key | Has(chain, key) && key != chain[k].key :: Has(shorter, key)
  {
    var shorter := chain[..k] + chain[k + 1..];
    assert forall j | 0 <= j < |shorter| :: shorter[j] == chain[if j < k then j else j + 1];
    forall key | Has(chain, key) && key != chain[k].key
      ensures Has(shorter, key)
    {
      var j :| 0 <= j < |chain| && chain[j].key == key;
      assert shorter[if j > k then j - 1 else j].key == key;
    }
  }

  lemma Added(chains: seq<seq<HashBucket>>, entries: map<Key, FrameId>, bucket: HashBucket)
    requires Represents(chains, entries) && !Has(chains[Hash(bucket.key, |chains|)], bucket.key)
    ensures bucket.key !in entries
    ensures var i := Hash(bucket.key, |chains|);
            Represents(chains[i := [bucket] + chains[i]], entries[bucket.key := bucket.frame])
  {
    hide ChainHolds, Has;
    var i, more := Hash(bucket.key, |chains|), entries[bucket.key := bucket.frame];
    LongerChain(chains[i], i, |chains|, entries, bucket);
    forall j | 0 <= j < |chains| && j != i
      ensures ChainHolds(chains[j], j, |chains|, more)
    {
      OtherChain(chains[j], j, |chains|, entries, more, bucket.key);
    }
  }

  lemma Removed(chains: seq<seq<HashBucket>>, entries: map<Key, FrameId>, i: nat, k: nat)
    requires Represents(chains, entries) && i < |chains| && k < |chains[i]|
    ensures chains[i][k].key in entries
    ensures Represents(chains[i := chains[i][..k] + chains[i][k + 1..]], entries - {chains[i][k].key})
  {
    hide Has;
    var key := chains[i][k].key;
    assert ChainHolds(chains[i], i, |chains|, entries);
    ShorterChain(chains[i], i, |chains|, entries, k);
    forall j | 0 <= j < |chains| && j != i
      ensures ChainHolds(chains[j], j, |chains|, entries - {key})
    {
      OtherChain(chains[j], j, |chains|, entries, entries - {key}, key);
    }
  }

  class BufHashTbl {
    const size: nat
    const ht: array<HashBucket?>

    // The bucket chains, and the map they stand for.
    ghost var chains: seq<seq<HashBucket>>
    ghost var nodes: set<HashBucket>
    ghost var entries: map<Key, FrameId>

    ghost predicate Valid()
      reads this, ht, nodes
    {
      && 0 < size == ht.Length == |chains|
      && Represents(chains, entries)
      && (forall i, k | 0 <= i < size && 0 <= k < |chains[i]| :: chains[i][k] in nodes)
      && (forall i {:trigger chains[i]} | 0 <= i < size :: Linked(ht[i], chains[i]))
    }

    constructor (size: nat)
      requires 0 < size
      ensures Valid() && entries == map[] && this.size == size
      ensures fresh(ht) && nodes == {}
    {
      this.size := size;
      ht := new HashBucket?[size];
      chains := seq(size, _ => []);
      nodes := {};
      entries := map[];
      new;
      for i := 0 to size
        modifies ht
        invariant forall j | 0 <= j < i :: ht[j] == null
      {
        ht[i] := null;
      }
    }

    method Lookup(key: Key) returns (status: HashStatus, frame: FrameId)
      requires Valid()
      ensures status == if key in entries then HashOk else HashNotFound
      ensures status == HashOk ==> frame == entries[key]
    {
      var index := Hash(key, size);
      var bucket := ht[index];
      ghost var chain := chains[index];
      ghost var k := 0;
      while bucket != null
        invariant 0 <= k <= |chain| && bucket == if k < |chain| then chain[k] else null
        invariant forall j | 0 <= j < k :: chain[j].key != key
        decreases |chain| - k
      {
        if bucket.key == key {
          return HashOk, bucket.frame;
        }
        bucket := bucket.next;
        k := k + 1;
      }
      return HashNotFound, 0;
    }

    method Insert(key: Key, frame: FrameId) returns (status: HashStatus)
      requires Valid()
      modifies this, ht
      ensures Valid() && nodes >= old(nodes) && fresh(nodes - old(nodes))
      ensures status == if key in old(entries) then HashAlreadyPresent else HashOk
      ensures entries == if status == HashOk then old(entries)[key := frame] else old(entries)
    {
      var index := Hash(key, size);
      var bucket := ht[index];
      ghost var chain := chains[index];
      ghost var k := 0;
      while bucket != null
        invariant 0 <= k <= |chain| && bucket == if k < |chain| then chain[k] else null
        invariant forall j | 0 <= j < k :: chain[j].key != key
        decreases |chain| - k
      {
        if bucket.key == key {
          return HashAlreadyPresent;
        }
        bucket := bucket.next;
        k := k + 1;
      }
      AddBucket(index, key, frame);
      return HashOk;
    }

    // Puts a new bucket at the head of its chain.
    method AddBucket(index: nat, key: Key, frame: FrameId)
      requires Valid() && index == Hash(key, size) && !Has(chains[index], key)
      modifies this, ht
      ensures Valid() && nodes >= old(nodes) && fresh(nodes - old(nodes))
      ensures key !in old(entries) && entries == old(entries)[key := frame]
    {
      hide Represents;
      var bucket := new HashBucket(key, frame, ht[index]);
      Added(chains, entries, bucket);
      ht[index] := bucket;
      chains := chains[index := [bucket] + chains[index]];
      nodes := nodes + {bucket};
      entries := entries[key := frame];
    }

    method Remove(key: Key) returns (status: HashStatus)
      requires Valid()
      modifies this, ht, nodes
      ensures Valid() && nodes == old(nodes)
      ensures status == if key in old(entries) then HashOk else HashNotFound
      ensures entries == old(entries) - {key}
    {
      var index := Hash(key, size);
      var bucket, previous := ht[index], null;
      ghost var chain := chains[index];
      ghost var k := 0;
      while bucket != null
        invariant 0 <= k <= |chain| && bucket == if k < |chain| then chain[k] else null
        invariant previous == if k == 0 then null else chain[k - 1]
        invariant forall j | 0 <= j < k :: chain[j].key != key
        decreases |chain| - k
      {
        if bucket.key == key {
          Unlink(index, k, previous, bucket);
          return HashOk;
        }
        previous, bucket := bucket, bucket.next;
        k := k + 1;
      }
      return HashNotFound;
    }

    // Takes one bucket out of its chain, through the bucket before it or the table.
    method Unlink(index: nat, ghost k: nat, previous: HashBucket?, bucket: HashBucket)
      requires Valid() && index < size && k < |chains[index]| && bucket == chains[index][k]
      requires previous == if k == 0 then null else chains[index][k - 1]
      modifies this, ht, nodes
      ensures Valid() && nodes == old(nodes)
      ensures bucket.key in old(entries) && entries == old(entries) - {bucket.key}
    {
      hide Represents;
      ghost var chain := chains[index];
      if previous != null {
        Apart(index, k - 1);
      }
      Removed(chains, entries, index, k);
      if previous != null {
        previous.next := bucket.next;
      } else {
        ht[index] := bucket.next;
      }
      chains := chains[index := chain[..k] + chain[k + 1..]];
      entries := entries - {bucket.key};
      assert Linked(ht[index], chains[index]);
    }

    // A node is in one place of one chain.
    lemma Apart(i: nat, k: nat)
      requires Valid() && i < size && k < |chains[i]|
      ensures forall j, l | 0 <= j < size && 0 <= l < |chains[j]| && (j != i || l != k) :: chains[j][l] != chains[i][k]
    {
    }
  }
}
