/**
 * The dictionary of dict.c: two hash tables, `ht[0]` and `ht[1]`, with
 * incremental rehashing from the first into the second while
 * `rehashidx != -1`, and the operations that add, find, replace and
 * delete keys, resize and clear the tables.
 *
 * The abstract content of a dictionary is the multiset of its entries,
 * `Contents()`; every operation is specified by what it does to it.
 */
module Dict {
  import opened Bits
  import opened DictTable

  datatype Status = Ok | Err

  /**
   * A call of the key or value destructor of the dictionary type, as the
   * `dictFreeKey` and `dictFreeVal` macros of dict.h:157-192 make it.
   */
  datatype Freed = FreedKey(key: Key) | FreedVal(val: Val)

  /** The destructor calls `dictFreeKey` and `dictFreeVal` make for an entry. */
  function FreeCalls(t: DictType, e: Entry): (calls: seq<Freed>)
    ensures |calls| == (if t.keyDestructor then 1 else 0) + (if t.valDestructor then 1 else 0)
  {
    (if t.keyDestructor then [FreedKey(e.key)] else []) +
    (if t.valDestructor then [FreedVal(e.val)] else [])
  }

  /** The destructor calls for a sequence of entries, in order. */
  function FreeLog(t: DictType, es: seq<Entry>): seq<Freed>
  {
    if es == [] then [] else FreeCalls(t, es[0]) + FreeLog(t, es[1..])
  }

  lemma {:induction false} FreeLogAppend(t: DictType, a: seq<Entry>, b: seq<Entry>)
    ensures FreeLog(t, a + b) == FreeLog(t, a) + FreeLog(t, b)
  {
    if a == [] {
      assert a + b == b;
    } else {
      assert (a + b)[1..] == a[1..] + b;
      FreeLogAppend(t, a[1..], b);
    }
  }

  /** The destructor call `dictFreeVal` makes for a value. */
  function FreeValCalls(t: DictType, v: Val): (calls: seq<Freed>)
    ensures calls == [] || calls == [FreedVal(v)]
    ensures t.valDestructor <==> |calls| == 1
  {
    if t.valDestructor then [FreedVal(v)] else []
  }

  /** Every entry gets as many destructor calls as the type has destructors. */
  lemma {:induction false} FreeLogSize(t: DictType, es: seq<Entry>)
    ensures |FreeLog(t, es)| == |es| * |FreeCalls(t, Entry(0, 0))|
  {
    if es != [] {
      FreeLogSize(t, es[1..]);
    }
  }

  /**
   * How many buckets `_dictClear` visits: its loop stops once `used`
   * drops to 0, just after the last bucket that holds entries.
   */
  function Visited(b: seq<seq<Entry>>): (n: nat)
    ensures n <= |b|
    ensures n > 0 ==> b[n - 1] != []
  {
    if b == [] then 0 else if b[|b| - 1] == [] then Visited(b[..|b| - 1]) else |b|
  }

  /** The buckets from `Visited(b)` on are empty, and one before `i` is not when `i < Visited(b)`. */
  lemma {:induction false} VisitedBound(b: seq<seq<Entry>>, i: nat)
    requires i <= |b|
    ensures (forall j :: i <= j < |b| ==> b[j] == []) <==> Visited(b) <= i
  {
    if b != [] && b[|b| - 1] == [] {
      var c := b[..|b| - 1];
      if i < |b| {
        VisitedBound(c, i);
        assert forall j :: i <= j < |c| ==> c[j] == b[j];
      } else {
        VisitedBound(c, |c|);
      }
    }
  }

  /** `_dictClear` calls its callback when `(i & 65535) == 0`: once per 65536 buckets visited. */
  function CallbackCount(visited: nat): nat
  {
    (visited + CLEAR_CALLBACK_PERIOD - 1) / CLEAR_CALLBACK_PERIOD
  }

  const CLEAR_CALLBACK_PERIOD: nat := 65536

  lemma CallbackCountStep(i: nat)
    ensures CallbackCount(i + 1) == CallbackCount(i) + (if i % CLEAR_CALLBACK_PERIOD == 0 then 1 else 0)
  {
    var q, r := i / CLEAR_CALLBACK_PERIOD, i % CLEAR_CALLBACK_PERIOD;
    assert i == q * CLEAR_CALLBACK_PERIOD + r;
    if r == 0 {
      DivModUnique(i + CLEAR_CALLBACK_PERIOD - 1, CLEAR_CALLBACK_PERIOD, q, CLEAR_CALLBACK_PERIOD - 1);
      DivModUnique(i + CLEAR_CALLBACK_PERIOD, CLEAR_CALLBACK_PERIOD, q + 1, 0);
    } else {
      DivModUnique(i + CLEAR_CALLBACK_PERIOD - 1, CLEAR_CALLBACK_PERIOD, q + 1, r - 1);
      DivModUnique(i + CLEAR_CALLBACK_PERIOD, CLEAR_CALLBACK_PERIOD, q + 1, r);
    }
  }

  /** The bag of the buckets from `i` on is empty exactly when `_dictClear` has visited them all. */
  lemma VisitedByBag(b: seq<seq<Entry>>, i: nat)
    requires i <= |b|
    ensures |Bag(b[i..])| == 0 <==> Visited(b) <= i
  {
    BagZero(b[i..]);
    VisitedBound(b, i);
    assert forall j :: i <= j < |b| ==> b[j] == b[i..][j - i];
  }

  /** The `while(he)` loop of `_dictClear`: the destructor calls for one chain. */
  method FreeChain(t: DictType, chain: seq<Entry>) returns (log: seq<Freed>)
    ensures log == FreeLog(t, chain)
  {
    var he := chain;
    log := [];
    while he != []
      invariant |he| <= |chain| && he == chain[|chain| - |he|..]
      invariant log == FreeLog(t, chain[..|chain| - |he|])
      decreases |he|
    {
      ghost var k := |chain| - |he|;
      assert chain[..k + 1] == chain[..k] + [he[0]];
      FreeLogAppend(t, chain[..k], [he[0]]);
      log := log + FreeCalls(t, he[0]);
      he := he[1..];
    }
    assert chain[..|chain|] == chain;
  }

  /**
   * The loop of `_dictClear` over the table `ht`: the destructor calls
   * for every entry, bucket by bucket and along each chain from its head,
   * one per entry and destructor; with a callback, `calls` counts its
   * invocations, once per 65536 buckets visited.
   */
  method ClearTable(t: DictType, ht: HashTable, callback: bool) returns (log: seq<Freed>, calls: nat)
    requires TableOk(t, ht)
    ensures log == FreeLog(t, Flatten(ht.table[..]))
    ensures |log| == ht.used * |FreeCalls(t, Entry(0, 0))|
    ensures calls == if callback then CallbackCount(Visited(ht.table[..])) else 0
  {
    ghost var b := ht.table[..];
    var used := ht.used;
    var i := 0;
    log, calls := [], 0;
    assert b[i..] == b;
    while i < ht.size && used > 0
      invariant i <= ht.size && i <= Visited(b)
      invariant used == |Bag(b[i..])|
      invariant log == FreeLog(t, Flatten(b[..i]))
      invariant calls == if callback then CallbackCount(i) else 0
    {
      if callback && i % CLEAR_CALLBACK_PERIOD == 0 {
        calls := calls + 1;
      }
      CallbackCountStep(i);
      VisitedByBag(b, i);
      var chainLog := FreeChain(t, ht.table[i]);
      ClearStep(t, b, i, log);
      log := log + chainLog;
      used := used - |ht.table[i]|;
      i := i + 1;
    }
    VisitedByBag(b, i);
    ClearDone(t, b, i, log);
  }

  /** One bucket of `_dictClear` done: its chain's calls follow those of the buckets before it. */
  lemma ClearStep(t: DictType, b: seq<seq<Entry>>, i: nat, log: seq<Freed>)
    requires i < |b| && log == FreeLog(t, Flatten(b[..i]))
    ensures log + FreeLog(t, b[i]) == FreeLog(t, Flatten(b[..i + 1]))
    ensures |Bag(b[i..])| == |b[i]| + |Bag(b[i + 1..])|
  {
    assert b[i..][1..] == b[i + 1..];
    ChainBagSize(b[i]);
    assert b[..i + 1] == b[..i] + [b[i]];
    FlattenAppend(b[..i], [b[i]]);
    assert Flatten([b[i]]) == b[i];
    FreeLogAppend(t, Flatten(b[..i]), b[i]);
  }

  /** `_dictClear`'s loop over: the buckets left hold nothing. */
  lemma ClearDone(t: DictType, b: seq<seq<Entry>>, i: nat, log: seq<Freed>)
    requires i <= |b| && log == FreeLog(t, Flatten(b[..i]))
    requires i == |b| || |Bag(b[i..])| == 0
    ensures log == FreeLog(t, Flatten(b))
    ensures |log| == |Bag(b)| * |FreeCalls(t, Entry(0, 0))|
  {
    FlattenSize(b[i..]);
    assert b == b[..i] + b[i..];
    FlattenAppend(b[..i], b[i..]);
    FreeLogAppend(t, Flatten(b[..i]), Flatten(b[i..]));
    FlattenSize(b);
    FreeLogSize(t, Flatten(b));
  }

  /**
   * A `dictEntry *`: the entry at position `pos` of bucket `index` of
   * table `table` (0 or 1).
   */
  datatype Slot = Slot(table: nat, index: nat, pos: nat)

  /** What `_dictKeyIndex` answers. */
  datatype KeyIndexResult =
    | FreeIndex(index: nat)   // the bucket where the key would go
    | Present(slot: Slot)     // -1, with `*existing` set
    | ExpandFailed            // -1, with `*existing` left NULL

  /** Swapping one entry in one table swaps it in the union of both. */
  lemma SwapInUnion(a: multiset<Entry>, a2: multiset<Entry>, b: multiset<Entry>, o: Entry, x: Entry)
    requires a2 + multiset{o} == a + multiset{x}
    ensures (a2 + b) + multiset{o} == (a + b) + multiset{x}
    ensures (b + a2) + multiset{o} == (b + a) + multiset{x}
  {
    assert (a2 + b) + multiset{o} == (a2 + multiset{o}) + b;
    assert (a + b) + multiset{x} == (a + multiset{x}) + b;
    assert b + a2 == a2 + b && b + a == a + b;
  }

  /** An entry added with value 0 and then given value `x.val`: the net change is `x`. */
  lemma AddedThenSet(before: multiset<Entry>, mid: multiset<Entry>, after: multiset<Entry>, e: Entry, x: Entry)
    requires mid == before + multiset{e} && after + multiset{e} == mid + multiset{x}
    ensures after == before + multiset{x}
  {
    assert after + multiset{e} == (before + multiset{x}) + multiset{e};
    MultisetCancel(after, before + multiset{x}, multiset{e});
  }

  /** Taking an entry out of one table takes it out of the union of both. */
  lemma RemoveInUnion(a: multiset<Entry>, a2: multiset<Entry>, b: multiset<Entry>, o: Entry)
    requires a2 + multiset{o} == a
    ensures (a2 + b) + multiset{o} == a + b
    ensures (b + a2) + multiset{o} == b + a
  {
    assert (a2 + b) + multiset{o} == (a2 + multiset{o}) + b;
    assert b + a2 == a2 + b && b + a == a + b;
  }

  /** What `dictAddRaw` answers. */
  datatype AddResult =
    | Added(slot: Slot)       // the new entry, at the head of its bucket
    | Existing(slot: Slot)    // NULL, with `*existing` set
    | Refused                 // NULL, with `*existing` left NULL

  /** 2^60: the largest table whose pointer array fits in an unsigned long of bytes. */
  const MAX_FITTING: nat := 0x1000_0000_0000_0000

  /**
   * The overflow test of `_dictExpand` for a request of `size` buckets:
   * `realsize < size || realsize * sizeof(dictEntry*) < realsize`, with
   * the product taken modulo 2^64.
   */
  predicate ExpandOverflows(size: nat)
  {
    var realsize := NextPower(size);
    realsize < size || (realsize * PTR_SIZE) % ULONG_RANGE < realsize
  }

  lemma Pow2Is60()
    ensures Pow2(60) == MAX_FITTING
  {
    LongMaxPlusOne();
    assert Pow2(63) == 8 * Pow2(60);
  }

  /** A power of two divides every larger one. */
  lemma {:induction false} PowerOfTwoDivides(p: nat, q: nat)
    requires PowerOfTwo(p) && PowerOfTwo(q) && p <= q
    ensures q % p == 0
  {
    if p > 1 {
      PowerOfTwoDivides(p / 2, q / 2);
      var m := (q / 2) / (p / 2);
      assert q / 2 == m * (p / 2);
      assert q == m * p;
      DivModUnique(q, p, m, 0);
    }
  }

  /** Sizes up to 2^60 never overflow. */
  lemma ExpandFits(size: nat)
    requires size <= MAX_FITTING
    ensures !ExpandOverflows(size)
  {
    var realsize := NextPower(size);
    Pow2Is60();
    PowerOfTwoPow2(60);
    NextPowerLeast(size, MAX_FITTING);
    ModSmall(realsize * PTR_SIZE, ULONG_RANGE);
  }

  /** Every unsigned long size above 2^60 overflows. */
  lemma ExpandOverflowsAbove(size: nat)
    requires MAX_FITTING < size < ULONG_RANGE
    ensures ExpandOverflows(size)
  {
    var realsize := NextPower(size);
    if size < LONG_MAX {
      Pow2Is60();
      PowerOfTwoPow2(60);
      PowerOfTwoBelow(MAX_FITTING, realsize);
      NextPowerBound(size);
      PowerOfTwoDivides(2 * MAX_FITTING, realsize);
      var m := realsize / (2 * MAX_FITTING);
      assert realsize == m * (2 * MAX_FITTING);
      assert realsize * PTR_SIZE == m * ULONG_RANGE;
      DivModUnique(realsize * PTR_SIZE, ULONG_RANGE, m, 0);
    } else {
      DivModUnique((LONG_MAX + 1) * PTR_SIZE, ULONG_RANGE, 4, 0);
    }
  }

  /**
   * The `while(de)` loop of `dictRehash`: each entry of `chain` moves to
   * the head of its bucket in the table `ht` (`ht[1]`), whose `used` grows
   * by one per entry.
   */
  method MoveChain(t: DictType, ht: HashTable, chain: seq<Entry>) returns (r: HashTable)
    requires TableOk(t, ht) && ht.size > 0
    modifies ht.table
    ensures r == ht.(used := ht.used + |chain|) && TableOk(t, r)
    ensures Entries(r) == old(Entries(ht)) + ChainBag(chain)
  {
    var de := chain;
    r := ht;
    ghost var moved := 0;
    ghost var start := Entries(ht);
    while de != []
      invariant 0 <= moved <= |chain| && de == chain[moved..]
      invariant r == ht.(used := ht.used + moved) && TableOk(t, r)
      invariant Entries(r) == start + ChainBag(chain[..moved])
      decreases |de|
    {
      var e := de[0];
      assert e == chain[moved];
      r := PushOnto(t, r, e);
      de := de[1..];
      ChainBagSnoc(chain, moved);
      UnionAssoc(start, ChainBag(chain[..moved]), multiset{e});
      moved := moved + 1;
    }
    assert chain[..moved] == chain;
  }

  /** `dict` */
  class Dict {
    const dtype: DictType
    var ht0: HashTable
    var ht1: HashTable
    var rehashidx: int
    var pauserehash: int
    /** The process-wide `dict_can_resize` switch. */
    var canResize: bool
    /** The destructor calls made so far. */
    var freed: seq<Freed>

    /** The dictionary type's `keyDup` keeps the hash of the key it copies. */
    ghost predicate DupKeepsHash()
    {
      forall k :: dtype.hashFunction(StoredKey(dtype, k)) == dtype.hashFunction(k)
    }

    ghost predicate Valid()
      reads this`ht0, this`ht1, this`rehashidx, ht0.table, ht1.table
    {
      DupKeepsHash() && TablesOk() && RehashOk()
    }

    /** Both tables well formed, on distinct bucket arrays. */
    ghost predicate TablesOk()
      reads this`ht0, this`ht1, this`rehashidx, ht0.table, ht1.table
    {
      TableOk(dtype, ht0) && TableOk(dtype, ht1) && ht0.table != ht1.table
    }

    /**
     * Outside a rehash `ht[1]` is a NULL table; during one, both tables
     * have buckets and those of `ht[0]` below `rehashidx` are empty.
     */
    ghost predicate RehashOk()
      reads this`ht0, this`ht1, this`rehashidx, ht0.table
    {
      && (rehashidx == -1 ==> IsReset(ht1))
      && (rehashidx != -1 ==>
            && 0 <= rehashidx <= ht0.size && ht0.size > 0 && ht1.size > 0
            && EmptyBelow(ht0.table[..], rehashidx))
    }

    /** All entries of both tables. */
    ghost function Contents(): multiset<Entry>
      reads this`ht0, this`ht1, this`rehashidx, ht0.table, ht1.table
    {
      Entries(ht0) + Entries(ht1)
    }

    /** The bucket arrays of both tables. */
    ghost function Arrays(): set<object>
      reads this`ht0, this`ht1, this`rehashidx
    {
      {ht0.table, ht1.table}
    }

    /** `dictSize` */
    function Size(): nat
      reads this`ht0, this`ht1, this`rehashidx
    {
      ht0.used + ht1.used
    }

    /** `dictSlots` */
    function Slots(): nat
      reads this`ht0, this`ht1, this`rehashidx
    {
      ht0.size + ht1.size
    }

    /** `dictIsRehashing` */
    predicate IsRehashing()
      reads this`ht0, this`ht1, this`rehashidx
    {
      rehashidx != -1
    }

    /** `dictSize` counts the entries of the dictionary. */
    lemma SizeIsCount()
      requires Valid()
      ensures Size() == |Contents()|
    {
    }

    /** Outside a rehash every entry is in `ht[0]` and `ht[1]` has no buckets. */
    lemma NotRehashingOneTable()
      requires Valid() && !IsRehashing()
      ensures Contents() == Entries(ht0) && Slots() == ht0.size
    {
      ResetOk(dtype, ht1);
    }

    /** `dictCreate` / `_dictInit`: two NULL tables, not rehashing, not paused. */
    constructor(t: DictType)
      requires forall k :: t.hashFunction(StoredKey(t, k)) == t.hashFunction(k)
      ensures Valid() && fresh(ht0.table) && fresh(ht1.table)
      ensures dtype == t && IsReset(ht0) && IsReset(ht1) && Contents() == multiset{}
      ensures rehashidx == -1 && pauserehash == 0 && canResize && freed == []
    {
      dtype := t;
      var a0 := new seq<Entry>[0];
      var a1 := new seq<Entry>[0];
      ht0 := HashTable(a0, 0, 0, 0);
      ht1 := HashTable(a1, 0, 0, 0);
      rehashidx := -1;
      pauserehash := 0;
      canResize := true;
      freed := [];
      new;
      ResetOk(t, ht0);
      ResetOk(t, ht1);
    }

    /** `dictPauseRehashing` */
    method PauseRehashing()
      modifies this`pauserehash
      ensures pauserehash == old(pauserehash) + 1
    {
      pauserehash := pauserehash + 1;
    }

    /** `dictResumeRehashing` */
    method ResumeRehashing()
      modifies this`pauserehash
      ensures pauserehash == old(pauserehash) - 1
    {
      pauserehash := pauserehash - 1;
    }

    /** `dictEnableResize` / `dictDisableResize` */
    method SetCanResize(enable: bool)
      modifies this`canResize
      ensures canResize == enable
    {
      canResize := enable;
    }

    /** `dictFreeKey` followed by `dictFreeVal` on an entry. */
    method FreeEntry(e: Entry)
      modifies this`freed
      ensures freed == old(freed) + FreeCalls(dtype, e)
    {
      if dtype.keyDestructor {
        freed := freed + [FreedKey(e.key)];
      }
      if dtype.valDestructor {
        freed := freed + [FreedVal(e.val)];
      }
    }

    /** `dictFreeVal` on a value. */
    method FreeVal(v: Val)
      modifies this`freed
      ensures freed == old(freed) + FreeValCalls(dtype, v)
    {
      if dtype.valDestructor {
        freed := freed + [FreedVal(v)];
      }
    }

    // -------------------------------------------------------------------
    // Expanding
    // -------------------------------------------------------------------

    /**
     * Whether `_dictExpand(d, size)` gets as far as allocating: not
     * rehashing, no more entries than `size`, no overflow, and a size
     * different from the current one.
     */
    predicate ExpandAccepted(size: nat)
      reads this`ht0, this`ht1, this`rehashidx
    {
      !IsRehashing() && ht0.used <= size && !ExpandOverflows(size) && NextPower(size) != ht0.size
    }

    /**
     * `_dictExpand`. `allocFails` says whether `ztrycalloc` returns NULL;
     * it is consulted only when the caller asked for `malloc_failed`.
     */
    method ExpandTable(size: nat, tryAlloc: bool, allocFails: bool) returns (st: Status, mallocFailed: bool)
      requires Valid() && size < ULONG_RANGE
      modifies this`ht0, this`ht1, this`rehashidx
      ensures Valid() && Contents() == old(Contents())
      ensures mallocFailed <==> tryAlloc && allocFails && old(ExpandAccepted(size))
      ensures st == Ok <==> old(ExpandAccepted(size)) && !(tryAlloc && allocFails)
      ensures st == Err ==> ht0 == old(ht0) && ht1 == old(ht1) && rehashidx == old(rehashidx)
      ensures st == Ok && old(ht0.size) == 0 ==>
                ht0.size == NextPower(size) && fresh(ht0.table) && ht1 == old(ht1) && rehashidx == -1
      ensures st == Ok && old(ht0.size) > 0 ==>
                ht0 == old(ht0) && ht1.size == NextPower(size) && fresh(ht1.table) && rehashidx == 0
      ensures fresh(Arrays() - old(Arrays()))
    {
      mallocFailed := false;
      if IsRehashing() || ht0.used > size {
        return Err, false;
      }
      var realsize := NextPower(size);
      if realsize < size || (realsize * PTR_SIZE) % ULONG_RANGE < realsize {
        return Err, false;
      }
      if realsize == ht0.size {
        return Err, false;
      }
      if tryAlloc && allocFails {
        return Err, true;
      }
      var table := new seq<Entry>[realsize](_ => []);
      var n := HashTable(table, realsize, realsize - 1, 0);
      NextPowerBound(size);
      EmptyTableOk(dtype, n);
      if ht0.table.Length == 0 {
        ResetOk(dtype, ht0);
        ht0 := n;
        return Ok, false;
      }
      ht1 := n;
      rehashidx := 0;
      st := Ok;
    }

    /** `dictExpand`: `_dictExpand` without `malloc_failed`; allocation does not fail. */
    method Expand(size: nat) returns (st: Status)
      requires Valid() && size < ULONG_RANGE
      modifies this`ht0, this`ht1, this`rehashidx
      ensures Valid() && Contents() == old(Contents())
      ensures st == Ok <==> old(ExpandAccepted(size))
      ensures st == Err ==> ht0 == old(ht0) && ht1 == old(ht1) && rehashidx == old(rehashidx)
      ensures st == Ok && old(ht0.size) == 0 ==>
                ht0.size == NextPower(size) && fresh(ht0.table) && ht1 == old(ht1) && rehashidx == -1
      ensures st == Ok && old(ht0.size) > 0 ==>
                ht0 == old(ht0) && ht1.size == NextPower(size) && fresh(ht1.table) && rehashidx == 0
      ensures fresh(Arrays() - old(Arrays()))
    {
      var mallocFailed;
      st, mallocFailed := ExpandTable(size, false, false);
    }

    /**
     * `dictTryExpand`: ERR only when the allocation fails; a request
     * `_dictExpand` declines still answers OK.
     */
    method TryExpand(size: nat, allocFails: bool) returns (st: Status)
      requires Valid() && size < ULONG_RANGE
      modifies this`ht0, this`ht1, this`rehashidx
      ensures Valid() && Contents() == old(Contents())
      ensures st == Err <==> allocFails && old(ExpandAccepted(size))
      ensures !old(ExpandAccepted(size)) || allocFails ==>
                ht0 == old(ht0) && ht1 == old(ht1) && rehashidx == old(rehashidx)
      ensures old(ExpandAccepted(size)) && !allocFails && old(ht0.size) == 0 ==>
                ht0.size == NextPower(size) && fresh(ht0.table) && ht1 == old(ht1) && rehashidx == -1
      ensures old(ExpandAccepted(size)) && !allocFails && old(ht0.size) > 0 ==>
                ht0 == old(ht0) && ht1.size == NextPower(size) && fresh(ht1.table) && rehashidx == 0
      ensures fresh(Arrays() - old(Arrays()))
    {
      var mallocFailed;
      st, mallocFailed := ExpandTable(size, true, allocFails);
      st := if mallocFailed then Err else Ok;
    }

    /** The size `dictResize` asks for: the entry count, but at least `DICT_HT_INITIAL_SIZE`. */
    function ResizeTarget(): nat
      reads this`ht0
    {
      if ht0.used < INITIAL_SIZE then INITIAL_SIZE else ht0.used
    }

    /**
     * `dictResize`: shrink or grow to the least power of two holding
     * every entry (at least 4); refused while rehashing or when resizing
     * is disabled.
     */
    method Resize() returns (st: Status)
      requires Valid() && ht0.used < ULONG_RANGE
      modifies this`ht0, this`ht1, this`rehashidx
      ensures Valid() && Contents() == old(Contents())
      ensures st == Ok <==> old(canResize && !IsRehashing() && ExpandAccepted(ResizeTarget()))
      ensures st == Err ==> ht0 == old(ht0) && ht1 == old(ht1) && rehashidx == old(rehashidx)
      ensures st == Ok && old(ht0.size) == 0 ==>
                ht0.size == NextPower(old(ResizeTarget())) && fresh(ht0.table) && ht1 == old(ht1) && rehashidx == -1
      ensures st == Ok && old(ht0.size) > 0 ==>
                ht0 == old(ht0) && ht1.size == NextPower(old(ResizeTarget())) && fresh(ht1.table) && rehashidx == 0
      ensures fresh(Arrays() - old(Arrays()))
    {
      if !canResize || IsRehashing() {
        return Err;
      }
      var minimal := ht0.used;
      if minimal < INITIAL_SIZE {
        minimal := INITIAL_SIZE;
      }
      st := Expand(minimal);
    }

    /** The memory `dictTypeExpandAllowed` reports: the new bucket array, in bytes. */
    function ExpandMemory(): nat
      reads this`ht0
    {
      (NextPower(ht0.used + 1) * PTR_SIZE) % ULONG_RANGE
    }

    /** `dictTypeExpandAllowed`: the type's veto, when it has one. */
    predicate TypeExpandAllowed()
      reads this`ht0
    {
      match dtype.expandAllowed
      case None => true
      case Some(allowed) => allowed(ExpandMemory(), ht0.used, ht0.size)
    }

    /**
     * The growth rule of `_dictExpandIfNeeded` for a non-empty `ht[0]`: the
     * 1:1 load reached, resizing enabled or the ratio above 5, and the type
     * agreeing.
     */
    predicate WantsExpand()
      reads this`ht0, this`canResize
      requires ht0.size > 0
    {
      && ht0.used >= ht0.size
      && (canResize || ht0.used / ht0.size > FORCE_RESIZE_RATIO)
      && TypeExpandAllowed()
    }

    /**
     * When `_dictExpandIfNeeded` answers ERR: not rehashing, `ht[0]` has
     * buckets and wants to grow, and `_dictExpand` declines `used + 1`.
     */
    predicate CannotGrow()
      reads this`ht0, this`ht1, this`rehashidx, this`canResize
    {
      !IsRehashing() && ht0.size > 0 && WantsExpand() && !ExpandAccepted((ht0.used + 1) % ULONG_RANGE)
    }

    /** `_dictExpandIfNeeded` */
    method ExpandIfNeeded() returns (st: Status)
      requires Valid()
      modifies this`ht0, this`ht1, this`rehashidx
      ensures Valid() && Contents() == old(Contents())
      ensures st == Err <==> old(CannotGrow())
      ensures st == Ok ==> ht0.size > 0
      ensures old(IsRehashing()) ==> st == Ok && ht0 == old(ht0) && ht1 == old(ht1) && rehashidx == old(rehashidx)
      ensures !old(IsRehashing()) && old(ht0.size) == 0 ==> st == Ok && ht0.size == INITIAL_SIZE && !IsRehashing()
      ensures !old(IsRehashing()) && old(ht0.size) > 0 && !old(WantsExpand()) ==>
                st == Ok && ht0 == old(ht0) && ht1 == old(ht1) && rehashidx == old(rehashidx)
      ensures !old(IsRehashing()) && old(ht0.size) > 0 && old(WantsExpand()) && st == Ok ==>
                ht0 == old(ht0) && IsRehashing() && ht1.size == NextPower((old(ht0.used) + 1) % ULONG_RANGE)
      ensures st == Err ==> ht0 == old(ht0) && ht1 == old(ht1) && rehashidx == old(rehashidx)
      ensures fresh(Arrays() - old(Arrays()))
    {
      if IsRehashing() {
        return Ok;
      }
      if ht0.size == 0 {
        st := Expand(INITIAL_SIZE);
        return;
      }
      if ht0.used >= ht0.size && (canResize || ht0.used / ht0.size > FORCE_RESIZE_RATIO) && TypeExpandAllowed() {
        st := Expand((ht0.used + 1) % ULONG_RANGE);
        return;
      }
      st := Ok;
    }

    // -------------------------------------------------------------------
    // Rehashing
    // -------------------------------------------------------------------

    /**
     * The body of the `while(de)` loop of `dictRehash`: every entry of
     * bucket `rehashidx` of `ht[0]` moves to the head of its bucket in
     * `ht[1]`; then the bucket is emptied and `rehashidx` advances.
     */
    method MigrateBucket()
      requires Valid() && IsRehashing() && rehashidx < ht0.size && ht0.table[rehashidx] != []
      modifies this`ht0, this`ht1, this`rehashidx, ht0.table, ht1.table
      ensures Valid() && IsRehashing() && Contents() == old(Contents()) && Size() == old(Size())
      ensures rehashidx == old(rehashidx) + 1 && ht0.used < old(ht0.used)
      ensures ht0.table == old(ht0.table) && ht0.size == old(ht0.size) && ht1.table == old(ht1.table) && ht1.size == old(ht1.size)
    {
      var chain := ht0.table[rehashidx];
      BucketWithin(ht0.table[..], rehashidx);
      ht1 := MoveChain(dtype, ht1, chain);
      ht0 := ht0.(used := ht0.used - |chain|);
      EmptyOldBucket(chain);
    }

    /** `ht[0].table[rehashidx] = NULL; rehashidx++` once its `chain` has moved. */
    method EmptyOldBucket(ghost chain: seq<Entry>)
      requires IsRehashing() && 0 <= rehashidx < ht0.size && ht0.table != ht1.table
      requires TableOk(dtype, ht0.(used := ht0.used + |chain|))
      requires chain == ht0.table[rehashidx]
      requires EmptyBelow(ht0.table[..], rehashidx)
      modifies this`rehashidx, ht0.table
      ensures rehashidx == old(rehashidx) + 1
      ensures TableOk(dtype, ht0) && Entries(ht0) + ChainBag(chain) == old(Entries(ht0))
      ensures EmptyBelow(ht0.table[..], rehashidx)
    {
      var b := ht0.table[..];
      BucketsReplace(dtype, b, ht0.size, ht0.sizemask, ht0.used + |chain|, rehashidx, []);
      BagClear(b, rehashidx);
      ht0.table[rehashidx] := [];
      assert ht0.table[..] == b[rehashidx := []];
      rehashidx := rehashidx + 1;
    }

    /**
     * `dictRehash(d, n)`: moves up to `n` buckets from `ht[0]` to `ht[1]`,
     * visiting at most `n*10` empty buckets; when `ht[0]` is left empty,
     * `ht[1]` takes its place. Answers whether keys remain to move.
     */
    method Rehash(n: int) returns (more: bool)
      requires Valid()
      modifies this`ht0, this`ht1, this`rehashidx, ht0.table, ht1.table
      ensures Valid() && Contents() == old(Contents()) && Size() == old(Size())
      ensures more == IsRehashing()
      ensures !old(IsRehashing()) ==> ht0 == old(ht0) && ht1 == old(ht1) && rehashidx == -1
      ensures old(IsRehashing()) && more ==>
                ht0.table == old(ht0.table) && ht1.table == old(ht1.table) && rehashidx >= old(rehashidx)
      ensures old(IsRehashing()) && more && n >= 0 ==> rehashidx <= old(rehashidx) + 11 * n
      ensures old(IsRehashing()) && !more ==>
                ht0.table == old(ht1.table) && ht0.size == old(ht1.size) && IsReset(ht1) && fresh(ht1.table)
      ensures fresh(Arrays() - old(Arrays()))
    {
      var emptyVisits := n * 10;
      if !IsRehashing() {
        return false;
      }
      var left := n;
      while left != 0 && ht0.used != 0
        invariant Valid() && IsRehashing() && Contents() == old(Contents()) && Size() == old(Size())
        invariant ht0.table == old(ht0.table) && ht1.table == old(ht1.table) && ht1.size == old(ht1.size)
        invariant rehashidx >= old(rehashidx)
        invariant n >= 0 ==>
                    && 0 <= left <= n && (n > 0 ==> emptyVisits >= 1) && emptyVisits >= 0
                    && rehashidx - old(rehashidx) <= (n - left) + (10 * n - emptyVisits)
        invariant n < 0 ==> left < 0 && emptyVisits < 0
        decreases ht0.used
      {
        left := left - 1;
        emptyVisits := RehashBucket(emptyVisits);
        if emptyVisits == 0 {
          return true;
        }
      }
      if ht0.used == 0 {
        FinishRehash();
        return false;
      }
      more := true;
    }

    /**
     * One turn of the outer loop of `dictRehash`: past the empty buckets,
     * giving up (answer 0) once `visits` of them have been seen, then the
     * chain of the first non-empty one moved to `ht[1]`. Answers the empty
     * visits left.
     */
    method RehashBucket(visits: int) returns (left: int)
      requires Valid() && IsRehashing() && ht0.used != 0 && visits != 0
      modifies this`ht0, this`ht1, this`rehashidx, ht0.table, ht1.table
      ensures Valid() && IsRehashing() && Contents() == old(Contents())
      ensures ht0.table == old(ht0.table) && ht1.table == old(ht1.table) && ht1.size == old(ht1.size)
      ensures rehashidx - old(rehashidx) == visits - left + (if left == 0 then 0 else 1)
      ensures rehashidx >= old(rehashidx)
      ensures left != 0 ==> ht0.used < old(ht0.used)
      ensures visits > 0 ==> 0 <= left <= visits
      ensures visits < 0 ==> left < 0
    {
      left := SkipEmptyBuckets(visits);
      if left != 0 {
        MigrateBucket();
      }
    }

    /**
     * The inner `while(d->ht[0].table[d->rehashidx] == NULL)` loop of
     * `dictRehash`: skips empty buckets, giving up (answer 0) once
     * `visits` of them have been seen. Otherwise stops on a non-empty
     * bucket, and answers the visits left.
     */
    method SkipEmptyBuckets(visits: int) returns (left: int)
      requires Valid() && IsRehashing() && ht0.used != 0 && visits != 0
      modifies this`rehashidx
      ensures Valid() && IsRehashing() && Contents() == old(Contents())
      ensures rehashidx - old(rehashidx) == visits - left && rehashidx >= old(rehashidx)
      ensures left != 0 ==> rehashidx < ht0.size && ht0.table[rehashidx] != []
      ensures visits > 0 ==> 0 <= left <= visits
      ensures visits < 0 ==> left < 0
    {
      ghost var j := NonEmptyAbove(ht0.table[..], rehashidx);
      left := visits;
      while ht0.table[rehashidx] == []
        invariant old(rehashidx) <= rehashidx <= j
        invariant EmptyBelow(ht0.table[..], rehashidx)
        invariant rehashidx - old(rehashidx) == visits - left
        invariant visits > 0 ==> 0 < left <= visits
        invariant visits < 0 ==> left < 0
        decreases j - rehashidx
      {
        rehashidx := rehashidx + 1;
        left := left - 1;
        if left == 0 {
          return;
        }
      }
    }

    /** The end of a rehash: `ht[1]` becomes `ht[0]` and `ht[1]` is reset. */
    method FinishRehash()
      requires Valid() && IsRehashing() && ht0.used == 0
      modifies this`ht0, this`ht1, this`rehashidx
      ensures Valid() && !IsRehashing() && Contents() == old(Contents())
      ensures ht0 == old(ht1) && IsReset(ht1) && fresh(ht1.table)
    {
      var fresh0 := new seq<Entry>[0];
      assert |Entries(ht0)| == 0;
      ht0 := ht1;
      ht1 := HashTable(fresh0, 0, 0, 0);
      ResetOk(dtype, ht1);
      rehashidx := -1;
    }

    /** `_dictRehashStep`: one bucket, unless rehashing is paused. */
    method RehashStep()
      requires Valid()
      modifies this`ht0, this`ht1, this`rehashidx, ht0.table, ht1.table
      ensures Valid() && Contents() == old(Contents()) && Size() == old(Size())
      ensures old(pauserehash) != 0 ==> ht0 == old(ht0) && ht1 == old(ht1) && rehashidx == old(rehashidx)
      ensures !old(IsRehashing()) ==> ht0 == old(ht0) && ht1 == old(ht1) && rehashidx == -1
      ensures fresh(Arrays() - old(Arrays()))
    {
      if pauserehash == 0 {
        var more := Rehash(1);
      }
    }

    // -------------------------------------------------------------------
    // Lookup
    // -------------------------------------------------------------------

    /** `d->ht[i]` */
    function Table(i: nat): HashTable
      reads this`ht0, this`ht1, this`rehashidx
    {
      if i == 0 then ht0 else ht1
    }

    /** The table new entries go to: `ht[1]` while rehashing, `ht[0]` otherwise. */
    function Target(): HashTable
      reads this`ht0, this`ht1, this`rehashidx
    {
      if IsRehashing() then ht1 else ht0
    }

    /** `s` points at an entry of the dictionary. */
    predicate SlotOk(s: Slot)
      reads this`ht0, this`ht1, this`rehashidx, ht0.table, ht1.table
    {
      && s.table <= 1 && s.index < Table(s.table).table.Length
      && s.pos < |Table(s.table).table[s.index]|
    }

    /** The entry `s` points at. */
    function At(s: Slot): Entry
      requires SlotOk(s)
      reads this`ht0, this`ht1, this`rehashidx, ht0.table, ht1.table
    {
      Table(s.table).table[s.index][s.pos]
    }

    /** The buckets a lookup of hash `h` searches hold no entry matching `key`. */
    ghost predicate Absent(key: Key, h: nat)
      requires Valid()
      reads this`ht0, this`ht1, this`rehashidx, ht0.table, ht1.table
    {
      && (ht0.size > 0 ==> NoMatch(dtype, ht0.table[Bucket(h, ht0.size)], key))
      && (IsRehashing() ==> NoMatch(dtype, ht1.table[Bucket(h, ht1.size)], key))
    }

    /** An entry a slot points at belongs to the dictionary. */
    lemma AtInContents(s: Slot)
      requires Valid() && SlotOk(s)
      ensures At(s) in Contents()
    {
      var ht := Table(s.table);
      BucketWithin(ht.table[..], s.index);
      assert At(s) in ht.table[s.index];
      ChainBagMember(ht.table[s.index], At(s));
    }

    /**
     * When the searched buckets hold no match, no entry of the dictionary
     * matches, for a type whose matching keys hash alike.
     */
    lemma AbsentEverywhere(key: Key)
      requires Valid() && Consistent(dtype) && Absent(key, dtype.hashFunction(key))
      ensures forall e :: e in Contents() ==> !Matches(dtype, key, e.key)
    {
      NoMatchInTable(dtype, ht0, key);
      if IsRehashing() {
        NoMatchInTable(dtype, ht1, key);
      } else {
        ResetOk(dtype, ht1);
      }
    }

    /** A dictionary with entries has buckets in `ht[0]`. */
    lemma NonEmptyHasBuckets()
      requires Valid() && Size() > 0
      ensures ht0.size > 0
    {
    }

    /** The `while(he)` search of one chain for the first entry matching `key`. */
    method SearchChain(chain: seq<Entry>, key: Key) returns (pos: Option<nat>)
      ensures pos.Some? ==>
                && pos.value < |chain| && Matches(dtype, key, chain[pos.value].key)
                && NoMatch(dtype, chain[..pos.value], key)
      ensures pos.None? ==> NoMatch(dtype, chain, key)
    {
      var i := 0;
      while i < |chain|
        invariant i <= |chain| && NoMatch(dtype, chain[..i], key)
      {
        if key == chain[i].key || CompareKeys(dtype, key, chain[i].key) {
          return Some(i);
        }
        assert chain[..i + 1] == chain[..i] + [chain[i]];
        i := i + 1;
      }
      assert chain[..i] == chain;
      return None;
    }

    /**
     * The `for (table = 0; table <= 1; table++)` search shared by
     * `_dictKeyIndex`, `dictFind` and `dictGenericDelete`: bucket
     * `h & sizemask` of `ht[0]`, then of `ht[1]` while rehashing.
     */
    method FindSlot(key: Key, h: nat) returns (s: Option<Slot>)
      requires Valid() && ht0.size > 0
      ensures s.None? <==> Absent(key, h)
      ensures s.Some? ==>
                && SlotOk(s.value) && Matches(dtype, key, At(s.value).key)
                && s.value.index == Bucket(h, Table(s.value.table).size)
                && (s.value.table == 1 ==> IsRehashing())
    {
      var table := 0;
      while table <= 1
        invariant table <= 2 && (table >= 1 ==> NoMatch(dtype, ht0.table[Bucket(h, ht0.size)], key))
        invariant table >= 1 ==> IsRehashing()
        invariant table == 2 ==> NoMatch(dtype, ht1.table[Bucket(h, ht1.size)], key)
      {
        var ht := Table(table);
        var idx := Bucket(h, ht.size);
        var pos := SearchChain(ht.table[idx], key);
        if pos.Some? {
          assert ht.table[idx][pos.value] in ht.table[idx];
          return Some(Slot(table, idx, pos.value));
        }
        if !IsRehashing() {
          return None;
        }
        table := table + 1;
      }
      return None;
    }

    /**
     * `_dictKeyIndex`: grows the table when needed, then answers the
     * bucket of `Target()` where `key` (of hash `h`) would go, or the
     * entry that already matches it.
     */
    method KeyIndex(key: Key, h: nat) returns (r: KeyIndexResult)
      requires Valid()
      modifies this`ht0, this`ht1, this`rehashidx
      ensures Valid() && Contents() == old(Contents()) && fresh(Arrays() - old(Arrays()))
      ensures r.FreeIndex? ==> Target().size > 0 && r.index == Bucket(h, Target().size) && Absent(key, h)
      ensures r.Present? ==> SlotOk(r.slot) && Matches(dtype, key, At(r.slot).key) && !Absent(key, h)
      ensures r.ExpandFailed? ==> ht0 == old(ht0) && ht1 == old(ht1) && rehashidx == old(rehashidx)
      ensures r.ExpandFailed? <==> old(CannotGrow())
    {
      var st := ExpandIfNeeded();
      if st == Err {
        return ExpandFailed;
      }
      var s := FindSlot(key, h);
      if s.Some? {
        return Present(s.value);
      }
      r := FreeIndex(Bucket(h, Target().size));
    }

    // -------------------------------------------------------------------
    // Adding
    // -------------------------------------------------------------------

    /**
     * What `dictAddRaw` answers, from the entries `before` it: a slot of
     * the one new entry, holding the stored key and value 0 (C leaves the
     * value unset), at the head of its bucket in `Target()`, no old entry
     * matching `key` (for a type whose matching keys hash alike); or a slot
     * of the entry matching `key`, nothing added; or nothing added at all
     * because the table could not grow. A dictionary holding each key once
     * still does.
     */
    ghost predicate AddOutcome(before: multiset<Entry>, key: Key, r: AddResult)
      reads this`ht0, this`ht1, this`rehashidx, this`canResize, ht0.table, ht1.table
    {
      && (r.Added? ==>
            && Contents() == before + multiset{Entry(StoredKey(dtype, key), 0)}
            && SlotOk(r.slot) && At(r.slot) == Entry(StoredKey(dtype, key), 0)
            && Target().size > 0
            && r.slot == Slot(if IsRehashing() then 1 else 0, Bucket(dtype.hashFunction(key), Target().size), 0)
            && (Consistent(dtype) ==> forall e :: e in before ==> !Matches(dtype, key, e.key)))
      && (r.Existing? ==> Contents() == before && SlotOk(r.slot) && Matches(dtype, key, At(r.slot).key))
      && (r.Refused? ==> Contents() == before && CannotGrow())
      && KeepsUnique(dtype, before, Contents())
    }

    /**
     * Unless the table could not grow, `dictAddRaw` adds exactly when no
     * entry matches `key` and finds one exactly when some entry does, for a
     * type whose matching keys hash alike.
     */
    lemma AddDecides(before: multiset<Entry>, key: Key, r: AddResult)
      requires Valid() && AddOutcome(before, key, r)
      requires Consistent(dtype) && !r.Refused?
      ensures r.Added? <==> forall e :: e in before ==> !Matches(dtype, key, e.key)
      ensures r.Existing? <==> exists e :: e in before && Matches(dtype, key, e.key)
    {
      if r.Existing? {
        AtInContents(r.slot);
      }
    }

    /**
     * `dictAddRaw`: one rehash step, then either a new entry holding the
     * stored key at the head of its bucket in `Target()`, or the entry
     * already matching `key`. The new entry's value, unset in C, is 0 here.
     */
    method AddRaw(key: Key) returns (r: AddResult)
      requires Valid()
      modifies this`ht0, this`ht1, this`rehashidx, ht0.table, ht1.table
      ensures Valid() && fresh(Arrays() - old(Arrays()))
      ensures AddOutcome(old(Contents()), key, r)
      ensures !old(IsRehashing()) ==> (r.Refused? <==> old(CannotGrow()))
    {
      if IsRehashing() {
        RehashStep();
      }
      r := AddWithoutStep(key);
    }

    /** `dictAddRaw` after its rehash step: `_dictKeyIndex`, then the insertion. */
    method AddWithoutStep(key: Key) returns (r: AddResult)
      requires Valid()
      modifies this`ht0, this`ht1, this`rehashidx, ht0.table, ht1.table
      ensures Valid() && fresh(Arrays() - old(Arrays()))
      ensures AddOutcome(old(Contents()), key, r)
      ensures r.Refused? <==> old(CannotGrow())
    {
      var idx := KeyIndex(key, dtype.hashFunction(key));
      match idx
      case ExpandFailed =>
        r := Refused;
      case Present(s) =>
        r := Existing(s);
      case FreeIndex(_) =>
        r := InsertKey(key);
    }

    /**
     * The tail of `dictAddRaw` once `_dictKeyIndex` found no match: a new
     * entry holding the stored key goes to the head of its bucket in
     * `Target()`.
     */
    method InsertKey(key: Key) returns (r: AddResult)
      requires Valid() && Target().size > 0 && Absent(key, dtype.hashFunction(key))
      modifies this`ht0, this`ht1, ht0.table, ht1.table
      ensures Valid() && ht0.table == old(ht0.table) && ht1.table == old(ht1.table)
      ensures r.Added? && AddOutcome(old(Contents()), key, r)
    {
      if Consistent(dtype) {
        AbsentEverywhere(key);
      }
      AddKeepsUnique(dtype, Contents(), key, 0);
      var e := Entry(StoredKey(dtype, key), 0);
      assert dtype.hashFunction(e.key) == dtype.hashFunction(key);
      var s;
      if IsRehashing() {
        s := InsertNew1(e);
      } else {
        s := InsertNew0(e);
      }
      r := Added(s);
    }

    /**
     * The insertion of `dictAddRaw` while rehashing: `e` goes to the head
     * of the bucket of its hash in `ht[1]`.
     */
    method InsertNew1(e: Entry) returns (s: Slot)
      requires Valid() && IsRehashing()
      modifies this`ht1, ht1.table
      ensures Valid() && Contents() == old(Contents()) + multiset{e}
      ensures s == Slot(1, Bucket(dtype.hashFunction(e.key), ht1.size), 0) && SlotOk(s) && At(s) == e
      ensures ht1.table == old(ht1.table)
    {
      var index := Bucket(dtype.hashFunction(e.key), ht1.size);
      ht1 := PushOnto(dtype, ht1, e);
      assert ht1.table[index] == ht1.table[..][index];
      assert Contents() == Entries(ht0) + (old(Entries(ht1)) + multiset{e});
      s := Slot(1, index, 0);
      assert Valid();
    }

    /**
     * The insertion of `dictAddRaw` outside a rehash: `e` goes to the head
     * of the bucket of its hash in `ht[0]`.
     */
    method InsertNew0(e: Entry) returns (s: Slot)
      requires Valid() && !IsRehashing() && ht0.size > 0
      modifies this`ht0, ht0.table
      ensures ht0.table == old(ht0.table) && ht0.size == old(ht0.size)
      ensures Valid() && Contents() == old(Contents()) + multiset{e}
      ensures s == Slot(0, Bucket(dtype.hashFunction(e.key), ht0.size), 0) && SlotOk(s) && At(s) == e
    {
      var index := Bucket(dtype.hashFunction(e.key), ht0.size);
      ResetOk(dtype, ht1);
      ht0 := PushOnto(dtype, ht0, e);
      assert ht1.table[..] == [];
      assert TableOk(dtype, ht1) && Entries(ht1) == multiset{};
      assert ht0.table[index] == ht0.table[..][index];
      s := Slot(0, index, 0);
      assert Valid();
    }

    /** `dictSetVal` on the entry `s` points at. */
    method SetVal(s: Slot, val: Val)
      requires Valid() && SlotOk(s)
      modifies Table(s.table).table
      ensures Valid() && SlotOk(s) && At(s) == old(At(s)).(val := StoredVal(dtype, val))
      ensures Contents() + multiset{old(At(s))} == old(Contents()) + multiset{At(s)}
    {
      ghost var x := Entry(At(s).key, StoredVal(dtype, val));
      if s.table == 0 {
        SetValIn(dtype, ht0, s.index, s.pos, val);
        assert ht0.table[s.index] == ht0.table[..][s.index];
        assert At(s) == x;
        assert Entries(ht1) == old(Entries(ht1));
        SwapInUnion(old(Entries(ht0)), Entries(ht0), Entries(ht1), old(At(s)), x);
      } else {
        SetValIn(dtype, ht1, s.index, s.pos, val);
        assert ht1.table[s.index] == ht1.table[..][s.index];
        assert At(s) == x;
        assert Entries(ht0) == old(Entries(ht0));
        SwapInUnion(old(Entries(ht1)), Entries(ht1), Entries(ht0), old(At(s)), x);
      }
    }

    /**
     * What `dictAdd` promises, from the entries `before` it: OK when an
     * entry for `key` holding `val` was added and no old entry matched
     * `key` (for a type whose matching keys hash alike); ERR with nothing
     * changed otherwise, because an entry matched `key` or the table could
     * not grow. A dictionary holding each key once still does.
     */
    ghost predicate AddedWith(before: multiset<Entry>, key: Key, val: Val, st: Status)
      reads this`ht0, this`ht1, this`rehashidx, this`canResize, ht0.table, ht1.table
    {
      && (st == Ok ==>
            && Contents() == before + multiset{Entry(StoredKey(dtype, key), StoredVal(dtype, val))}
            && (Consistent(dtype) ==> forall e :: e in before ==> !Matches(dtype, key, e.key)))
      && (st == Err ==>
            && Contents() == before
            && (CannotGrow() || exists e :: e in before && Matches(dtype, key, e.key)))
      && KeepsUnique(dtype, before, Contents())
    }

    /** `dictAdd`: `dictAddRaw`, then the value stored in the new entry; ERR when the key exists. */
    method Add(key: Key, val: Val) returns (st: Status)
      requires Valid()
      modifies this`ht0, this`ht1, this`rehashidx, ht0.table, ht1.table
      ensures Valid() && fresh(Arrays() - old(Arrays()))
      ensures AddedWith(old(Contents()), key, val, st)
    {
      ghost var before := Contents();
      var r := AddRaw(key);
      st := AddFound(before, r, key, val);
    }

    /** `dictAdd` once `dictAddRaw` has answered `r` for `key`. */
    method AddFound(ghost before: multiset<Entry>, r: AddResult, key: Key, val: Val) returns (st: Status)
      requires Valid() && AddOutcome(before, key, r)
      modifies ht0.table, ht1.table
      ensures Valid() && AddedWith(before, key, val, st)
    {
      if !r.Added? {
        if r.Existing? {
          AtInContents(r.slot);
        }
        return Err;
      }
      SetVal(r.slot, val);
      AddedThenSet(before, old(Contents()), Contents(), Entry(StoredKey(dtype, key), 0), At(r.slot));
      AddKeepsUnique(dtype, before, key, StoredVal(dtype, val));
      st := Ok;
    }

    /**
     * The existing-key branch of `dictReplace`: the new value is set first
     * and the old one freed after, from a copy of the entry.
     */
    method Overwrite(s: Slot, val: Val)
      requires Valid() && SlotOk(s)
      modifies this`freed, Table(s.table).table
      ensures Valid() && SlotOk(s) && At(s) == old(At(s)).(val := StoredVal(dtype, val))
      ensures Contents() + multiset{old(At(s))} == old(Contents()) + multiset{At(s)}
      ensures freed == old(freed) + FreeValCalls(dtype, old(At(s)).val)
    {
      var aux := At(s);
      SetVal(s, val);
      FreeVal(aux.val);
    }

    /**
     * What `dictReplace` promises, from the entries `before` and the
     * destructor calls `log` before it: when it answers true, an entry for
     * `key` with `val` was added, no old entry matching `key` (for a type
     * whose matching keys hash alike); when false, either nothing changed
     * because the table could not grow, or the entry `o` matching `key` now
     * holds `val` and its old value was freed. A dictionary holding each
     * key once still does.
     */
    ghost predicate Replaced(before: multiset<Entry>, log: seq<Freed>, key: Key, val: Val, added: bool)
      reads this`ht0, this`ht1, this`rehashidx, this`canResize, this`freed, ht0.table, ht1.table
    {
      && (added ==>
            && Contents() == before + multiset{Entry(StoredKey(dtype, key), StoredVal(dtype, val))}
            && freed == log
            && (Consistent(dtype) ==> forall e :: e in before ==> !Matches(dtype, key, e.key)))
      && (!added ==> (Contents() == before && freed == log && CannotGrow()) || Overwritten(before, log, key, val))
      && KeepsUnique(dtype, before, Contents())
    }

    /**
     * Some entry `o` of `before` matching `key` now holds `val`, and its
     * old value went to the value destructor.
     */
    ghost predicate Overwritten(before: multiset<Entry>, log: seq<Freed>, key: Key, val: Val)
      reads this`ht0, this`ht1, this`rehashidx, this`freed, ht0.table, ht1.table
    {
      exists o: Entry :: && o in before && Matches(dtype, key, o.key)
                         && Contents() + multiset{o} == before + multiset{o.(val := StoredVal(dtype, val))}
                         && freed == log + FreeValCalls(dtype, o.val)
    }

    /**
     * `dictReplace`: answers true after adding `key` with `val`, or false
     * after giving the entry matching `key` the value `val`, the number of
     * entries unchanged.
     */
    method Replace(key: Key, val: Val) returns (added: bool)
      requires Valid()
      modifies this`ht0, this`ht1, this`rehashidx, this`freed, ht0.table, ht1.table
      ensures Valid() && fresh(Arrays() - old(Arrays()))
      ensures Replaced(old(Contents()), old(freed), key, val, added)
    {
      ghost var before := Contents();
      ghost var log := freed;
      var r := AddRaw(key);
      added := ReplaceFound(before, log, r, key, val);
      assert Replaced(before, log, key, val, added);
    }

    /** `dictReplace` once `dictAddRaw` has answered `r` for `key`. */
    method ReplaceFound(ghost before: multiset<Entry>, ghost log: seq<Freed>, r: AddResult, key: Key, val: Val)
      returns (added: bool)
      requires Valid() && freed == log
      requires AddOutcome(before, key, r)
      modifies this`freed, ht0.table, ht1.table
      ensures Valid() && Replaced(before, log, key, val, added)
    {
      match r
      case Added(s) =>
        SetVal(s, val);
        AddedThenSet(before, old(Contents()), Contents(), Entry(StoredKey(dtype, key), 0), At(s));
        AddKeepsUnique(dtype, before, key, StoredVal(dtype, val));
        added := true;
      case Existing(s) =>
        ghost var o := At(s);
        AtInContents(s);
        Overwrite(s, val);
        SetKeepsUnique(dtype, before, Contents(), o, StoredVal(dtype, val));
        added := false;
      case Refused =>
        added := false;
    }

    /**
     * `dictAddOrFind`: the new entry for `key` (its value, unset in C, is 0
     * here), or the entry already matching it; none exactly when the table
     * cannot grow. For a type whose matching keys hash alike, the new entry
     * comes exactly when no entry matched `key`.
     */
    method AddOrFind(key: Key) returns (s: Option<Slot>)
      requires Valid()
      modifies this`ht0, this`ht1, this`rehashidx, ht0.table, ht1.table
      ensures Valid() && fresh(Arrays() - old(Arrays()))
      ensures s.None? ==> Contents() == old(Contents())
      ensures s.Some? ==> SlotOk(s.value)
      ensures s.Some? ==>
                || (Matches(dtype, key, At(s.value).key) && Contents() == old(Contents()))
                || (At(s.value) == Entry(StoredKey(dtype, key), 0) && Contents() == old(Contents()) + multiset{At(s.value)})
      ensures !old(IsRehashing()) ==> (s.None? <==> old(CannotGrow()))
      ensures s.None? ==> CannotGrow()
      ensures Consistent(dtype) && s.Some? ==>
                (Contents() == old(Contents()) + multiset{Entry(StoredKey(dtype, key), 0)} <==>
                 forall e :: e in old(Contents()) ==> !Matches(dtype, key, e.key))
      ensures Consistent(dtype) && s.Some? ==>
                (Contents() == old(Contents()) <==>
                 exists e :: e in old(Contents()) && Matches(dtype, key, e.key))
    {
      ghost var before := Contents();
      var r := AddRaw(key);
      if Consistent(dtype) && !r.Refused? {
        AddDecides(before, key, r);
      }
      s := if r.Refused? then None else Some(r.slot);
    }

    /**
     * The search of `dictFind` in a dictionary with entries: a slot of an
     * entry matching `key`, or none, and then (for a type whose matching
     * keys hash alike) no entry matches.
     */
    method Lookup(key: Key) returns (s: Option<Slot>)
      requires Valid() && Size() > 0
      ensures s.Some? ==> SlotOk(s.value) && Matches(dtype, key, At(s.value).key) && At(s.value) in Contents()
      ensures s.None? && Consistent(dtype) ==> forall e :: e in Contents() ==> !Matches(dtype, key, e.key)
    {
      NonEmptyHasBuckets();
      s := FindSlot(key, dtype.hashFunction(key));
      if s.Some? {
        AtInContents(s.value);
      } else if Consistent(dtype) {
        AbsentEverywhere(key);
      }
    }

    /** `dictFind`: none on an empty dictionary, otherwise one rehash step and the lookup. */
    method Find(key: Key) returns (s: Option<Slot>)
      requires Valid()
      modifies this`ht0, this`ht1, this`rehashidx, ht0.table, ht1.table
      ensures Valid() && Contents() == old(Contents()) && fresh(Arrays() - old(Arrays()))
      ensures old(Size()) == 0 ==> s.None? && ht0 == old(ht0) && ht1 == old(ht1) && rehashidx == old(rehashidx)
      ensures s.Some? ==> SlotOk(s.value) && Matches(dtype, key, At(s.value).key) && At(s.value) in Contents()
      ensures s.None? && Consistent(dtype) ==> forall e :: e in Contents() ==> !Matches(dtype, key, e.key)
    {
      if Size() == 0 {
        SizeIsCount();
        return None;
      }
      if IsRehashing() {
        RehashStep();
      }
      s := Lookup(key);
    }

    /** `dictFetchValue`: the value of the entry `dictFind` answers. */
    method FetchValue(key: Key) returns (v: Option<Val>)
      requires Valid()
      modifies this`ht0, this`ht1, this`rehashidx, ht0.table, ht1.table
      ensures Valid() && Contents() == old(Contents()) && fresh(Arrays() - old(Arrays()))
      ensures v.Some? ==> exists e :: e in Contents() && Matches(dtype, key, e.key) && e.val == v.value
      ensures v.None? && Consistent(dtype) ==> forall e :: e in Contents() ==> !Matches(dtype, key, e.key)
    {
      var s := Find(key);
      v := if s.Some? then Some(At(s.value).val) else None;
    }

    // -------------------------------------------------------------------
    // Deleting
    // -------------------------------------------------------------------

    /**
     * The unlinking of `dictGenericDelete`: the entry `s` points at leaves
     * its chain and `used` of its table drops by one.
     */
    method Detach(s: Slot)
      requires Valid() && SlotOk(s)
      modifies this`ht0, this`ht1, Table(s.table).table
      ensures Valid() && Contents() + multiset{old(At(s))} == old(Contents())
      ensures ht0.table == old(ht0.table) && ht1.table == old(ht1.table)
      ensures s.table == 0 ==> ht0.used + 1 == old(ht0.used) && ht1 == old(ht1)
      ensures s.table == 1 ==> ht1.used + 1 == old(ht1.used) && ht0 == old(ht0)
    {
      if s.table == 0 {
        DetachFrom0(s);
      } else {
        DetachFrom1(s);
      }
    }

    /** `Detach` for an entry of `ht[0]`, at or above `rehashidx` while rehashing. */
    method DetachFrom0(s: Slot)
      requires Valid() && SlotOk(s) && s.table == 0
      modifies this`ht0, ht0.table
      ensures Valid() && Contents() + multiset{old(At(s))} == old(Contents())
      ensures ht0.table == old(ht0.table) && ht0.used + 1 == old(ht0.used)
    {
      ghost var b := ht0.table[..];
      ghost var o := At(s);
      assert b[s.index] != [];
      assert IsRehashing() ==> s.index >= rehashidx;
      ht0 := UnlinkFrom(dtype, ht0, s.index, s.pos);
      if IsRehashing() {
        EmptyBelowUpdate(b, rehashidx, s.index, b[s.index][..s.pos] + b[s.index][s.pos + 1..]);
      }
      RemoveInUnion(old(Entries(ht0)), Entries(ht0), Entries(ht1), o);
    }

    /** `Detach` for an entry of `ht[1]`. */
    method DetachFrom1(s: Slot)
      requires Valid() && SlotOk(s) && s.table == 1
      modifies this`ht1, ht1.table
      ensures Valid() && Contents() + multiset{old(At(s))} == old(Contents())
      ensures ht1.table == old(ht1.table) && ht1.used + 1 == old(ht1.used)
    {
      ghost var o := At(s);
      ht1 := UnlinkFrom(dtype, ht1, s.index, s.pos);
      RemoveInUnion(old(Entries(ht1)), Entries(ht1), Entries(ht0), o);
    }

    /**
     * What `dictGenericDelete` promises, from the entries `before` and the
     * destructor calls `log` before it: the entry it answers matched `key`
     * and left the dictionary, its key and value freed unless `nofree`;
     * with no answer nothing changed and (for a type whose matching keys
     * hash alike) no entry matches `key`.
     */
    ghost predicate Deleted(before: multiset<Entry>, log: seq<Freed>, key: Key, nofree: bool, r: Option<Entry>)
      reads this`ht0, this`ht1, this`rehashidx, this`freed, ht0.table, ht1.table
    {
      && (r.Some? ==>
            && Matches(dtype, key, r.value.key) && Contents() + multiset{r.value} == before
            && freed == log + (if nofree then [] else FreeCalls(dtype, r.value)))
      && (r.None? ==> Contents() == before && freed == log)
      && (r.None? && Consistent(dtype) ==> forall e :: e in Contents() ==> !Matches(dtype, key, e.key))
      && KeepsUnique(dtype, before, Contents())
    }

    /** `dictGenericDelete` after its rehash step. */
    method DeleteWithoutStep(key: Key, nofree: bool) returns (r: Option<Entry>)
      requires Valid() && Size() > 0
      modifies this`ht0, this`ht1, this`freed, ht0.table, ht1.table
      ensures Valid() && ht0.table == old(ht0.table) && ht1.table == old(ht1.table)
      ensures Deleted(old(Contents()), old(freed), key, nofree, r)
    {
      var s := Lookup(key);
      if s.None? {
        return None;
      }
      r := DeleteAt(s.value, key, nofree);
    }

    /** The unlinking and freeing of `dictGenericDelete` once it found `key` at `s`. */
    method DeleteAt(s: Slot, ghost key: Key, nofree: bool) returns (r: Option<Entry>)
      requires Valid() && SlotOk(s) && Matches(dtype, key, At(s).key)
      modifies this`ht0, this`ht1, this`freed, ht0.table, ht1.table
      ensures Valid() && ht0.table == old(ht0.table) && ht1.table == old(ht1.table)
      ensures r.Some? && Deleted(old(Contents()), old(freed), key, nofree, r)
    {
      ghost var before, log := Contents(), freed;
      var e := At(s);
      Detach(s);
      RemoveKeepsUnique(dtype, before, Contents(), e);
      if !nofree {
        FreeEntry(e);
      }
      r := Some(e);
      assert Valid();
      assert Deleted(before, log, key, nofree, r);
    }

    /**
     * `dictGenericDelete`: unlinks the entry matching `key` and answers it,
     * after freeing its key and value unless `nofree`; none when no entry
     * matches, the entries then unchanged.
     */
    method GenericDelete(key: Key, nofree: bool) returns (r: Option<Entry>)
      requires Valid()
      modifies this`ht0, this`ht1, this`rehashidx, this`freed, ht0.table, ht1.table
      ensures Valid() && fresh(Arrays() - old(Arrays()))
      ensures old(Size()) == 0 ==> r.None? && ht0 == old(ht0) && ht1 == old(ht1) && rehashidx == old(rehashidx)
      ensures Deleted(old(Contents()), old(freed), key, nofree, r)
    {
      if ht0.used == 0 && ht1.used == 0 {
        SizeIsCount();
        return None;
      }
      if IsRehashing() {
        RehashStep();
      }
      r := DeleteWithoutStep(key, nofree);
    }

    /** `dictDelete`: OK after removing and freeing the entry matching `key`, ERR when there is none. */
    method Delete(key: Key) returns (st: Status)
      requires Valid()
      modifies this`ht0, this`ht1, this`rehashidx, this`freed, ht0.table, ht1.table
      ensures Valid() && fresh(Arrays() - old(Arrays()))
      ensures st == Ok ==>
                exists e: Entry :: && Matches(dtype, key, e.key) && Contents() + multiset{e} == old(Contents())
                            && freed == old(freed) + FreeCalls(dtype, e)
      ensures st == Err ==> Contents() == old(Contents()) && freed == old(freed)
      ensures st == Err && Consistent(dtype) ==> forall e :: e in Contents() ==> !Matches(dtype, key, e.key)
    {
      var r := GenericDelete(key, false);
      st := if r.Some? then Ok else Err;
    }

    /** `dictUnlink`: the entry matching `key` leaves the dictionary unfreed. */
    method Unlink(key: Key) returns (r: Option<Entry>)
      requires Valid()
      modifies this`ht0, this`ht1, this`rehashidx, this`freed, ht0.table, ht1.table
      ensures Valid() && fresh(Arrays() - old(Arrays())) && freed == old(freed)
      ensures r.Some? ==> Matches(dtype, key, r.value.key) && Contents() + multiset{r.value} == old(Contents())
      ensures r.None? ==> Contents() == old(Contents())
      ensures r.None? && Consistent(dtype) ==> forall e :: e in Contents() ==> !Matches(dtype, key, e.key)
    {
      r := GenericDelete(key, true);
    }

    /** `dictFreeUnlinkedEntry`: frees the key and value of an unlinked entry; nothing for NULL. */
    method FreeUnlinkedEntry(he: Option<Entry>)
      modifies this`freed
      ensures freed == old(freed) + (if he.Some? then FreeCalls(dtype, he.value) else [])
    {
      if he.None? {
        return;
      }
      FreeEntry(he.value);
    }

    // -------------------------------------------------------------------
    // Emptying
    // -------------------------------------------------------------------

    /**
     * `dictEmpty`: `_dictClear` on `ht[0]` then `ht[1]`, each left a NULL
     * table, then not rehashing and not paused. Answers how often the
     * callback ran.
     */
    method Empty(callback: bool) returns (callbacks: nat)
      requires Valid()
      modifies this`ht0, this`ht1, this`rehashidx, this`pauserehash, this`freed
      ensures Valid() && Contents() == multiset{} && IsReset(ht0) && IsReset(ht1)
      ensures rehashidx == -1 && pauserehash == 0 && fresh(ht0.table) && fresh(ht1.table)
      ensures freed == old(freed) + FreeLog(dtype, Flatten(old(ht0.table[..]))) + FreeLog(dtype, Flatten(old(ht1.table[..])))
      ensures callbacks == if callback then CallbackCount(Visited(old(ht0.table[..]))) + CallbackCount(Visited(old(ht1.table[..]))) else 0
    {
      var log0, calls0 := ClearTable(dtype, ht0, callback);
      var log1, calls1 := ClearTable(dtype, ht1, callback);
      freed := freed + log0 + log1;
      ResetTables();
      pauserehash := 0;
      callbacks := calls0 + calls1;
    }

    /** The end of `dictEmpty`: both tables `_dictReset` to NULL, not rehashing. */
    method ResetTables()
      requires DupKeepsHash()
      modifies this`ht0, this`ht1, this`rehashidx
      ensures Valid() && Contents() == multiset{} && IsReset(ht0) && IsReset(ht1)
      ensures rehashidx == -1 && fresh(ht0.table) && fresh(ht1.table)
    {
      var a0 := new seq<Entry>[0];
      var a1 := new seq<Entry>[0];
      ht0 := HashTable(a0, 0, 0, 0);
      ht1 := HashTable(a1, 0, 0, 0);
      ResetOk(dtype, ht0);
      ResetOk(dtype, ht1);
      rehashidx := -1;
    }
  }
}
