/**
 * The values the dictionary of dict.c/dict.h is made of: entries, the
 * dictionary type with its callbacks, one hash table (`dictht`), the
 * power-of-two size rule of `_dictNextPower`, and the multiset of the
 * entries a table holds.
 *
 * Keys and values are opaque pointers (natural numbers); the hash
 * function and the callbacks of `dictType` are uninterpreted functions.
 */
module DictTable {
  import opened Bits

  type Key = nat
  type Val = nat

  datatype Option<T> = None | Some(value: T)

  /** `dictEntry` without its `next` link: the chain order carries the links. */
  datatype Entry = Entry(key: Key, val: Val)

  /**
   * `dictType`. The destructors only matter through whether they are set;
   * `expandAllowed(moreMem, used, size)` receives the load ratio as the
   * pair `used`, `size` instead of a double.
   */
  datatype DictType = DictType(
    hashFunction: Key -> nat,
    keyDup: Option<Key -> Key>,
    valDup: Option<Val -> Val>,
    keyCompare: Option<(Key, Key) -> bool>,
    keyDestructor: bool,
    valDestructor: bool,
    expandAllowed: Option<(nat, nat, nat) -> bool>)

  /**
   * `dictht`: the bucket array (a zero-length array stands for a NULL
   * table), its size, `sizemask` and the number of entries. Bucket `i`
   * holds its chain from the head on.
   */
  datatype HashTable = HashTable(table: array<seq<Entry>>, size: nat, sizemask: nat, used: nat)

  /** DICT_HT_INITIAL_SIZE */
  const INITIAL_SIZE: nat := 4
  /** LONG_MAX on LP64 */
  const LONG_MAX: nat := 0x7FFF_FFFF_FFFF_FFFF
  /** 2^64: unsigned long arithmetic is modulo this */
  const ULONG_RANGE: nat := 0x1_0000_0000_0000_0000
  /** sizeof(dictEntry*) */
  const PTR_SIZE: nat := 8
  /** dict_force_resize_ratio */
  const FORCE_RESIZE_RATIO: nat := 5

  // ---------------------------------------------------------------------
  // Powers of two
  // ---------------------------------------------------------------------

  predicate PowerOfTwo(n: nat)
  {
    n == 1 || (n >= 2 && n % 2 == 0 && PowerOfTwo(n / 2))
  }

  lemma {:induction false} PowerOfTwoPow2(e: nat)
    ensures PowerOfTwo(Pow2(e))
  {
    if e > 0 {
      PowerOfTwoPow2(e - 1);
      assert Pow2(e) / 2 == Pow2(e - 1);
    }
  }

  lemma Pow2Is32()
    ensures Pow2(32) == 0x1_0000_0000
  {
    assert Pow2(8) == 256;
    Pow2Add(8, 8);
    Pow2Add(16, 16);
  }

  /** LONG_MAX + 1 is 2^63. */
  lemma LongMaxPlusOne()
    ensures Pow2(63) == LONG_MAX + 1
  {
    Pow2Is32();
    Pow2Add(32, 31);
  }

  /** One power of two below another is at most half of it. */
  lemma {:induction false} PowerOfTwoBelow(p: nat, q: nat)
    requires PowerOfTwo(p) && PowerOfTwo(q) && p < q
    ensures 2 * p <= q
  {
    if p > 1 {
      PowerOfTwoBelow(p / 2, q / 2);
    }
  }

  /**
   * `_dictNextPower`: the loop doubling `i` from DICT_HT_INITIAL_SIZE
   * until it reaches `size`.
   */
  function NextPowerFrom(i: nat, size: nat): (r: nat)
    requires PowerOfTwo(i) && i >= INITIAL_SIZE && (i == INITIAL_SIZE || i / 2 < size)
    ensures PowerOfTwo(r) && r >= size && r >= i && (r == i || r / 2 < size)
    decreases size - i
  {
    if i >= size then i else NextPowerFrom(2 * i, size)
  }

  /**
   * `_dictNextPower(size)`: the least power of two that is at least
   * `size` and at least 4; LONG_MAX + 1 once `size` reaches LONG_MAX.
   */
  function NextPower(size: nat): (r: nat)
    ensures PowerOfTwo(r) && r >= INITIAL_SIZE
    ensures size < LONG_MAX ==> r >= size && (r == INITIAL_SIZE || r / 2 < size)
    ensures size >= LONG_MAX ==> r == LONG_MAX + 1
  {
    if size >= LONG_MAX then
      LongMaxPlusOne();
      PowerOfTwoPow2(63);
      LONG_MAX + 1
    else
      NextPowerFrom(INITIAL_SIZE, size)
  }

  /** No power of two of at least `size` and 4 lies below `NextPower(size)`. */
  lemma NextPowerLeast(size: nat, p: nat)
    requires size < LONG_MAX && PowerOfTwo(p) && p >= size && p >= INITIAL_SIZE
    ensures NextPower(size) <= p
  {
    var r := NextPower(size);
    if r > INITIAL_SIZE && p < r {
      PowerOfTwoBelow(r / 2, p);
    }
  }

  /** A table size never exceeds LONG_MAX + 1. */
  lemma NextPowerBound(size: nat)
    ensures NextPower(size) <= LONG_MAX + 1
  {
    if size < LONG_MAX {
      LongMaxPlusOne();
      PowerOfTwoPow2(63);
      NextPowerLeast(size, LONG_MAX + 1);
    }
  }

  /** The exponent of a power of two. */
  function Log2(n: nat): (k: nat)
    requires PowerOfTwo(n)
    ensures Pow2(k) == n
  {
    if n == 1 then 0 else Log2(n / 2) + 1
  }

  /** The larger of two powers of two has the larger exponent. */
  lemma Log2Mono(a: nat, b: nat)
    requires PowerOfTwo(a) && PowerOfTwo(b) && a <= b
    ensures Log2(a) <= Log2(b)
  {
    if Log2(a) > Log2(b) {
      Pow2Mono(Log2(b) + 1, Log2(a));
      assert false;
    }
  }

  /** A table of at most LONG_MAX + 1 buckets has a mask narrower than a word. */
  lemma Log2Word(n: nat)
    requires PowerOfTwo(n) && n <= LONG_MAX + 1
    ensures Log2(n) < WORD
  {
    LongMaxPlusOne();
    if Log2(n) >= WORD {
      Pow2Mono(WORD, Log2(n));
      assert false;
    }
  }

  // ---------------------------------------------------------------------
  // Keys
  // ---------------------------------------------------------------------

  /** `dictCompareKeys`: `keyCompare` when set, pointer equality otherwise. */
  function CompareKeys(t: DictType, key1: Key, key2: Key): bool
  {
    match t.keyCompare
    case Some(cmp) => cmp(key1, key2)
    case None => key1 == key2
  }

  /**
   * The test of every lookup loop: `key == he->key || dictCompareKeys(...)`,
   * with `dictCompareKeys` the macro of dict.h:195-198 (`CompareKeys`).
   */
  predicate Matches(t: DictType, key: Key, stored: Key)
  {
    key == stored || CompareKeys(t, key, stored)
  }

  /** Without `keyCompare` a lookup matches exactly the identical key pointer. */
  lemma MatchesWithoutCompare(t: DictType, key: Key, stored: Key)
    requires t.keyCompare.None?
    ensures Matches(t, key, stored) <==> key == stored
  {
  }

  /** `dictSetKey`: the key an entry stores for the caller's key. */
  function StoredKey(t: DictType, key: Key): (k: Key)
    ensures t.keyDup.None? ==> k == key
  {
    match t.keyDup
    case Some(dup) => dup(key)
    case None => key
  }

  /** `dictSetVal`: the value an entry stores for the caller's value. */
  function StoredVal(t: DictType, val: Val): (v: Val)
    ensures t.valDup.None? ==> v == val
  {
    match t.valDup
    case Some(dup) => dup(val)
    case None => val
  }

  /**
   * Keys that match have equal hashes: what a dictionary type must
   * guarantee for lookups to find what was stored. The hash function and
   * `keyCompare` of dict.h:195-198 are uninterpreted, so this is an
   * assumption about the type, never a fact about the code.
   */
  ghost predicate Consistent(t: DictType)
  {
    forall a, b :: Matches(t, a, b) ==> t.hashFunction(a) == t.hashFunction(b)
  }

  /**
   * A dictionary type whose matching is an equivalence with equal hashes,
   * and whose `keyDup` copy of a key matches what the key matches: the
   * types for which a dictionary holds each key at most once.
   */
  ghost predicate KeysBehave(t: DictType)
  {
    && Consistent(t)
    && (forall a, b :: Matches(t, a, b) ==> Matches(t, b, a))
    && (forall a, b, c :: Matches(t, a, b) && Matches(t, b, c) ==> Matches(t, a, c))
    && (forall k, x :: Matches(t, StoredKey(t, k), x) <==> Matches(t, k, x))
  }

  /** No two entries of `c` (counted with multiplicity) have matching keys. */
  ghost predicate UniqueKeys(t: DictType, c: multiset<Entry>)
  {
    forall a, b :: a in c && b in c && Matches(t, a.key, b.key) ==> a == b && c[a] == 1
  }

  /** A change from `before` to `after` that keeps each key held at most once. */
  ghost predicate KeepsUnique(t: DictType, before: multiset<Entry>, after: multiset<Entry>)
  {
    KeysBehave(t) && UniqueKeys(t, before) ==> UniqueKeys(t, after)
  }

  /** Removing an entry keeps the keys unique. */
  lemma RemoveKeepsUnique(t: DictType, before: multiset<Entry>, after: multiset<Entry>, x: Entry)
    requires after + multiset{x} == before
    ensures KeepsUnique(t, before, after)
  {
    if UniqueKeys(t, before) {
      RemoveFromUnique(t, before, after, x);
    }
  }

  lemma RemoveFromUnique(t: DictType, before: multiset<Entry>, after: multiset<Entry>, x: Entry)
    requires UniqueKeys(t, before) && after + multiset{x} == before
    ensures UniqueKeys(t, after)
  {
    forall a, b | a in after && b in after && Matches(t, a.key, b.key)
      ensures a == b && after[a] == 1
    {
      assert a in before && b in before;
      assert after[a] <= before[a];
    }
  }

  /** Adding the stored copy of a key no entry matches keeps the keys unique. */
  lemma AddKeepsUnique(t: DictType, before: multiset<Entry>, key: Key, v: Val)
    requires Consistent(t) ==> forall e :: e in before ==> !Matches(t, key, e.key)
    ensures KeepsUnique(t, before, before + multiset{Entry(StoredKey(t, key), v)})
  {
    if KeysBehave(t) && UniqueKeys(t, before) {
      AddToUnique(t, before, key, v);
    }
  }

  lemma AddToUnique(t: DictType, before: multiset<Entry>, key: Key, v: Val)
    requires KeysBehave(t) && UniqueKeys(t, before)
    requires forall e :: e in before ==> !Matches(t, key, e.key)
    ensures UniqueKeys(t, before + multiset{Entry(StoredKey(t, key), v)})
  {
    var n := Entry(StoredKey(t, key), v);
    var after := before + multiset{n};
    assert Matches(t, n.key, n.key);
    assert n !in before;
    forall a, b | a in after && b in after && Matches(t, a.key, b.key)
      ensures a == b && after[a] == 1
    {
      assert a != n ==> a in before;
      assert b != n ==> b in before;
    }
  }

  /** Giving the entry `o` the value `v` keeps the keys unique. */
  lemma SetKeepsUnique(t: DictType, before: multiset<Entry>, after: multiset<Entry>, o: Entry, v: Val)
    requires o in before && after + multiset{o} == before + multiset{o.(val := v)}
    ensures KeepsUnique(t, before, after)
  {
    if UniqueKeys(t, before) {
      SetInUnique(t, before, after, o, v);
    }
  }

  lemma SetInUnique(t: DictType, before: multiset<Entry>, after: multiset<Entry>, o: Entry, v: Val)
    requires UniqueKeys(t, before) && o in before
    requires after + multiset{o} == before + multiset{o.(val := v)}
    ensures UniqueKeys(t, after)
  {
    var o2 := o.(val := v);
    assert Matches(t, o.key, o2.key);
    if o2 == o {
      MultisetCancel(after, before, multiset{o});
    } else {
      assert o2 !in before;
      assert (after + multiset{o})[o] == (before + multiset{o2})[o];
      forall a, b | a in after && b in after && Matches(t, a.key, b.key)
        ensures a == b && after[a] == 1
      {
        assert (after + multiset{o})[a] == (before + multiset{o2})[a];
        assert (after + multiset{o})[b] == (before + multiset{o2})[b];
        assert a != o2 ==> a in before;
        assert b != o2 ==> b in before;
      }
    }
  }

  /**
   * The round trip of `dictDelete` and `dictFind`: once the entry `x`
   * matching `key` left a dictionary holding each key once, no entry
   * matches `key`, so a lookup answers none.
   */
  lemma DeletedLeavesNoMatch(t: DictType, before: multiset<Entry>, after: multiset<Entry>, key: Key, x: Entry)
    requires KeysBehave(t) && UniqueKeys(t, before)
    requires Matches(t, key, x.key) && after + multiset{x} == before
    ensures forall e :: e in after ==> !Matches(t, key, e.key)
  {
    forall e | e in after
      ensures !Matches(t, key, e.key)
    {
      assert before[x] == after[x] + 1;
      assert Matches(t, key, e.key) ==> Matches(t, x.key, e.key);
    }
  }

  /**
   * The round trip of `dictAdd` and `dictFind`: after adding `key` with
   * `val` where no entry matched it, some entry matches `key` (so a lookup
   * answers one) and every entry matching it holds the stored `val`.
   */
  lemma AddedIsFound(t: DictType, before: multiset<Entry>, after: multiset<Entry>, key: Key, val: Val)
    requires KeysBehave(t)
    requires forall e :: e in before ==> !Matches(t, key, e.key)
    requires after == before + multiset{Entry(StoredKey(t, key), StoredVal(t, val))}
    ensures exists e :: e in after && Matches(t, key, e.key)
    ensures forall e :: e in after && Matches(t, key, e.key) ==> e.val == StoredVal(t, val)
  {
    var n := Entry(StoredKey(t, key), StoredVal(t, val));
    assert Matches(t, StoredKey(t, key), key);
    assert Matches(t, key, n.key) && n in after;
  }

  /** No entry of `chain` matches `key`. */
  ghost predicate NoMatch(t: DictType, chain: seq<Entry>, key: Key)
  {
    forall e :: e in chain ==> !Matches(t, key, e.key)
  }

  // ---------------------------------------------------------------------
  // Buckets
  // ---------------------------------------------------------------------

  /** The bucket of hash `h` in a table of `size` buckets: `h & sizemask`. */
  function Bucket(h: nat, size: nat): (i: nat)
    requires size > 0
    ensures i < size
  {
    h % size
  }

  /**
   * With 2^k buckets, masking a `w`-bit hash with `sizemask` picks the
   * same bucket as the remainder (`w` = 64 for an unsigned long).
   */
  lemma BucketIsMask(h: nat, size: nat, sizemask: nat, k: nat, w: nat)
    requires size == Pow2(k) && sizemask == size - 1 && k <= w
    ensures And(h, sizemask, w) == Bucket(h, size)
  {
    AndMask(h, k, w);
  }

  /** Every entry of `chain` hashes to bucket `i` of a table of `size` buckets. */
  ghost predicate Hashed(t: DictType, chain: seq<Entry>, i: nat, size: nat)
    requires size > 0
  {
    forall e :: e in chain ==> Bucket(t.hashFunction(e.key), size) == i
  }

  /** The entries of the buckets, bucket by bucket, each chain from its head. */
  function Flatten(buckets: seq<seq<Entry>>): (s: seq<Entry>)
  {
    if buckets == [] then [] else buckets[0] + Flatten(buckets[1..])
  }

  lemma {:induction false} FlattenAppend(a: seq<seq<Entry>>, b: seq<seq<Entry>>)
    ensures Flatten(a + b) == Flatten(a) + Flatten(b)
  {
    if a != [] {
      assert (a + b)[1..] == a[1..] + b;
      FlattenAppend(a[1..], b);
    } else {
      assert a + b == b;
    }
  }

  /** Buckets that are all empty hold nothing. */
  lemma {:induction false} FlattenEmpty(b: seq<seq<Entry>>)
    requires forall i :: 0 <= i < |b| ==> b[i] == []
    ensures Flatten(b) == []
  {
    if b != [] {
      FlattenEmpty(b[1..]);
    }
  }

  /** The entries of the buckets in order are as many as in the bag. */
  lemma {:induction false} FlattenSize(b: seq<seq<Entry>>)
    ensures |Flatten(b)| == |Bag(b)|
  {
    if b != [] {
      FlattenSize(b[1..]);
      ChainBagSize(b[0]);
    }
  }

  /** Adding the same entries to two multisets keeps them apart or equal. */
  lemma MultisetCancel(a: multiset<Entry>, b: multiset<Entry>, c: multiset<Entry>)
    requires a + c == b + c
    ensures a == b
  {
    forall x
      ensures a[x] == b[x]
    {
      assert (a + c)[x] == (b + c)[x];
    }
  }

  lemma UnionAssoc(a: multiset<Entry>, b: multiset<Entry>, c: multiset<Entry>)
    ensures a + (b + c) == a + b + c
  {
  }

  /** The multiset of the entries of a chain. */
  function ChainBag(c: seq<Entry>): multiset<Entry>
  {
    if c == [] then multiset{} else multiset{c[0]} + ChainBag(c[1..])
  }

  lemma {:induction false} ChainBagSize(c: seq<Entry>)
    ensures |ChainBag(c)| == |c|
  {
    if c != [] {
      ChainBagSize(c[1..]);
    }
  }

  lemma {:induction false} ChainBagAppend(a: seq<Entry>, b: seq<Entry>)
    ensures ChainBag(a + b) == ChainBag(a) + ChainBag(b)
  {
    if a == [] {
      assert a + b == b;
    } else {
      assert (a + b)[1..] == a[1..] + b;
      ChainBagAppend(a[1..], b);
    }
  }

  /** One more entry of a chain's prefix. */
  lemma ChainBagSnoc(c: seq<Entry>, i: nat)
    requires i < |c|
    ensures ChainBag(c[..i + 1]) == ChainBag(c[..i]) + multiset{c[i]}
  {
    assert c[..i + 1] == c[..i] + [c[i]];
    ChainBagAppend(c[..i], [c[i]]);
    assert ChainBag([c[i]]) == multiset{c[i]};
  }

  /** An entry is in the multiset of a chain exactly when it is in the chain. */
  lemma {:induction false} ChainBagMember(c: seq<Entry>, e: Entry)
    ensures e in ChainBag(c) <==> e in c
  {
    if c != [] {
      ChainBagMember(c[1..], e);
      assert c == [c[0]] + c[1..];
    }
  }

  /** The multiset of entries held by the buckets. */
  function Bag(buckets: seq<seq<Entry>>): multiset<Entry>
  {
    if buckets == [] then multiset{} else ChainBag(buckets[0]) + Bag(buckets[1..])
  }

  lemma {:induction false} BagAppend(a: seq<seq<Entry>>, b: seq<seq<Entry>>)
    ensures Bag(a + b) == Bag(a) + Bag(b)
  {
    if a == [] {
      assert a + b == b;
    } else {
      assert (a + b)[1..] == a[1..] + b;
      BagAppend(a[1..], b);
    }
  }

  /** The entries around bucket `i`. */
  lemma BagSplit(b: seq<seq<Entry>>, i: nat)
    requires i < |b|
    ensures Bag(b) == Bag(b[..i]) + ChainBag(b[i]) + Bag(b[i + 1..])
  {
    var tail := [b[i]] + b[i + 1..];
    assert tail[1..] == b[i + 1..];
    assert Bag(tail) == ChainBag(b[i]) + Bag(b[i + 1..]);
    assert b == b[..i] + tail;
    BagAppend(b[..i], tail);
  }

  /** Replacing the chain of bucket `i` replaces its entries in the bag. */
  lemma BagUpdate(b: seq<seq<Entry>>, i: nat, c: seq<Entry>)
    requires i < |b|
    ensures Bag(b[i := c]) + ChainBag(b[i]) == Bag(b) + ChainBag(c)
  {
    BagSplit(b, i);
    BagSplit(b[i := c], i);
    assert b[i := c][..i] == b[..i];
    assert b[i := c][i + 1..] == b[i + 1..];
  }

  /** Pushing `e` on the head of bucket `i` adds `e` to the bag. */
  lemma BagPush(b: seq<seq<Entry>>, i: nat, e: Entry)
    requires i < |b|
    ensures Bag(b[i := [e] + b[i]]) == Bag(b) + multiset{e}
  {
    var c := [e] + b[i];
    BagUpdate(b, i, c);
    assert c[1..] == b[i];
    assert ChainBag(c) == multiset{e} + ChainBag(b[i]);
    MultisetCancel(Bag(b[i := c]), Bag(b) + multiset{e}, ChainBag(b[i]));
  }

  /** Emptying bucket `i` takes its chain out of the bag. */
  lemma BagClear(b: seq<seq<Entry>>, i: nat)
    requires i < |b|
    ensures Bag(b[i := []]) + ChainBag(b[i]) == Bag(b)
  {
    BagUpdate(b, i, []);
  }

  /** Unlinking position `p` of a chain takes that entry out of its multiset. */
  lemma {:induction false} ChainBagUnlink(c: seq<Entry>, p: nat)
    requires p < |c|
    ensures ChainBag(c[..p] + c[p + 1..]) + multiset{c[p]} == ChainBag(c)
  {
    if p == 0 {
      assert c[..p] + c[p + 1..] == c[1..];
    } else {
      var d := c[1..];
      ChainBagUnlink(d, p - 1);
      assert (c[..p] + c[p + 1..])[0] == c[0];
      assert (c[..p] + c[p + 1..])[1..] == d[..p - 1] + d[p..];
    }
  }

  /** Overwriting position `p` of a chain swaps one entry of its multiset. */
  lemma {:induction false} ChainBagSet(c: seq<Entry>, p: nat, x: Entry)
    requires p < |c|
    ensures ChainBag(c[p := x]) + multiset{c[p]} == ChainBag(c) + multiset{x}
  {
    var c2 := c[p := x];
    if p == 0 {
      assert c2[1..] == c[1..];
      assert ChainBag(c2) == multiset{x} + ChainBag(c[1..]);
    } else {
      var d := c[1..];
      ChainBagSet(d, p - 1, x);
      assert c2[1..] == d[p - 1 := x];
      assert ChainBag(c2) == multiset{c[0]} + ChainBag(d[p - 1 := x]);
      assert ChainBag(c) == multiset{c[0]} + ChainBag(d);
      forall y
        ensures (ChainBag(c2) + multiset{c[p]})[y] == (ChainBag(c) + multiset{x})[y]
      {
        assert (ChainBag(d[p - 1 := x]) + multiset{d[p - 1]})[y] == (ChainBag(d) + multiset{x})[y];
      }
    }
  }

  /** Unlinking position `p` of bucket `i` takes that entry out of the bag. */
  lemma BagUnlink(b: seq<seq<Entry>>, i: nat, p: nat)
    requires i < |b| && p < |b[i]|
    ensures Bag(b[i := b[i][..p] + b[i][p + 1..]]) + multiset{b[i][p]} == Bag(b)
  {
    var c := b[i][..p] + b[i][p + 1..];
    BagUpdate(b, i, c);
    ChainBagUnlink(b[i], p);
    var nb, ob := Bag(b[i := c]), Bag(b);
    forall y
      ensures (nb + multiset{b[i][p]})[y] == ob[y]
    {
      assert (nb + ChainBag(b[i]))[y] == (ob + ChainBag(c))[y];
      assert (ChainBag(c) + multiset{b[i][p]})[y] == ChainBag(b[i])[y];
    }
  }

  /** Overwriting position `p` of bucket `i` swaps one entry of the bag. */
  lemma BagSet(b: seq<seq<Entry>>, i: nat, p: nat, x: Entry)
    requires i < |b| && p < |b[i]|
    ensures Bag(b[i := b[i][p := x]]) + multiset{b[i][p]} == Bag(b) + multiset{x}
  {
    var c := b[i][p := x];
    BagUpdate(b, i, c);
    ChainBagSet(b[i], p, x);
    var nb, ob := Bag(b[i := c]), Bag(b);
    forall y
      ensures (nb + multiset{b[i][p]})[y] == (ob + multiset{x})[y]
    {
      assert (nb + ChainBag(b[i]))[y] == (ob + ChainBag(c))[y];
      assert (ChainBag(c) + multiset{b[i][p]})[y] == (ChainBag(b[i]) + multiset{x})[y];
    }
  }

  /** A bucket holds part of the entries. */
  lemma BucketWithin(b: seq<seq<Entry>>, i: nat)
    requires i < |b|
    ensures ChainBag(b[i]) <= Bag(b) && |b[i]| <= |Bag(b)|
  {
    BagSplit(b, i);
    ChainBagSize(b[i]);
  }

  /** Buckets that are all empty hold nothing. */
  lemma {:induction false} BagEmpty(b: seq<seq<Entry>>)
    requires forall i :: 0 <= i < |b| ==> b[i] == []
    ensures Bag(b) == multiset{}
  {
    if b != [] {
      BagEmpty(b[1..]);
    }
  }

  /** The bag is empty exactly when every bucket is. */
  lemma {:induction false} BagZero(b: seq<seq<Entry>>)
    ensures |Bag(b)| == 0 <==> forall j :: 0 <= j < |b| ==> b[j] == []
  {
    if b != [] {
      BagZero(b[1..]);
      ChainBagSize(b[0]);
      if |Bag(b)| == 0 {
        forall j | 0 <= j < |b|
          ensures b[j] == []
        {
          if j > 0 {
            assert b[j] == b[1..][j - 1];
          }
        }
      } else if b[0] == [] {
        var j :| 0 <= j < |b[1..]| && b[1..][j] != [];
        assert b[j + 1] != [];
      }
    }
  }

  /** The buckets below `r` are empty. */
  ghost predicate EmptyBelow(b: seq<seq<Entry>>, r: int)
  {
    forall i :: 0 <= i < r && i < |b| ==> b[i] == []
  }

  /** Changing a bucket at or above `r` keeps the buckets below `r` empty. */
  lemma EmptyBelowUpdate(b: seq<seq<Entry>>, r: int, i: nat, c: seq<Entry>)
    requires EmptyBelow(b, r) && r <= i < |b|
    ensures EmptyBelow(b[i := c], r)
  {
  }

  /**
   * If the buckets below `r` are empty but the bag is not, some bucket at
   * or above `r` is not empty: the rehash cursor stays inside the table.
   */
  lemma NonEmptyAbove(b: seq<seq<Entry>>, r: nat) returns (j: nat)
    requires r <= |b| && |Bag(b)| > 0
    requires EmptyBelow(b, r)
    ensures r <= j < |b| && b[j] != []
  {
    if forall i :: r <= i < |b| ==> b[i] == [] {
      BagEmpty(b);
      assert false;
    }
    j :| r <= j < |b| && b[j] != [];
  }

  /** An entry of the bag sits in one of the buckets. */
  lemma {:induction false} BagMember(b: seq<seq<Entry>>, e: Entry) returns (i: nat)
    requires e in Bag(b)
    ensures i < |b| && e in b[i]
  {
    ChainBagMember(b[0], e);
    if e in b[0] {
      i := 0;
    } else {
      var j := BagMember(b[1..], e);
      i := j + 1;
    }
  }

  // ---------------------------------------------------------------------
  // A table
  // ---------------------------------------------------------------------

  /**
   * Well-formed buckets of a `dictht`: `size` of them, a power of two,
   * `sizemask` one less (both 0 for a NULL table), `used` counts the
   * entries, and each entry sits in the bucket its hash selects.
   */
  ghost predicate BucketsOk(t: DictType, b: seq<seq<Entry>>, size: nat, sizemask: nat, used: nat)
  {
    && |b| == size
    && (size == 0 ==> sizemask == 0)
    && (size > 0 ==> PowerOfTwo(size) && size <= LONG_MAX + 1 && sizemask == size - 1)
    && used == |Bag(b)|
    && (forall i :: 0 <= i < |b| ==> Hashed(t, b[i], i, size))
  }

  /**
   * Replacing the chain of bucket `i` by another chain of entries that
   * hash there keeps the buckets well formed, with `used` adjusted by the
   * difference in length.
   */
  lemma BucketsReplace(t: DictType, b: seq<seq<Entry>>, size: nat, sizemask: nat, used: nat,
                       i: nat, c: seq<Entry>)
    requires BucketsOk(t, b, size, sizemask, used) && i < size && Hashed(t, c, i, size)
    ensures used + |c| >= |b[i]|
    ensures BucketsOk(t, b[i := c], size, sizemask, used + |c| - |b[i]|)
    ensures Bag(b[i := c]) + ChainBag(b[i]) == Bag(b) + ChainBag(c)
  {
    var nb := b[i := c];
    BagUpdate(b, i, c);
    ChainBagSize(b[i]);
    ChainBagSize(c);
    assert |Bag(nb) + ChainBag(b[i])| == |Bag(nb)| + |b[i]|;
    assert |Bag(b) + ChainBag(c)| == |Bag(b)| + |c|;
    forall j | 0 <= j < |nb|
      ensures Hashed(t, nb[j], j, size)
    {
      if j != i {
        assert nb[j] == b[j];
      }
    }
  }

  /** The entries of a table. */
  ghost function Entries(ht: HashTable): multiset<Entry>
    reads ht.table
  {
    Bag(ht.table[..])
  }

  /** A well-formed `dictht`. */
  ghost predicate TableOk(t: DictType, ht: HashTable)
    reads ht.table
  {
    ht.table.Length == ht.size && BucketsOk(t, ht.table[..], ht.size, ht.sizemask, ht.used)
  }

  /** `_dictReset`'s state: a NULL table. */
  ghost predicate IsReset(ht: HashTable)
  {
    ht.table.Length == 0 && ht.size == 0 && ht.sizemask == 0 && ht.used == 0
  }

  lemma ResetOk(t: DictType, ht: HashTable)
    requires IsReset(ht)
    ensures TableOk(t, ht) && Entries(ht) == multiset{}
  {
    assert ht.table[..] == [];
  }

  /** A freshly allocated table of `size` empty buckets. */
  lemma EmptyTableOk(t: DictType, ht: HashTable)
    requires ht.table.Length == ht.size && ht.size > 0 && PowerOfTwo(ht.size)
    requires ht.size <= LONG_MAX + 1 && ht.sizemask == ht.size - 1 && ht.used == 0
    requires forall i :: 0 <= i < ht.table.Length ==> ht.table[i] == []
    ensures TableOk(t, ht) && Entries(ht) == multiset{}
  {
    BagEmpty(ht.table[..]);
  }

  /**
   * A lookup that finds no match in the bucket of `key`'s hash finds
   * none anywhere in the table, for a type whose matching keys hash alike.
   */
  lemma NoMatchInTable(t: DictType, ht: HashTable, key: Key)
    requires TableOk(t, ht) && Consistent(t)
    requires ht.size > 0 ==> NoMatch(t, ht.table[Bucket(t.hashFunction(key), ht.size)], key)
    ensures forall e :: e in Entries(ht) ==> !Matches(t, key, e.key)
  {
    forall e | e in Entries(ht)
      ensures !Matches(t, key, e.key)
    {
      var i := BagMember(ht.table[..], e);
      assert e in ht.table[i];
    }
  }

  // ---------------------------------------------------------------------
  // Chain surgery on one table
  // ---------------------------------------------------------------------

  /**
   * `de->next = ht->table[index]; ht->table[index] = de; ht->used++`:
   * `e` becomes the head of the bucket its hash selects.
   */
  method PushOnto(t: DictType, ht: HashTable, e: Entry) returns (r: HashTable)
    requires TableOk(t, ht) && ht.size > 0
    modifies ht.table
    ensures r == ht.(used := ht.used + 1) && TableOk(t, r)
    ensures Entries(r) == old(Entries(ht)) + multiset{e}
    ensures var h := Bucket(t.hashFunction(e.key), ht.size);
            ht.table[..] == old(ht.table[..])[h := [e] + old(ht.table[h])]
  {
    var h := Bucket(t.hashFunction(e.key), ht.size);
    var b := ht.table[..];
    var c := [e] + b[h];
    BucketsReplace(t, b, ht.size, ht.sizemask, ht.used, h, c);
    BagPush(b, h, e);
    ht.table[h] := c;
    assert ht.table[..] == b[h := c];
    r := ht.(used := ht.used + 1);
  }

  /**
   * The unlinking of `dictGenericDelete`: position `p` of bucket `i`
   * leaves its chain (`prevHe->next = he->next`, or the bucket head for
   * the first entry) and `used` drops by one.
   */
  method UnlinkFrom(t: DictType, ht: HashTable, i: nat, p: nat) returns (r: HashTable)
    requires TableOk(t, ht) && i < ht.size && p < |ht.table[i]|
    modifies ht.table
    ensures r.used + 1 == ht.used && r == ht.(used := r.used) && TableOk(t, r)
    ensures Entries(r) + multiset{old(ht.table[i][p])} == old(Entries(ht))
    ensures ht.table[..] == old(ht.table[..])[i := old(ht.table[i][..p] + ht.table[i][p + 1..])]
  {
    var b := ht.table[..];
    var c := b[i][..p] + b[i][p + 1..];
    BucketWithin(b, i);
    BucketsReplace(t, b, ht.size, ht.sizemask, ht.used, i, c);
    BagUnlink(b, i, p);
    ht.table[i] := c;
    assert ht.table[..] == b[i := c];
    r := ht.(used := ht.used - 1);
  }

  /** `dictSetVal` on the entry at position `p` of bucket `i`. */
  method SetValIn(t: DictType, ht: HashTable, i: nat, p: nat, val: Val)
    requires TableOk(t, ht) && i < ht.size && p < |ht.table[i]|
    modifies ht.table
    ensures TableOk(t, ht)
    ensures var x := Entry(old(ht.table[i][p].key), StoredVal(t, val));
            && ht.table[..] == old(ht.table[..])[i := old(ht.table[i])[p := x]]
            && Entries(ht) + multiset{old(ht.table[i][p])} == old(Entries(ht)) + multiset{x}
  {
    var b: seq<seq<Entry>> := ht.table[..];
    var x := Entry(b[i][p].key, StoredVal(t, val));
    var c := b[i][p := x];
    assert forall e: Entry :: e in c ==> e == x || e in b[i];
    BucketsReplace(t, b, ht.size, ht.sizemask, ht.used, i, c);
    BagSet(b, i, p, x);
    ht.table[i] := c;
    assert ht.table[..] == b[i := c];
  }
}
