/**
 * The dictionary iterators of dict.c: `dictGetIterator`,
 * `dictGetSafeIterator`, `dictNext` and `dictReleaseIterator`.
 *
 * An iterator walks the buckets of `ht[0]` and then, during a rehash,
 * those of `ht[1]`, handing out the entries of each chain in order. A
 * safe iterator pauses rehashing from its first `dictNext` until it is
 * released; an unsafe one takes a fingerprint of the dictionary instead
 * and checks it on release.
 */
module DictIter {
  import opened DictTable
  import opened Dict

  /**
   * The six integers `dictFingerprint` hashes: the bucket array, size and
   * count of each table. The array stands for its address.
   */
  datatype Fp = Fp(table0: array<seq<Entry>>, size0: nat, used0: nat,
                   table1: array<seq<Entry>>, size1: nat, used1: nat)

  /** `dictFingerprint`, before the integers are mixed into one hash. */
  function Fingerprint(d: Dict): Fp
    reads d`ht0, d`ht1
  {
    Fp(d.ht0.table, d.ht0.size, d.ht0.used, d.ht1.table, d.ht1.size, d.ht1.used)
  }

  /** `i` kept within `0..n`. */
  function Clamp(i: int, n: nat): (r: nat)
    ensures r <= n
  {
    if i < 0 then 0 else if i > n then n else i
  }

  /**
   * What the iterator needs of a valid dictionary: each table has as many
   * buckets as its size says, and `ht[1]` has buckets exactly while
   * rehashing.
   */
  predicate Shaped(d: Dict)
    reads d`ht0, d`ht1, d`rehashidx
  {
    && d.ht0.table.Length == d.ht0.size && d.ht1.table.Length == d.ht1.size
    && (d.IsRehashing() <==> d.ht1.size > 0)
  }

  lemma ValidShaped(d: Dict)
    requires d.Valid()
    ensures Shaped(d)
  {
  }

  /** Every entry in iteration order: the chains of `ht[0]`, then those of `ht[1]`. */
  ghost function Walk(d: Dict): seq<Entry>
    reads d`ht0, d`ht1, d.ht0.table, d.ht1.table
  {
    Flatten(d.ht0.table[..]) + Flatten(d.ht1.table[..])
  }

  /** The buckets of table `table`, given those of `ht[0]` and `ht[1]`. */
  function Buckets(b0: seq<seq<Entry>>, b1: seq<seq<Entry>>, table: nat): seq<seq<Entry>>
  {
    if table == 0 then b0 else b1
  }

  /**
   * The entries of the buckets after bucket `index` of table `table`, and
   * of all buckets of `ht[1]` after those of `ht[0]`.
   */
  ghost function Rest(b0: seq<seq<Entry>>, b1: seq<seq<Entry>>, table: nat, index: int): seq<Entry>
  {
    if table == 0 then Flatten(b0[Clamp(index + 1, |b0|)..]) + Flatten(b1)
    else Flatten(b1[Clamp(index + 1, |b1|)..])
  }

  /** The chains of the buckets from `i` on are bucket `i` followed by those after it. */
  lemma FlattenFrom(b: seq<seq<Entry>>, i: nat)
    requires i < |b|
    ensures Flatten(b[i..]) == b[i] + Flatten(b[i + 1..])
  {
    assert b[i..][1..] == b[i + 1..];
  }

  /** Entering bucket `index + 1` of table `table` takes its chain off the rest. */
  lemma RestEnter(b0: seq<seq<Entry>>, b1: seq<seq<Entry>>, table: nat, index: int)
    requires table <= 1 && index >= -1
    requires index + 1 < |Buckets(b0, b1, table)|
    ensures Rest(b0, b1, table, index) == Buckets(b0, b1, table)[index + 1] + Rest(b0, b1, table, index + 1)
  {
    FlattenFrom(Buckets(b0, b1, table), index + 1);
  }

  /** Past the last bucket of `ht[0]`, the walk goes on with bucket 0 of `ht[1]`. */
  lemma RestSwitch(b0: seq<seq<Entry>>, b1: seq<seq<Entry>>, index: int)
    requires index >= -1 && index + 1 >= |b0| && |b1| > 0
    ensures Rest(b0, b1, 0, index) == b1[0] + Rest(b0, b1, 1, 0)
  {
    assert b0[|b0|..] == [];
    assert b1[0..] == b1;
    FlattenFrom(b1, 0);
  }

  /** Past the last bucket of the last table, nothing remains. */
  lemma RestDone(b0: seq<seq<Entry>>, b1: seq<seq<Entry>>, table: nat, index: int)
    requires table <= 1 && index >= -1
    requires table == 1 || b1 == []
    requires index + 1 >= |Buckets(b0, b1, table)|
    ensures Rest(b0, b1, table, index) == []
  {
    assert Buckets(b0, b1, table)[|Buckets(b0, b1, table)|..] == [];
  }

  /**
   * The bucket `dictNext` moves to once the chain of bucket `index` of
   * table `table` is used up, given the sizes of both tables: the next
   * bucket of the same table; past the last bucket of `ht[0]` during a
   * rehash, bucket 0 of `ht[1]`; otherwise none (`more` false).
   */
  function NextPlace(table: nat, index: int, size0: nat, size1: nat, rehashing: bool): (nat, int, bool)
  {
    if index + 1 < (if table == 0 then size0 else size1) then (table, index + 1, true)
    else if rehashing && table == 0 then (1, 0, true)
    else (table, index + 1, false)
  }

  /** Buckets not yet entered from bucket `index` of table `table`. */
  function Left(table: nat, index: int, size0: nat, size1: nat): nat
  {
    if table == 0 then (size0 - Clamp(index + 1, size0)) + size1
    else size1 - Clamp(index + 1, size1)
  }

  /**
   * Moving on from an exhausted chain: the bucket moved to exists, its
   * chain followed by what lies after it is what lay after the old
   * bucket, and fewer buckets are left to enter; or nothing lay after it.
   */
  lemma NextPlaceRest(b0: seq<seq<Entry>>, b1: seq<seq<Entry>>, table: nat, index: int, rehashing: bool)
    requires table <= 1 && index >= -1 && (table == 1 ==> rehashing) && (rehashing <==> |b1| > 0)
    ensures var (t, i, more) := NextPlace(table, index, |b0|, |b1|, rehashing);
      && t <= 1 && i >= 0 && (t == 1 ==> rehashing)
      && (more ==>
            && i < |Buckets(b0, b1, t)| && Left(t, i, |b0|, |b1|) < Left(table, index, |b0|, |b1|)
            && Buckets(b0, b1, t)[i] + Rest(b0, b1, t, i) == Rest(b0, b1, table, index))
      && (!more ==> Rest(b0, b1, table, index) == [] && Rest(b0, b1, t, i) == [])
  {
    if index + 1 < |Buckets(b0, b1, table)| {
      RestEnter(b0, b1, table, index);
    } else if rehashing && table == 0 {
      RestSwitch(b0, b1, index);
    } else {
      RestDone(b0, b1, table, index);
      RestDone(b0, b1, table, index + 1);
    }
  }

  /**
   * Where an iterator stands over the buckets `b0` and `b1`: a bucket of a
   * table that exists (`ht[1]` only while rehashing), and `entry` a suffix
   * of that bucket's chain starting at `pos`, or none; not started, it has
   * none.
   */
  ghost predicate Placed(b0: seq<seq<Entry>>, b1: seq<seq<Entry>>, rehashing: bool,
                         table: nat, index: int, entry: seq<Entry>, pos: nat)
  {
    && table <= 1 && index >= -1 && (table == 1 ==> rehashing)
    && (index == -1 && table == 0 ==> entry == [])
    && (entry != [] ==>
          && 0 <= index < |Buckets(b0, b1, table)| && pos < |Buckets(b0, b1, table)[index]|
          && entry == Buckets(b0, b1, table)[index][pos..])
  }

  /**
   * An iteration over the buckets `b0` and `b1` placed as `Placed` says,
   * `nextEntry` the successors of `entry`, nothing handed out before it
   * starts, and what remains being the walk `walk` after its first
   * `handed` entries.
   */
  ghost predicate Walking(b0: seq<seq<Entry>>, b1: seq<seq<Entry>>, rehashing: bool, table: nat, index: int,
                          entry: seq<Entry>, nextEntry: seq<Entry>, pos: nat, walk: seq<Entry>, handed: nat)
  {
    && Placed(b0, b1, rehashing, table, index, entry, pos)
    && nextEntry == (if entry == [] then [] else entry[1..])
    && (index == -1 && table == 0 ==> handed == 0)
    && handed <= |walk| && walk[handed..] == nextEntry + Rest(b0, b1, table, index)
  }

  /** Handing out the head of `e` leaves its tail ahead of `rest`. */
  lemma HandOut(e: seq<Entry>, rest: seq<Entry>)
    requires e != []
    ensures e + rest == [e[0]] + (e[1..] + rest)
  {
    assert e == [e[0]] + e[1..];
  }

  /**
   * One step of `dictNext` keeps an iteration walking: what `Seek` hands
   * out is the next entry of the walk, and once it hands out nothing the
   * whole walk has been handed out.
   */
  lemma Stepped(b0: seq<seq<Entry>>, b1: seq<seq<Entry>>, rehashing: bool,
                table: nat, index: int, entry: seq<Entry>, nextEntry: seq<Entry>, pos: nat,
                walk: seq<Entry>, handed: nat,
                r: Option<Entry>, t: nat, i: int, e: seq<Entry>, next: seq<Entry>, p: nat)
    requires Walking(b0, b1, rehashing, table, index, entry, nextEntry, pos, walk, handed)
    requires Placed(b0, b1, rehashing, t, i, e, p) && !(i == -1 && t == 0)
    requires next == (if e == [] then [] else e[1..])
    requires r.Some? ==> e != [] && r.value == e[0] && nextEntry + Rest(b0, b1, table, index) == e + Rest(b0, b1, t, i)
    requires r.None? ==> e == [] && nextEntry + Rest(b0, b1, table, index) == [] && Rest(b0, b1, t, i) == []
    ensures r.Some? ==> handed < |walk| && r.value == walk[handed]
    ensures r.None? ==> handed == |walk|
    ensures Walking(b0, b1, rehashing, t, i, e, next, p, walk, if r.Some? then handed + 1 else handed)
  {
    if r.Some? {
      HandOut(e, Rest(b0, b1, t, i));
      assert walk[handed..][0] == r.value;
      assert walk[handed + 1..] == walk[handed..][1..];
    } else {
      assert |walk[handed..]| == 0;
    }
  }

  /** A multiset of a chain is the multiset of its entries. */
  lemma {:induction false} ChainBagIsMultiset(c: seq<Entry>)
    ensures ChainBag(c) == multiset(c)
  {
    if c != [] {
      ChainBagIsMultiset(c[1..]);
      assert c == [c[0]] + c[1..];
    }
  }

  /** The entries of the buckets are the entries of their chains laid end to end. */
  lemma {:induction false} BagIsFlatten(b: seq<seq<Entry>>)
    ensures Bag(b) == multiset(Flatten(b))
  {
    if b != [] {
      BagIsFlatten(b[1..]);
      ChainBagIsMultiset(b[0]);
    }
  }

  /** The iteration order lists every entry of the dictionary once. */
  lemma WalkIsContents(d: Dict)
    ensures multiset(Walk(d)) == d.Contents()
  {
    BagIsFlatten(d.ht0.table[..]);
    BagIsFlatten(d.ht1.table[..]);
  }

  /**
   * The loop of `dictNext`, from bucket `index` of table `table` with
   * current entry `entry` (successors `nextEntry`): take the successor, or
   * once the chain is used up move to the next bucket and take its chain,
   * until there is an entry to hand out (`r`) or the buckets are exhausted.
   * `b0` and `b1` are the buckets of the two tables, `t`, `i`, `e`, `next`
   * the new position, and what was to come is still to come.
   */
  method Seek(d: Dict, ghost b0: seq<seq<Entry>>, ghost b1: seq<seq<Entry>>,
              table: nat, index: int, entry: seq<Entry>, nextEntry: seq<Entry>, ghost pos: nat)
    returns (r: Option<Entry>, t: nat, i: int, e: seq<Entry>, next: seq<Entry>, ghost p: nat)
    requires Shaped(d) && b0 == d.ht0.table[..] && b1 == d.ht1.table[..]
    requires Placed(b0, b1, d.IsRehashing(), table, index, entry, pos)
    requires nextEntry == (if entry == [] then [] else entry[1..])
    ensures Placed(b0, b1, d.IsRehashing(), t, i, e, p) && !(i == -1 && t == 0)
    ensures next == (if e == [] then [] else e[1..])
    ensures r.Some? ==> e != [] && r.value == e[0] && nextEntry + Rest(b0, b1, table, index) == e + Rest(b0, b1, t, i)
    ensures r.None? ==> e == [] && nextEntry + Rest(b0, b1, table, index) == [] && Rest(b0, b1, t, i) == []
  {
    t, i, e, next, p := table, index, entry, nextEntry, pos;
    ghost var rem := next + Rest(b0, b1, t, i);
    r := None;
    while true
      invariant Placed(b0, b1, d.IsRehashing(), t, i, e, p)
      invariant next == (if e == [] then [] else e[1..])
      invariant next + Rest(b0, b1, t, i) == rem
      invariant (table, index) != (0, -1) ==> !(i == -1 && t == 0)
      decreases Left(t, i, |b0|, |b1|), |e|
    {
      if e == [] {
        NextPlaceRest(b0, b1, t, i, d.IsRehashing());
        var place := NextPlace(t, i, d.ht0.size, d.ht1.size, d.IsRehashing());
        t, i := place.0, place.1;
        if !place.2 {
          return;
        }
        e, p := d.Table(t).table[i], 0;
      } else {
        e, p := next, p + 1;
      }
      if e != [] {
        next := e[1..];
        return Some(e[0]), t, i, e, next, p;
      }
    }
  }

  /** `dictIterator` */
  class Iterator {
    const d: Dict
    const safe: bool
    var index: int
    var table: nat
    var entry: seq<Entry>
    var nextEntry: seq<Entry>
    var fingerprint: Option<Fp>
    /** The buckets of `ht[0]` and `ht[1]` when the iterator was made. */
    ghost const buckets0: seq<seq<Entry>>
    ghost const buckets1: seq<seq<Entry>>
    /** Every entry of the dictionary, in the order `dictNext` hands them out. */
    ghost const walk: seq<Entry>
    /** Where `entry` starts in its chain. */
    ghost var pos: nat
    /** How many entries of `walk` have been handed out. */
    ghost var handed: nat

    /** Whether `dictNext` has run: `!(index == -1 && table == 0)`. */
    predicate Started()
      reads this`index, this`table
    {
      !(index == -1 && table == 0)
    }

    /**
     * The dictionary has not changed since the iterator was made: its
     * tables are shaped as they were and hold the buckets it walks.
     */
    ghost predicate Unchanged()
      reads d`ht0, d`ht1, d`rehashidx, d.ht0.table, d.ht1.table
    {
      Shaped(d) && d.ht0.table[..] == buckets0 && d.ht1.table[..] == buckets1
    }

    /** A started unsafe iterator holds the dictionary's fingerprint. */
    predicate Fingerprinted()
      reads this`index, this`table, this`fingerprint, d`ht0, d`ht1
    {
      !safe && Started() ==> fingerprint == Some(Fingerprint(d))
    }

    /**
     * An iterator over a dictionary that has not changed since it was
     * made: it stands on a bucket of a table that exists, `entry` is the
     * last entry handed out (a suffix of its chain) and `nextEntry` its
     * successors, what remains is the walk after what was handed out, and
     * a started unsafe iterator's fingerprint is the dictionary's.
     */
    ghost predicate Valid()
      reads this, d`ht0, d`ht1, d`rehashidx, d.ht0.table, d.ht1.table
    {
      && walk == Flatten(buckets0) + Flatten(buckets1)
      && Unchanged()
      && Walking(buckets0, buckets1, d.IsRehashing(), table, index, entry, nextEntry, pos, walk, handed)
      && Fingerprinted()
    }

    /** `dictGetIterator`: an unsafe iterator, not started, over every entry. */
    constructor GetIterator(dict: Dict)
      requires dict.Valid()
      ensures Valid() && d == dict && !safe && !Started() && handed == 0
      ensures walk == Walk(dict)
    {
      ValidShaped(dict);
      d := dict;
      safe := false;
      table := 0;
      index := -1;
      entry := [];
      nextEntry := [];
      fingerprint := None;
      buckets0 := dict.ht0.table[..];
      buckets1 := dict.ht1.table[..];
      walk := Walk(dict);
      pos := 0;
      handed := 0;
    }

    /** `dictGetSafeIterator`: a safe iterator, not started, over every entry. */
    constructor GetSafeIterator(dict: Dict)
      requires dict.Valid()
      ensures Valid() && d == dict && safe && !Started() && handed == 0
      ensures walk == Walk(dict)
    {
      ValidShaped(dict);
      d := dict;
      safe := true;
      table := 0;
      index := -1;
      entry := [];
      nextEntry := [];
      fingerprint := None;
      buckets0 := dict.ht0.table[..];
      buckets1 := dict.ht1.table[..];
      walk := Walk(dict);
      pos := 0;
      handed := 0;
    }

    /**
     * Moves to the position `Seek` found from the current one, having
     * handed out `r`, and stores the fingerprint and the dictionary's
     * pause count.
     */
    method MoveTo(r: Option<Entry>, t: nat, i: int, e: seq<Entry>, next: seq<Entry>, ghost p: nat,
                  fp: Option<Fp>, paused: int)
      requires Valid()
      requires Placed(buckets0, buckets1, d.IsRehashing(), t, i, e, p) && !(i == -1 && t == 0)
      requires next == (if e == [] then [] else e[1..])
      requires r.Some? ==> e != [] && r.value == e[0] && nextEntry + Rest(buckets0, buckets1, table, index) == e + Rest(buckets0, buckets1, t, i)
      requires r.None? ==> e == [] && nextEntry + Rest(buckets0, buckets1, table, index) == [] && Rest(buckets0, buckets1, t, i) == []
      requires !safe ==> fp == Some(Fingerprint(d))
      modifies this`table, this`index, this`entry, this`nextEntry, this`pos, this`handed
      modifies this`fingerprint, d`pauserehash
      ensures Valid() && Started()
      ensures r.Some? ==> old(handed) < |walk| && r.value == walk[old(handed)] && handed == old(handed) + 1
      ensures r.None? ==> handed == old(handed) == |walk|
      ensures d.pauserehash == paused
    {
      Stepped(buckets0, buckets1, d.IsRehashing(), table, index, entry, nextEntry, pos, walk, handed, r, t, i, e, next, p);
      Store(t, i, e, next, p, if r.Some? then handed + 1 else handed, fp, paused);
    }

    /** Stores a position, the number handed out, the fingerprint and the pause count. */
    method Store(t: nat, i: int, e: seq<Entry>, next: seq<Entry>, ghost p: nat, ghost h: nat,
                 fp: Option<Fp>, paused: int)
      requires walk == Flatten(buckets0) + Flatten(buckets1) && Unchanged()
      requires Walking(buckets0, buckets1, d.IsRehashing(), t, i, e, next, p, walk, h)
      requires !safe && !(i == -1 && t == 0) ==> fp == Some(Fingerprint(d))
      modifies this`table, this`index, this`entry, this`nextEntry, this`pos, this`handed
      modifies this`fingerprint, d`pauserehash
      ensures Valid()
      ensures table == t && index == i && handed == h && d.pauserehash == paused
    {
      table, index, entry, nextEntry, pos, handed := t, i, e, next, p, h;
      fingerprint, d.pauserehash := fp, paused;
    }

    /**
     * `dictNext`: the next entry of the walk, or none once all of it has
     * been handed out. The first call pauses rehashing (safe) or takes the
     * fingerprint (unsafe).
     */
    method Next() returns (r: Option<Entry>)
      requires Valid()
      modifies this`table, this`index, this`entry, this`nextEntry, this`pos, this`handed
      modifies this`fingerprint, d`pauserehash
      ensures Valid() && Started()
      ensures r.Some? ==> old(handed) < |walk| && r.value == walk[old(handed)] && handed == old(handed) + 1
      ensures r.None? ==> handed == old(handed) == |walk|
      ensures d.pauserehash == old(d.pauserehash) + (if safe && !old(Started()) then 1 else 0)
    {
      // C takes the first call's step on its first pass through the
      // no-current-entry branch; not started means no current entry.
      var fp, paused := fingerprint, d.pauserehash;
      if index == -1 && table == 0 {
        if safe {
          paused := paused + 1;
        } else {
          fp := Some(Fingerprint(d));
        }
      }
      var t, i, e, next;
      ghost var p;
      r, t, i, e, next, p := Seek(d, buckets0, buckets1, table, index, entry, nextEntry, pos);
      MoveTo(r, t, i, e, next, p, fp, paused);
    }

    /**
     * `dictReleaseIterator`: a started safe iterator resumes rehashing; a
     * started unsafe one asserts the fingerprint, which `ok` reports. An
     * unsafe iterator over a dictionary that has not changed passes.
     */
    method Release() returns (ok: bool)
      modifies d`pauserehash
      ensures d.pauserehash == old(d.pauserehash) - (if Started() && safe then 1 else 0)
      ensures ok <==> !Started() || safe || fingerprint == Some(Fingerprint(d))
      ensures old(Valid()) ==> ok
    {
      ok := true;
      if !(index == -1 && table == 0) {
        if safe {
          d.pauserehash := d.pauserehash - 1;
        } else {
          ok := fingerprint == Some(Fingerprint(d));
        }
      }
    }
  }
}
