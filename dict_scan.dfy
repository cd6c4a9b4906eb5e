/**
 * `dictScan` of dict.c: the stateless walk over a dictionary driven by a
 * reverse-binary cursor.  A call visits the bucket the cursor names in
 * `ht[0]` (outside a rehash) or in the smaller table and then every
 * bucket of the larger table that expands it (during a rehash), and
 * returns the next cursor.
 *
 * The scan callback `fn` and the bucket callback `bucketfn` are modelled
 * by what they receive: the entries handed to `fn`, in order, and the
 * buckets handed to `bucketfn` when one is given.  The callbacks do not
 * change the dictionary here.
 */
module DictScan {
  import opened Bits
  import opened DictTable
  import opened Dict

  /** A bucket handed to `bucketfn`: `&d->ht[table].table[index]`. */
  datatype BucketRef = BucketRef(table: nat, index: nat)

  /**
   * The entries of buckets `idx` of `b`, bucket after bucket, each chain
   * from its head (an index past the table contributes nothing).
   */
  function Chains(b: seq<seq<Entry>>, idx: seq<nat>): seq<Entry>
  {
    if idx == [] then []
    else Chains(b, idx[..|idx| - 1]) + (if idx[|idx| - 1] < |b| then b[idx[|idx| - 1]] else [])
  }

  /** Visiting one more bucket appends its chain to what the scan has emitted. */
  lemma ChainsSnoc(e: seq<Entry>, b: seq<seq<Entry>>, idx: seq<nat>, x: nat)
    requires x < |b|
    ensures e + Chains(b, idx + [x]) == (e + Chains(b, idx)) + b[x]
  {
    assert (idx + [x])[..|idx|] == idx;
  }

  /** The buckets whose reversals are the `n` counters from `c0` on, in order. */
  function Counted(c0: nat, n: nat, k: nat): (s: seq<nat>)
    ensures |s| == n
    ensures forall t :: 0 <= t < n ==> s[t] == Reverse(c0 + t, k) && s[t] < Pow2(k)
  {
    var s := seq(n, t requires 0 <= t < n => Reverse(c0 + t, k));
    assert forall t :: 0 <= t < n ==> s[t] == Reverse(c0 + t, k);
    s
  }

  lemma CountedSnoc(c0: nat, i: nat, n: nat, k: nat)
    requires n == i + 1
    ensures Counted(c0, n, k) == Counted(c0, i, k) + [Reverse(c0 + i, k)]
  {
  }

  /**
   * The buckets of a table of 2^k buckets that the expansion loop of a
   * scan visits from cursor `v` when the smaller table has 2^j buckets:
   * the reversed cursor counts up from `Reverse(v, k)` to the next
   * multiple of 2^(k-j).
   */
  function Expansions(v: nat, j: nat, k: nat): (s: seq<nat>)
    requires j <= k
    ensures |s| == Pow2(k - j) - Reverse(v, k) % Pow2(k - j)
  {
    Counted(Reverse(v, k), Pow2(k - j) - Reverse(v, k) % Pow2(k - j), k)
  }

  /** The `t`-th bucket the expansion loop visits, and where it lies. */
  lemma ExpansionAt(v: nat, j: nat, k: nat, t: nat)
    requires j <= k && t < |Expansions(v, j, k)|
    ensures Reverse(v, k) + t < Pow2(k)
    ensures Expansions(v, j, k)[t] == Reverse(Reverse(v, k) + t, k)
    ensures Expansions(v, j, k)[t] % Pow2(j) == v % Pow2(j)
  {
    ExpansionElement(v, j, k, t);
    ExpansionBucket(v, t, j, k);
  }

  lemma ExpansionElement(v: nat, j: nat, k: nat, t: nat)
    requires j <= k && t < |Expansions(v, j, k)|
    ensures Expansions(v, j, k)[t] == Reverse(Reverse(v, k) + t, k)
  {
    var e := Expansions(v, j, k);
    assert e == Counted(Reverse(v, k), |e|, k);
  }

  /**
   * The expansion loop stays in the larger table and on the expansions
   * of the bucket `v` names in the smaller one: every bucket it visits
   * agrees with `v` on the low `j` bits, and none is visited twice.
   */
  lemma ExpansionsSound(v: nat, j: nat, k: nat)
    requires j <= k
    ensures forall t :: 0 <= t < |Expansions(v, j, k)| ==>
              Expansions(v, j, k)[t] < Pow2(k) && Expansions(v, j, k)[t] % Pow2(j) == v % Pow2(j)
    ensures forall s, t :: 0 <= s < t < |Expansions(v, j, k)| ==>
              Expansions(v, j, k)[s] != Expansions(v, j, k)[t]
  {
    var e := Expansions(v, j, k);
    forall t | 0 <= t < |e|
      ensures e[t] % Pow2(j) == v % Pow2(j)
    {
      ExpansionAt(v, j, k, t);
    }
    forall s, t | 0 <= s < t < |e|
      ensures e[s] != e[t]
    {
      ExpansionDistinct(v, j, k, s, t);
    }
  }

  lemma ExpansionDistinct(v: nat, j: nat, k: nat, s: nat, t: nat)
    requires j <= k && s < t < |Expansions(v, j, k)|
    ensures Expansions(v, j, k)[s] != Expansions(v, j, k)[t]
  {
    ExpansionAt(v, j, k, s);
    ExpansionAt(v, j, k, t);
    ReverseReverse(Reverse(v, k) + s, k);
    ReverseReverse(Reverse(v, k) + t, k);
  }

  /**
   * From a cursor with no expansion bits (every cursor the smaller table
   * alone produces) the loop visits every expansion of the bucket.
   */
  lemma ExpansionsComplete(v: nat, j: nat, k: nat, b: nat)
    requires j <= k && Reverse(v, k) % Pow2(k - j) == 0
    requires b < Pow2(k) && b % Pow2(j) == v % Pow2(j)
    ensures b in Expansions(v, j, k)
  {
    ExpansionsCovers(v, j, k, b);
    var t := Expansion(b, j, k);
    assert Expansions(v, j, k)[t] == b;
  }

  lemma ExpansionsCovers(v: nat, j: nat, k: nat, b: nat)
    requires j <= k && Reverse(v, k) % Pow2(k - j) == 0
    requires b < Pow2(k) && b % Pow2(j) == v % Pow2(j)
    ensures Expansion(b, j, k) < |Expansions(v, j, k)|
    ensures Reverse(Reverse(v, k) + Expansion(b, j, k), k) == b
  {
    ExpansionCovers(v, b, j, k);
  }

  /** The cursor increment of `dictScan` for the mask `m`: `v |= ~m; v = rev(v); v++; v = rev(v);`. */
  function NextCursor(v: nat, m: nat, w: nat): (r: nat)
  {
    Reverse(Inc(Reverse(Or(v, Not(m, w), w), w), w), w)
  }

  /**
   * The state of the expansion loop after `n` turns from the reversed
   * counter `c0`: the counter has not passed the next multiple of
   * 2^(k-j), the loop goes on exactly while it has not reached it, and
   * the cursor is the reversal of the counter.
   */
  ghost predicate Turning(v: nat, more: bool, c0: nat, n: nat, j: nat, k: nat)
    requires j <= k
  {
    && c0 < Pow2(k)
    && c0 % Pow2(k - j) + n <= Pow2(k - j)
    && (more <==> c0 % Pow2(k - j) + n < Pow2(k - j))
    && v % Pow2(k) == Reverse((c0 + n) % Pow2(k), k)
    && (!more ==> v == Reverse((c0 + n) % Pow2(k), k))
  }

  /** The loop starts on the cursor it is given, with the counter at its reversal. */
  lemma TurningStart(v0: nat, j: nat, k: nat)
    requires j <= k
    ensures Turning(v0, true, Reverse(v0, k), 0, j, k)
  {
    ReverseInvolution(v0, k);
    ModSmall(Reverse(v0, k), Pow2(k));
  }

  /**
   * When the loop stops it has made one turn per expansion and left the
   * cursor where a scan of the smaller table alone would.
   */
  lemma TurningEnd(v: nat, more: bool, v0: nat, n: nat, j: nat, k: nat, w: nat)
    requires j <= k <= w && !more && Turning(v, more, Reverse(v0, k), n, j, k)
    ensures Counted(Reverse(v0, k), n, k) == Expansions(v0, j, k)
    ensures v == CursorStep(v0, j, w)
  {
    ExpansionEnd(v0, Reverse(v0, k), n, j, k, w);
  }

  /**
   * One turn of the expansion loop: the cursor names bucket `c0 + i`
   * reversed, the step moves it to the reversal of `c0 + i + 1`, and the
   * loop goes on exactly while the counter has not reached the next
   * multiple of 2^(k-j).
   */
  lemma ExpansionTurn(v: nat, c0: nat, i: nat, j: nat, k: nat, w: nat)
    requires j <= k <= w && Turning(v, true, c0, i, j, k)
    ensures Turning(NextCursor(v, Mask(k), w),
                    And(NextCursor(v, Mask(k), w), Xor(Mask(j), Mask(k), w), w) != 0,
                    c0, i + 1, j, k)
  {
    ExpansionCounter(c0, i, j, k);
    ModSmall(c0 + i, Pow2(k));
    ExpansionStep(v, c0 + i, k, w);
    var v' := CursorStep(v, k, w);
    ModSmall(v', Pow2(k));
    ReverseReverse((c0 + i + 1) % Pow2(k), k);
    ScanStopIff(v', j, k, w);
  }

  /** The `while (de)` loop handing the entries of one chain to `fn`. */
  method EmitChain(chain: seq<Entry>, emitted: seq<Entry>) returns (out: seq<Entry>)
    ensures out == emitted + chain
  {
    var de := chain;
    out := emitted;
    while de != []
      invariant |de| <= |chain| && de == chain[|chain| - |de|..]
      invariant out == emitted + chain[..|chain| - |de|]
      decreases |de|
    {
      ghost var n := |chain| - |de|;
      assert chain[..n + 1] == chain[..n] + [de[0]];
      out := out + [de[0]];
      de := de[1..];
    }
    assert chain[..|chain|] == chain;
  }

  /** `v & m1`: the bucket the cursor names at the start of turn `i` of the expansion loop. */
  method ExpansionIndex(v: nat, m1: nat, w: nat, ghost c0: nat, ghost i: nat, ghost j: nat, ghost k: nat)
    returns (idx: nat)
    requires j <= k <= w && m1 == Mask(k) && Turning(v, true, c0, i, j, k)
    ensures idx == Reverse(c0 + i, k) && idx < Pow2(k)
  {
    ExpansionCounter(c0, i, j, k);
    ModSmall(c0 + i, Pow2(k));
    AndMask(v, k, w);
    idx := And(v, m1, w);
  }

  /**
   * The end of turn `i` of the expansion loop: `v` steps to the next
   * cursor of the larger table's mask `m1`, and the loop goes on while
   * that cursor has expansion bits, `v & (m0 ^ m1)`.
   */
  method StepCursor(v: nat, m0: nat, m1: nat, w: nat, ghost c0: nat, ghost i: nat, ghost j: nat, ghost k: nat)
    returns (next: nat, more: bool)
    requires j <= k <= w && m0 == Mask(j) && m1 == Mask(k) && Turning(v, true, c0, i, j, k)
    ensures Turning(next, more, c0, i + 1, j, k)
  {
    ExpansionTurn(v, c0, i, j, k, w);
    next := NextCursor(v, m1, w);
    more := And(next, Xor(m0, m1, w), w) != 0;
  }

  /**
   * What the expansion loop over the buckets `b` of the larger table
   * (2^k of them) has done after `n` turns from cursor `v0`: the cursor
   * state, the buckets visited so far and the entries handed to `fn` so far.
   */
  ghost predicate Expanding(b: seq<seq<Entry>>, v0: nat, j: nat, k: nat, emitted0: seq<Entry>,
                            v: nat, more: bool, n: nat, emitted: seq<Entry>, visited: seq<nat>)
    requires j <= k
  {
    && Turning(v, more, Reverse(v0, k), n, j, k)
    && |visited| == n
    && visited == Counted(Reverse(v0, k), n, k)
    && emitted == emitted0 + Chains(b, visited)
  }

  /** One turn of the expansion loop: hand `fn` the chain of bucket `v & m1`, then step the cursor. */
  method ScanTurn(l: HashTable, ghost b: seq<seq<Entry>>, v0: nat, m0: nat, ghost j: nat, ghost k: nat, w: nat,
                  emitted0: seq<Entry>, v: nat, ghost n: nat, emitted: seq<Entry>, visited: seq<nat>)
    returns (v': nat, more': bool, emitted': seq<Entry>, visited': seq<nat>)
    requires j <= k <= w && l.size == Pow2(k) && l.sizemask == Mask(k) && l.table.Length == l.size
    requires b == l.table[..] && m0 == Mask(j)
    requires Expanding(b, v0, j, k, emitted0, v, true, n, emitted, visited)
    ensures Expanding(b, v0, j, k, emitted0, v', more', n + 1, emitted', visited')
    ensures n + 1 <= Pow2(k - j)
  {
    ghost var c0 := Reverse(v0, k);
    var m1 := l.sizemask;
    var idx := ExpansionIndex(v, m1, w, c0, n, j, k);
    var chain := l.table[idx];
    emitted' := EmitChain(chain, emitted);
    visited' := visited + [idx];
    v', more' := StepCursor(v, m0, m1, w, c0, n, j, k);
    ExpandingStep(b, v0, j, k, emitted0, v, n, emitted, visited, idx, chain, v', more', emitted', visited');
  }

  /** The bookkeeping of one turn: the visited bucket and its chain are appended. */
  lemma ExpandingStep(b: seq<seq<Entry>>, v0: nat, j: nat, k: nat, emitted0: seq<Entry>,
                      v: nat, n: nat, emitted: seq<Entry>, visited: seq<nat>, idx: nat, chain: seq<Entry>,
                      v': nat, more': bool, emitted': seq<Entry>, visited': seq<nat>)
    requires j <= k && Expanding(b, v0, j, k, emitted0, v, true, n, emitted, visited)
    requires idx == Reverse(Reverse(v0, k) + n, k) && idx < |b| && chain == b[idx]
    requires emitted' == emitted + chain && visited' == visited + [idx]
    requires Turning(v', more', Reverse(v0, k), n + 1, j, k)
    ensures Expanding(b, v0, j, k, emitted0, v', more', n + 1, emitted', visited')
    ensures n + 1 <= Pow2(k - j)
  {
    VisitedSnoc(Reverse(v0, k), n, visited, idx, visited', k);
    EmittedSnoc(emitted0, b, visited, idx, chain, emitted, emitted');
  }

  lemma VisitedSnoc(c0: nat, n: nat, visited: seq<nat>, idx: nat, visited': seq<nat>, k: nat)
    requires n == |visited| && visited == Counted(c0, n, k) && idx == Reverse(c0 + n, k)
    requires visited' == visited + [idx]
    ensures |visited'| == n + 1 && visited' == Counted(c0, n + 1, k)
  {
    CountedSnoc(c0, n, n + 1, k);
  }

  lemma EmittedSnoc(emitted0: seq<Entry>, b: seq<seq<Entry>>, visited: seq<nat>, idx: nat,
                    chain: seq<Entry>, emitted: seq<Entry>, emitted': seq<Entry>)
    requires idx < |b| && chain == b[idx]
    requires emitted == emitted0 + Chains(b, visited) && emitted' == emitted + chain
    ensures emitted' == emitted0 + Chains(b, visited + [idx])
  {
    ChainsSnoc(emitted0, b, visited, idx);
  }

  /**
   * The `do { ... } while (v & (m0 ^ m1))` loop of a scan during a
   * rehash over the larger table `l` of 2^k buckets, the smaller one
   * having 2^j: the entries of the expansions of bucket `v0 & m0`, and
   * the cursor the smaller table alone would step to.
   */
  method ScanExpansions(l: HashTable, v0: nat, m0: nat, ghost j: nat, ghost k: nat, w: nat, emitted0: seq<Entry>)
    returns (v: nat, emitted: seq<Entry>, visited: seq<nat>)
    requires j <= k <= w && l.size == Pow2(k) && l.sizemask == Mask(k) && l.table.Length == l.size
    requires m0 == Mask(j)
    ensures visited == Expansions(v0, j, k)
    ensures forall t :: 0 <= t < |visited| ==> visited[t] < l.table.Length
    ensures emitted == emitted0 + Chains(l.table[..], visited)
    ensures v == CursorStep(v0, j, w)
  {
    v := v0;
    emitted := emitted0;
    visited := [];
    ghost var b, n := l.table[..], 0;
    ExpandingStart(b, v0, j, k, emitted0);
    var more := true;
    while more
      invariant Expanding(b, v0, j, k, emitted0, v, more, n, emitted, visited)
      decreases Pow2(k - j) - n
    {
      v, more, emitted, visited := ScanTurn(l, b, v0, m0, j, k, w, emitted0, v, n, emitted, visited);
      n := n + 1;
    }
    ExpandingEnd(b, v0, j, k, w, emitted0, v, more, n, emitted, visited);
  }

  lemma ExpandingStart(b: seq<seq<Entry>>, v0: nat, j: nat, k: nat, emitted0: seq<Entry>)
    requires j <= k
    ensures Expanding(b, v0, j, k, emitted0, v0, true, 0, emitted0, [])
  {
    TurningStart(v0, j, k);
  }

  lemma ExpandingEnd(b: seq<seq<Entry>>, v0: nat, j: nat, k: nat, w: nat, emitted0: seq<Entry>,
                     v: nat, more: bool, n: nat, emitted: seq<Entry>, visited: seq<nat>)
    requires j <= k <= w && !more && Expanding(b, v0, j, k, emitted0, v, more, n, emitted, visited)
    ensures visited == Expansions(v0, j, k)
    ensures forall t :: 0 <= t < |visited| ==> visited[t] < Pow2(k)
    ensures emitted == emitted0 + Chains(b, visited)
    ensures v == CursorStep(v0, j, w)
  {
    TurningEnd(v, more, v0, n, j, k, w);
  }

  // ---------------------------------------------------------------------
  // dictScan
  // ---------------------------------------------------------------------

  /** `v & m`: the bucket the cursor names in a table of 2^k buckets. */
  method CursorIndex(v: nat, m: nat, ghost size: nat, ghost k: nat) returns (i: nat)
    requires size == Pow2(k) && m == size - 1 && k <= WORD
    ensures i == Bucket(v, size) && i < size
  {
    BucketIsMask(v, size, m, k, WORD);
    i := And(v, m, WORD);
  }

  /** `v |= ~m0; v = rev(v); v++; v = rev(v);` for the mask of 2^k buckets. */
  method AdvanceCursor(v: nat, m: nat, ghost k: nat) returns (next: nat)
    requires m == Mask(k)
    ensures next == CursorStep(v, k, WORD)
  {
    next := NextCursor(v, m, WORD);
  }

  /** The table a scan walks first during a rehash: the smaller of the two. */
  function SmallerTable(d: Dict): (s: nat)
    reads d`ht0, d`ht1
    ensures s <= 1
  {
    if d.ht0.size > d.ht1.size then 1 else 0
  }

  /** The buckets of a larger table of `big` buckets that expand the cursor `v` of a table of `small`. */
  function ExpansionsOf(v: nat, small: nat, big: nat): (s: seq<nat>)
    requires PowerOfTwo(small) && PowerOfTwo(big) && small <= big
    ensures forall t :: 0 <= t < |s| ==> s[t] < big && s[t] % small == v % small
    ensures forall a, b :: 0 <= a < b < |s| ==> s[a] != s[b]
  {
    Log2Mono(small, big);
    ExpansionsSound(v, Log2(small), Log2(big));
    Expansions(v, Log2(small), Log2(big))
  }

  /** The buckets of table `t` named by `idx`, as `bucketfn` receives them. */
  function BucketRefs(t: nat, idx: seq<nat>): (r: seq<BucketRef>)
    ensures |r| == |idx|
  {
    seq(|idx|, i requires 0 <= i < |idx| => BucketRef(t, idx[i]))
  }

  /**
   * What one call of `dictScan` with cursor `v` does to a dictionary: on
   * an empty one it answers 0 and calls nothing; outside a rehash it hands
   * the chain of bucket `v & m0` of `ht[0]` to `fn` and answers the next
   * cursor of that mask; during a rehash it hands over that chain of the
   * smaller table and then the chains of every bucket of the larger table
   * that expands it, in cursor order, and answers the next cursor of the
   * smaller mask. `buckets` are the calls of `bucketfn`, when one is given.
   */
  ghost predicate Scanned(d: Dict, v: nat, bucketfn: bool, next: nat, emitted: seq<Entry>, buckets: seq<BucketRef>)
    requires d.Valid()
    reads d`ht0, d`ht1, d`rehashidx, d.ht0.table, d.ht1.table
  {
    if d.Size() == 0 then
      next == 0 && emitted == [] && buckets == []
    else if !d.IsRehashing() then
      d.NonEmptyHasBuckets();
      var i := Bucket(v, d.ht0.size);
      && emitted == d.ht0.table[i]
      && buckets == (if bucketfn then [BucketRef(0, i)] else [])
      && next == CursorStep(v, Log2(d.ht0.size), WORD)
    else
      var s := SmallerTable(d);
      var small, big := d.Table(s), d.Table(1 - s);
      var i := Bucket(v, small.size);
      var x := ExpansionsOf(v, small.size, big.size);
      && emitted == small.table[i] + Chains(big.table[..], x)
      && buckets == (if bucketfn then [BucketRef(s, i)] + BucketRefs(1 - s, x) else [])
      && next == CursorStep(v, Log2(small.size), WORD)
  }

  /**
   * `dictScan`: the walk of one cursor position, with rehashing paused
   * (the macros `dictPauseRehashing` and `dictResumeRehashing`) while the
   * callbacks run.
   */
  method Scan(d: Dict, v: nat, bucketfn: bool) returns (next: nat, emitted: seq<Entry>, buckets: seq<BucketRef>)
    requires d.Valid()
    modifies d`pauserehash
    ensures d.pauserehash == old(d.pauserehash)
    ensures Scanned(d, v, bucketfn, next, emitted, buckets)
  {
    if d.Size() == 0 {
      return 0, [], [];
    }
    d.pauserehash := d.pauserehash + 1;
    next, emitted, buckets := ScanTables(d, v, bucketfn);
    d.pauserehash := d.pauserehash - 1;
  }

  /** The body of `dictScan` between `dictPauseRehashing` and `dictResumeRehashing`. */
  method ScanTables(d: Dict, v: nat, bucketfn: bool) returns (next: nat, emitted: seq<Entry>, buckets: seq<BucketRef>)
    requires d.Valid() && d.Size() > 0
    ensures Scanned(d, v, bucketfn, next, emitted, buckets)
  {
    if !d.IsRehashing() {
      next, emitted, buckets := ScanStable(d, v, bucketfn);
    } else {
      next, emitted, buckets := ScanRehashing(d, v, bucketfn);
    }
  }

  /** The branch of `dictScan` outside a rehash. */
  method ScanStable(d: Dict, v: nat, bucketfn: bool) returns (next: nat, emitted: seq<Entry>, buckets: seq<BucketRef>)
    requires d.Valid() && d.Size() > 0 && !d.IsRehashing()
    ensures Scanned(d, v, bucketfn, next, emitted, buckets)
  {
    d.NonEmptyHasBuckets();
    Log2Word(d.ht0.size);
    next, emitted, buckets := ScanSingle(d.ht0, v, bucketfn, Log2(d.ht0.size));
    ScannedSingle(d, v, bucketfn, next, emitted, buckets);
  }

  /** The branch of `dictScan` during a rehash, `t0` the smaller table and `t1` the larger. */
  method ScanRehashing(d: Dict, v: nat, bucketfn: bool) returns (next: nat, emitted: seq<Entry>, buckets: seq<BucketRef>)
    requires d.Valid() && d.Size() > 0 && d.IsRehashing()
    ensures Scanned(d, v, bucketfn, next, emitted, buckets)
  {
    var t0, t1, s0, s1 := d.ht0, d.ht1, 0, 1;
    if t0.size > t1.size {
      t0, t1, s0, s1 := d.ht1, d.ht0, 1, 0;
    }
    Log2Mono(t0.size, t1.size);
    Log2Word(t1.size);
    next, emitted, buckets := ScanPair(t0, t1, s0, s1, v, bucketfn, Log2(t0.size), Log2(t1.size));
    ScannedPair(d, t0, t1, s0, s1, v, bucketfn, next, emitted, buckets);
  }

  lemma ScannedSingle(d: Dict, v: nat, bucketfn: bool, next: nat, emitted: seq<Entry>, buckets: seq<BucketRef>)
    requires d.Valid() && d.Size() > 0 && !d.IsRehashing() && d.ht0.size > 0
    requires emitted == d.ht0.table[Bucket(v, d.ht0.size)]
    requires buckets == (if bucketfn then [BucketRef(0, Bucket(v, d.ht0.size))] else [])
    requires next == CursorStep(v, Log2(d.ht0.size), WORD)
    ensures Scanned(d, v, bucketfn, next, emitted, buckets)
  {
  }

  lemma ScannedPair(d: Dict, t0: HashTable, t1: HashTable, s0: nat, s1: nat, v: nat, bucketfn: bool,
                    next: nat, emitted: seq<Entry>, buckets: seq<BucketRef>)
    requires d.Valid() && d.Size() > 0 && d.IsRehashing()
    requires s0 == SmallerTable(d) && s1 == 1 - s0 && t0 == d.Table(s0) && t1 == d.Table(s1)
    requires PowerOfTwo(t0.size) && PowerOfTwo(t1.size) && t0.size <= t1.size
    requires Log2(t0.size) <= Log2(t1.size) && t0.table.Length == t0.size
    requires emitted == t0.table[Bucket(v, t0.size)] + Chains(t1.table[..], Expansions(v, Log2(t0.size), Log2(t1.size)))
    requires buckets == (if bucketfn then [BucketRef(s0, Bucket(v, t0.size))]
                           + BucketRefs(s1, Expansions(v, Log2(t0.size), Log2(t1.size))) else [])
    requires next == CursorStep(v, Log2(t0.size), WORD)
    ensures Scanned(d, v, bucketfn, next, emitted, buckets)
  {
  }

  /** `dictScan` outside a rehash: the bucket `v & m0` of `ht[0]`, of 2^k buckets. */
  method ScanSingle(t0: HashTable, v: nat, bucketfn: bool, ghost k: nat)
    returns (next: nat, emitted: seq<Entry>, buckets: seq<BucketRef>)
    requires k < WORD && t0.size == Pow2(k) && t0.sizemask == t0.size - 1 && t0.table.Length == t0.size
    ensures emitted == t0.table[Bucket(v, t0.size)]
    ensures buckets == (if bucketfn then [BucketRef(0, Bucket(v, t0.size))] else [])
    ensures next == CursorStep(v, k, WORD)
  {
    var i := CursorIndex(v, t0.sizemask, t0.size, k);
    buckets := if bucketfn then [BucketRef(0, i)] else [];
    emitted := EmitChain(t0.table[i], []);
    assert emitted == t0.table[i];
    next := AdvanceCursor(v, t0.sizemask, k);
  }

  /**
   * `dictScan` during a rehash: the bucket `v & m0` of the smaller table
   * `t0` (table `s` of the dictionary, 2^j buckets), then the do-while
   * over the buckets of the larger `t1` (2^k buckets) that expand it.
   */
  method ScanPair(t0: HashTable, t1: HashTable, s0: nat, s1: nat, v: nat, bucketfn: bool, ghost j: nat, ghost k: nat)
    returns (next: nat, emitted: seq<Entry>, buckets: seq<BucketRef>)
    requires j <= k < WORD
    requires t0.size == Pow2(j) && t0.sizemask == t0.size - 1 && t0.table.Length == t0.size
    requires t1.size == Pow2(k) && t1.sizemask == t1.size - 1 && t1.table.Length == t1.size
    ensures emitted == t0.table[Bucket(v, t0.size)] + Chains(t1.table[..], Expansions(v, j, k))
    ensures buckets == (if bucketfn then [BucketRef(s0, Bucket(v, t0.size))] + BucketRefs(s1, Expansions(v, j, k)) else [])
    ensures next == CursorStep(v, j, WORD)
  {
    var i := CursorIndex(v, t0.sizemask, t0.size, j);
    buckets := if bucketfn then [BucketRef(s0, i)] else [];
    emitted := EmitChain(t0.table[i], []);
    assert emitted == t0.table[i];
    var visited;
    next, emitted, visited := ScanExpansions(t1, v, t0.sizemask, j, k, WORD, emitted);
    if bucketfn {
      buckets := buckets + BucketRefs(s1, visited);
    }
  }
}
