/**
 * The quicklist of quicklist.c: a doubly linked list of nodes, each holding
 * a ziplist of entries.
 *
 * A node is a value: its identity `id` stands for its address, `zl` for the
 * entries of its ziplist (head to tail), `count` for the 16-bit entry count
 * kept beside the ziplist, and `sz` for the ziplist's size in bytes.  The
 * list keeps its nodes head to tail in `nodes`, so `prev`/`next` are the
 * neighbours in that sequence.  The ziplist encoding itself is not part of
 * this model: an entry is its content and its byte length, and the byte size
 * of a whole ziplist is the function `blobLen` the list is made with.
 */
module Quicklist {

  datatype Option<T> = None | Some(value: T)

  /** FILL_MAX = (1 << (QL_FILL_BITS - 1)) - 1 with the 64-bit QL_FILL_BITS of 16. */
  const FILL_MAX: int := 32767
  /** COMPRESS_MAX = (1 << QL_COMP_BITS) - 1 with the 64-bit QL_COMP_BITS of 16. */
  const COMPRESS_MAX: int := 65535
  /** QL_MAX_BM = (1 << QL_BM_BITS) - 1 with QL_BM_BITS of 4. */
  const MAX_BOOKMARKS: nat := 15
  /** Nodes whose ziplist is at most this many bytes may take another entry under a count limit. */
  const SIZE_SAFETY_LIMIT: nat := 8192
  /** The byte limits selected by fill -1 .. -5. */
  const OPTIMIZATION_LEVEL: seq<nat> := [4096, 8192, 16384, 32768, 65536]
  /** Values of C's `unsigned int` are taken modulo this. */
  const UINT32: nat := 0x1_0000_0000
  /** UINT32_MAX: the bound push asserts on an entry's length. */
  const UINT32_MAX: nat := 0xFFFF_FFFF

  /** A ziplist entry: what it holds and its length in bytes. */
  datatype Elem = Elem(value: nat, len: nat)

  /** A quicklistNode: its identity, its ziplist, the entry count and the ziplist's byte size. */
  datatype Node = Node(id: nat, zl: seq<Elem>, count: nat, sz: nat)

  /** A named bookmark on the node with the given identity. */
  datatype Bookmark = Bookmark(name: string, node: nat)

  /** QUICKLIST_HEAD / QUICKLIST_TAIL. */
  datatype Where = Head | Tail

  /**
   * A quicklistEntry as quicklistIndex fills it in: the position of the node
   * in the list, the offset in its ziplist (counted from the tail, and
   * negative, when the index was negative) and the entry found there.
   */
  datatype Found = Found(node: nat, offset: int, elem: Elem)

  // ---------------------------------------------------------------------
  // Fill rules

  /** The byte limit a negative fill selects, if it selects one. */
  function Level(fill: int): (r: Option<nat>)
    ensures r.Some? <==> -5 <= fill <= -1
    ensures r.Some? ==> r.value == 4096 * Pow2(-fill - 1)
  {
    assert Pow2(1) == 2 && Pow2(2) == 4 && Pow2(3) == 8 && Pow2(4) == 16;
    if fill < 0 && -fill - 1 < |OPTIMIZATION_LEVEL| then Some(OPTIMIZATION_LEVEL[-fill - 1]) else None
  }

  function Pow2(k: nat): nat
  {
    if k == 0 then 1 else 2 * Pow2(k - 1)
  }

  /** _quicklistNodeSizeMeetsOptimizationRequirement: a byte size within the limit of a negative fill. */
  function SizeMeetsOptimization(sz: nat, fill: int): bool
  {
    if fill >= 0 then false
    else
      var offset := -fill - 1;
      if offset < |OPTIMIZATION_LEVEL| then sz <= OPTIMIZATION_LEVEL[offset] else false
  }

  /** The size rule accepts exactly the sizes within the level of a fill between -5 and -1. */
  lemma SizeRule(sz: nat, fill: int)
    ensures SizeMeetsOptimization(sz, fill) <==> Level(fill).Some? && sz <= Level(fill).value
  {
  }

  /** A smaller ziplist, or a looser (more negative) fill, is still accepted. */
  lemma SizeRuleMonotone(sz: nat, fill: int, sz': nat, fill': int)
    requires SizeMeetsOptimization(sz, fill)
    requires sz' <= sz && -5 <= fill' <= fill
    ensures SizeMeetsOptimization(sz', fill')
  {
    PowMonotone(-fill - 1, -fill' - 1);
  }

  lemma {:induction false} PowMonotone(j: nat, k: nat)
    requires j <= k
    ensures Pow2(j) <= Pow2(k)
  {
    if j < k {
      PowMonotone(j, k - 1);
    }
  }

  /** The per-entry overhead a ziplist adds to an entry of `sz` bytes (previous-entry length and encoding header). */
  function Overhead(sz: nat): nat
  {
    (if sz < 254 then 1 else 5) + (if sz < 64 then 1 else if sz < 16384 then 2 else 5)
  }

  /** The estimated byte size after adding an entry of `sz` bytes, as the C `unsigned int` holds it. */
  function GrownSize(n: Node, sz: nat): nat
  {
    (n.sz + sz + Overhead(sz)) % UINT32
  }

  /** _quicklistNodeAllowInsert: may an entry of `sz` bytes go into the node? */
  function AllowInsert(node: Option<Node>, fill: int, sz: nat): (r: bool)
  {
    if node.None? then false
    else
      var newSz := GrownSize(node.value, sz);
      if SizeMeetsOptimization(newSz, fill) then true
      else if newSz > SIZE_SAFETY_LIMIT then false
      else node.value.count < fill
  }

  /**
   * What the fill factor means for growing a node: with a negative fill the
   * grown ziplist stays within the fill's byte limit; with a positive fill
   * the node stays within `fill` entries and the safety limit.  Without
   * wrap-around of the `unsigned int` size, that is exactly when it is allowed.
   */
  lemma AllowInsertMeaning(n: Node, fill: int, sz: nat)
    requires n.sz + sz + Overhead(sz) < UINT32
    ensures fill < 0 ==>
      (AllowInsert(Some(n), fill, sz) <==> Level(fill).Some? && n.sz + sz + Overhead(sz) <= Level(fill).value)
    ensures fill >= 0 ==>
      (AllowInsert(Some(n), fill, sz) <==> n.sz + sz + Overhead(sz) <= SIZE_SAFETY_LIMIT && n.count + 1 <= fill)
  {
    assert GrownSize(n, sz) == n.sz + sz + Overhead(sz);
    SizeRule(GrownSize(n, sz), fill);
  }

  /** _quicklistNodeAllowMerge: may two nodes be merged into one? */
  function AllowMerge(a: Option<Node>, b: Option<Node>, fill: int): (r: bool)
  {
    if a.None? || b.None? then false
    else
      var mergeSz := (a.value.sz + b.value.sz - 11) % UINT32;
      if SizeMeetsOptimization(mergeSz, fill) then true
      else if mergeSz > SIZE_SAFETY_LIMIT then false
      else a.value.count + b.value.count <= fill
  }

  /**
   * The merge rule does not depend on the order of the two nodes, and a
   * merge under a positive fill never makes a node of more than `fill` entries.
   */
  lemma AllowMergeMeaning(a: Node, b: Node, fill: int)
    ensures AllowMerge(Some(a), Some(b), fill) == AllowMerge(Some(b), Some(a), fill)
    ensures fill >= 0 && AllowMerge(Some(a), Some(b), fill) ==> a.count + b.count <= fill
  {
  }

  /** quicklistSetFill's clamping of the fill factor. */
  function ClampFill(fill: int): (r: int)
    ensures -5 <= r <= FILL_MAX
    ensures -5 <= fill <= FILL_MAX ==> r == fill
    ensures fill > FILL_MAX ==> r == FILL_MAX
    ensures fill < -5 ==> r == -5
  {
    if fill > FILL_MAX then FILL_MAX else if fill < -5 then -5 else fill
  }

  /** quicklistSetCompressDepth's clamping of the compression depth. */
  function ClampDepth(compress: int): (r: int)
    ensures 0 <= r <= COMPRESS_MAX
    ensures 0 <= compress <= COMPRESS_MAX ==> r == compress
    ensures compress > COMPRESS_MAX ==> r == COMPRESS_MAX
    ensures compress < 0 ==> r == 0
  {
    if compress > COMPRESS_MAX then COMPRESS_MAX else if compress < 0 then 0 else compress
  }

  // ---------------------------------------------------------------------
  // Ziplist range deletion and node splitting

  /**
   * ziplistDeleteRange: delete up to `num` entries from position `index`
   * (counted from the tail when negative); an index outside the ziplist
   * deletes nothing.  ziplist.c is not part of this model: this is the
   * behaviour its header describes.
   */
  function DeleteRange(zl: seq<Elem>, index: int, num: nat): (r: seq<Elem>)
    ensures var s := if index < 0 then |zl| + index else index;
      if 0 <= s < |zl| then r == zl[..s] + zl[if s + num <= |zl| then s + num else |zl|..] else r == zl
  {
    var s := if index < 0 then |zl| + index else index;
    if s < 0 || s >= |zl| then zl
    else if s + num <= |zl| then zl[..s] + zl[s + num..]
    else zl[..s]
  }

  /** Inside the ziplist, DeleteRange takes out exactly `num` entries from the start it computes. */
  lemma DeleteRangeAt(zl: seq<Elem>, index: int, num: nat)
    requires -|zl| <= index < |zl|
    requires FromHead(|zl|, index) + num <= |zl|
    ensures DeleteRange(zl, index, num) == zl[..FromHead(|zl|, index)] + zl[FromHead(|zl|, index) + num..]
  {
  }

  /** An `int` passed where C expects an `unsigned int`. */
  function Unsigned(x: int): nat
  {
    x % UINT32
  }

  /**
   * _quicklistSplitNode: the node keeps entries [0, offset] (after) or
   * [offset, END] (before), the returned new node gets the others; both
   * recount and resize their ziplists.
   */
  function SplitNode(n: Node, offset: int, after: bool, newId: nat, blobLen: seq<Elem> -> nat): (r: (Node, Node))
  {
    var origStart := if after then offset + 1 else 0;
    var origExtent := if after then -1 else offset;
    var newStart := if after then 0 else offset;
    var newExtent := if after then offset + 1 else -1;
    var zl := DeleteRange(n.zl, origStart, Unsigned(origExtent));
    var newZl := DeleteRange(n.zl, newStart, Unsigned(newExtent));
    (n.(zl := zl, count := |zl|, sz := blobLen(zl)),
     Node(newId, newZl, |newZl|, blobLen(newZl)))
  }

  /**
   * Splitting at an offset inside the ziplist loses and duplicates nothing:
   * the two halves, in list order, are the original entries, and the node
   * keeps the entry at `offset`.
   */
  lemma SplitNodeKeepsEntries(n: Node, offset: int, after: bool, newId: nat, blobLen: seq<Elem> -> nat)
    requires 0 <= offset < |n.zl| < UINT32 - 1
    ensures var r := SplitNode(n, offset, after, newId, blobLen); var kept, made := r.0, r.1;
      && (after ==> kept.zl + made.zl == n.zl && |kept.zl| == offset + 1)
      && (!after ==> made.zl + kept.zl == n.zl && |made.zl| == offset)
      && kept.id == n.id && made.id == newId
      && kept.count == |kept.zl| && made.count == |made.zl|
      && kept.sz == blobLen(kept.zl) && made.sz == blobLen(made.zl)
  {
    if after {
      SplitAfter(n, offset, newId, blobLen);
    } else {
      SplitBefore(n, offset, newId, blobLen);
    }
  }

  lemma SplitAfter(n: Node, offset: int, newId: nat, blobLen: seq<Elem> -> nat)
    requires 0 <= offset < |n.zl| < UINT32 - 1
    ensures var r := SplitNode(n, offset, true, newId, blobLen); var kept, made := r.0, r.1;
      && kept.zl + made.zl == n.zl && |kept.zl| == offset + 1
      && kept.id == n.id && made.id == newId
      && kept.count == |kept.zl| && made.count == |made.zl|
      && kept.sz == blobLen(kept.zl) && made.sz == blobLen(made.zl)
  {
    assert Unsigned(-1) == UINT32 - 1;
    assert Unsigned(offset + 1) == offset + 1;
    assert DeleteRange(n.zl, offset + 1, UINT32 - 1) == n.zl[..offset + 1];
    assert DeleteRange(n.zl, 0, offset + 1) == n.zl[offset + 1..];
    assert n.zl[..offset + 1] + n.zl[offset + 1..] == n.zl;
  }

  lemma SplitBefore(n: Node, offset: int, newId: nat, blobLen: seq<Elem> -> nat)
    requires 0 <= offset < |n.zl| < UINT32 - 1
    ensures var r := SplitNode(n, offset, false, newId, blobLen); var kept, made := r.0, r.1;
      && made.zl + kept.zl == n.zl && |made.zl| == offset
      && kept.id == n.id && made.id == newId
      && kept.count == |kept.zl| && made.count == |made.zl|
      && kept.sz == blobLen(kept.zl) && made.sz == blobLen(made.zl)
  {
    assert Unsigned(-1) == UINT32 - 1;
    assert Unsigned(offset) == offset;
    assert DeleteRange(n.zl, 0, offset) == n.zl[offset..];
    assert DeleteRange(n.zl, offset, UINT32 - 1) == n.zl[..offset];
    assert n.zl[..offset] + n.zl[offset..] == n.zl;
  }

  // ---------------------------------------------------------------------
  // The entries of a list of nodes

  /** The entries of the nodes, head to tail. */
  function Flat(nodes: seq<Node>): seq<Elem>
  {
    if nodes == [] then [] else nodes[0].zl + Flat(nodes[1..])
  }

  /** The sum of the nodes' entry counts. */
  function Total(nodes: seq<Node>): nat
  {
    if nodes == [] then 0 else nodes[0].count + Total(nodes[1..])
  }

  lemma {:induction false} FlatAppend(a: seq<Node>, b: seq<Node>)
    ensures Flat(a + b) == Flat(a) + Flat(b)
  {
    if a == [] {
      assert a + b == b;
    } else {
      assert (a + b)[1..] == a[1..] + b;
      FlatAppend(a[1..], b);
    }
  }

  /** Replacing the node at `i` by the nodes `mid` replaces its entries by theirs. */
  lemma FlatReplace(nodes: seq<Node>, i: nat, mid: seq<Node>)
    requires i < |nodes|
    ensures Flat(nodes[..i] + mid + nodes[i + 1..]) == Flat(nodes[..i]) + Flat(mid) + Flat(nodes[i + 1..])
    ensures Flat(nodes) == Flat(nodes[..i]) + nodes[i].zl + Flat(nodes[i + 1..])
  {
    FlatAppend(nodes[..i] + mid, nodes[i + 1..]);
    FlatAppend(nodes[..i], mid);
    FlatAround(nodes, i);
  }

  /** The entries of a node sit between those of the nodes before and after it. */
  lemma {:induction false} FlatAround(nodes: seq<Node>, i: nat)
    requires i < |nodes|
    ensures Flat(nodes) == Flat(nodes[..i]) + nodes[i].zl + Flat(nodes[i + 1..])
  {
    if i == 0 {
      assert Flat(nodes[..0]) == [];
    } else {
      var tail := nodes[1..];
      FlatAround(tail, i - 1);
      assert tail[..i - 1] == nodes[..i][1..];
      assert tail[i..] == nodes[i + 1..];
    }
  }


  /** Where node `i`'s entries start among the list's entries. */
  function Before(nodes: seq<Node>, i: nat): nat
    requires i <= |nodes|
  {
    |Flat(nodes[..i])|
  }

  /** Each node counts its ziplist's entries. */
  ghost predicate Counted(nodes: seq<Node>)
  {
    forall k :: 0 <= k < |nodes| ==> nodes[k].count == |nodes[k].zl|
  }

  /** With each node's count right, the sum of the counts is the number of entries. */
  lemma {:induction false} TotalIsLength(nodes: seq<Node>)
    requires Counted(nodes)
    ensures Total(nodes) == |Flat(nodes)|
  {
    if nodes != [] {
      assert Counted(nodes[1..]) by {
        forall k | 0 <= k < |nodes[1..]| ensures nodes[1..][k].count == |nodes[1..][k].zl| {
          assert nodes[1..][k] == nodes[k + 1];
        }
      }
      TotalIsLength(nodes[1..]);
    }
  }

  /** The entries before node `i + 1` are those before node `i` and node `i`'s own. */
  lemma BeforeNext(nodes: seq<Node>, i: nat)
    requires i < |nodes|
    ensures Before(nodes, i + 1) == Before(nodes, i) + |nodes[i].zl| <= |Flat(nodes)|
    ensures Flat(nodes)[Before(nodes, i)..Before(nodes, i + 1)] == nodes[i].zl
  {
    assert nodes[..i + 1] == nodes[..i] + [nodes[i]];
    FlatAppend(nodes[..i], [nodes[i]]);
    assert Flat([nodes[i]]) == nodes[i].zl + Flat([]);
    FlatReplace(nodes, i, [nodes[i]]);
  }

  // ---------------------------------------------------------------------
  // Bookmarks

  /** The bookmark names, as a set. */
  ghost function Names(bms: seq<Bookmark>): set<string>
  {
    set k | 0 <= k < |bms| :: bms[k].name
  }

  /** No name is used by two bookmarks. */
  ghost predicate NamesDistinct(bms: seq<Bookmark>)
  {
    forall j, k {:trigger Slot(j), Slot(k)} :: 0 <= j < k < |bms| ==> bms[j].name != bms[k].name
  }

  lemma NamesApart(bms: seq<Bookmark>, j: nat, k: nat)
    requires NamesDistinct(bms) && j < k < |bms|
    ensures bms[j].name != bms[k].name
  {
    assert Slot(j) == j && Slot(k) == k;
  }

  /** The first bookmark on the node `id`: what _quicklistBookmarkFindByNode returns. */
  function FirstOnNode(bms: seq<Bookmark>, id: nat): (r: Option<nat>)
    ensures r.Some? ==> r.value < |bms| && bms[r.value].node == id
    ensures r.Some? ==> forall k :: 0 <= k < r.value ==> bms[k].node != id
    ensures r.None? ==> forall k :: 0 <= k < |bms| ==> bms[k].node != id
  {
    if bms == [] then None
    else if bms[0].node == id then Some(0)
    else match FirstOnNode(bms[1..], id)
      case None => None
      case Some(k) => Some(k + 1)
  }

  /** The first bookmark named `name`: what _quicklistBookmarkFindByName returns. */
  function FirstNamed(bms: seq<Bookmark>, name: string): (r: Option<nat>)
    ensures r.Some? ==> r.value < |bms| && bms[r.value].name == name
    ensures r.Some? ==> forall k :: 0 <= k < r.value ==> bms[k].name != name
    ensures r.None? ==> forall k :: 0 <= k < |bms| ==> bms[k].name != name
  {
    if bms == [] then None
    else if bms[0].name == name then Some(0)
    else match FirstNamed(bms[1..], name)
      case None => None
      case Some(k) => Some(k + 1)
  }

  /**
   * The bookmark update of __quicklistDelNode as written: only the first
   * bookmark on the deleted node moves to the next node (or is deleted when
   * there is none).
   */
  function RetargetFirst(bms: seq<Bookmark>, id: nat, next: Option<nat>): seq<Bookmark>
  {
    match FirstOnNode(bms, id)
      case None => bms
      case Some(k) =>
        if next.Some? then bms[k := bms[k].(node := next.value)]
        else bms[..k] + bms[k + 1..]
  }

  /** Two bookmarks on one node: after the node is deleted, the second still names it. */
  lemma RetargetFirstLeavesDangling()
    ensures var bms := [Bookmark("a", 7), Bookmark("b", 7)];
      RetargetFirst(bms, 7, Some(8))[1].node == 7
  {
    var bms := [Bookmark("a", 7), Bookmark("b", 7)];
    assert FirstOnNode(bms, 7) == Some(0);
  }

  /**
   * The bookmark update of __quicklistDelNode as intended: every bookmark on
   * the deleted node moves to the next node, or is deleted when there is none.
   */
  function Retarget(bms: seq<Bookmark>, id: nat, next: Option<nat>): (r: seq<Bookmark>)
    ensures |r| <= |bms|
  {
    if bms == [] then []
    else if bms[0].node == id then
      (if next.Some? then [bms[0].(node := next.value)] else []) + Retarget(bms[1..], id, next)
    else [bms[0]] + Retarget(bms[1..], id, next)
  }

  lemma NamesOfTail(bms: seq<Bookmark>)
    requires bms != []
    ensures Names(bms[1..]) <= Names(bms)
  {
    forall x | x in Names(bms[1..]) ensures x in Names(bms) {
      var j :| 0 <= j < |bms[1..]| && bms[1..][j].name == x;
      assert bms[j + 1].name == x;
    }
  }

  /**
   * After the intended update no bookmark names the deleted node, each one
   * names the node it named before or the next node, and the names stay
   * distinct.
   */
  lemma RetargetMeaning(bms: seq<Bookmark>, id: nat, next: Option<nat>)
    requires next != Some(id)
    ensures forall k :: 0 <= k < |Retarget(bms, id, next)| ==> Retarget(bms, id, next)[k].node != id
    ensures forall k :: 0 <= k < |Retarget(bms, id, next)| ==>
      || (exists j :: 0 <= j < |bms| && bms[j].node == Retarget(bms, id, next)[k].node)
      || Some(Retarget(bms, id, next)[k].node) == next
    ensures NamesDistinct(bms) ==> NamesDistinct(Retarget(bms, id, next))
  {
    RetargetNodes(bms, id, next);
    RetargetNames(bms, id, next);
  }

  /** Where the bookmarks point after the intended update. */
  lemma {:induction false} RetargetNodes(bms: seq<Bookmark>, id: nat, next: Option<nat>)
    requires next != Some(id)
    ensures forall k :: 0 <= k < |Retarget(bms, id, next)| ==> Retarget(bms, id, next)[k].node != id
    ensures forall k :: 0 <= k < |Retarget(bms, id, next)| ==>
      || (exists j :: 0 <= j < |bms| && bms[j].node == Retarget(bms, id, next)[k].node)
      || Some(Retarget(bms, id, next)[k].node) == next
  {
    if bms != [] {
      RetargetNodes(bms[1..], id, next);
      var rest := Retarget(bms[1..], id, next);
      var head := if bms[0].node == id then (if next.Some? then [bms[0].(node := next.value)] else []) else [bms[0]];
      var r := Retarget(bms, id, next);
      assert r == head + rest;
      forall k | 0 <= k < |r|
        ensures r[k].node != id
        ensures (exists j :: 0 <= j < |bms| && bms[j].node == r[k].node) || Some(r[k].node) == next
      {
        if k < |head| {
          assert r[k] == head[k];
          if bms[0].node == id {
            assert next == Some(next.value);
          }
        } else {
          assert r[k] == rest[k - |head|];
          if exists j :: 0 <= j < |bms[1..]| && bms[1..][j].node == r[k].node {
            var j :| 0 <= j < |bms[1..]| && bms[1..][j].node == r[k].node;
            assert bms[j + 1].node == r[k].node;
          }
        }
      }
    }
  }

  /** The names after the intended update are some of the names before, still distinct. */
  lemma RetargetNames(bms: seq<Bookmark>, id: nat, next: Option<nat>)
    ensures Names(Retarget(bms, id, next)) <= Names(bms)
    ensures NamesDistinct(bms) ==> NamesDistinct(Retarget(bms, id, next))
  {
    RetargetNamesIn(bms, id, next);
    if NamesDistinct(bms) {
      RetargetDistinct(bms, id, next);
    }
  }

  /** The intended update adds no name. */
  lemma {:induction false} RetargetNamesIn(bms: seq<Bookmark>, id: nat, next: Option<nat>)
    ensures Names(Retarget(bms, id, next)) <= Names(bms)
  {
    if bms != [] {
      RetargetNamesIn(bms[1..], id, next);
      NamesOfTail(bms);
      var rest := Retarget(bms[1..], id, next);
      var head := if bms[0].node == id then (if next.Some? then [bms[0].(node := next.value)] else []) else [bms[0]];
      var r := Retarget(bms, id, next);
      assert r == head + rest;
      forall x | x in Names(r) ensures x in Names(bms) {
        var k :| 0 <= k < |r| && r[k].name == x;
        if k >= |head| {
          assert r[k] == rest[k - |head|];
          assert x in Names(rest);
        }
      }
    }
  }

  /** With distinct names, the tail's names are distinct and exclude the head's. */
  lemma DistinctTail(bms: seq<Bookmark>)
    requires NamesDistinct(bms) && bms != []
    ensures NamesDistinct(bms[1..]) && bms[0].name !in Names(bms[1..])
  {
    forall j, k | 0 <= j < k < |bms[1..]| ensures bms[1..][j].name != bms[1..][k].name {
      NamesApart(bms, j + 1, k + 1);
    }
    forall m | 0 <= m < |bms[1..]| ensures bms[1..][m].name != bms[0].name {
      NamesApart(bms, 0, m + 1);
    }
  }

  /** The intended update keeps distinct names distinct. */
  lemma {:induction false} RetargetDistinct(bms: seq<Bookmark>, id: nat, next: Option<nat>)
    requires NamesDistinct(bms)
    ensures NamesDistinct(Retarget(bms, id, next))
  {
    if bms != [] {
      DistinctTail(bms);
      RetargetDistinct(bms[1..], id, next);
      var rest := Retarget(bms[1..], id, next);
      var r := Retarget(bms, id, next);
      if bms[0].node == id && next.None? {
        assert r == rest;
      } else {
        RetargetNamesIn(bms[1..], id, next);
        var h := if bms[0].node == id then bms[0].(node := next.value) else bms[0];
        assert r == [h] + rest;
        forall j, k | 0 <= j < k < |r| ensures r[j].name != r[k].name {
          assert r[k] == rest[k - 1];
          if j == 0 {
            NameIn(rest, k - 1);
          } else {
            assert r[j] == rest[j - 1];
            NamesApart(rest, j - 1, k - 1);
          }
        }
      }
    }
  }

  lemma NameIn(bms: seq<Bookmark>, k: nat)
    requires k < |bms|
    ensures bms[k].name in Names(bms)
  {
  }


  /** A bookmark at `k` named `name`, with none before it: FirstNamed finds it. */
  lemma FirstNamedIs(bms: seq<Bookmark>, name: string, k: nat)
    requires k < |bms| && bms[k].name == name
    requires forall j :: 0 <= j < k ==> bms[j].name != name
    ensures FirstNamed(bms, name) == Some(k)
  {
  }

  /** No bookmark named `name`: FirstNamed finds none. */
  lemma FirstNamedNone(bms: seq<Bookmark>, name: string)
    requires forall j :: 0 <= j < |bms| ==> bms[j].name != name
    ensures FirstNamed(bms, name) == None
  {
  }

  /** The node the first bookmark called `name` is on: what quicklistBookmarkFind returns. */
  function NodeNamed(bms: seq<Bookmark>, name: string): (r: Option<nat>)
    ensures r.Some? <==> exists k :: 0 <= k < |bms| && bms[k].name == name
  {
    match FirstNamed(bms, name)
      case None => None
      case Some(k) => Some(bms[k].node)
  }

  /**
   * The update quicklistBookmarkCreate makes when there is room: the first
   * bookmark called `name` moves to the node `id`, or a bookmark of that
   * name on `id` is added at the end.
   */
  function Marked(bms: seq<Bookmark>, name: string, id: nat): seq<Bookmark>
  {
    match FirstNamed(bms, name)
      case Some(k) => bms[k := bms[k].(node := id)]
      case None => bms + [Bookmark(name, id)]
  }

  /** After Marked, `name` finds the node `id` and every other name finds what it found before. */
  lemma MarkedFound(bms: seq<Bookmark>, name: string, id: nat, other: string)
    ensures NodeNamed(Marked(bms, name, id), name) == Some(id)
    ensures other != name ==> NodeNamed(Marked(bms, name, id), other) == NodeNamed(bms, other)
  {
    var r := Marked(bms, name, id);
    match FirstNamed(bms, name)
    case Some(k) =>
      FirstNamedIs(r, name, k);
      if other != name {
        match FirstNamed(bms, other)
        case Some(j) =>
          FirstNamedIs(r, other, j);
        case None =>
          FirstNamedNone(r, other);
      }
    case None =>
      FirstNamedIs(r, name, |bms|);
      if other != name {
        match FirstNamed(bms, other)
        case Some(j) =>
          FirstNamedIs(r, other, j);
        case None =>
          FirstNamedNone(r, other);
      }
  }

  /** Marked keeps the names distinct and adds at most the one bookmark. */
  lemma MarkedNames(bms: seq<Bookmark>, name: string, id: nat)
    requires NamesDistinct(bms)
    ensures NamesDistinct(Marked(bms, name, id))
    ensures |Marked(bms, name, id)| == |bms| + (if FirstNamed(bms, name).None? then 1 else 0)
  {
    var r := Marked(bms, name, id);
    forall j, k | 0 <= j < k < |r| ensures r[j].name != r[k].name {
      if k < |bms| {
        NamesApart(bms, j, k);
      }
    }
  }

  /**
   * The update quicklistBookmarkDelete makes: the first bookmark called
   * `name`, if any, is taken out and the later ones move up.
   */
  function Unmarked(bms: seq<Bookmark>, name: string): (r: seq<Bookmark>)
    ensures |r| == |bms| - (if FirstNamed(bms, name).Some? then 1 else 0)
  {
    match FirstNamed(bms, name)
      case None => bms
      case Some(k) => bms[..k] + bms[k + 1..]
  }

  /**
   * After Unmarked, `name` finds nothing (its bookmark was the only one of
   * that name) and every other name finds what it found before.
   */
  lemma UnmarkedFound(bms: seq<Bookmark>, name: string, other: string)
    ensures NamesDistinct(bms) ==> NodeNamed(Unmarked(bms, name), name) == None
    ensures other != name ==> NodeNamed(Unmarked(bms, name), other) == NodeNamed(bms, other)
  {
    if NamesDistinct(bms) {
      UnmarkedGone(bms, name);
    }
    if other != name {
      UnmarkedOthers(bms, name, other);
    }
  }

  lemma UnmarkedGone(bms: seq<Bookmark>, name: string)
    requires NamesDistinct(bms)
    ensures FirstNamed(Unmarked(bms, name), name) == None
  {
    var r := Unmarked(bms, name);
    match FirstNamed(bms, name)
    case None =>
    case Some(k) =>
      forall j | 0 <= j < |r| ensures r[j].name != name {
        if j >= k {
          assert r[j] == bms[j + 1];
          NamesApart(bms, k, j + 1);
        }
      }
      FirstNamedNone(r, name);
  }

  lemma UnmarkedOthers(bms: seq<Bookmark>, name: string, other: string)
    requires other != name
    ensures NodeNamed(Unmarked(bms, name), other) == NodeNamed(bms, other)
  {
    var r := Unmarked(bms, name);
    match FirstNamed(bms, name)
    case None =>
    case Some(k) =>
      match FirstNamed(bms, other)
      case Some(j) =>
        if j < k {
          FirstNamedIs(r, other, j);
        } else {
          assert r[j - 1] == bms[j];
          forall i | 0 <= i < j - 1 ensures r[i].name != other {
            if i >= k {
              assert r[i] == bms[i + 1];
            }
          }
          FirstNamedIs(r, other, j - 1);
        }
      case None =>
        forall i | 0 <= i < |r| ensures r[i].name != other {
          if i >= k {
            assert r[i] == bms[i + 1];
          }
        }
        FirstNamedNone(r, other);
  }


  /** Dropping one bookmark keeps the others valid. */
  lemma MarksDropped(bms: seq<Bookmark>, nodes: seq<Node>, k: nat)
    requires BookmarksOk(bms, nodes) && k < |bms|
    ensures BookmarksOk(bms[..k] + bms[k + 1..], nodes)
  {
    var r := bms[..k] + bms[k + 1..];
    forall j | 0 <= j < |r| ensures Live(nodes, r[j].node) {
      var j' := if j < k then j else j + 1;
      assert r[j] == bms[j'];
      MarkLive(bms, nodes, j');
    }
    forall i, j | 0 <= i < j < |r| ensures r[i].name != r[j].name {
      var i', j' := if i < k then i else i + 1, if j < k then j else j + 1;
      assert r[i] == bms[i'] && r[j] == bms[j'];
      NamesApart(bms, i', j');
    }
  }

  /** Marking a live node keeps the bookmarks valid when there was room for one more. */
  lemma MarksAdded(bms: seq<Bookmark>, nodes: seq<Node>, name: string, id: nat)
    requires BookmarksOk(bms, nodes) && |bms| < MAX_BOOKMARKS && Live(nodes, id)
    ensures BookmarksOk(Marked(bms, name, id), nodes)
  {
    var r := Marked(bms, name, id);
    MarkedNames(bms, name, id);
    forall j | 0 <= j < |r| ensures Live(nodes, r[j].node) {
      if j < |bms| && r[j] == bms[j] {
        MarkLive(bms, nodes, j);
      }
    }
  }

  // ---------------------------------------------------------------------
  // What a well-formed list keeps

  /** A node counts and sizes its ziplist, is never empty, and was allocated before `nextId`. */
  ghost predicate NodeOk(n: Node, blobLen: seq<Elem> -> nat, nextId: nat)
  {
    n.count == |n.zl| && 0 < n.count && n.sz == blobLen(n.zl) && n.id < nextId
  }

  /** An identity on positions: facts about every node are instantiated only where a proof names one. */
  ghost function Slot(i: int): int
  {
    i
  }

  /** Every node of the list is well formed. */
  ghost predicate NodesOk(nodes: seq<Node>, blobLen: seq<Elem> -> nat, nextId: nat)
  {
    forall k {:trigger Slot(k)} :: 0 <= k < |nodes| ==> NodeOk(nodes[k], blobLen, nextId)
  }

  /** A given node of a list whose nodes are well formed. */
  lemma NodeAt(nodes: seq<Node>, k: nat, blobLen: seq<Elem> -> nat, nextId: nat)
    requires NodesOk(nodes, blobLen, nextId) && k < |nodes|
    ensures NodeOk(nodes[k], blobLen, nextId)
  {
    assert Slot(k) == k;
  }

  /** No two nodes share an identity. */
  ghost predicate IdsDistinct(nodes: seq<Node>)
  {
    forall j, k {:trigger Slot(j), Slot(k)} :: 0 <= j < k < |nodes| ==> nodes[j].id != nodes[k].id
  }

  /** Two given nodes of a list have different identities. */
  lemma IdsApart(nodes: seq<Node>, j: nat, k: nat)
    requires IdsDistinct(nodes) && j < k < |nodes|
    ensures nodes[j].id != nodes[k].id
  {
    assert Slot(j) == j && Slot(k) == k;
  }

  /** Some node of the list has identity `id`. */
  ghost predicate Live(nodes: seq<Node>, id: nat)
  {
    exists k :: 0 <= k < |nodes| && nodes[k].id == id
  }

  /** At most QL_MAX_BM bookmarks, no name twice, and each on a node of the list. */
  ghost predicate BookmarksOk(bms: seq<Bookmark>, nodes: seq<Node>)
  {
    && |bms| <= MAX_BOOKMARKS
    && NamesDistinct(bms)
    && forall k {:trigger Slot(k)} :: 0 <= k < |bms| ==> Live(nodes, bms[k].node)
  }

  lemma MarkLive(bms: seq<Bookmark>, nodes: seq<Node>, k: nat)
    requires BookmarksOk(bms, nodes) && k < |bms|
    ensures Live(nodes, bms[k].node)
  {
    assert Slot(k) == k;
  }

  /** Every entry is shorter than UINT32_MAX bytes, as push asserts. */
  ghost predicate Lengths(s: seq<Elem>)
  {
    forall k {:trigger Slot(k)} :: 0 <= k < |s| ==> s[k].len < UINT32_MAX
  }

  lemma LengthAt(s: seq<Elem>, k: nat)
    requires Lengths(s) && k < |s|
    ensures s[k].len < UINT32_MAX
  {
    assert Slot(k) == k;
  }

  /** NodesOk makes every node count its entries. */
  lemma NodesCounted(nodes: seq<Node>, blobLen: seq<Elem> -> nat, nextId: nat)
    requires NodesOk(nodes, blobLen, nextId)
    ensures Counted(nodes)
  {
    forall k | 0 <= k < |nodes| ensures nodes[k].count == |nodes[k].zl| {
      NodeAt(nodes, k, blobLen, nextId);
    }
  }

  /** Taking out the entries [p, p + del) of the middle part of a list of entries. */
  lemma SpliceOut(a: seq<Elem>, z: seq<Elem>, b: seq<Elem>, p: nat, del: nat)
    requires p + del <= |z|
    ensures (a + z + b)[..|a| + p] + (a + z + b)[|a| + p + del..] == a + (z[..p] + z[p + del..]) + b
  {
  }

  /** A new node in front keeps every node invariant. */
  lemma Prepended(nodes: seq<Node>, n: Node, bms: seq<Bookmark>, blobLen: seq<Elem> -> nat, nextId: nat)
    requires NodesOk(nodes, blobLen, nextId) && IdsDistinct(nodes) && BookmarksOk(bms, nodes)
    requires NodeOk(n, blobLen, nextId + 1) && n.id == nextId
    ensures NodesOk([n] + nodes, blobLen, nextId + 1) && IdsDistinct([n] + nodes) && BookmarksOk(bms, [n] + nodes)
    ensures Flat([n] + nodes) == n.zl + Flat(nodes)
  {
    var r := [n] + nodes;
    assert r[1..] == nodes;
    forall k | 0 <= k < |r| ensures NodeOk(r[k], blobLen, nextId + 1) {
      if k > 0 {
        assert r[k] == nodes[k - 1];
        NodeAt(nodes, k - 1, blobLen, nextId);
      }
    }
    forall j, k | 0 <= j < k < |r| ensures r[j].id != r[k].id {
      assert r[k] == nodes[k - 1];
        NodeAt(nodes, k - 1, blobLen, nextId);
      if j > 0 {
        assert r[j] == nodes[j - 1];
        IdsApart(nodes, j - 1, k - 1);
      }
    }
    forall k | 0 <= k < |bms| ensures Live(r, bms[k].node) {
      MarkLive(bms, nodes, k);
      var j :| 0 <= j < |nodes| && nodes[j].id == bms[k].node;
      assert r[j + 1] == nodes[j];
    }
  }

  /** A new node at the back keeps every node invariant. */
  lemma Appended(nodes: seq<Node>, n: Node, bms: seq<Bookmark>, blobLen: seq<Elem> -> nat, nextId: nat)
    requires NodesOk(nodes, blobLen, nextId) && IdsDistinct(nodes) && BookmarksOk(bms, nodes)
    requires NodeOk(n, blobLen, nextId + 1) && n.id == nextId
    ensures NodesOk(nodes + [n], blobLen, nextId + 1) && IdsDistinct(nodes + [n]) && BookmarksOk(bms, nodes + [n])
    ensures Flat(nodes + [n]) == Flat(nodes) + n.zl
  {
    var r := nodes + [n];
    forall k | 0 <= k < |r| ensures NodeOk(r[k], blobLen, nextId + 1) {
      if k < |nodes| {
        assert r[k] == nodes[k];
        NodeAt(nodes, k, blobLen, nextId);
      }
    }
    forall j, k | 0 <= j < k < |r| ensures r[j].id != r[k].id {
      assert r[j] == nodes[j];
      NodeAt(nodes, j, blobLen, nextId);
      if k < |nodes| {
        IdsApart(nodes, j, k);
      }
    }
    forall k | 0 <= k < |bms| ensures Live(r, bms[k].node) {
      MarkLive(bms, nodes, k);
      var j :| 0 <= j < |nodes| && nodes[j].id == bms[k].node;
      assert r[j] == nodes[j];
    }
    FlatAppend(nodes, [n]);
    assert Flat([n]) == n.zl + Flat([]);
  }

  /** A node replaced by one of the same identity keeps every node invariant. */
  lemma Replaced(nodes: seq<Node>, i: nat, m: Node, bms: seq<Bookmark>, blobLen: seq<Elem> -> nat, nextId: nat)
    requires i < |nodes|
    requires NodesOk(nodes, blobLen, nextId) && IdsDistinct(nodes) && BookmarksOk(bms, nodes)
    requires NodeOk(m, blobLen, nextId) && m.id == nodes[i].id
    ensures NodesOk(nodes[i := m], blobLen, nextId) && IdsDistinct(nodes[i := m]) && BookmarksOk(bms, nodes[i := m])
    ensures Flat(nodes[i := m]) == Flat(nodes[..i]) + m.zl + Flat(nodes[i + 1..])
    ensures Flat(nodes) == Flat(nodes[..i]) + nodes[i].zl + Flat(nodes[i + 1..])
  {
    var r := nodes[i := m];
    forall k | 0 <= k < |r| ensures NodeOk(r[k], blobLen, nextId) {
      if k != i {
        NodeAt(nodes, k, blobLen, nextId);
      }
    }
    forall j, k | 0 <= j < k < |r| ensures r[j].id != r[k].id {
      IdsApart(nodes, j, k);
    }
    forall k | 0 <= k < |bms| ensures Live(r, bms[k].node) {
      MarkLive(bms, nodes, k);
      var j :| 0 <= j < |nodes| && nodes[j].id == bms[k].node;
      assert r[j].id == nodes[j].id;
    }
    assert r == nodes[..i] + [m] + nodes[i + 1..];
    FlatReplace(nodes, i, [m]);
    assert Flat([m]) == m.zl + Flat([]);
  }

  /** The node after `i`, if there is one: where __quicklistDelNode moves bookmarks. */
  function NextId(nodes: seq<Node>, i: nat): Option<nat>
    requires i < |nodes|
  {
    if i + 1 < |nodes| then Some(nodes[i + 1].id) else None
  }

  /** The nodes left after unlinking node `i`. */
  lemma RemovedAt(nodes: seq<Node>, i: nat)
    requires i < |nodes|
    ensures forall k :: 0 <= k < i ==> (nodes[..i] + nodes[i + 1..])[k] == nodes[k]
    ensures forall k :: i < k < |nodes| ==> (nodes[..i] + nodes[i + 1..])[k - 1] == nodes[k]
  {
  }

  /** Unlinking a node, and moving its bookmarks on, keeps every node invariant. */
  lemma Removed(nodes: seq<Node>, i: nat, bms: seq<Bookmark>, blobLen: seq<Elem> -> nat, nextId: nat)
    requires i < |nodes|
    requires NodesOk(nodes, blobLen, nextId) && IdsDistinct(nodes) && BookmarksOk(bms, nodes)
    ensures var r := nodes[..i] + nodes[i + 1..];
      NodesOk(r, blobLen, nextId) && IdsDistinct(r) && BookmarksOk(Retarget(bms, nodes[i].id, NextId(nodes, i)), r)
    ensures Flat(nodes[..i] + nodes[i + 1..]) == Flat(nodes[..i]) + Flat(nodes[i + 1..])
    ensures Flat(nodes) == Flat(nodes[..i]) + nodes[i].zl + Flat(nodes[i + 1..])
  {
    RemovedNodes(nodes, i, blobLen, nextId);
    RemovedBookmarks(nodes, i, bms);
    FlatReplace(nodes, i, []);
    assert nodes[..i] + [] + nodes[i + 1..] == nodes[..i] + nodes[i + 1..];
  }

  lemma RemovedNodes(nodes: seq<Node>, i: nat, blobLen: seq<Elem> -> nat, nextId: nat)
    requires i < |nodes|
    requires NodesOk(nodes, blobLen, nextId) && IdsDistinct(nodes)
    ensures NodesOk(nodes[..i] + nodes[i + 1..], blobLen, nextId) && IdsDistinct(nodes[..i] + nodes[i + 1..])
  {
    var r := nodes[..i] + nodes[i + 1..];
    RemovedAt(nodes, i);
    forall k | 0 <= k < |r| ensures NodeOk(r[k], blobLen, nextId) {
      assert r[k] == nodes[if k < i then k else k + 1];
      NodeAt(nodes, if k < i then k else k + 1, blobLen, nextId);
    }
    forall j, k | 0 <= j < k < |r| ensures r[j].id != r[k].id {
      assert r[j] == nodes[if j < i then j else j + 1];
      assert r[k] == nodes[if k < i then k else k + 1];
      IdsApart(nodes, if j < i then j else j + 1, if k < i then k else k + 1);
    }
  }

  lemma RemovedBookmarks(nodes: seq<Node>, i: nat, bms: seq<Bookmark>)
    requires i < |nodes|
    requires IdsDistinct(nodes) && BookmarksOk(bms, nodes)
    ensures BookmarksOk(Retarget(bms, nodes[i].id, NextId(nodes, i)), nodes[..i] + nodes[i + 1..])
  {
    var r := nodes[..i] + nodes[i + 1..];
    RemovedAt(nodes, i);
    var next := NextId(nodes, i);
    var id := nodes[i].id;
    var out := Retarget(bms, id, next);
    if i + 1 < |nodes| {
      IdsApart(nodes, i, i + 1);
    }
    RetargetMeaning(bms, id, next);
    forall k | 0 <= k < |out| ensures Live(r, out[k].node) {
      if Some(out[k].node) == next {
        assert r[i] == nodes[i + 1];
      } else {
        var j :| 0 <= j < |bms| && bms[j].node == out[k].node;
        MarkLive(bms, nodes, j);
        var m :| 0 <= m < |nodes| && nodes[m].id == bms[j].node;
        assert m != i;
        assert r[if m < i then m else m - 1] == nodes[m];
      }
    }
  }

  /**
   * The invariant of a list's nodes: every node counted, sized and
   * non-empty, identities distinct, `len` and `count` in step, entry lengths
   * within what push accepts, and the bookmarks in order.
   */
  ghost predicate Shape(nodes: seq<Node>, count: nat, len: nat, bms: seq<Bookmark>, nextId: nat, blobLen: seq<Elem> -> nat)
  {
    && NodesOk(nodes, blobLen, nextId)
    && IdsDistinct(nodes)
    && len == |nodes|
    && count == |Flat(nodes)|
    && Lengths(Flat(nodes))
    && BookmarksOk(bms, nodes)
  }

  /** In a well-formed list, `count` is the sum of the nodes' entry counts. */
  lemma CountIsSum(nodes: seq<Node>, count: nat, len: nat, bms: seq<Bookmark>, nextId: nat, blobLen: seq<Elem> -> nat)
    requires Shape(nodes, count, len, bms, nextId, blobLen)
    ensures count == Total(nodes) && len == |nodes|
  {
    NodesCounted(nodes, blobLen, nextId);
    TotalIsLength(nodes);
  }

  /** Growing the head node by an entry in front. */
  lemma GrownHead(nodes: seq<Node>, count: nat, bms: seq<Bookmark>, nextId: nat, blobLen: seq<Elem> -> nat, e: Elem)
    requires Shape(nodes, count, |nodes|, bms, nextId, blobLen) && e.len < UINT32_MAX && nodes != []
    ensures var zl := [e] + nodes[0].zl;
      var m := nodes[0].(zl := zl, sz := blobLen(zl), count := nodes[0].count + 1);
      Shape(nodes[0 := m], count + 1, |nodes|, bms, nextId, blobLen) && Flat(nodes[0 := m]) == [e] + Flat(nodes)
  {
    var zl := [e] + nodes[0].zl;
    var m := nodes[0].(zl := zl, sz := blobLen(zl), count := nodes[0].count + 1);
    NodeAt(nodes, 0, blobLen, nextId);
    Replaced(nodes, 0, m, bms, blobLen, nextId);
    assert nodes[..0] == [];
    assert Flat(nodes[0 := m]) == [e] + Flat(nodes);
    LengthsCons(e, Flat(nodes));
  }

  /** Growing the tail node by an entry at its end. */
  lemma GrownTail(nodes: seq<Node>, count: nat, bms: seq<Bookmark>, nextId: nat, blobLen: seq<Elem> -> nat, e: Elem)
    requires Shape(nodes, count, |nodes|, bms, nextId, blobLen) && e.len < UINT32_MAX && nodes != []
    ensures var t := |nodes| - 1;
      var zl := nodes[t].zl + [e];
      var m := nodes[t].(zl := zl, sz := blobLen(zl), count := nodes[t].count + 1);
      Shape(nodes[t := m], count + 1, |nodes|, bms, nextId, blobLen) && Flat(nodes[t := m]) == Flat(nodes) + [e]
  {
    var t := |nodes| - 1;
    var zl := nodes[t].zl + [e];
    var m := nodes[t].(zl := zl, sz := blobLen(zl), count := nodes[t].count + 1);
    NodeAt(nodes, t, blobLen, nextId);
    Replaced(nodes, t, m, bms, blobLen, nextId);
    assert nodes[t + 1..] == [];
    assert nodes[..t] + [nodes[t]] == nodes;
    FlatAppend(nodes[..t], [nodes[t]]);
    assert Flat([nodes[t]]) == nodes[t].zl + Flat([]);
    assert Flat(nodes[t := m]) == Flat(nodes) + [e];
    LengthsSnoc(Flat(nodes), e);
  }

  /** A new one-entry head node. */
  lemma MadeHead(nodes: seq<Node>, count: nat, bms: seq<Bookmark>, nextId: nat, blobLen: seq<Elem> -> nat, e: Elem)
    requires Shape(nodes, count, |nodes|, bms, nextId, blobLen) && e.len < UINT32_MAX
    ensures var n := Node(nextId, [e], 1, blobLen([e]));
      Shape([n] + nodes, count + 1, |nodes| + 1, bms, nextId + 1, blobLen) && Flat([n] + nodes) == [e] + Flat(nodes)
  {
    var n := Node(nextId, [e], 1, blobLen([e]));
    Prepended(nodes, n, bms, blobLen, nextId);
    LengthsCons(e, Flat(nodes));
  }

  /** A new one-entry tail node. */
  lemma MadeTail(nodes: seq<Node>, count: nat, bms: seq<Bookmark>, nextId: nat, blobLen: seq<Elem> -> nat, e: Elem)
    requires Shape(nodes, count, |nodes|, bms, nextId, blobLen) && e.len < UINT32_MAX
    ensures var n := Node(nextId, [e], 1, blobLen([e]));
      Shape(nodes + [n], count + 1, |nodes| + 1, bms, nextId + 1, blobLen) && Flat(nodes + [n]) == Flat(nodes) + [e]
  {
    var n := Node(nextId, [e], 1, blobLen([e]));
    Appended(nodes, n, bms, blobLen, nextId);
    LengthsSnoc(Flat(nodes), e);
  }

  /** The nodes after pushing `e` at the head: into the head node when `grow`, else into a new node. */
  function HeadPushed(nodes: seq<Node>, e: Elem, nextId: nat, blobLen: seq<Elem> -> nat, grow: bool): seq<Node>
    requires grow ==> nodes != []
  {
    if grow then nodes[0 := nodes[0].(zl := [e] + nodes[0].zl, sz := blobLen([e] + nodes[0].zl), count := nodes[0].count + 1)]
    else [Node(nextId, [e], 1, blobLen([e]))] + nodes
  }

  lemma PushedHead(nodes: seq<Node>, count: nat, bms: seq<Bookmark>, nextId: nat, blobLen: seq<Elem> -> nat, e: Elem, grow: bool)
    requires Shape(nodes, count, |nodes|, bms, nextId, blobLen) && e.len < UINT32_MAX && (grow ==> nodes != [])
    ensures Shape(HeadPushed(nodes, e, nextId, blobLen, grow), count + 1, |nodes| + (if grow then 0 else 1), bms,
                  nextId + (if grow then 0 else 1), blobLen)
    ensures Flat(HeadPushed(nodes, e, nextId, blobLen, grow)) == [e] + Flat(nodes)
  {
    if grow {
      GrownHead(nodes, count, bms, nextId, blobLen, e);
    } else {
      MadeHead(nodes, count, bms, nextId, blobLen, e);
    }
  }

  /** The nodes after pushing `e` at the tail: into the tail node when `grow`, else into a new node. */
  function TailPushed(nodes: seq<Node>, e: Elem, nextId: nat, blobLen: seq<Elem> -> nat, grow: bool): seq<Node>
    requires grow ==> nodes != []
  {
    if grow then
      var t := |nodes| - 1;
      nodes[t := nodes[t].(zl := nodes[t].zl + [e], sz := blobLen(nodes[t].zl + [e]), count := nodes[t].count + 1)]
    else nodes + [Node(nextId, [e], 1, blobLen([e]))]
  }

  lemma PushedTail(nodes: seq<Node>, count: nat, bms: seq<Bookmark>, nextId: nat, blobLen: seq<Elem> -> nat, e: Elem, grow: bool)
    requires Shape(nodes, count, |nodes|, bms, nextId, blobLen) && e.len < UINT32_MAX && (grow ==> nodes != [])
    ensures Shape(TailPushed(nodes, e, nextId, blobLen, grow), count + 1, |nodes| + (if grow then 0 else 1), bms,
                  nextId + (if grow then 0 else 1), blobLen)
    ensures Flat(TailPushed(nodes, e, nextId, blobLen, grow)) == Flat(nodes) + [e]
  {
    if grow {
      GrownTail(nodes, count, bms, nextId, blobLen, e);
    } else {
      MadeTail(nodes, count, bms, nextId, blobLen, e);
    }
  }

  /** The head node, if any. */
  function HeadNode(nodes: seq<Node>): Option<Node>
  {
    if nodes == [] then None else Some(nodes[0])
  }

  /** The tail node, if any. */
  function TailNode(nodes: seq<Node>): Option<Node>
  {
    if nodes == [] then None else Some(nodes[|nodes| - 1])
  }

  lemma LengthsCons(e: Elem, s: seq<Elem>)
    requires Lengths(s) && e.len < UINT32_MAX
    ensures Lengths([e] + s)
  {
    forall k | 0 <= k < |[e] + s| ensures ([e] + s)[k].len < UINT32_MAX {
      if k > 0 {
        assert ([e] + s)[k] == s[k - 1];
        LengthAt(s, k - 1);
      }
    }
  }

  lemma LengthsSnoc(s: seq<Elem>, e: Elem)
    requires Lengths(s) && e.len < UINT32_MAX
    ensures Lengths(s + [e])
  {
    forall k | 0 <= k < |s + [e]| ensures (s + [e])[k].len < UINT32_MAX {
      if k < |s| {
        assert (s + [e])[k] == s[k];
        LengthAt(s, k);
      }
    }
  }

  /** The entry at offset `off` of node `i` is the list's entry at Before(nodes, i) + off. */
  lemma EntryAt(nodes: seq<Node>, i: nat, off: nat)
    requires i < |nodes| && off < |nodes[i].zl|
    ensures Before(nodes, i) + off < |Flat(nodes)|
    ensures Flat(nodes)[Before(nodes, i) + off] == nodes[i].zl[off]
  {
    BeforeNext(nodes, i);
    assert Flat(nodes)[Before(nodes, i)..Before(nodes, i + 1)][off] == nodes[i].zl[off];
  }

  /** All entries come before the end of the list. */
  lemma BeforeAll(nodes: seq<Node>)
    ensures Before(nodes, |nodes|) == |Flat(nodes)|
    ensures Before(nodes, 0) == 0
  {
    assert nodes[..|nodes|] == nodes;
    assert nodes[..0] == [];
  }

  lemma LengthsSplice(s: seq<Elem>, p: nat, q: nat)
    requires Lengths(s) && p <= q <= |s|
    ensures Lengths(s[..p] + s[q..])
  {
    forall k | 0 <= k < |s[..p] + s[q..]| ensures (s[..p] + s[q..])[k].len < UINT32_MAX {
      if k < p {
        assert (s[..p] + s[q..])[k] == s[k];
        LengthAt(s, k);
      } else {
        assert (s[..p] + s[q..])[k] == s[k - p + q];
        LengthAt(s, k - p + q);
      }
    }
  }

  /**
   * The nodes after deleting `del` entries from offset `p` of node `i`: the
   * node goes when that empties it.
   */
  function RangeDeleted(nodes: seq<Node>, i: nat, p: nat, del: nat, blobLen: seq<Elem> -> nat): (r: seq<Node>)
    requires i < |nodes| && p + del <= |nodes[i].zl|
    ensures |r| == |nodes| - (if del == |nodes[i].zl| then 1 else 0)
    ensures i <= |r| && r[..i] == nodes[..i]
    ensures del < |nodes[i].zl| ==> r[i].zl == nodes[i].zl[..p] + nodes[i].zl[p + del..] && r[i].id == nodes[i].id
  {
    var n := nodes[i];
    var zl := n.zl[..p] + n.zl[p + del..];
    if del == |n.zl| then nodes[..i] + nodes[i + 1..]
    else nodes[i := n.(zl := zl, sz := blobLen(zl), count := |zl|)]
  }

  /** The bookmarks after RangeDeleted. */
  function RangeDeletedMarks(nodes: seq<Node>, i: nat, p: nat, del: nat, bms: seq<Bookmark>): seq<Bookmark>
    requires i < |nodes| && p + del <= |nodes[i].zl|
  {
    if del == |nodes[i].zl| then Retarget(bms, nodes[i].id, NextId(nodes, i)) else bms
  }

  /**
   * Deleting `del` entries of a node takes exactly those entries out of the
   * list, leaves the nodes before it alone, and keeps the list invariant.
   */
  lemma DeletedRange(nodes: seq<Node>, count: nat, bms: seq<Bookmark>, nextId: nat, blobLen: seq<Elem> -> nat,
                     i: nat, p: nat, del: nat)
    requires Shape(nodes, count, |nodes|, bms, nextId, blobLen)
    requires i < |nodes| && p + del <= |nodes[i].zl| && 0 < del
    ensures Before(nodes, i) + p + del <= count
    ensures var r := RangeDeleted(nodes, i, p, del, blobLen);
      && Shape(r, count - del, |r|, RangeDeletedMarks(nodes, i, p, del, bms), nextId, blobLen)
      && Flat(r) == Flat(nodes)[..Before(nodes, i) + p] + Flat(nodes)[Before(nodes, i) + p + del..]
  {
    var r := RangeDeleted(nodes, i, p, del, blobLen);
    if del == |nodes[i].zl| {
      assert r == nodes[..i] + nodes[i + 1..];
      assert RangeDeletedMarks(nodes, i, p, del, bms) == Retarget(bms, nodes[i].id, NextId(nodes, i));
      WholeDeleted(nodes, count, bms, nextId, blobLen, i);
    } else {
      var zl := nodes[i].zl[..p] + nodes[i].zl[p + del..];
      assert r == nodes[i := nodes[i].(zl := zl, sz := blobLen(zl), count := |zl|)];
      PartDeleted(nodes, count, bms, nextId, blobLen, i, p, del);
    }
  }

  lemma WholeDeleted(nodes: seq<Node>, count: nat, bms: seq<Bookmark>, nextId: nat, blobLen: seq<Elem> -> nat, i: nat)
    requires Shape(nodes, count, |nodes|, bms, nextId, blobLen) && i < |nodes|
    ensures Before(nodes, i) + |nodes[i].zl| <= count
    ensures var r := nodes[..i] + nodes[i + 1..];
      && Shape(r, count - |nodes[i].zl|, |r|, Retarget(bms, nodes[i].id, NextId(nodes, i)), nextId, blobLen)
      && Flat(r) == Flat(nodes)[..Before(nodes, i)] + Flat(nodes)[Before(nodes, i) + |nodes[i].zl|..]
      && r[..i] == nodes[..i]
  {
    var r := nodes[..i] + nodes[i + 1..];
    Removed(nodes, i, bms, blobLen, nextId);
    WholeDeletedFlat(nodes, i);
    assert r[..i] == nodes[..i];
    LengthsSplice(Flat(nodes), Before(nodes, i), Before(nodes, i) + |nodes[i].zl|);
  }

  /** Unlinking a node cuts its entries out of the list's entries. */
  lemma WholeDeletedFlat(nodes: seq<Node>, i: nat)
    requires i < |nodes|
    ensures Before(nodes, i) + |nodes[i].zl| <= |Flat(nodes)|
    ensures Flat(nodes[..i] + nodes[i + 1..]) == Flat(nodes)[..Before(nodes, i)] + Flat(nodes)[Before(nodes, i) + |nodes[i].zl|..]
  {
    var z := nodes[i].zl;
    FlatAround(nodes, i);
    FlatAppend(nodes[..i], nodes[i + 1..]);
    SpliceOut(Flat(nodes[..i]), z, Flat(nodes[i + 1..]), 0, |z|);
    assert z[..0] + z[|z|..] == [];
  }

  lemma PartDeleted(nodes: seq<Node>, count: nat, bms: seq<Bookmark>, nextId: nat, blobLen: seq<Elem> -> nat,
                    i: nat, p: nat, del: nat)
    requires Shape(nodes, count, |nodes|, bms, nextId, blobLen)
    requires i < |nodes| && p + del <= |nodes[i].zl| && 0 < del < |nodes[i].zl|
    ensures Before(nodes, i) + p + del <= count
    ensures var zl := nodes[i].zl[..p] + nodes[i].zl[p + del..];
      var r := nodes[i := nodes[i].(zl := zl, sz := blobLen(zl), count := |zl|)];
      && Shape(r, count - del, |r|, bms, nextId, blobLen)
      && Flat(r) == Flat(nodes)[..Before(nodes, i) + p] + Flat(nodes)[Before(nodes, i) + p + del..]
  {
    var n := nodes[i];
    var zl := n.zl[..p] + n.zl[p + del..];
    var m := n.(zl := zl, sz := blobLen(zl), count := |zl|);
    NodeAt(nodes, i, blobLen, nextId);
    Replaced(nodes, i, m, bms, blobLen, nextId);
    PartDeletedFlat(nodes, i, p, del, m);
    LengthsSplice(Flat(nodes), Before(nodes, i) + p, Before(nodes, i) + p + del);
  }

  /** Cutting entries out of one node cuts them out of the list's entries. */
  lemma PartDeletedFlat(nodes: seq<Node>, i: nat, p: nat, del: nat, m: Node)
    requires i < |nodes| && p + del <= |nodes[i].zl|
    requires m.zl == nodes[i].zl[..p] + nodes[i].zl[p + del..]
    ensures Before(nodes, i) + p + del <= |Flat(nodes)|
    ensures Flat(nodes[i := m]) == Flat(nodes)[..Before(nodes, i) + p] + Flat(nodes)[Before(nodes, i) + p + del..]
  {
    var r := nodes[i := m];
    FlatAround(nodes, i);
    FlatAround(r, i);
    assert r[..i] == nodes[..i] && r[i + 1..] == nodes[i + 1..];
    SpliceOut(Flat(nodes[..i]), nodes[i].zl, Flat(nodes[i + 1..]), p, del);
  }

  /** Where the next round of a range deletion starts, in the nodes after this one. */
  lemma DeletedPosition(nodes: seq<Node>, i: nat, p: nat, del: nat, blobLen: seq<Elem> -> nat)
    requires i < |nodes| && p + del <= |nodes[i].zl| && 0 < del
    ensures var r := RangeDeleted(nodes, i, p, del, blobLen);
      && Before(r, i) == Before(nodes, i)
      && (del < |nodes[i].zl| ==> i < |r| && Before(r, i + 1) == Before(nodes, i) + |nodes[i].zl| - del)
  {
    var r := RangeDeleted(nodes, i, p, del, blobLen);
    if del < |nodes[i].zl| {
      BeforeNext(r, i);
    }
  }

  /** Where `offset` (negative: counted from the tail) falls in a node of `count` entries, from its head. */
  function FromHead(count: nat, offset: int): int
  {
    if offset >= 0 then offset else count + offset
  }

  /**
   * The state of quicklistDelRange's loop: of the e0 entries from position s
   * of the original entries c0, the first e0 - extent are gone, and while
   * some remain, `offset` of node i is where the next one is.
   */
  ghost predicate Progress(nodes: seq<Node>, c0: seq<Elem>, s: nat, e0: nat, extent: nat, i: nat, offset: int)
  {
    && s + e0 <= |c0| && extent <= e0
    && Flat(nodes) == c0[..s] + c0[s + e0 - extent..]
    && (extent > 0 ==>
          && i < |nodes|
          && -(nodes[i].count as int) <= offset < nodes[i].count
          && Before(nodes, i) + FromHead(nodes[i].count, offset) == s)
  }

  /**
   * How many entries quicklistDelRange takes from a node of `count` entries,
   * starting at `offset` (negative: counted from the tail), with `extent`
   * still to go, and whether the whole node goes: the four cases of the C
   * code come to the smaller of `extent` and the entries from the offset to
   * the node's end.
   */
  function RoundCount(count: nat, offset: int, extent: nat): (r: (nat, bool))
    requires -(count as int) <= offset < count && 0 < extent
    ensures var p := FromHead(count, offset);
      && r.0 == (if extent < count - p then extent else count - p)
      && (r.1 <==> offset == 0 && extent >= count)
  {
    if offset == 0 && extent >= count then (count, true)
    else if offset >= 0 && extent + offset >= count then (count - offset, false)
    else if offset < 0 then (if -offset > extent then extent else -offset, false)
    else (extent, false)
  }

  /**
   * A round of a range deletion on a well-formed list: the entries go from
   * the flat position of node i's offset p, and, with entries still to go,
   * the next round starts at that same position in a node of the list.
   */
  lemma RoundDeleted(nodes: seq<Node>, count: nat, bms: seq<Bookmark>, nextId: nat, blobLen: seq<Elem> -> nat,
                     i: nat, p: nat, del: nat, extent: nat)
    requires Shape(nodes, count, |nodes|, bms, nextId, blobLen)
    requires i < |nodes| && p + del <= |nodes[i].zl| && 0 < del <= extent
    requires del < extent ==> p + del == |nodes[i].zl|
    requires Before(nodes, i) + p + extent <= count
    ensures var r := RangeDeleted(nodes, i, p, del, blobLen);
      && Flat(r) == Flat(nodes)[..Before(nodes, i) + p] + Flat(nodes)[Before(nodes, i) + p + del..]
      && (del < extent ==>
            var j := if del < |nodes[i].zl| then i + 1 else i;
            j < |r| && Before(r, j) == Before(nodes, i) + p && 0 < r[j].count)
  {
    DeletedRange(nodes, count, bms, nextId, blobLen, i, p, del);
    if del < extent {
      NextRound(nodes, i, p, del, blobLen, nextId, Before(nodes, i) + p);
    }
  }

  /** A round of quicklistDelRange's loop keeps its state. */
  lemma RoundProgress(nodes: seq<Node>, count: nat, bms: seq<Bookmark>, nextId: nat, blobLen: seq<Elem> -> nat,
                      c0: seq<Elem>, s: nat, e0: nat, extent: nat, i: nat, offset: int)
    requires Shape(nodes, count, |nodes|, bms, nextId, blobLen)
    requires 0 < extent && Progress(nodes, c0, s, e0, extent, i, offset)
    ensures var p := FromHead(nodes[i].count, offset);
      var del := RoundCount(nodes[i].count, offset, extent).0;
      && 0 <= p && p + del <= |nodes[i].zl| && 0 < del <= extent
      && Progress(RangeDeleted(nodes, i, p, del, blobLen), c0, s, e0, extent - del, if del < |nodes[i].zl| then i + 1 else i, 0)
  {
    NodeAt(nodes, i, blobLen, nextId);
    var p := FromHead(nodes[i].count, offset);
    var del := RoundCount(nodes[i].count, offset, extent).0;
    var r := RangeDeleted(nodes, i, p, del, blobLen);
    RoundDeleted(nodes, count, bms, nextId, blobLen, i, p, del, extent);
    RoundContents(c0, s, e0, extent, del, Flat(nodes), Flat(r), Before(nodes, i) + p);
  }

  /**
   * After a round of a range deletion with entries still to go, the next
   * round starts at the same flat position s: in the following node when
   * this one kept entries (it was emptied from p to its end), in the node
   * that slid into slot i otherwise.
   */
  lemma NextRound(nodes: seq<Node>, i: nat, p: nat, del: nat, blobLen: seq<Elem> -> nat, nextId: nat, s: nat)
    requires i < |nodes| && p + del <= |nodes[i].zl| && 0 < del
    requires Before(nodes, i) + p == s
    requires del < |nodes[i].zl| ==> p + del == |nodes[i].zl|
    requires NodesOk(RangeDeleted(nodes, i, p, del, blobLen), blobLen, nextId)
    requires s < |Flat(RangeDeleted(nodes, i, p, del, blobLen))|
    ensures var r := RangeDeleted(nodes, i, p, del, blobLen);
      var j := if del < |nodes[i].zl| then i + 1 else i;
      && j < |r| && Before(r, j) == s && NodeOk(r[j], blobLen, nextId)
  {
    var r := RangeDeleted(nodes, i, p, del, blobLen);
    var j := if del < |nodes[i].zl| then i + 1 else i;
    DeletedPosition(nodes, i, p, del, blobLen);
    BeforeAll(r);
    assert j <= |r|;
    if j == |r| {
      assert false;
    }
    NodeAt(r, j, blobLen, nextId);
  }

  /**
   * One round of a range deletion on a list that already lost the first
   * e0 - extent of the e0 entries from position s: taking `del` more out at
   * position s leaves extent - del of them to go.
   */
  lemma RoundContents(c: seq<Elem>, s: nat, e0: nat, extent: nat, del: nat, before: seq<Elem>, after: seq<Elem>, at: nat)
    requires s + e0 <= |c| && del <= extent <= e0
    requires before == c[..s] + c[s + e0 - extent..] && at == s
    requires at + del <= |before| && after == before[..at] + before[at + del..]
    ensures after == c[..s] + c[s + e0 - (extent - del)..]
  {
    assert before[..s] == c[..s];
    assert before[s + del..] == c[s + e0 - (extent - del)..];
  }


  /** The tail node's last entry is the list's last entry. */
  lemma LastEntry(nodes: seq<Node>, blobLen: seq<Elem> -> nat, nextId: nat)
    requires NodesOk(nodes, blobLen, nextId) && nodes != []
    ensures var t := |nodes| - 1;
      && 0 < nodes[t].count == |nodes[t].zl|
      && Before(nodes, t) + (nodes[t].count - 1) == |Flat(nodes)| - 1
      && Flat(nodes)[|Flat(nodes)| - 1] == nodes[t].zl[nodes[t].count - 1]
      && (Lengths(Flat(nodes)) ==> nodes[t].zl[nodes[t].count - 1].len < UINT32_MAX)
  {
    var t := |nodes| - 1;
    NodeAt(nodes, t, blobLen, nextId);
    BeforeAll(nodes);
    BeforeNext(nodes, t);
    EntryAt(nodes, t, nodes[t].count - 1);
    if Lengths(Flat(nodes)) {
      LengthAt(Flat(nodes), |Flat(nodes)| - 1);
    }
  }

  /** Mixed-width arithmetic of DelRange is done on C's `unsigned long`. */
  const ULONG: nat := 0x1_0000_0000_0000_0000

  // ---------------------------------------------------------------------
  // The list

  class Quicklist {
    /** The nodes from head to tail. */
    var nodes: seq<Node>
    /** The number of entries in all nodes. */
    var count: nat
    /** The number of nodes. */
    var len: nat
    var fill: int
    var compress: int
    var bookmarks: seq<Bookmark>
    /** The identity the next allocated node gets. */
    var nextId: nat
    /** ziplistBlobLen: the byte size of a ziplist with these entries. */
    const blobLen: seq<Elem> -> nat

    /** The entries of the list, head to tail. */
    ghost function Contents(): seq<Elem>
      reads this
    {
      Flat(nodes)
    }

    ghost predicate Valid()
      reads this
    {
      Shape(nodes, count, len, bookmarks, nextId, blobLen) && -5 <= fill <= FILL_MAX && 0 <= compress <= COMPRESS_MAX
    }

    /** quicklistCreate: an empty list with fill -2 and no compression. */
    constructor (blobLen: seq<Elem> -> nat)
      ensures Valid() && Contents() == [] && len == 0 && bookmarks == []
      ensures fill == -2 && compress == 0 && this.blobLen == blobLen
    {
      nodes := [];
      len := 0;
      count := 0;
      compress := 0;
      fill := -2;
      bookmarks := [];
      nextId := 0;
      this.blobLen := blobLen;
    }

    /** quicklistSetCompressDepth. */
    method SetCompressDepth(depth: int)
      requires Valid()
      modifies this`compress
      ensures Valid() && compress == ClampDepth(depth)
    {
      var c := depth;
      if c > COMPRESS_MAX {
        c := COMPRESS_MAX;
      } else if c < 0 {
        c := 0;
      }
      compress := c;
    }

    /** quicklistSetFill. */
    method SetFill(f: int)
      requires Valid()
      modifies this`fill
      ensures Valid() && fill == ClampFill(f)
    {
      var c := f;
      if c > FILL_MAX {
        c := FILL_MAX;
      } else if c < -5 {
        c := -5;
      }
      fill := c;
    }

    /** quicklistSetOptions. */
    method SetOptions(f: int, depth: int)
      requires Valid()
      modifies this`fill, this`compress
      ensures Valid() && fill == ClampFill(f) && compress == ClampDepth(depth)
    {
      SetFill(f);
      SetCompressDepth(depth);
    }

    /**
     * __quicklistInsertNode: link `n` after (or before) the node at
     * `oldNode`; a list without nodes takes `n` as its only node.
     */
    method InsertNode(oldNode: Option<nat>, n: Node, after: bool)
      requires len == |nodes|
      requires oldNode.Some? ==> oldNode.value < |nodes|
      requires oldNode.None? ==> nodes == []
      modifies this`nodes, this`len
      ensures len == old(len) + 1 == |nodes|
      ensures oldNode.None? ==> nodes == [n]
      ensures oldNode.Some? && after ==>
        nodes == old(nodes[..oldNode.value + 1]) + [n] + old(nodes[oldNode.value + 1..])
      ensures oldNode.Some? && !after ==>
        nodes == old(nodes[..oldNode.value]) + [n] + old(nodes[oldNode.value..])
    {
      match oldNode {
        case None =>
          nodes := [n];
        case Some(i) =>
          if after {
            nodes := nodes[..i + 1] + [n] + nodes[i + 1..];
          } else {
            nodes := nodes[..i] + [n] + nodes[i..];
          }
      }
      len := len + 1;
    }

    /**
     * __quicklistDelNode: unlink the node at `i`, drop its entries from the
     * count, and move the bookmarks on it to the next node (deleting them
     * when it was the tail).
     */
    method DelNode(i: nat)
      requires len == |nodes| && i < |nodes| && nodes[i].count <= count
      modifies this`nodes, this`len, this`count, this`bookmarks
      ensures nodes == old(nodes[..i] + nodes[i + 1..])
      ensures len == old(len) - 1 && count == old(count - nodes[i].count)
      ensures bookmarks == Retarget(old(bookmarks), old(nodes[i].id), old(NextId(nodes, i)))
    {
      bookmarks := Retarget(bookmarks, nodes[i].id, NextId(nodes, i));
      len := len - 1;
      count := count - nodes[i].count;
      nodes := nodes[..i] + nodes[i + 1..];
    }

    /**
     * quicklistPushHead: put an entry of `sz` bytes in front, into the head
     * node when the fill rule allows it, otherwise into a new head node;
     * true when a node was made.
     */
    method PushHead(value: nat, sz: nat) returns (created: bool)
      requires Valid() && sz < UINT32_MAX
      modifies this`nodes, this`count, this`len, this`nextId
      ensures Valid()
      ensures Contents() == [Elem(value, sz)] + old(Contents())
      ensures created <==> !AllowInsert(HeadNode(old(nodes)), fill, sz)
      ensures nodes == HeadPushed(old(nodes), Elem(value, sz), old(nextId), blobLen, !created)
    {
      var e := Elem(value, sz);
      ghost var grow := AllowInsert(HeadNode(nodes), fill, sz);
      ghost var target := HeadPushed(nodes, e, nextId, blobLen, grow);
      PushedHead(nodes, count, bookmarks, nextId, blobLen, e, grow);
      if AllowInsert(HeadNode(nodes), fill, sz) {
        var h := nodes[0];
        var zl := [e] + h.zl;
        nodes := nodes[0 := h.(zl := zl, sz := blobLen(zl))];
        created := false;
      } else {
        var zl := [e];
        var n := Node(nextId, zl, 0, blobLen(zl));
        nextId := nextId + 1;
        InsertNode(if nodes == [] then None else Some(0), n, false);
        created := true;
      }
      count := count + 1;
      nodes := nodes[0 := nodes[0].(count := nodes[0].count + 1)];
      assert nodes == target;
    }

    /**
     * quicklistPushTail: put an entry of `sz` bytes at the back, into the
     * tail node when the fill rule allows it, otherwise into a new tail node;
     * true when a node was made.
     */
    method PushTail(value: nat, sz: nat) returns (created: bool)
      requires Valid() && sz < UINT32_MAX
      modifies this`nodes, this`count, this`len, this`nextId
      ensures Valid()
      ensures Contents() == old(Contents()) + [Elem(value, sz)]
      ensures created <==> !AllowInsert(TailNode(old(nodes)), fill, sz)
      ensures nodes == TailPushed(old(nodes), Elem(value, sz), old(nextId), blobLen, !created)
    {
      var e := Elem(value, sz);
      ghost var grow := AllowInsert(TailNode(nodes), fill, sz);
      ghost var target := TailPushed(nodes, e, nextId, blobLen, grow);
      PushedTail(nodes, count, bookmarks, nextId, blobLen, e, grow);
      if AllowInsert(TailNode(nodes), fill, sz) {
        var t := |nodes| - 1;
        var h := nodes[t];
        var zl := h.zl + [e];
        nodes := nodes[t := h.(zl := zl, sz := blobLen(zl))];
        created := false;
      } else {
        var zl := [e];
        var n := Node(nextId, zl, 0, blobLen(zl));
        nextId := nextId + 1;
        InsertNode(if nodes == [] then None else Some(|nodes| - 1), n, true);
        created := true;
      }
      count := count + 1;
      var t := |nodes| - 1;
      nodes := nodes[t := nodes[t].(count := nodes[t].count + 1)];
      assert nodes == target;
    }

    /**
     * quicklistDelIndex: delete the entry at offset `off` of node `i`; the
     * node goes when it empties, and then the result is true.
     */
    method DelIndex(i: nat, off: nat) returns (gone: bool)
      requires Valid() && i < |nodes| && off < |nodes[i].zl|
      modifies this`nodes, this`len, this`count, this`bookmarks
      ensures Valid()
      ensures Before(old(nodes), i) + off < old(count)
      ensures Contents() == old(Contents()[..Before(nodes, i) + off] + Contents()[Before(nodes, i) + off + 1..])
      ensures gone <==> old(nodes[i].count) == 1
      ensures nodes == RangeDeleted(old(nodes), i, off, 1, blobLen)
    {
      ghost var target := RangeDeleted(nodes, i, off, 1, blobLen);
      ghost var marks := RangeDeletedMarks(nodes, i, off, 1, bookmarks);
      NodeAt(nodes, i, blobLen, nextId);
      DeletedRange(nodes, count, bookmarks, nextId, blobLen, i, off, 1);
      ghost var rest := Flat(nodes)[..Before(nodes, i) + off] + Flat(nodes)[Before(nodes, i) + off + 1..];
      var n := nodes[i];
      var zl := n.zl[..off] + n.zl[off + 1..];
      if n.count - 1 == 0 {
        // the emptied node is unlinked and freed, so its shrunken ziplist is
        // never seen; unlinking drops its one entry from the count
        assert target == nodes[..i] + nodes[i + 1..];
        assert marks == Retarget(bookmarks, n.id, NextId(nodes, i));
        DelNode(i);
        gone := true;
      } else {
        assert target == nodes[i := n.(zl := zl, sz := blobLen(zl), count := n.count - 1)];
        nodes := nodes[i := n.(zl := zl, sz := blobLen(zl), count := n.count - 1)];
        count := count - 1;
        gone := false;
      }
      assert Flat(nodes) == rest;
    }

    /** The node walk of quicklistGetIteratorAtIdx: from the head (or the tail), skip
      * whole nodes while the entries passed over stay at or below `index`. */
    method Walk(forward: bool, index: nat) returns (n: nat, accum: nat)
      requires Valid() && index < count
      ensures n < |nodes| && accum <= index < accum + nodes[n].count
      ensures forward ==> accum == Before(nodes, n)
      ensures !forward ==> accum == |Flat(nodes)| - Before(nodes, n + 1)
    {
      BeforeAll(nodes);
      NodesCounted(nodes, blobLen, nextId);
      accum := 0;
      var k: int := if forward then 0 else |nodes| - 1;
      // The list holds more than `index` entries, so the walk stops at a node
      // before running off the end: C's check for a NULL node never fires.
      while accum + nodes[k].count <= index
        invariant 0 <= k < |nodes|
        invariant accum <= index
        invariant forward ==> accum == Before(nodes, k)
        invariant !forward ==> accum == |Flat(nodes)| - Before(nodes, k + 1)
        decreases if forward then |nodes| - k else k
      {
        BeforeNext(nodes, k);
        accum := accum + nodes[k].count;
        if forward {
          BeforeNext(nodes, k + 1);
          k := k + 1;
        } else {
          BeforeNext(nodes, k - 1);
          k := k - 1;
        }
      }
      n := k;
    }

    /**
     * quicklistIndex: find the entry at `idx` (from the head when `idx` is
     * not negative, from the tail as -1, -2, ... otherwise) by walking the
     * nodes and adding up their counts.
     */
    method Index(idx: int) returns (r: Option<Found>)
      requires Valid()
      ensures r.Some? <==> if idx >= 0 then idx < count else -idx <= count
      ensures r.Some? ==>
        var pos := if idx >= 0 then idx else count + idx;
        && 0 <= pos < count
        && r.value.node < |nodes|
        && r.value.elem == Contents()[pos]
        && (idx >= 0 ==> 0 <= r.value.offset < nodes[r.value.node].count
                         && Before(nodes, r.value.node) + r.value.offset == pos)
        && (idx < 0 ==> -(nodes[r.value.node].count as int) <= r.value.offset < 0
                        && Before(nodes, r.value.node) + nodes[r.value.node].count + r.value.offset == pos)
    {
      var forward := idx >= 0;
      var index: nat := if forward then idx else -idx - 1;
      if index >= count {
        return None;
      }
      var n, accum := Walk(forward, index);
      NodeAt(nodes, n, blobLen, nextId);
      BeforeNext(nodes, n);
      var offset: int := if forward then index - accum else accum - index - 1;
      var p := if forward then offset else nodes[n].count + offset;
      EntryAt(nodes, n, p);
      r := Some(Found(n, offset, nodes[n].zl[p]));
    }

    /**
     * quicklistPop / quicklistPopCustom: take the head or tail entry out of
     * the list and return it; nothing when the list is empty.
     */
    method Pop(where: Where) returns (r: Option<Elem>)
      requires Valid()
      modifies this`nodes, this`len, this`count, this`bookmarks
      ensures Valid()
      ensures old(count) == 0 ==> r.None? && nodes == old(nodes)
      ensures old(count) > 0 && where == Head ==> r == Some(old(Contents())[0]) && Contents() == old(Contents())[1..]
      ensures old(count) > 0 && where == Tail ==>
                r == Some(old(Contents())[old(count) - 1]) && Contents() == old(Contents())[..old(count) - 1]
    {
      if count == 0 {
        return None;
      }
      var e;
      if where == Head {
        e := First();
        DropHead();
      } else {
        e := Last();
        DropTail();
      }
      r := Some(e);
    }

    /** The head entry, read from the head node. */
    method First() returns (e: Elem)
      requires Valid() && count > 0
      ensures e == Contents()[0]
    {
      BeforeAll(nodes);
      NodeAt(nodes, 0, blobLen, nextId);
      EntryAt(nodes, 0, 0);
      e := nodes[0].zl[0];
    }

    /** Deletes the head entry. */
    method DropHead()
      requires Valid() && count > 0
      modifies this`nodes, this`len, this`count, this`bookmarks
      ensures Valid() && Contents() == old(Contents())[1..]
    {
      BeforeAll(nodes);
      NodeAt(nodes, 0, blobLen, nextId);
      var gone := DelIndex(0, 0);
    }

    /** The tail entry, read from the tail node. */
    method Last() returns (e: Elem)
      requires Valid() && count > 0
      ensures e == Contents()[count - 1] && e.len < UINT32_MAX
    {
      LastEntry(nodes, blobLen, nextId);
      var t := |nodes| - 1;
      e := nodes[t].zl[nodes[t].count - 1];
    }

    /** Deletes the tail entry. */
    method DropTail()
      requires Valid() && count > 0
      modifies this`nodes, this`len, this`count, this`bookmarks
      ensures Valid() && Contents() == old(Contents())[..old(count) - 1]
    {
      LastEntry(nodes, blobLen, nextId);
      var t := |nodes| - 1;
      var gone := DelIndex(t, nodes[t].count - 1);
    }

    /** quicklistRotate: move the tail entry to the head. */
    method Rotate()
      requires Valid()
      modifies this`nodes, this`count, this`len, this`nextId, this`bookmarks
      ensures Valid()
      ensures old(count) <= 1 ==> Contents() == old(Contents())
      ensures old(count) > 1 ==> Contents() == [old(Contents())[old(count) - 1]] + old(Contents())[..old(count) - 1]
    {
      if count <= 1 {
        return;
      }
      ghost var c0 := Contents();
      var e := Last();
      var created := PushHead(e.value, e.len);
      DropTail();
      assert Contents() == ([e] + c0)[..|c0|];
    }

    /**
     * The partial branch of quicklistDelRange's loop: delete `del` entries of
     * node `i` from `offset` (negative: counted from the node's tail), then
     * unlink the node if that emptied it; false when the node went.
     */
    method TrimNode(i: nat, offset: int, del: nat) returns (kept: bool)
      requires Valid() && i < |nodes|
      requires -(|nodes[i].zl| as int) <= offset < |nodes[i].zl|
      requires 0 < del && FromHead(|nodes[i].zl|, offset) + del <= |nodes[i].zl|
      modifies this`nodes, this`len, this`count, this`bookmarks
      ensures Valid()
      ensures kept <==> del < old(|nodes[i].zl|)
      ensures var p := FromHead(old(|nodes[i].zl|), offset);
        && nodes == RangeDeleted(old(nodes), i, p, del, blobLen)
        && bookmarks == RangeDeletedMarks(old(nodes), i, p, del, old(bookmarks))
    {
      var n := nodes[i];
      NodeAt(nodes, i, blobLen, nextId);
      ghost var p := FromHead(|n.zl|, offset);
      ghost var target := RangeDeleted(nodes, i, p, del, blobLen);
      ghost var marks := RangeDeletedMarks(nodes, i, p, del, bookmarks);
      DeletedRange(nodes, count, bookmarks, nextId, blobLen, i, p, del);
      DeleteRangeAt(n.zl, offset, del);
      var zl := DeleteRange(n.zl, offset, del);
      if n.count - del == 0 {
        // quicklistDeleteIfEmpty: the emptied node is unlinked and freed, so
        // its shrunken ziplist is never seen; unlinking drops its `del`
        // entries from the count
        assert target == nodes[..i] + nodes[i + 1..];
        assert marks == Retarget(bookmarks, n.id, NextId(nodes, i));
        DelNode(i);
        kept := false;
      } else {
        assert target == nodes[i := n.(zl := zl, sz := blobLen(zl), count := n.count - del)];
        nodes := nodes[i := n.(zl := zl, sz := blobLen(zl), count := n.count - del)];
        count := count - del;
        kept := true;
      }
    }

    /**
     * One round of quicklistDelRange's loop: the whole node `i` at once when
     * `entire`, otherwise TrimNode; false when the node went.
     */
    method DeleteInNode(i: nat, offset: int, del: nat, entire: bool) returns (kept: bool)
      requires Valid() && i < |nodes|
      requires -(|nodes[i].zl| as int) <= offset < |nodes[i].zl|
      requires 0 < del && FromHead(|nodes[i].zl|, offset) + del <= |nodes[i].zl|
      requires entire ==> offset == 0 && del == |nodes[i].zl|
      modifies this`nodes, this`len, this`count, this`bookmarks
      ensures Valid()
      ensures kept <==> del < old(|nodes[i].zl|)
      ensures var p := FromHead(old(|nodes[i].zl|), offset);
        && nodes == RangeDeleted(old(nodes), i, p, del, blobLen)
        && bookmarks == RangeDeletedMarks(old(nodes), i, p, del, old(bookmarks))
    {
      if entire {
        NodeAt(nodes, i, blobLen, nextId);
        ghost var target := RangeDeleted(nodes, i, 0, del, blobLen);
        ghost var marks := RangeDeletedMarks(nodes, i, 0, del, bookmarks);
        DeletedRange(nodes, count, bookmarks, nextId, blobLen, i, 0, del);
        DelNode(i);
        kept := false;
        assert nodes == target && bookmarks == marks;
      } else {
        kept := TrimNode(i, offset, del);
      }
    }

    /**
     * One round of quicklistDelRange's loop over the nodes: the whole node
     * goes when the range starts at its head and covers it, its tail from
     * the offset when the range reaches its end, otherwise `extent` entries
     * (for a negative offset, no more than up to the node's end); `kept`
     * says the node is still there.
     */
    method DeleteRound(i: nat, offset: int, extent: nat, ghost c0: seq<Elem>, ghost s: nat, ghost e0: nat)
      returns (del: nat, kept: bool)
      requires Valid() && 0 < extent && Progress(nodes, c0, s, e0, extent, i, offset)
      modifies this`nodes, this`len, this`count, this`bookmarks
      ensures Valid()
      ensures del == RoundCount(old(nodes[i].count), offset, extent).0 && 0 < del <= extent
      ensures kept <==> del < old(|nodes[i].zl|)
      ensures 0 <= FromHead(old(nodes[i].count), offset) && FromHead(old(nodes[i].count), offset) + del <= old(|nodes[i].zl|)
      ensures nodes == RangeDeleted(old(nodes), i, FromHead(old(nodes[i].count), offset), del, blobLen)
      ensures Progress(nodes, c0, s, e0, extent - del, if kept then i + 1 else i, 0)
    {
      NodeAt(nodes, i, blobLen, nextId);
      var n := nodes[i];
      var round := RoundCount(n.count, offset, extent);
      del := round.0;
      RoundProgress(nodes, count, bookmarks, nextId, blobLen, c0, s, e0, extent, i, offset);
      kept := DeleteInNode(i, offset, del, round.1);
    }

    /**
     * The loop of quicklistDelRange: delete `extent` entries, the first at
     * `offset` of node `i`, node by node.
     */
    method DeleteExtent(i: nat, offset: int, extent: nat, ghost c0: seq<Elem>, ghost s: nat)
      requires Valid() && Progress(nodes, c0, s, extent, extent, i, offset)
      modifies this`nodes, this`len, this`count, this`bookmarks
      ensures Valid() && Contents() == c0[..s] + c0[s + extent..]
    {
      var node := i;
      var off := offset;
      var rest := extent;
      while rest > 0
        invariant Valid() && Progress(nodes, c0, s, extent, rest, node, off)
        decreases rest
      {
        var del, kept := DeleteRound(node, off, rest, c0, s, extent);
        rest := rest - del;
        if kept {
          node := node + 1;
        }
        off := 0;
      }
    }

    /**
     * quicklistDelRange: delete up to `cnt` entries from position `start`
     * (negative: counted from the tail), fewer when the list ends first;
     * false, with nothing changed, when `cnt` is not positive or `start` is
     * out of range.
     */
    method DelRange(start: int, cnt: int) returns (ok: bool)
      requires Valid() && count < ULONG
      modifies this`nodes, this`len, this`count, this`bookmarks
      ensures Valid()
      ensures ok <==> cnt > 0 && if start >= 0 then start < old(count) else -start <= old(count)
      ensures !ok ==> nodes == old(nodes) && count == old(count) && bookmarks == old(bookmarks)
      ensures ok ==>
        var s := if start >= 0 then start else old(count) + start;
        Contents() == old(Contents())[..s] + old(Contents())[if s + cnt <= old(count) then s + cnt else old(count)..]
    {
      if cnt <= 0 {
        return false;
      }
      // count is an unsigned long: C subtracts in unsigned arithmetic
      var extent: nat := cnt;
      if start >= 0 && extent > (count - start) % ULONG {
        extent := (count - start) % ULONG;
      } else if start < 0 && extent > -start {
        extent := -start;
      }
      var entry := Index(start);
      if entry.None? {
        return false;
      }
      ok := true;
      ghost var c0 := Contents();
      ghost var s: nat := if start >= 0 then start else count + start;
      assert c0[..s] + c0[s + extent - extent..] == c0;
      assert s + extent == if s + cnt <= count then s + cnt else count;
      DeleteExtent(entry.value.node, entry.value.offset, extent, c0, s);
    }

    /** _quicklistBookmarkFindByName: the position of the first bookmark called `name`. */
    method FindByName(name: string) returns (r: Option<nat>)
      ensures r == FirstNamed(bookmarks, name)
    {
      var i := 0;
      while i < |bookmarks|
        invariant i <= |bookmarks|
        invariant forall k :: 0 <= k < i ==> bookmarks[k].name != name
      {
        if bookmarks[i].name == name {
          FirstNamedIs(bookmarks, name, i);
          return Some(i);
        }
        i := i + 1;
      }
      FirstNamedNone(bookmarks, name);
      return None;
    }

    /** _quicklistBookmarkFindByNode: the position of the first bookmark on the node `id`. */
    method FindByNode(id: nat) returns (r: Option<nat>)
      ensures r == FirstOnNode(bookmarks, id)
    {
      var i := 0;
      while i < |bookmarks|
        invariant i <= |bookmarks|
        invariant forall k :: 0 <= k < i ==> bookmarks[k].node != id
      {
        if bookmarks[i].node == id {
          return Some(i);
        }
        i := i + 1;
      }
      return None;
    }

    /**
     * quicklistBookmarkCreate: point the bookmark `name` at the node `id`,
     * adding it when there is none.  The limit is checked first, so a full
     * set of QL_MAX_BM bookmarks refuses even a name it already has.
     */
    method BookmarkCreate(name: string, id: nat) returns (ok: bool)
      requires Valid() && Live(nodes, id)
      modifies this`bookmarks
      ensures Valid()
      ensures ok <==> old(|bookmarks|) < MAX_BOOKMARKS
      ensures bookmarks == if ok then Marked(old(bookmarks), name, id) else old(bookmarks)
    {
      if |bookmarks| >= MAX_BOOKMARKS {
        return false;
      }
      MarksAdded(bookmarks, nodes, name, id);
      var found := FindByName(name);
      if found.Some? {
        var k := found.value;
        bookmarks := bookmarks[k := bookmarks[k].(node := id)];
        return true;
      }
      bookmarks := bookmarks + [Bookmark(name, id)];
      ok := true;
    }

    /** quicklistBookmarkFind: the node the bookmark `name` is on, which is always a node of the list. */
    method BookmarkFind(name: string) returns (r: Option<nat>)
      requires Valid()
      ensures r == NodeNamed(bookmarks, name)
      ensures r.Some? ==> Live(nodes, r.value)
    {
      var found := FindByName(name);
      if found.None? {
        return None;
      }
      MarkLive(bookmarks, nodes, found.value);
      r := Some(bookmarks[found.value].node);
    }

    /** _quicklistBookmarkDelete: take out the bookmark at `k`; the later ones move up. */
    method BookmarkDeleteAt(k: nat)
      requires Valid() && k < |bookmarks|
      modifies this`bookmarks
      ensures Valid()
      ensures bookmarks == old(bookmarks[..k] + bookmarks[k + 1..])
    {
      MarksDropped(bookmarks, nodes, k);
      bookmarks := bookmarks[..k] + bookmarks[k + 1..];
    }

    /** quicklistBookmarkDelete: delete the bookmark `name`; false when there is none. */
    method BookmarkDelete(name: string) returns (ok: bool)
      requires Valid()
      modifies this`bookmarks
      ensures Valid()
      ensures ok <==> old(FirstNamed(bookmarks, name)).Some?
      ensures bookmarks == Unmarked(old(bookmarks), name)
    {
      var found := FindByName(name);
      if found.None? {
        return false;
      }
      BookmarkDeleteAt(found.value);
      ok := true;
    }

    /** quicklistBookmarksClear: drop the bookmarks one by one from the end. */
    method BookmarksClear()
      requires Valid()
      modifies this`bookmarks
      ensures Valid() && bookmarks == []
    {
      while |bookmarks| > 0
        invariant Valid()
        decreases |bookmarks|
      {
        var last := |bookmarks| - 1;
        MarksDropped(bookmarks, nodes, last);
        assert bookmarks[..last] + bookmarks[last + 1..] == bookmarks[..last];
        bookmarks := bookmarks[..last];
      }
    }
  }
}
