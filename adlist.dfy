/**
 * The generic doubly linked list of adlist.c.
 *
 * A `List` owns a sequence of `ListNode`s linked through `prev`/`next`,
 * with `head`, `tail` and `len` kept in step.  The ghost field `nodes`
 * lists the nodes from head to tail and `Contents` their values; `Valid()`
 * ties the pointers to them.  The three callbacks of the C list (`dup`,
 * `free`, `match`) are fixed when the list is made; the free callback is
 * observable through the ghost log `Freed` of the values handed to it.
 */
module Adlist {

  datatype Option<T> = None | Some(value: T)

  /** AL_START_HEAD / AL_START_TAIL. */
  datatype Direction = StartHead | StartTail

  /** A position of `x` in `s` (the only one when the elements are distinct). */
  ghost function IndexOf<T>(s: seq<T>, x: T): (i: nat)
    requires x in s
    ensures i < |s| && s[i] == x
  {
    if s[0] == x then 0 else
      assert s[1..][IndexOf(s[1..], x)] == x;
      1 + IndexOf(s[1..], x)
  }

  /** An identity on positions: distinctness facts are instantiated only where a proof names one. */
  ghost function Pos(i: int): int
  {
    i
  }

  /** No element occurs twice in `s`. */
  ghost predicate Distinct<T>(s: seq<T>)
  {
    forall i, j {:trigger Pos(i), Pos(j)} :: 0 <= i < j < |s| ==> s[i] != s[j]
  }

  /** `Distinct` says that different positions hold different elements. */
  lemma DistinctIndices<T>(s: seq<T>)
    ensures Distinct(s) <==> forall i, j :: 0 <= i < j < |s| ==> s[i] != s[j]
  {
    if Distinct(s) {
      forall i, j | 0 <= i < j < |s|
        ensures s[i] != s[j]
      {
        assert Pos(i) == i && Pos(j) == j;
      }
    }
  }

  /** Two given positions of a distinct sequence hold different elements. */
  lemma DistinctAt<T>(s: seq<T>, i: nat, j: nat)
    requires Distinct(s) && i < j < |s|
    ensures s[i] != s[j]
  {
    assert Pos(i) == i;
    assert Pos(j) == j;
  }

  /** In a distinct sequence `IndexOf` finds the one position holding the element. */
  lemma IndexOfAt<T>(s: seq<T>, k: nat)
    requires Distinct(s) && k < |s|
    ensures IndexOf(s, s[k]) == k
  {
    var i := IndexOf(s, s[k]);
    if i < k {
      DistinctAt(s, i, k);
    } else if k < i {
      DistinctAt(s, k, i);
    }
  }

  /** Putting a new element anywhere into a distinct sequence keeps it distinct. */
  lemma DistinctInsert<T>(s: seq<T>, p: nat, x: T)
    requires Distinct(s) && p <= |s| && x !in s
    ensures Distinct(s[..p] + [x] + s[p..])
  {
    var t := s[..p] + [x] + s[p..];
    DistinctIndices(s);
    forall i, j | 0 <= i < j < |t|
      ensures t[i] != t[j]
    {
      if j < p {
        assert t[i] == s[i] && t[j] == s[j];
      } else if j == p {
        assert t[i] == s[i];
      } else if i < p {
        assert t[i] == s[i] && t[j] == s[j - 1];
      } else if i == p {
        assert t[j] == s[j - 1];
      } else {
        assert t[i] == s[i - 1] && t[j] == s[j - 1];
      }
    }
    DistinctIndices(t);
  }

  /** Taking one element out of a distinct sequence keeps it distinct. */
  lemma DistinctRemove<T>(s: seq<T>, k: nat)
    requires Distinct(s) && k < |s|
    ensures Distinct(s[..k] + s[k + 1..])
  {
    var t := s[..k] + s[k + 1..];
    DistinctIndices(s);
    forall i, j | 0 <= i < j < |t|
      ensures t[i] != t[j]
    {
      if j < k {
        assert t[i] == s[i] && t[j] == s[j];
      } else if i < k {
        assert t[i] == s[i] && t[j] == s[j + 1];
      } else {
        assert t[i] == s[i + 1] && t[j] == s[j + 1];
      }
    }
    DistinctIndices(t);
  }

  /** Two distinct sequences with no element in common concatenate to a distinct one. */
  lemma DistinctAppend<T>(s: seq<T>, t: seq<T>)
    requires Distinct(s) && Distinct(t)
    requires forall x :: x in s ==> x !in t
    ensures Distinct(s + t)
  {
    var u := s + t;
    DistinctIndices(s);
    DistinctIndices(t);
    forall i, j | 0 <= i < j < |u|
      ensures u[i] != u[j]
    {
      if j < |s| {
        assert u[i] == s[i] && u[j] == s[j];
      } else if i < |s| {
        assert u[i] == s[i] && u[j] == t[j - |s|];
        assert s[i] in s;
      } else {
        assert u[i] == t[i - |s|] && u[j] == t[j - |s|];
      }
    }
    DistinctIndices(u);
  }

  /**
   * The position `listIndex` reaches: a non-negative index counts from the
   * head, a negative one from the tail (-1 is the last element).
   */
  function IndexPosition(len: nat, index: int): (r: Option<nat>)
    ensures r.Some? <==> -(len as int) <= index < len
    ensures r.Some? ==> r.value < len && r.value % len == index % len
  {
    if index >= 0 then (if index < len then Some(index) else None)
    else if -index <= len then Some(len + index)
    else None
  }

  /** A negative index names the same element as that index plus the length. */
  lemma IndexFromTail(len: nat, index: int)
    requires -(len as int) <= index < 0
    ensures IndexPosition(len, index) == IndexPosition(len, index + len)
  {
  }

  /** The sequence `listRotateTailToHead` produces: the last element first. */
  function RotatedTailToHead<V>(s: seq<V>): seq<V>
  {
    if |s| <= 1 then s else [s[|s| - 1]] + s[..|s| - 1]
  }

  /** The sequence `listRotateHeadToTail` produces: the first element last. */
  function RotatedHeadToTail<V>(s: seq<V>): seq<V>
  {
    if |s| <= 1 then s else s[1..] + [s[0]]
  }

  /** Every element moves one place towards the tail, the last wrapping round to the head. */
  lemma RotatedTailToHeadAt<V>(s: seq<V>)
    requires s != []
    ensures |RotatedTailToHead(s)| == |s| && RotatedTailToHead(s)[0] == s[|s| - 1]
    ensures forall i :: 0 <= i < |s| - 1 ==> RotatedTailToHead(s)[i + 1] == s[i]
  {
  }

  /** Every element moves one place towards the head, the first wrapping round to the tail. */
  lemma RotatedHeadToTailAt<V>(s: seq<V>)
    requires s != []
    ensures |RotatedHeadToTail(s)| == |s| && RotatedHeadToTail(s)[|s| - 1] == s[0]
    ensures forall i :: 0 <= i < |s| - 1 ==> RotatedHeadToTail(s)[i] == s[i + 1]
  {
  }

  /** Rotating a distinct sequence either way keeps it distinct. */
  lemma DistinctRotated<T>(s: seq<T>)
    requires Distinct(s)
    ensures Distinct(RotatedTailToHead(s)) && Distinct(RotatedHeadToTail(s))
  {
    if |s| > 1 {
      var n := |s|;
      var r := RotatedTailToHead(s);
      var h := RotatedHeadToTail(s);
      RotatedTailToHeadAt(s);
      RotatedHeadToTailAt(s);
      DistinctIndices(s);
      forall i, j | 0 <= i < j < n
        ensures r[i] != r[j] && h[i] != h[j]
      {
        if i == 0 {
          assert r[i] == s[n - 1] && r[j] == s[j - 1];
        } else {
          assert r[i] == s[i - 1] && r[j] == s[j - 1];
        }
        if j == n - 1 {
          assert h[i] == s[i + 1] && h[j] == s[0];
        } else {
          assert h[i] == s[i + 1] && h[j] == s[j + 1];
        }
      }
      DistinctIndices(r);
      DistinctIndices(h);
    }
  }

  /** The two rotations undo each other. */
  lemma RotationsInverse<V>(s: seq<V>)
    ensures RotatedHeadToTail(RotatedTailToHead(s)) == s
    ensures RotatedTailToHead(RotatedHeadToTail(s)) == s
  {
    if |s| > 1 {
      assert RotatedTailToHead(s)[1..] == s[..|s| - 1];
      assert s[..|s| - 1] + [s[|s| - 1]] == s;
      assert RotatedHeadToTail(s)[..|s| - 1] == s[1..];
      assert [s[0]] + s[1..] == s;
    }
  }

  /** What `listDup` stores for each value: the `dup` result, or the value itself. */
  function DupValue<V>(dup: Option<V -> Option<V>>, v: V): Option<V>
  {
    if dup.Some? then dup.value(v) else Some(v)
  }

  /** The values of a duplicate of `s`, or None if `dup` fails on one of them. */
  function Duplicated<V>(dup: Option<V -> Option<V>>, s: seq<V>): (r: Option<seq<V>>)
    ensures r.None? <==> exists i :: 0 <= i < |s| && DupValue(dup, s[i]).None?
    ensures r.Some? ==> |r.value| == |s|
    ensures r.Some? ==> forall i :: 0 <= i < |s| ==> Some(r.value[i]) == DupValue(dup, s[i])
  {
    if s == [] then Some([])
    else
      var tl := Duplicated(dup, s[1..]);
      assert forall i :: 1 <= i < |s| ==> s[i] == s[1..][i - 1];
      if DupValue(dup, s[0]).None? || tl.None? then None
      else Some([DupValue(dup, s[0]).value] + tl.value)
  }

  /** Duplicating one more value at the end extends the duplicate by its `dup` result. */
  lemma {:induction false} DuplicatedSnoc<V>(dup: Option<V -> Option<V>>, s: seq<V>, v: V)
    ensures Duplicated(dup, s + [v]) ==
      if Duplicated(dup, s).Some? && DupValue(dup, v).Some?
      then Some(Duplicated(dup, s).value + [DupValue(dup, v).value])
      else None
  {
    if s == [] {
      assert s + [v] == [v] && [v][1..] == [];
      if DupValue(dup, v).Some? {
        assert [DupValue(dup, v).value] + [] == [] + [DupValue(dup, v).value];
      }
    } else {
      assert (s + [v])[0] == s[0] && (s + [v])[1..] == s[1..] + [v];
      DuplicatedSnoc(dup, s[1..], v);
      var tl := Duplicated(dup, s[1..]);
      if DupValue(dup, s[0]).Some? && tl.Some? && DupValue(dup, v).Some? {
        var h := [DupValue(dup, s[0]).value];
        assert h + (tl.value + [DupValue(dup, v).value]) == (h + tl.value) + [DupValue(dup, v).value];
      }
    }
  }

  class ListNode<V> {
    var prev: ListNode?<V>
    var next: ListNode?<V>
    var value: V

    constructor (v: V)
      ensures value == v && prev == null && next == null
    {
      value := v;
      prev := null;
      next := null;
    }
  }

  class List<V(==)> {
    var head: ListNode?<V>
    var tail: ListNode?<V>
    var len: nat
    const dupMethod: Option<V -> Option<V>>
    const freeMethod: bool
    const matchMethod: Option<(V, V) -> bool>

    ghost var nodes: seq<ListNode<V>>
    ghost var Contents: seq<V>
    ghost var Freed: seq<V>

    /**
     * Node `i` of the chain holds `Contents[i]` and points at its
     * neighbours, with null past either end.
     */
    ghost predicate LinkedAt(i: int)
      reads this`nodes, this`Contents, nodes
      requires 0 <= i < |nodes| && |Contents| == |nodes|
    {
      nodes[i].value == Contents[i] &&
      nodes[i].prev == (if i == 0 then null else nodes[i - 1]) &&
      nodes[i].next == (if i == |nodes| - 1 then null else nodes[i + 1])
    }

    /**
     * The chain of nodes on its own: `len` counts it, no node occurs twice
     * and every node is linked to its neighbours in order.
     */
    ghost predicate Chain()
      reads this`len, this`nodes, this`Contents, nodes
    {
      len == |nodes| && |Contents| == |nodes| && Distinct(nodes) &&
      forall i :: 0 <= i < |nodes| ==> LinkedAt(i)
    }

    /** A well-formed list: a chain whose ends are `head` and `tail`. */
    ghost predicate Valid()
      reads this`head, this`tail, this`len, this`nodes, this`Contents, nodes
    {
      Chain() &&
      if nodes == [] then head == null && tail == null
      else head == nodes[0] && tail == nodes[|nodes| - 1]
    }

    /** The test `listSearchKey` applies: `match` if set, pointer equality otherwise. */
    ghost predicate Matches(v: V, key: V)
    {
      if matchMethod.Some? then matchMethod.value(v, key) else key == v
    }

    /** listCreate, followed by the listSet*Method setters. */
    constructor (dupMethod: Option<V -> Option<V>>, freeMethod: bool,
                 matchMethod: Option<(V, V) -> bool>)
      ensures Valid() && Contents == [] && Freed == []
      ensures this.dupMethod == dupMethod && this.freeMethod == freeMethod
      ensures this.matchMethod == matchMethod
    {
      head := null;
      tail := null;
      len := 0;
      this.dupMethod := dupMethod;
      this.freeMethod := freeMethod;
      this.matchMethod := matchMethod;
      nodes := [];
      Contents := [];
      Freed := [];
    }

    /** listEmpty: every value goes to the free callback, head to tail. */
    method Empty()
      requires Valid()
      modifies this
      ensures Valid() && Contents == [] && nodes == []
      ensures Freed == old(Freed) + (if freeMethod then old(Contents) else [])
    {
      var current := head;
      var remaining := len;
      ghost var k := 0;
      ghost var log := Freed;
      while remaining > 0
        invariant 0 <= k <= |nodes| && remaining == |nodes| - k
        invariant current == (if k < |nodes| then nodes[k] else null)
        invariant log == Freed + (if freeMethod then Contents[..k] else [])
      {
        assert LinkedAt(k);
        var next := current.next;
        if freeMethod {
          log := log + [current.value];
          assert Contents[..k + 1] == Contents[..k] + [Contents[k]];
        }
        current := next;
        remaining := remaining - 1;
        k := k + 1;
      }
      assert Contents[..k] == Contents;
      Freed := log;
      head := null;
      tail := null;
      len := 0;
      nodes := [];
      Contents := [];
    }

    /**
     * The heap effect of linking a fresh `node` in at position `p`: its
     * neighbours' `next`/`prev` now point at it and nothing else changed.
     */
    twostate lemma Spliced(p: nat, new node: ListNode<V>, new value: V)
      requires old(Chain()) && p <= old(|nodes|) && node !in old(nodes)
      requires nodes == old(nodes[..p]) + [node] + old(nodes[p..])
      requires Contents == old(Contents[..p]) + [value] + old(Contents[p..])
      requires len == old(len) + 1
      requires node.value == value
      requires node.prev == (if p == 0 then null else old(nodes[p - 1]))
      requires node.next == (if p == old(|nodes|) then null else old(nodes[p]))
      requires head == (if p == 0 then node else old(nodes[0]))
      requires tail == (if p == old(|nodes|) then node else old(nodes[|nodes| - 1]))
      requires p > 0 ==> old(nodes[p - 1]).next == node
      requires p < old(|nodes|) ==> old(nodes[p]).prev == node
      requires forall x :: x in old(nodes) ==>
        x.value == old(x.value) &&
        (x == node.prev || x.next == old(x.next)) &&
        (x == node.next || x.prev == old(x.prev))
      ensures Valid()
    {
      ghost var n := old(|nodes|);
      DistinctInsert(old(nodes), p, node);
      forall i | 0 <= i < |nodes|
        ensures LinkedAt(i)
      {
        if i < p {
          assert nodes[i] == old(nodes[i]) && old(LinkedAt(i));
          if i < p - 1 {
            DistinctAt(old(nodes), i, p - 1);
          }
          if p < n {
            DistinctAt(old(nodes), i, p);
          }
        } else if i > p {
          assert nodes[i] == old(nodes[i - 1]) && old(LinkedAt(i - 1));
          if p > 0 {
            DistinctAt(old(nodes), p - 1, i - 1);
          }
          if i - 1 > p {
            DistinctAt(old(nodes), p, i - 1);
          }
        }
      }
    }

    /**
     * The heap effect of unlinking the node at position `i`: its neighbours
     * now point at each other and nothing else changed.
     */
    twostate lemma Unspliced(i: nat)
      requires old(Valid()) && i < old(|nodes|)
      requires nodes == old(nodes[..i]) + old(nodes[i + 1..])
      requires Contents == old(Contents[..i]) + old(Contents[i + 1..])
      requires len == old(len) - 1
      requires head == (if i == 0 then old(nodes[i].next) else old(head))
      requires tail == (if i == old(|nodes|) - 1 then old(nodes[i].prev) else old(tail))
      requires i > 0 ==> old(nodes[i - 1]).next == old(nodes[i].next)
      requires i < old(|nodes|) - 1 ==> old(nodes[i + 1]).prev == old(nodes[i].prev)
      requires forall x :: x in old(nodes) ==>
        x.value == old(x.value) &&
        (x == old(nodes[i].prev) || x.next == old(x.next)) &&
        (x == old(nodes[i].next) || x.prev == old(x.prev))
      ensures Valid()
    {
      ghost var n := old(|nodes|);
      DistinctRemove(old(nodes), i);
      assert old(LinkedAt(i));
      forall k | 0 <= k < |nodes|
        ensures LinkedAt(k)
      {
        if k < i {
          assert nodes[k] == old(nodes[k]) && old(LinkedAt(k));
          if k < i - 1 {
            DistinctAt(old(nodes), k, i - 1);
          }
          if i < n - 1 {
            DistinctAt(old(nodes), k, i + 1);
          }
        } else {
          assert nodes[k] == old(nodes[k + 1]) && old(LinkedAt(k + 1));
          if i > 0 {
            DistinctAt(old(nodes), i - 1, k + 1);
          }
          if k > i {
            DistinctAt(old(nodes), i + 1, k + 1);
          }
        }
      }
    }

    /** listAddNodeHead: the value becomes the first element. */
    method AddNodeHead(value: V)
      requires Valid()
      modifies this, nodes
      ensures Valid() && len == old(len) + 1 && Freed == old(Freed)
      ensures nodes == [nodes[0]] + old(nodes) && fresh(nodes[0])
      ensures Contents == [value] + old(Contents)
    {
      var node := new ListNode(value);
      if len == 0 {
        head := node;
        tail := node;
      } else {
        node.next := head;
        head.prev := node;
        head := node;
      }
      len := len + 1;
      nodes := [node] + nodes;
      Contents := [value] + Contents;
      ghost var p := 0;
      Spliced(p, node, value);
    }

    /** listAddNodeTail: the value becomes the last element. */
    method AddNodeTail(value: V)
      requires Valid()
      modifies this, nodes
      ensures Valid() && len == old(len) + 1 && Freed == old(Freed)
      ensures nodes == old(nodes) + [nodes[|nodes| - 1]] && fresh(nodes[|nodes| - 1])
      ensures Contents == old(Contents) + [value]
    {
      var node := new ListNode(value);
      if len == 0 {
        head := node;
        tail := node;
      } else {
        node.prev := tail;
        tail.next := node;
        tail := node;
      }
      len := len + 1;
      nodes := nodes + [node];
      Contents := Contents + [value];
      Spliced(|old(nodes)|, node, value);
    }

    /**
     * listInsertNode: the value goes immediately after `oldNode` when
     * `after` holds, immediately before it otherwise.
     */
    method InsertNode(oldNode: ListNode<V>, value: V, after: bool)
      requires Valid() && oldNode in nodes
      modifies this, nodes
      ensures Valid() && len == old(len) + 1 && Freed == old(Freed)
      ensures var p := IndexOf(old(nodes), oldNode) + (if after then 1 else 0);
        nodes == old(nodes)[..p] + [nodes[p]] + old(nodes)[p..] && fresh(nodes[p]) &&
        Contents == old(Contents)[..p] + [value] + old(Contents)[p..]
    {
      ghost var i := IndexOf(nodes, oldNode);
      assert LinkedAt(i);
      IndexOfAt(nodes, 0);
      IndexOfAt(nodes, |nodes| - 1);
      ghost var p := i + (if after then 1 else 0);
      var node := new ListNode(value);
      if after {
        node.prev := oldNode;
        node.next := oldNode.next;
        if tail == oldNode {
          tail := node;
        }
        assert node.prev == (if p == 0 then null else nodes[p - 1]);
        assert node.next == (if p == |nodes| then null else nodes[p]);
      } else {
        node.next := oldNode;
        node.prev := oldNode.prev;
        if head == oldNode {
          head := node;
        }
        assert node.prev == (if p == 0 then null else nodes[p - 1]);
        assert node.next == (if p == |nodes| then null else nodes[p]);
      }
      LinkIn(node, p);
    }

    /**
     * The end of listInsertNode: the neighbours `node` records point back at
     * it and the length grows, making it the element at position `p`.
     */
    method LinkIn(node: ListNode<V>, ghost p: nat)
      requires Chain() && p <= |nodes| && node !in nodes
      requires node.prev == (if p == 0 then null else nodes[p - 1])
      requires node.next == (if p == |nodes| then null else nodes[p])
      requires head == (if p == 0 then node else nodes[0])
      requires tail == (if p == |nodes| then node else nodes[|nodes| - 1])
      modifies this, nodes
      ensures Valid() && len == old(len) + 1 && Freed == old(Freed)
      ensures nodes == old(nodes)[..p] + [node] + old(nodes)[p..]
      ensures Contents == old(Contents)[..p] + [node.value] + old(Contents)[p..]
    {
      if node.prev != null {
        node.prev.next := node;
      }
      if node.next != null {
        node.next.prev := node;
      }
      len := len + 1;
      nodes := nodes[..p] + [node] + nodes[p..];
      Contents := Contents[..p] + [node.value] + Contents[p..];
      Spliced(p, node, node.value);
    }

    /** listDelNode: removes exactly `node`, handing its value to the free callback. */
    method DelNode(node: ListNode<V>)
      requires Valid() && node in nodes
      modifies this, nodes
      ensures Valid() && len == old(len) - 1
      ensures var i := IndexOf(old(nodes), node);
        nodes == old(nodes)[..i] + old(nodes)[i + 1..] &&
        Contents == old(Contents)[..i] + old(Contents)[i + 1..] &&
        Freed == old(Freed) + (if freeMethod then [old(Contents)[i]] else [])
    {
      ghost var i := IndexOf(nodes, node);
      assert LinkedAt(i);
      var prev, next := node.prev, node.next;
      if prev != null {
        prev.next := next;
      } else {
        head := next;
      }
      if next != null {
        next.prev := prev;
      } else {
        tail := prev;
      }
      len := len - 1;
      nodes := nodes[..i] + nodes[i + 1..];
      Contents := Contents[..i] + Contents[i + 1..];
      Unspliced(i);
      FreeValue(node.value);
    }

    /** The free callback, if set, receives `v`. */
    method FreeValue(v: V)
      modifies this`Freed
      ensures Freed == old(Freed) + (if freeMethod then [v] else [])
    {
      if freeMethod {
        Freed := Freed + [v];
      }
    }

    /**
     * listSearchKey: the first node from the head whose value matches `key`,
     * or null when there is none.
     */
    method SearchKey(key: V) returns (n: ListNode?<V>)
      requires Valid()
      ensures n == null <==> forall i :: 0 <= i < |Contents| ==> !Matches(Contents[i], key)
      ensures n != null ==> n in nodes
      ensures n != null ==> var i := IndexOf<ListNode<V>>(nodes, n);
        Matches(Contents[i], key) && forall j :: 0 <= j < i ==> !Matches(Contents[j], key)
    {
      var node := head;
      ghost var k := 0;
      while node != null
        invariant 0 <= k <= |nodes|
        invariant node == (if k < |nodes| then nodes[k] else null)
        invariant forall j :: 0 <= j < k ==> !Matches(Contents[j], key)
        decreases |nodes| - k
      {
        assert LinkedAt(k);
        if matchMethod.Some? {
          if matchMethod.value(node.value, key) {
            IndexOfAt(nodes, k);
            return node;
          }
        } else {
          if key == node.value {
            IndexOfAt(nodes, k);
            return node;
          }
        }
        node := node.next;
        k := k + 1;
      }
      return null;
    }

    /**
     * listIndex: the node at `index`, counting from the head when it is
     * non-negative and from the tail when negative; null when out of range.
     */
    method Index(index: int) returns (n: ListNode?<V>)
      requires Valid()
      ensures IndexPosition(len, index).None? ==> n == null
      ensures IndexPosition(len, index).Some? ==> n == nodes[IndexPosition(len, index).value]
    {
      if index < 0 {
        var steps := (-index) - 1;
        n := tail;
        ghost var k := len - 1;
        while steps > 0 && n != null
          invariant -1 <= k < len && k - steps == len + index && steps >= 0
          invariant n == (if k >= 0 then nodes[k] else null)
        {
          assert LinkedAt(k);
          steps := steps - 1;
          n := n.prev;
          k := k - 1;
        }
      } else {
        var steps := index;
        n := head;
        ghost var k := 0;
        while steps > 0 && n != null
          invariant 0 <= k <= len && k + steps == index
          invariant n == (if k < len then nodes[k] else null)
        {
          assert LinkedAt(k);
          steps := steps - 1;
          n := n.next;
          k := k + 1;
        }
      }
    }

    /**
     * The heap effect of listRotateTailToHead: the old tail now sits in front
     * of the old head, its old predecessor ends the list, nothing else changed.
     */
    twostate lemma MovedTailToHead()
      requires old(Valid()) && old(|nodes|) > 1
      requires nodes == RotatedTailToHead(old(nodes)) && Contents == RotatedTailToHead(old(Contents))
      requires len == old(len)
      requires head == old(nodes[|nodes| - 1]) && tail == old(nodes[|nodes| - 2])
      requires old(nodes[|nodes| - 2]).next == null
      requires old(nodes[0]).prev == old(nodes[|nodes| - 1])
      requires old(nodes[|nodes| - 1]).prev == null && old(nodes[|nodes| - 1]).next == old(nodes[0])
      requires forall x :: x in old(nodes) ==>
        x.value == old(x.value) &&
        (x == old(nodes[0]) || x == old(nodes[|nodes| - 1]) || x.prev == old(x.prev)) &&
        (x == old(nodes[|nodes| - 2]) || x == old(nodes[|nodes| - 1]) || x.next == old(x.next))
      ensures Valid()
    {
      var n := |nodes|;
      DistinctRotated(old(nodes));
      RotatedTailToHeadAt(old(nodes));
      RotatedTailToHeadAt(old(Contents));
      forall k | 0 <= k < n
        ensures LinkedAt(k)
      {
        if k == 0 {
          assert old(LinkedAt(n - 1));
        } else {
          assert nodes[k] == old(nodes[k - 1]) && old(LinkedAt(k - 1));
          if k - 1 > 0 {
            DistinctAt(old(nodes), 0, k - 1);
          }
          if k - 1 < n - 1 {
            DistinctAt(old(nodes), k - 1, n - 1);
          }
          if k - 1 < n - 2 {
            DistinctAt(old(nodes), k - 1, n - 2);
          }
        }
      }
    }

    /** listRotateTailToHead: the last element moves to the front. */
    method RotateTailToHead()
      requires Valid()
      modifies this, nodes
      ensures Valid() && len == old(len) && Freed == old(Freed)
      ensures nodes == RotatedTailToHead(old(nodes))
      ensures Contents == RotatedTailToHead(old(Contents))
    {
      if len <= 1 {
        return;
      }
      ghost var n := |nodes|;
      assert LinkedAt(n - 1) && LinkedAt(0);
      DistinctAt(nodes, 0, n - 1);
      DistinctAt(nodes, n - 2, n - 1);
      var t, h := tail, head;
      var p := t.prev;
      p.next := null;
      h.prev := t;
      t.prev := null;
      t.next := h;
      head, tail := t, p;
      nodes := RotatedTailToHead(nodes);
      Contents := RotatedTailToHead(Contents);
      MovedTailToHead();
    }

    /**
     * The heap effect of listRotateHeadToTail: the old head now follows the
     * old tail, its old successor starts the list, nothing else changed.
     */
    twostate lemma MovedHeadToTail()
      requires old(Valid()) && old(|nodes|) > 1
      requires nodes == RotatedHeadToTail(old(nodes)) && Contents == RotatedHeadToTail(old(Contents))
      requires len == old(len)
      requires head == old(nodes[1]) && tail == old(nodes[0])
      requires old(nodes[1]).prev == null
      requires old(nodes[|nodes| - 1]).next == old(nodes[0])
      requires old(nodes[0]).next == null && old(nodes[0]).prev == old(nodes[|nodes| - 1])
      requires forall x :: x in old(nodes) ==>
        x.value == old(x.value) &&
        (x == old(nodes[0]) || x == old(nodes[1]) || x.prev == old(x.prev)) &&
        (x == old(nodes[0]) || x == old(nodes[|nodes| - 1]) || x.next == old(x.next))
      ensures Valid()
    {
      var n := |nodes|;
      DistinctRotated(old(nodes));
      RotatedHeadToTailAt(old(nodes));
      RotatedHeadToTailAt(old(Contents));
      forall k | 0 <= k < n
        ensures LinkedAt(k)
      {
        if k == n - 1 {
          assert old(LinkedAt(0));
        } else {
          assert nodes[k] == old(nodes[k + 1]) && old(LinkedAt(k + 1));
          DistinctAt(old(nodes), 0, k + 1);
          if k + 1 > 1 {
            DistinctAt(old(nodes), 1, k + 1);
          }
          if k + 1 < n - 1 {
            DistinctAt(old(nodes), k + 1, n - 1);
          }
        }
      }
    }

    /** listRotateHeadToTail: the first element moves to the end. */
    method RotateHeadToTail()
      requires Valid()
      modifies this, nodes
      ensures Valid() && len == old(len) && Freed == old(Freed)
      ensures nodes == RotatedHeadToTail(old(nodes))
      ensures Contents == RotatedHeadToTail(old(Contents))
    {
      if len <= 1 {
        return;
      }
      ghost var n := |nodes|;
      assert LinkedAt(0);
      DistinctAt(nodes, 0, 1);
      DistinctAt(nodes, 0, n - 1);
      if n > 2 {
        DistinctAt(nodes, 1, n - 1);
      }
      var h := head;
      head := h.next;
      head.prev := null;
      tail.next := h;
      h.next := null;
      h.prev := tail;
      tail := h;
      nodes := RotatedHeadToTail(nodes);
      Contents := RotatedHeadToTail(Contents);
      MovedHeadToTail();
    }

    /**
     * The heap effect of listJoin: the last node of this list and the first
     * node of `o` now point at each other and nothing else changed.
     */
    twostate lemma Joined(o: List<V>)
      requires old(Valid()) && old(o.Valid()) && o != this && old(o.nodes) != []
      requires forall x :: x in old(nodes) ==> x !in old(o.nodes)
      requires nodes == old(nodes) + old(o.nodes) && Contents == old(Contents) + old(o.Contents)
      requires len == old(len) + old(o.len)
      requires head == (if old(nodes) == [] then old(o.head) else old(head))
      requires tail == old(o.tail)
      requires o.nodes == [] && o.Contents == [] && o.head == null && o.tail == null && o.len == 0
      requires old(tail) != null ==> old(tail).next == old(o.head)
      requires old(o.head).prev == old(tail)
      requires forall x :: x in old(nodes) ==>
        x.value == old(x.value) && x.prev == old(x.prev) && (x == old(tail) || x.next == old(x.next))
      requires forall x :: x in old(o.nodes) ==>
        x.value == old(x.value) && x.next == old(x.next) && (x == old(o.head) || x.prev == old(x.prev))
      ensures Valid() && o.Valid()
    {
      var n := old(|nodes|);
      DistinctAppend(old(nodes), old(o.nodes));
      forall k | 0 <= k < |nodes|
        ensures LinkedAt(k)
      {
        if k < n {
          assert nodes[k] == old(nodes[k]) && old(LinkedAt(k));
          if k < n - 1 {
            DistinctAt(old(nodes), k, n - 1);
          }
        } else {
          assert nodes[k] == old(o.nodes[k - n]) && old(o.LinkedAt(k - n));
          if k > n {
            DistinctAt(old(o.nodes), 0, k - n);
          }
        }
      }
    }

    /**
     * listJoin: the elements of `o` are appended to this list, in order,
     * and `o` is left empty.
     */
    method Join(o: List<V>)
      requires Valid() && o.Valid() && o != this
      requires forall x :: x in nodes ==> x !in o.nodes
      modifies this, nodes, o, o.nodes
      ensures Valid() && o.Valid()
      ensures nodes == old(nodes) + old(o.nodes) && Contents == old(Contents) + old(o.Contents)
      ensures len == old(len) + old(o.len)
      ensures o.Contents == [] && o.head == null && o.tail == null && o.len == 0
      ensures Freed == old(Freed) && o.Freed == old(o.Freed)
    {
      if o.len == 0 {
        return;
      }
      o.head.prev := tail;
      if tail != null {
        tail.next := o.head;
      } else {
        head := o.head;
      }
      tail := o.tail;
      len := len + o.len;
      nodes := nodes + o.nodes;
      Contents := Contents + o.Contents;
      o.head := null;
      o.tail := null;
      o.len := 0;
      o.nodes := [];
      o.Contents := [];
      Joined(o);
    }

    /**
     * listDup: a fresh list with the same callbacks whose values are the
     * `dup` results (or the values themselves); null when `dup` fails on
     * some value.  The original list is not modified.
     */
    method Dup() returns (copy: List?<V>)
      requires Valid()
      ensures copy == null <==> Duplicated(dupMethod, Contents).None?
      ensures copy != null ==> fresh(copy) && copy.Valid()
      ensures copy != null ==> Some(copy.Contents) == Duplicated(dupMethod, Contents)
      ensures copy != null ==> copy.dupMethod == dupMethod && copy.freeMethod == freeMethod
      ensures copy != null ==> copy.matchMethod == matchMethod
    {
      copy := new List(dupMethod, freeMethod, matchMethod);
      var node := head;
      ghost var k := 0;
      while node != null
        invariant 0 <= k <= |nodes|
        invariant node == (if k < |nodes| then nodes[k] else null)
        invariant fresh(copy) && copy.Valid()
        invariant forall j :: 0 <= j < |copy.nodes| ==> fresh(copy.nodes[j])
        invariant Duplicated(dupMethod, Contents[..k]) == Some(copy.Contents)
        invariant copy.dupMethod == dupMethod && copy.freeMethod == freeMethod
        invariant copy.matchMethod == matchMethod
        decreases |nodes| - k
      {
        assert LinkedAt(k);
        DuplicatedSnoc(dupMethod, Contents[..k], Contents[k]);
        assert Contents[..k + 1] == Contents[..k] + [Contents[k]];
        var r := DupValue(copy.dupMethod, node.value);
        if r.None? {
          copy.Empty();
          return null;
        }
        copy.AddNodeTail(r.value);
        node := node.next;
        k := k + 1;
      }
      assert Contents[..k] == Contents;
    }
  }

  /** The iterator of adlist.c: the next node to return and a direction. */
  class ListIter<V(==)> {
    var next: ListNode?<V>
    var direction: Direction
    /** Position of `next` in the list it walks (outside the list when null). */
    ghost var pos: int

    ghost predicate ValidIn(l: List<V>)
      reads this, l, l.nodes
    {
      l.Valid() && -1 <= pos <= |l.nodes| &&
      next == (if 0 <= pos < |l.nodes| then l.nodes[pos] else null)
    }

    /** listGetIterator: starts at the head or at the tail. */
    constructor (l: List<V>, direction: Direction)
      requires l.Valid()
      ensures ValidIn(l) && this.direction == direction
      ensures pos == (if direction == StartHead then 0 else |l.nodes| - 1)
    {
      this.direction := direction;
      if direction == StartHead {
        next := l.head;
        pos := 0;
      } else {
        next := l.tail;
        pos := |l.nodes| - 1;
      }
    }

    /** listRewind. */
    method Rewind(l: List<V>)
      requires l.Valid()
      modifies this
      ensures ValidIn(l) && direction == StartHead && pos == 0
    {
      next := l.head;
      direction := StartHead;
      pos := 0;
    }

    /** listRewindTail. */
    method RewindTail(l: List<V>)
      requires l.Valid()
      modifies this
      ensures ValidIn(l) && direction == StartTail && pos == |l.nodes| - 1
    {
      next := l.tail;
      direction := StartTail;
      pos := |l.nodes| - 1;
    }

    /**
     * listNext: returns the node at the iterator's position (null once the
     * walk has left the list) and steps towards the tail or the head.
     */
    method Next(ghost l: List<V>) returns (current: ListNode?<V>)
      requires ValidIn(l)
      modifies this
      ensures ValidIn(l) && direction == old(direction)
      ensures current == (if 0 <= old(pos) < |l.nodes| then l.nodes[old(pos)] else null)
      ensures pos == if current == null then old(pos)
                     else if direction == StartHead then old(pos) + 1 else old(pos) - 1
    {
      current := next;
      if current != null {
        assert l.LinkedAt(pos);
        if direction == StartHead {
          next := current.next;
          pos := pos + 1;
        } else {
          next := current.prev;
          pos := pos - 1;
        }
      }
    }
  }
}
