/**
 The intrusive circular list: nodes linked by next and prev pointers that are rewritten in place,
 proved to be a sequence with insertion and deletion.
 */
module CommonList {
  import opened Basics

  class ListNode<T> {
    var prev: ListNode?<T>
    var next: ListNode?<T>
    /** The structure the node is embedded in. */
    const entry: T

    /** ListInit: a node linked to itself. */
    constructor (entry: T)
      ensures prev == this && next == this && this.entry == entry
    {
      this.entry := entry;
      prev := this;
      next := this;
    }
  }

  /** The neighbours of position i of the circle. */
  ghost function After<T>(c: seq<ListNode<T>>, i: nat): ListNode<T>
    requires i < |c|
  {
    if i + 1 < |c| then c[i + 1] else c[0]
  }

  ghost function Before<T>(c: seq<ListNode<T>>, i: nat): ListNode<T>
    requires i < |c|
  {
    if i > 0 then c[i - 1] else c[|c| - 1]
  }

  ghost predicate LinkedAt<T>(c: seq<ListNode<T>>, i: nat)
    requires i < |c|
    reads c[i]
  {
    c[i].next == After(c, i) && c[i].prev == Before(c, i)
  }

  /** The nodes of c, in this order, form one circle. */
  ghost predicate Ring<T>(c: seq<ListNode<T>>)
    reads set n | n in c
  {
    && |c| > 0
    && (forall i: nat, j: nat :: i < j < |c| ==> c[i] != c[j])
    && (forall i: nat :: i < |c| ==> LinkedAt(c, i))
  }

  function Insert<T>(s: seq<T>, i: nat, x: T): (r: seq<T>)
    requires i <= |s|
    ensures |r| == |s| + 1 && r[i] == x
    ensures forall k: nat :: k < i ==> r[k] == s[k]
    ensures forall k: nat :: i < k < |r| ==> r[k] == s[k - 1]
  {
    s[..i] + [x] + s[i..]
  }

  function Without<T>(s: seq<T>, i: nat): (r: seq<T>)
    requires i < |s|
    ensures |r| == |s| - 1
    ensures forall k: nat :: k < i ==> r[k] == s[k]
    ensures forall k: nat :: i <= k < |r| ==> r[k] == s[k + 1]
  {
    s[..i] + s[i + 1..]
  }

  /** ListAdd: the new node goes right behind list, which stands at position i. */
  method ListAdd<T>(list: ListNode<T>, node: ListNode<T>, ghost c: seq<ListNode<T>>, ghost i: nat)
    requires Ring(c) && i < |c| && c[i] == list && node !in c
    modifies node, set n | n in c
    ensures Ring(Insert(c, i + 1, node))
  {
    assert LinkedAt(c, i);
    ghost var j := if i + 1 < |c| then i + 1 else 0;
    assert LinkedAt(c, j);
    node.next := list.next;
    node.prev := list;
    list.next.prev := node;
    list.next := node;
    ghost var r := Insert(c, i + 1, node);
    forall k: nat | k < |r| ensures LinkedAt(r, k) {
      if k <= i {
        assert old(LinkedAt(c, k));
      } else if k > i + 1 {
        assert old(LinkedAt(c, k - 1));
      }
    }
  }

  /** ListTailInsert: the new node goes right before list; before the head means at the end. */
  method ListTailInsert<T>(list: ListNode<T>, node: ListNode<T>, ghost c: seq<ListNode<T>>, ghost i: nat)
    requires Ring(c) && i < |c| && c[i] == list && node !in c
    modifies node, set n | n in c
    ensures Ring(Insert(c, if i == 0 then |c| else i, node))
  {
    assert LinkedAt(c, i);
    ListAdd(list.prev, node, c, if i == 0 then |c| - 1 else i - 1);
  }

  /** ListDelete: the node leaves the circle and is linked to itself. */
  method ListDelete<T>(node: ListNode<T>, ghost c: seq<ListNode<T>>, ghost i: nat)
    requires Ring(c) && i < |c| && c[i] == node
    modifies set n | n in c
    ensures |c| > 1 ==> Ring(Without(c, i))
    ensures node.next == node && node.prev == node
  {
    assert LinkedAt(c, i);
    ghost var j := if i + 1 < |c| then i + 1 else 0;
    ghost var h := if i > 0 then i - 1 else |c| - 1;
    assert LinkedAt(c, j) && LinkedAt(c, h);
    if node.next != null && node.prev != null {
      node.next.prev := node.prev;
      node.prev.next := node.next;
    }
    node.next := node;
    node.prev := node;
    ghost var r := Without(c, i);
    forall k: nat | k < |r| ensures LinkedAt(r, k) {
      if k < i {
        assert old(LinkedAt(c, k));
      } else {
        assert old(LinkedAt(c, k + 1));
      }
    }
  }

  predicate IsListEmpty<T>(node: ListNode<T>)
    reads node
  {
    node.next == node
  }

  lemma EmptyMeansAlone<T>(c: seq<ListNode<T>>)
    requires Ring(c)
    ensures IsListEmpty(c[0]) <==> |c| == 1
  {
    assert LinkedAt(c, 0);
  }

  // ---------------------------------------------------------------- deleting while traversing

  /** The nodes whose entries do not match. */
  ghost function Keep<T>(s: seq<ListNode<T>>, p: T -> bool): (r: seq<ListNode<T>>)
    ensures |r| <= |s|
    ensures forall n :: n in r ==> n in s
  {
    if s == [] then []
    else Keep(s[..|s| - 1], p) + (if p(s[|s| - 1].entry) then [] else [s[|s| - 1]])
  }

  ghost function Entries<T>(s: seq<ListNode<T>>): (r: seq<T>)
    ensures |r| == |s|
    ensures forall i: nat :: i < |s| ==> r[i] == s[i].entry
  {
    if s == [] then [] else Entries(s[..|s| - 1]) + [s[|s| - 1].entry]
  }

  lemma {:induction false} KeepIsFilter<T>(s: seq<ListNode<T>>, p: T -> bool)
    ensures Entries(Keep(s, p)) == Filter(Entries(s), Not(p))
  {
    if s != [] {
      KeepIsFilter(s[..|s| - 1], p);
      var k := Keep(s[..|s| - 1], p);
      var last := s[|s| - 1];
      assert (k + [last])[..|k|] == k;
      assert Entries(s)[..|s| - 1] == Entries(s[..|s| - 1]);
      assert k + [] == k;
    }
  }

  /** The circle when the nodes before position k have been visited. */
  ghost function Partly<T>(c: seq<ListNode<T>>, k: nat, p: T -> bool): (r: seq<ListNode<T>>)
    requires 0 < k <= |c|
    ensures forall n :: n in r ==> n in c
  {
    [c[0]] + Keep(c[1..k], p) + c[k..]
  }

  lemma PartlyNext<T>(c: seq<ListNode<T>>, k: nat, p: T -> bool)
    requires 0 < k < |c|
    ensures
      var pos := 1 + |Keep(c[1..k], p)|;
      && pos < |Partly(c, k, p)| && Partly(c, k, p)[pos] == c[k] && Partly(c, k, p)[0] == c[0]
      && After(Partly(c, k, p), pos) == After(c, k)
      && Partly(c, k + 1, p) == if p(c[k].entry) then Without(Partly(c, k, p), pos) else Partly(c, k, p)
  {
    KeepNext(c, k, p);
    SplitAt(c, k);
    Middle(c[0], Keep(c[1..k], p), c[k], c[k + 1..]);
    NoneAdded(Keep(c[1..k], p));
  }

  lemma NoneAdded<T>(s: seq<T>)
    ensures s + [] == s
  {
  }

  lemma Middle<T>(h: T, kept: seq<T>, x: T, rest: seq<T>)
    ensures
      var q := [h] + kept + ([x] + rest);
      && |q| == 2 + |kept| + |rest| && q[0] == h && q[1 + |kept|] == x
      && (rest != [] ==> q[2 + |kept|] == rest[0])
      && Without(q, 1 + |kept|) == [h] + kept + rest
      && q == [h] + (kept + [x]) + rest
  {
    RemoveMiddle([h] + kept, x, rest);
  }

  lemma KeepNext<T>(c: seq<ListNode<T>>, k: nat, p: T -> bool)
    requires 0 < k < |c|
    ensures Keep(c[1..k + 1], p) == Keep(c[1..k], p) + (if p(c[k].entry) then [] else [c[k]])
    ensures Entries(c[1..k + 1]) == Entries(c[1..k]) + [c[k].entry]
  {
    LastOfSlice(c, 1, k);
  }

  lemma LastOfSlice<T>(s: seq<T>, i: nat, k: nat)
    requires i <= k < |s|
    ensures |s[i..k + 1]| == k + 1 - i && s[i..k + 1][..k - i] == s[i..k] && s[i..k + 1][k - i] == s[k]
  {
  }

  lemma SplitAt<T>(s: seq<T>, k: nat)
    requires k < |s|
    ensures s[k..] == [s[k]] + s[k + 1..]
  {
  }

  lemma RemoveMiddle<T>(a: seq<T>, x: T, b: seq<T>)
    ensures Without(a + [x] + b, |a|) == a + b
  {
  }

  lemma FilterNext<T>(s: seq<T>, x: T, p: T -> bool)
    ensures Filter(s + [x], p) == Filter(s, p) + (if p(x) then [x] else [])
  {
    assert (s + [x])[..|s|] == s;
  }

  /**
   LIST_FOR_EACH_SAFE with deletion of the matching nodes: every node is visited once, and what
   remains is the filtered list in its old order.
   */
  method DeleteMatching<T>(head: ListNode<T>, p: T -> bool, ghost c: seq<ListNode<T>>)
    returns (removed: seq<T>, visited: seq<T>)
    requires Ring(c) && c[0] == head
    modifies set n | n in c
    ensures Ring([head] + Keep(c[1..], p))
    ensures visited == Entries(c[1..]) && removed == Filter(Entries(c[1..]), p)
  {
    ghost var k := 1;
    assert Partly(c, 1, p) == c;
    assert LinkedAt(c, 0);
    assert |c| > 1 ==> LinkedAt(c, 1);
    var item := head.next;
    var nextItem := item.next;
    removed, visited := [], [];
    while item != head
      invariant 0 < k <= |c| && Ring(Partly(c, k, p))
      invariant item == if k < |c| then c[k] else c[0]
      invariant k < |c| ==> nextItem == After(c, k)
      invariant visited == Entries(c[1..k]) && removed == Filter(visited, p)
      decreases |c| - k
    {
      removed := VisitNode(item, p, c, k, removed);
      KeepNext(c, k, p);
      FilterNext(visited, item.entry, p);
      visited := visited + [item.entry];
      k := k + 1;
      item := nextItem;
      nextItem := NextOf(item, p, c, k);
    }
    assert c[1..k] == c[1..];
    assert Partly(c, k, p) == [head] + Keep(c[1..], p);
  }

  /** One round of the traversal. */
  method VisitNode<T>(item: ListNode<T>, p: T -> bool, ghost c: seq<ListNode<T>>, ghost k: nat, removed: seq<T>)
    returns (removed': seq<T>)
    requires 0 < k < |c| && Ring(Partly(c, k, p)) && item == c[k]
    requires forall n :: n in Partly(c, k, p) ==> n in c
    modifies set n | n in c
    ensures Ring(Partly(c, k + 1, p))
    ensures removed' == removed + if p(item.entry) then [item.entry] else []
  {
    PartlyNext(c, k, p);
    removed' := removed;
    if p(item.entry) {
      removed' := removed' + [item.entry];
      ListDelete(item, Partly(c, k, p), 1 + |Keep(c[1..k], p)|);
    }
  }

  method NextOf<T>(item: ListNode<T>, p: T -> bool, ghost c: seq<ListNode<T>>, ghost k: nat)
    returns (nextItem: ListNode<T>)
    requires 0 < k <= |c| && Ring(Partly(c, k, p)) && item == if k < |c| then c[k] else c[0]
    ensures k < |c| ==> nextItem == After(c, k)
  {
    if k < |c| {
      PartlyNext(c, k, p);
      assert LinkedAt(Partly(c, k, p), 1 + |Keep(c[1..k], p)|);
    } else {
      assert LinkedAt(Partly(c, k, p), 0);
    }
    nextItem := item.next;
  }
}
