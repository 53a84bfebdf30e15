/**
 The doubly linked lists of lib/kernel/list.c: elements linked in both
 directions between a head and a tail that are not elements of the list.
 Every operation rewrites `prev` and `next` in place, as the original does.

 `nodes` is the ghost sequence head, elements, tail.  A list element of the
 original carries no data of its own, and neither does `Elem`: `less` compares
 the objects the elements are part of, which the list does not change.
 */
module List {
  import opened Common
  import MergeSpec

  class Elem {
    var prev: Elem?
    var next: Elem?

    constructor ()
      ensures prev == null && next == null
    {
      prev, next := null, null;
    }
  }

  predicate IsHead(e: Elem)
    reads e
  {
    e.prev == null && e.next != null
  }

  predicate IsInterior(e: Elem)
    reads e
  {
    e.prev != null && e.next != null
  }

  predicate IsTail(e: Elem)
    reads e
  {
    e.prev != null && e.next == null
  }

  class List {
    const head: Elem
    const tail: Elem
    ghost var nodes: seq<Elem>
    ghost var repr: set<Elem>

    /** `nodes` is linked up both ways, from head to tail, with no node twice. */
    ghost predicate Valid()
      reads this, repr
    {
      && (forall i :: 0 <= i < |nodes| ==> nodes[i] in repr)
      && |nodes| >= 2 && nodes[0] == head && nodes[|nodes| - 1] == tail
      && head.prev == null && tail.next == null
      && Chain(nodes) && NoDup(nodes)
    }

    /** The elements of the list, without the head and the tail. */
    ghost function Elems(): seq<Elem>
      requires |nodes| >= 2
      reads this
    {
      nodes[1..|nodes| - 1]
    }

    /** list_init */
    constructor ()
      ensures Valid() && Elems() == [] && fresh(repr)
    {
      head := new Elem();
      tail := new Elem();
      new;
      head.prev := null;
      head.next := tail;
      tail.prev := head;
      tail.next := null;
      nodes := [head, tail];
      repr := {head, tail};
    }

    /** Which kind of node the links of a node say it is. */
    lemma KindOfNode(i: nat)
      requires Valid() && i < |nodes|
      ensures IsHead(nodes[i]) <==> i == 0
      ensures IsInterior(nodes[i]) <==> 0 < i < |nodes| - 1
      ensures IsTail(nodes[i]) <==> i == |nodes| - 1
    {
      if 0 < i { assert nodes[i].prev == nodes[i - 1]; }
      if i < |nodes| - 1 { assert nodes[i].next == nodes[i + 1]; }
    }

    method Begin() returns (e: Elem)
      requires Valid()
      ensures e == nodes[1]
    {
      assert nodes[0].next == nodes[1];
      e := head.next;
    }

    method Empty() returns (empty: bool)
      requires Valid()
      ensures empty <==> Elems() == []
    {
      var b := Begin();
      empty := b == tail;
      if |nodes| > 2 { assert nodes[1] != nodes[|nodes| - 1]; }
    }

    /** list_insert: before is the node at place k. */
    method Insert(before: Elem, elem: Elem, ghost k: nat)
      requires Valid() && 0 < k < |nodes| && nodes[k] == before && elem !in nodes
      modifies this, repr, elem
      ensures Valid() && nodes == old(nodes)[..k] + [elem] + old(nodes)[k..] && repr == old(repr) + {elem}
    {
      assert nodes[k].prev == nodes[k - 1];
      elem.prev := before.prev;
      elem.next := before;
      before.prev.next := elem;
      before.prev := elem;
      nodes := nodes[..k] + [elem] + nodes[k..];
      repr := repr + {elem};
    }

    /** list_remove: elem is the node at place k; the links of elem itself stay. */
    method Remove(elem: Elem, ghost k: nat) returns (next: Elem)
      requires Valid() && 0 < k < |nodes| - 1 && nodes[k] == elem
      modifies this, repr
      ensures Valid() && nodes == old(nodes)[..k] + old(nodes)[k + 1..] && repr == old(repr)
      ensures next == old(nodes)[k + 1]
      ensures elem.prev == old(elem.prev) && elem.next == old(elem.next)
    {
      assert nodes[k].prev == nodes[k - 1] && nodes[k].next == nodes[k + 1];
      elem.prev.next := elem.next;
      elem.next.prev := elem.prev;
      nodes := nodes[..k] + nodes[k + 1..];
      next := elem.next;
    }

    /** Consecutive nodes of s point at each other. */
    static ghost predicate Chain(s: seq<Elem>)
      reads s
    {
      && (forall i {:trigger s[i].next} :: 0 <= i < |s| - 1 ==> s[i].next == s[i + 1])
      && (forall i {:trigger s[i].prev} :: 1 <= i < |s| ==> s[i].prev == s[i - 1])
    }

    static lemma ChainJoin(s: seq<Elem>, t: seq<Elem>)
      requires s != [] && t != [] && Chain(s) && Chain(t)
      requires s[|s| - 1].next == t[0] && t[0].prev == s[|s| - 1]
      ensures Chain(s + t)
    {
    }

    /** What list_splice does to the order when before comes first: the nodes
        from f to l (exclusive) go to place b. */
    static ghost function Moved(s: seq<Elem>, b: nat, f: nat, l: nat): (r: seq<Elem>)
      requires b <= f <= l <= |s|
      ensures |r| == |s|
    {
      s[..b] + s[f..l] + s[b..f] + s[l..]
    }

    static lemma MovedNoDup(s: seq<Elem>, b: nat, f: nat, l: nat)
      requires b <= f <= l <= |s| && NoDup(s)
      ensures NoDup(Moved(s, b, f, l))
    {
      var r := Moved(s, b, f, l);
      forall i, j | 0 <= i < j < |r|
        ensures r[i] != r[j]
      {
        var i', j' := OldPlace(b, f, l, i), OldPlace(b, f, l, j);
        assert r[i] == s[i'] && r[j] == s[j'];
      }
    }

    /** Where the node at place i of `Moved` came from. */
    static ghost function OldPlace(b: nat, f: nat, l: nat, i: nat): nat
      requires b <= f <= l
    {
      if i < b || i >= l then i else if i < b + (l - f) then i - b + f else i - (l - f)
    }

    static lemma JoinFour(s: seq<Elem>, b: nat, f: nat, l: nat)
      requires 0 < b < f < l < |s|
      requires Chain(s[0..b]) && Chain(s[b..f]) && Chain(s[f..l]) && Chain(s[l..|s|])
      requires s[b - 1].next == s[f] && s[f].prev == s[b - 1]
      requires s[l - 1].next == s[b] && s[b].prev == s[l - 1]
      requires s[f - 1].next == s[l] && s[l].prev == s[f - 1]
      ensures Chain(Moved(s, b, f, l))
    {
      var p, q, r, t := s[0..b], s[f..l], s[b..f], s[l..|s|];
      ChainJoin(p, q);
      ChainJoin(p + q, r);
      ChainJoin(p + q + r, t);
      assert p + q + r + t == Moved(s, b, f, l);
    }

    /** The pointer writes of list_splice. */
    static method Relink(before: Elem, first: Elem, final: Elem, ghost s: seq<Elem>, ghost b: nat, ghost f: nat, ghost l: nat)
      requires 0 < b < f < l < |s| && Chain(s) && NoDup(s)
      requires s[b] == before && s[f] == first && s[l - 1] == final
      modifies s
      ensures s[b - 1].next == first && first.prev == s[b - 1]
      ensures final.next == before && before.prev == final
      ensures s[f - 1].next == s[l] && s[l].prev == s[f - 1]
      ensures s[0].prev == old(s[0].prev) && s[|s| - 1].next == old(s[|s| - 1].next)
      ensures Chain(s[0..b]) && Chain(s[b..f]) && Chain(s[f..l]) && Chain(s[l..|s|])
    {
      assert s[f].prev == s[f - 1] && s[b].prev == s[b - 1] && s[l - 1].next == s[l];
      // Cleanly remove first to final from the list.
      first.prev.next := final.next;
      final.next.prev := first.prev;

      // Splice them in.
      first.prev := before.prev;
      final.next := before;
      before.prev.next := first;
      before.prev := final;
    }

    /** list_splice within a list, to an earlier place. */
    method Splice(before: Elem, first: Elem, last: Elem, ghost b: nat, ghost f: nat, ghost l: nat)
      requires Valid() && 0 < b < f <= l < |nodes|
      requires nodes[b] == before && nodes[f] == first && nodes[l] == last
      modifies this, repr
      ensures Valid() && nodes == Moved(old(nodes), b, f, l) && repr == old(repr)
    {
      if first == last {
        assert f == l;
        assert nodes == Moved(nodes, b, f, l);
        return;
      }
      ghost var s := nodes;
      assert s[l].prev == s[l - 1];
      var final := last.prev;
      Relink(before, first, final, s, b, f, l);
      JoinFour(s, b, f, l);
      MovedNoDup(s, b, f, l);
      nodes := Moved(s, b, f, l);
    }

    /** The same writes when before comes after the range. */
    static method RelinkLater(
      before: Elem, first: Elem, final: Elem, ghost s: seq<Elem>, ghost f: nat, ghost l: nat, ghost b: nat)
      requires 0 < f < l < b < |s| && Chain(s) && NoDup(s)
      requires s[b] == before && s[f] == first && s[l - 1] == final
      modifies s
      ensures s[f - 1].next == s[l] && s[l].prev == s[f - 1]
      ensures s[b - 1].next == first && first.prev == s[b - 1]
      ensures final.next == before && before.prev == final
      ensures s[0].prev == old(s[0].prev) && s[|s| - 1].next == old(s[|s| - 1].next)
      ensures Chain(s[0..f]) && Chain(s[l..b]) && Chain(s[f..l]) && Chain(s[b..|s|])
    {
      assert s[f].prev == s[f - 1] && s[b].prev == s[b - 1] && s[l - 1].next == s[l];
      first.prev.next := final.next;
      final.next.prev := first.prev;
      first.prev := before.prev;
      final.next := before;
      before.prev.next := first;
      before.prev := final;
    }

    /** The same writes when before is the end of the range: they change nothing. */
    static method RelinkInPlace(before: Elem, first: Elem, final: Elem, ghost s: seq<Elem>, ghost f: nat, ghost l: nat)
      requires 0 < f < l < |s| && Chain(s) && NoDup(s)
      requires s[l] == before && s[f] == first && s[l - 1] == final
      modifies s
      ensures Chain(s) && s[0].prev == old(s[0].prev) && s[|s| - 1].next == old(s[|s| - 1].next)
    {
      assert s[f].prev == s[f - 1] && s[f - 1].next == s[f] && s[l].prev == s[l - 1] && s[l - 1].next == s[l];
      first.prev.next := final.next;
      final.next.prev := first.prev;
      first.prev := before.prev;
      final.next := before;
      before.prev.next := first;
      before.prev := final;
    }

    /** list_splice within a list, to a later place, or to where the range is. */
    method SpliceLater(before: Elem, first: Elem, last: Elem, ghost f: nat, ghost l: nat, ghost b: nat)
      requires Valid() && 0 < f <= l <= b < |nodes|
      requires nodes[b] == before && nodes[f] == first && nodes[l] == last
      modifies this, repr
      ensures Valid() && nodes == Moved(old(nodes), f, l, b) && repr == old(repr)
    {
      hide NoDup, Chain;
      ghost var s := nodes;
      if first == last {
        SamePlace(s, f, l);
        assert s == Moved(s, f, l, b);
        return;
      }
      LinkBack(s, l);
      var final := last.prev;
      if before == last {
        SamePlace(s, l, b);
        assert s == Moved(s, f, l, b);
        RelinkInPlace(before, first, final, s, f, l);
        return;
      }
      RelinkLater(before, first, final, s, f, l, b);
      JoinFour(s, f, l, b);
      MovedNoDup(s, f, l, b);
      nodes := Moved(s, f, l, b);
    }

    /** The same writes when the range is in another list. */
    static method RelinkFrom(before: Elem, first: Elem, final: Elem, ghost s: seq<Elem>, ghost b: nat,
                             ghost t: seq<Elem>, ghost f: nat, ghost l: nat)
      requires 0 < b < |s| && 0 < f < l < |t| && Chain(s) && Chain(t) && NoDup(s) && NoDup(t)
      requires forall i, j :: 0 <= i < |s| && 0 <= j < |t| ==> s[i] != t[j]
      requires s[b] == before && t[f] == first && t[l - 1] == final
      modifies s, t
      ensures t[f - 1].next == t[l] && t[l].prev == t[f - 1]
      ensures s[b - 1].next == first && first.prev == s[b - 1]
      ensures final.next == before && before.prev == final
      ensures s[0].prev == old(s[0].prev) && s[|s| - 1].next == old(s[|s| - 1].next)
      ensures t[0].prev == old(t[0].prev) && t[|t| - 1].next == old(t[|t| - 1].next)
      ensures Chain(s[0..b]) && Chain(s[b..|s|]) && Chain(t[0..f]) && Chain(t[f..l]) && Chain(t[l..|t|])
    {
      assert t[f].prev == t[f - 1] && s[b].prev == s[b - 1] && t[l - 1].next == t[l];
      first.prev.next := final.next;
      final.next.prev := first.prev;
      first.prev := before.prev;
      final.next := before;
      before.prev.next := first;
      before.prev := final;
    }

    /** list_splice from another list. */
    method SpliceFrom(other: List, before: Elem, first: Elem, last: Elem, ghost b: nat, ghost f: nat, ghost l: nat)
      requires Valid() && other.Valid() && this != other
      requires forall i, j :: 0 <= i < |nodes| && 0 <= j < |other.nodes| ==> nodes[i] != other.nodes[j]
      requires 0 < b < |nodes| && 0 < f <= l < |other.nodes|
      requires nodes[b] == before && other.nodes[f] == first && other.nodes[l] == last
      modifies this, repr, other, other.repr
      ensures Valid() && other.Valid()
      ensures nodes == old(nodes)[..b] + old(other.nodes)[f..l] + old(nodes)[b..]
      ensures other.nodes == old(other.nodes)[..f] + old(other.nodes)[l..]
      ensures repr == old(repr) + old(other.repr) && other.repr == old(other.repr)
    {
      hide NoDup, Chain;
      if first == last {
        SamePlace(other.nodes, f, l);
        assert nodes == nodes[..b] + other.nodes[f..l] + nodes[b..];
        assert other.nodes == other.nodes[..f] + other.nodes[l..];
        repr := repr + other.repr;
        return;
      }
      SpliceRange(other, before, first, last, b, f, l);
    }

    method SpliceRange(other: List, before: Elem, first: Elem, last: Elem, ghost b: nat, ghost f: nat, ghost l: nat)
      requires Valid() && other.Valid() && this != other
      requires forall i, j :: 0 <= i < |nodes| && 0 <= j < |other.nodes| ==> nodes[i] != other.nodes[j]
      requires 0 < b < |nodes| && 0 < f < l < |other.nodes|
      requires nodes[b] == before && other.nodes[f] == first && other.nodes[l] == last
      modifies this, repr, other, other.repr
      ensures Valid() && other.Valid()
      ensures nodes == old(nodes)[..b] + old(other.nodes)[f..l] + old(nodes)[b..]
      ensures other.nodes == old(other.nodes)[..f] + old(other.nodes)[l..]
      ensures repr == old(repr) + old(other.repr) && other.repr == old(other.repr)
    {
      hide NoDup, Chain;
      ghost var s, t := nodes, other.nodes;
      LinkBack(t, l);
      var final := last.prev;
      RelinkFrom(before, first, final, s, b, t, f, l);
      JoinSpliced(s, b, t, f, l);
      InsertedNoDup(s, b, t, f, l);
      CutNoDup(t, f, l);
      ghost var mine, theirs := s[0..b] + t[f..l] + s[b..|s|], t[0..f] + t[l..|t|];
      SplicedMembers(s, b, t, f, l, repr, other.repr);
      nodes, other.nodes, repr := mine, theirs, repr + other.repr;
    }

    static lemma SplicedMembers(s: seq<Elem>, b: nat, t: seq<Elem>, f: nat, l: nat, x: set<Elem>, y: set<Elem>)
      requires 0 < b < |s| && 0 < f < l < |t|
      requires (forall i :: 0 <= i < |s| ==> s[i] in x) && (forall i :: 0 <= i < |t| ==> t[i] in y)
      ensures var r := s[0..b] + t[f..l] + s[b..|s|];
        && (forall i :: 0 <= i < |r| ==> r[i] in x + y) && |r| >= 2 && r[0] == s[0] && r[|r| - 1] == s[|s| - 1]
      ensures var r := t[0..f] + t[l..|t|];
        && (forall i :: 0 <= i < |r| ==> r[i] in y) && |r| >= 2 && r[0] == t[0] && r[|r| - 1] == t[|t| - 1]
    {
    }

    static lemma SamePlace(t: seq<Elem>, f: nat, l: nat)
      requires f <= l < |t| && NoDup(t) && t[f] == t[l]
      ensures f == l
    {
    }

    static lemma LinkBack(t: seq<Elem>, l: nat)
      requires 0 < l < |t| && Chain(t)
      ensures t[l].prev == t[l - 1]
    {
    }

    static lemma JoinSpliced(s: seq<Elem>, b: nat, t: seq<Elem>, f: nat, l: nat)
      requires 0 < b < |s| && 0 < f < l < |t|
      requires Chain(s[0..b]) && Chain(s[b..|s|]) && Chain(t[0..f]) && Chain(t[f..l]) && Chain(t[l..|t|])
      requires s[b - 1].next == t[f] && t[f].prev == s[b - 1]
      requires t[l - 1].next == s[b] && s[b].prev == t[l - 1]
      requires t[f - 1].next == t[l] && t[l].prev == t[f - 1]
      ensures Chain(s[0..b] + t[f..l] + s[b..|s|]) && Chain(t[0..f] + t[l..|t|])
    {
      hide Chain;
      ChainJoin(s[0..b], t[f..l]);
      ChainJoin(s[0..b] + t[f..l], s[b..|s|]);
      ChainJoin(t[0..f], t[l..|t|]);
    }

    static lemma InsertedNoDup(s: seq<Elem>, b: nat, t: seq<Elem>, f: nat, l: nat)
      requires b <= |s| && f <= l <= |t| && NoDup(s) && NoDup(t)
      requires forall i, j :: 0 <= i < |s| && 0 <= j < |t| ==> s[i] != t[j]
      ensures NoDup(s[0..b] + t[f..l] + s[b..|s|])
    {
      var r, n := s[0..b] + t[f..l] + s[b..|s|], l - f;
      forall i, j | 0 <= i < j < |r| ensures r[i] != r[j] {
        assert r[i] == if i < b then s[i] else if i < b + n then t[i - b + f] else s[i - n];
        assert r[j] == if j < b then s[j] else if j < b + n then t[j - b + f] else s[j - n];
      }
    }

    static lemma CutNoDup(s: seq<Elem>, f: nat, l: nat)
      requires f <= l <= |s| && NoDup(s)
      ensures NoDup(s[0..f] + s[l..|s|])
    {
    }

    /** find_end_of_run from the node at place i of the elements from place
        base to place e (exclusive). */
    method FindEndOfRun(a: Elem, b: Elem, less: (Elem, Elem) -> bool, ghost base: nat, ghost i: nat, ghost e: nat)
      returns (end: Elem, ghost r: nat)
      requires Valid() && 0 < base <= i < e < |nodes| && nodes[i] == a && nodes[e] == b
      ensures base + MergeSpec.RunEnd(less, nodes[base..e], i - base) <= e
      ensures end == nodes[base + MergeSpec.RunEnd(less, nodes[base..e], i - base)]
      ensures r == base + MergeSpec.RunEnd(less, nodes[base..e], i - base)
    {
      ghost var t := nodes[base..e];
      assert nodes[i].next == nodes[i + 1] && nodes[i + 1].prev == nodes[i];
      end, r := a.next, i + 1;
      while end != b && !less(end, end.prev)
        invariant i < r <= e && nodes[r] == end
        invariant end.prev == nodes[r - 1]
        invariant MergeSpec.RunEnd(less, t, i - base) == MergeSpec.RunEnd(less, t, r - 1 - base)
        decreases e - r
      {
        assert nodes[r].next == nodes[r + 1] && nodes[r + 1].prev == nodes[r];
        assert t[r - base] == nodes[r] && t[r - 1 - base] == nodes[r - 1];
        end, r := end.next, r + 1;
      }
      assert t[r - 1 - base] == nodes[r - 1];
      assert r < e ==> t[r - base] == nodes[r];
    }

    /** The second branch of inplace_merge: the front of the second run goes
        before the front of the first. */
    method TakeSecond(a: Elem, b: Elem, ghost i: nat, ghost j: nat) returns (next: Elem)
      requires Valid() && 0 < i < j < |nodes| - 1 && nodes[i] == a && nodes[j] == b
      modifies this, repr
      ensures Valid() && nodes == Moved(old(nodes), i, j, j + 1) && repr == old(repr)
      ensures nodes[i + 1] == a && next == nodes[j + 1]
    {
      assert nodes[j].next == nodes[j + 1] && nodes[j + 1].prev == nodes[j];
      next := b.next;
      Splice(a, next.prev, next, i, j, j + 1);
    }

    /** What the loop of inplace_merge works towards. */
    static ghost function MergeGoal(less: (Elem, Elem) -> bool, s: seq<Elem>, i: nat, j: nat, e: nat): seq<Elem>
      requires i <= j <= e <= |s|
    {
      s[..i] + MergeSpec.Merge(less, s[i..j], s[j..e]) + s[e..]
    }

    /** One turn of the loop of inplace_merge. */
    method MergeStep(a0: Elem, b0: Elem, less: (Elem, Elem) -> bool, ghost i: nat, ghost j: nat, ghost e: nat)
      returns (a: Elem, b: Elem, ghost j': nat)
      requires Valid() && 0 < i < j < e < |nodes| && nodes[i] == a0 && nodes[j] == b0
      modifies this, repr
      ensures Valid() && repr == old(repr) && |nodes| == |old(nodes)|
      ensures i < j' <= e && nodes[i + 1] == a && nodes[j'] == b && nodes[e] == old(nodes)[e]
      ensures MergeGoal(less, nodes, i + 1, j', e) == MergeGoal(less, old(nodes), i, j, e)
    {
      a, b, j' := a0, b0, j;
      if !less(b, a) {
        assert nodes[i].next == nodes[i + 1];
        MergeTakesFirst(less, nodes, i, j, e);
        a := a.next;
      } else {
        MergeTakesSecond(less, nodes, i, j, e);
        b := TakeSecond(a, b, i, j);
        j' := j + 1;
      }
    }

    /** inplace_merge of the nodes from p to m with those from m to e. */
    method InplaceMerge(a0: Elem, a1b0: Elem, b1: Elem, less: (Elem, Elem) -> bool, ghost p: nat, ghost m: nat, ghost e: nat)
      requires Valid() && 0 < p < m < e < |nodes|
      requires nodes[p] == a0 && nodes[m] == a1b0 && nodes[e] == b1
      modifies this, repr
      ensures Valid() && nodes == MergeGoal(less, old(nodes), p, m, e) && repr == old(repr)
    {
      var a, b := a0, a1b0;
      ghost var i, j := p, m;
      while a != b && b != b1
        invariant Valid() && 0 < i <= j <= e < |nodes|
        invariant nodes[i] == a && nodes[j] == b && nodes[e] == b1
        invariant repr == old(repr)
        invariant MergeGoal(less, nodes, i, j, e) == MergeGoal(less, old(nodes), p, m, e)
        decreases e - i
      {
        a, b, j := MergeStep(a, b, less, i, j, e);
        i := i + 1;
      }
      MergeDone(less, nodes, i, j, e);
    }

    static lemma MergeDone(less: (Elem, Elem) -> bool, s: seq<Elem>, i: nat, j: nat, e: nat)
      requires i <= j <= e <= |s| && (i == j || j == e)
      ensures MergeGoal(less, s, i, j, e) == s
    {
      assert s[..i] + s[i..j] + s[j..e] + s[e..] == s;
    }

    static lemma MergeTakesFirst(less: (Elem, Elem) -> bool, s: seq<Elem>, i: nat, j: nat, e: nat)
      requires i < j < e <= |s| && !less(s[j], s[i])
      ensures MergeGoal(less, s, i, j, e) == MergeGoal(less, s, i + 1, j, e)
    {
      assert s[i..j][1..] == s[i + 1..j];
    }

    static lemma MergeTakesSecond(less: (Elem, Elem) -> bool, s: seq<Elem>, i: nat, j: nat, e: nat)
      requires i < j < e < |s| && less(s[j], s[i])
      ensures var r := Moved(s, i, j, j + 1);
        && MergeGoal(less, s, i, j, e) == MergeGoal(less, r, i + 1, j + 1, e)
        && r[e] == s[e]
    {
      var r := Moved(s, i, j, j + 1);
      var a, b := s[i..j], s[j..e];
      assert b[0] == s[j] && b[1..] == s[j + 1..e];
      assert r[i + 1..j + 1] == a;
      assert r[j + 1..e] == s[j + 1..e];
      assert r[..i + 1] == s[..i] + [s[j]] && r[e..] == s[e..];
      var merged := MergeSpec.Merge(less, a, b[1..]);
      assert MergeSpec.Merge(less, a, b) == [s[j]] + merged;
      assert s[..i] + ([s[j]] + merged) + s[e..] == s[..i] + [s[j]] + merged + s[e..];
    }

    /** The nodes before place i, and what the rest of the pass makes of those
        from there on, are `goal`; the rest of the pass outputs this many runs. */
    static ghost predicate Towards(less: (Elem, Elem) -> bool, s: seq<Elem>, i: nat, goal: seq<Elem>, runs: nat)
      requires 0 < i < |s|
    {
      && goal == s[1..i] + MergeSpec.Pass(less, s[i..|s| - 1])
      && runs == MergeSpec.PassRuns(less, s[i..|s| - 1])
    }

    /** Two runs merged: one output run, and the goal is as before. */
    static lemma PassMerges(less: (Elem, Elem) -> bool, s: seq<Elem>, i: nat, m: nat, e: nat, goal: seq<Elem>, runs: nat)
      requires 0 < i < m < e < |s| && Towards(less, s, i, goal, runs)
      requires m == i + MergeSpec.RunEnd(less, s[i..|s| - 1], 0)
      requires e == i + MergeSpec.RunEnd(less, s[i..|s| - 1], m - i)
      ensures |MergeGoal(less, s, i, m, e)| == |s| && runs > 0
      ensures Towards(less, MergeGoal(less, s, i, m, e), e, goal, runs - 1)
    {
      var n := |s| - 1;
      Slices(s, i, m, e, n);
      MergeSpec.PassUnfolds(less, s[i..n], m - i, e - i, s[i..m], s[m..e], s[e..n]);
      AfterMerge(less, s, i, e, MergeSpec.Merge(less, s[i..m], s[m..e]), goal, runs);
    }

    static lemma AfterMerge(
      less: (Elem, Elem) -> bool, s: seq<Elem>, i: nat, e: nat, merged: seq<Elem>, goal: seq<Elem>, runs: nat)
      requires 0 < i <= e < |s| && |merged| == e - i
      requires goal == s[1..i] + (merged + MergeSpec.Pass(less, s[e..|s| - 1]))
      requires runs == 1 + MergeSpec.PassRuns(less, s[e..|s| - 1])
      ensures |s[..i] + merged + s[e..]| == |s| && Towards(less, s[..i] + merged + s[e..], e, goal, runs - 1)
    {
      MiddleReplaced(s, i, e, merged, MergeSpec.Pass(less, s[e..|s| - 1]));
    }

    static lemma Slices(s: seq<Elem>, i: nat, m: nat, e: nat, n: nat)
      requires i <= m <= e <= n <= |s|
      ensures var t := s[i..n];
        t[..m - i] == s[i..m] && t[m - i..e - i] == s[m..e] && t[e - i..] == s[e..n]
    {
      var t := s[i..n];
      assert forall k :: 0 <= k < e - m ==> t[m - i..e - i][k] == s[m..e][k];
    }

    static lemma MiddleReplaced(s: seq<Elem>, i: nat, e: nat, middle: seq<Elem>, rest: seq<Elem>)
      requires 0 < i <= e < |s| && |middle| == e - i
      ensures var r := s[..i] + middle + s[e..];
        |r| == |s| && r[e..|s| - 1] == s[e..|s| - 1] && r[1..e] + rest == s[1..i] + (middle + rest)
    {
    }

    /** The last run alone: one output run, and nothing moves. */
    static lemma PassEnds(less: (Elem, Elem) -> bool, s: seq<Elem>, i: nat, goal: seq<Elem>, runs: nat)
      requires 0 < i < |s| - 1 && Towards(less, s, i, goal, runs)
      requires i + MergeSpec.RunEnd(less, s[i..|s| - 1], 0) == |s| - 1
      ensures goal == s[1..|s| - 1] && runs == 1
    {
      assert s[1..i] + s[i..|s| - 1] == s[1..|s| - 1];
    }

    static lemma PassBounds(less: (Elem, Elem) -> bool, s: seq<Elem>, goal: seq<Elem>, runs: nat)
      requires |s| >= 2
      ensures Towards(less, s, 1, MergeSpec.Pass(less, s[1..|s| - 1]), MergeSpec.PassRuns(less, s[1..|s| - 1]))
      ensures Towards(less, s, |s| - 1, goal, runs) ==> goal == s[1..|s| - 1] && runs == 0
    {
    }

    /** The body of the loop of list_sort: finds two runs from a0 on and merges
        them; if there is only one it is the last. */
    method MergeRuns(a0: Elem, less: (Elem, Elem) -> bool, ghost i: nat, ghost goal: seq<Elem>, ghost runs: nat)
      returns (last: bool, b1: Elem, ghost e: nat)
      requires Valid() && 0 < i < |nodes| - 1 && nodes[i] == a0 && Towards(less, nodes, i, goal, runs)
      modifies this, repr
      ensures Valid() && repr == old(repr) && |nodes| == |old(nodes)| && i < e < |nodes| && nodes[e] == b1
      ensures last ==> Elems() == goal && runs == 1
      ensures !last ==> runs > 0 && Towards(less, nodes, e, goal, runs - 1)
    {
      ghost var n := |nodes| - 1;
      var a1b0, m := FindEndOfRun(a0, tail, less, i, i, n);
      if a1b0 == tail {
        PassEnds(less, nodes, i, goal, runs);
        return true, a1b0, m;
      }
      b1, e := FindEndOfRun(a1b0, tail, less, i, m, n);
      PassMerges(less, nodes, i, m, e, goal, runs);
      InplaceMerge(a0, a1b0, b1, less, i, m, e);
      last := false;
    }

    /** One pass of list_sort. */
    method SortPass(less: (Elem, Elem) -> bool) returns (outputRunCnt: nat)
      requires Valid()
      modifies this, repr
      ensures Valid() && repr == old(repr)
      ensures Elems() == MergeSpec.Pass(less, old(Elems())) && outputRunCnt == MergeSpec.PassRuns(less, old(Elems()))
    {
      outputRunCnt := 0;
      var a0 := Begin();
      ghost var i := 1;
      ghost var goal, runs := MergeSpec.Pass(less, Elems()), MergeSpec.PassRuns(less, Elems());
      PassBounds(less, nodes, goal, runs);
      while a0 != tail
        invariant Valid() && 0 < i < |nodes| && nodes[i] == a0 && repr == old(repr)
        invariant outputRunCnt <= runs && Towards(less, nodes, i, goal, runs - outputRunCnt)
        decreases |nodes| - i
      {
        outputRunCnt := outputRunCnt + 1;
        var last;
        last, a0, i := MergeRuns(a0, less, i, goal, runs - outputRunCnt + 1);
        if last {
          return;
        }
      }
      PassBounds(less, nodes, goal, runs - outputRunCnt);
    }

    /** list_sort: the elements end up sorted, none is lost, and equivalent ones
        keep their order (see MergeSpec.MergeSortSortsStably); the number of
        passes is logarithmic in the number of runs. */
    method Sort(less: (Elem, Elem) -> bool) returns (ghost passes: nat)
      requires Valid() && MergeSpec.StrictWeak(less, MergeSpec.Elements(Elems()))
      modifies this, repr
      ensures Valid() && repr == old(repr)
      ensures Elems() == MergeSpec.MergeSort(less, old(Elems()))
      ensures MergeSpec.Sorted(less, Elems()) && MergeSpec.Rearranged(less, old(Elems()), Elems())
      ensures passes == MergeSpec.Passes(less, old(Elems()))
      ensures var runs := MergeSpec.Runs(less, old(Elems()));
        passes <= if runs <= 2 then 1 else MergeSpec.CeilLog2(runs)
    {
      ghost var s := Elems();
      MergeSpec.PassesAreLogarithmic(less, s);
      MergeSpec.MergeSortSortsStably(less, s);
      var outputRunCnt := SortPass(less);
      passes := 1;
      MergeSpec.PassMembers(less, s);
      ghost var last := s;
      while outputRunCnt > 1
        invariant Valid() && repr == old(repr)
        invariant MergeSpec.StrictWeak(less, MergeSpec.Elements(last))
        invariant Elems() == MergeSpec.Pass(less, last) && outputRunCnt == MergeSpec.PassRuns(less, last)
        invariant MergeSpec.MergeSort(less, last) == MergeSpec.MergeSort(less, s)
        invariant passes + MergeSpec.Passes(less, last) == MergeSpec.Passes(less, s) + 1
        decreases MergeSpec.Runs(less, last)
      {
        MergeSpec.PassHalvesRuns(less, last);
        MergeSpec.PassMembers(less, last);
        last := Elems();
        outputRunCnt := SortPass(less);
        passes := passes + 1;
      }
    }

    static ghost function Reversed(s: seq<Elem>): (r: seq<Elem>)
      ensures |r| == |s|
    {
      seq(|s|, i requires 0 <= i < |s| => s[|s| - 1 - i])
    }

    /** s and r, the same nodes with the inner ones in reverse order. */
    static ghost predicate InnerReversed(s: seq<Elem>, r: seq<Elem>) {
      && |r| == |s| >= 2 && r[0] == s[0] && r[|r| - 1] == s[|s| - 1]
      && forall k {:trigger r[k]} :: 0 < k < |s| - 1 ==> r[k] == s[|s| - 1 - k]
    }

    /** list_reverse: every node swaps its links, and the ends follow. */
    method Reverse()
      requires Valid()
      modifies this, repr
      ensures Valid() && repr == old(repr) && Elems() == Reversed(old(Elems()))
    {
      ghost var s := nodes;
      ghost var n := |s| - 1;
      var empty := Empty();
      if !empty {
        SwapInner(s);
        SwapEnds(s);
        nodes := [head] + Reversed(s[1..n]) + [tail];
        InnerIsReversed(s, nodes);
        ReversedNoDup(s, nodes);
        ReversedChain(s, nodes);
      } else {
        assert Reversed(s[1..n]) == s[1..n];
      }
    }

    static lemma InnerIsReversed(s: seq<Elem>, r: seq<Elem>)
      requires |s| >= 2 && r == [s[0]] + Reversed(s[1..|s| - 1]) + [s[|s| - 1]]
      ensures InnerReversed(s, r) && r[1..|r| - 1] == Reversed(s[1..|s| - 1])
      ensures forall k :: 0 <= k < |r| ==> r[k] in s
    {
    }

    /** The last two statements of list_reverse. */
    method SwapEnds(ghost s: seq<Elem>)
      requires |s| > 2 && NoDup(s) && s[0] == head && s[|s| - 1] == tail
      requires forall k {:trigger s[k].next} :: 0 < k < |s| - 1 ==> s[k].next == s[k - 1]
      requires forall k {:trigger s[k].prev} :: 0 < k < |s| - 1 ==> s[k].prev == s[k + 1]
      requires head.prev == null && head.next == s[1] && tail.next == null && tail.prev == s[|s| - 2]
      modifies head, tail, s[1], s[|s| - 2]
      ensures head.prev == null && head.next == s[|s| - 2] && tail.next == null && tail.prev == s[1]
      ensures s[1].next == tail && s[|s| - 2].prev == head
      ensures forall k {:trigger s[k].next} :: 1 < k < |s| - 1 ==> s[k].next == s[k - 1]
      ensures forall k {:trigger s[k].prev} :: 0 < k < |s| - 2 ==> s[k].prev == s[k + 1]
    {
      head.next, tail.prev := tail.prev, head.next;
      head.next.prev, tail.prev.next := tail.prev.next, head.next.prev;
    }

    static lemma ReversedChain(s: seq<Elem>, r: seq<Elem>)
      requires InnerReversed(s, r) && |s| > 2
      requires s[0].next == s[|s| - 2] && s[|s| - 1].prev == s[1]
      requires s[1].next == s[|s| - 1] && s[|s| - 2].prev == s[0]
      requires forall k {:trigger s[k].next} :: 1 < k < |s| - 1 ==> s[k].next == s[k - 1]
      requires forall k {:trigger s[k].prev} :: 0 < k < |s| - 2 ==> s[k].prev == s[k + 1]
      ensures Chain(r)
    {
      var n := |s| - 1;
      forall k | 0 <= k < n
        ensures r[k].next == r[k + 1]
      {
        assert k > 0 ==> r[k] == s[n - k];
        assert k + 1 < n ==> r[k + 1] == s[n - k - 1];
      }
      forall k | 1 <= k <= n
        ensures r[k].prev == r[k - 1]
      {
        assert k < n ==> r[k] == s[n - k];
        assert k - 1 > 0 ==> r[k - 1] == s[n - k + 1];
      }
    }

    static lemma ReversedNoDup(s: seq<Elem>, r: seq<Elem>)
      requires NoDup(s) && InnerReversed(s, r)
      ensures NoDup(r)
    {
      forall i, j | 0 <= i < j < |r|
        ensures r[i] != r[j]
      {
        var n := |s| - 1;
        assert r[i] == s[if i == 0 then 0 else n - i] && r[j] == s[if j == n then n else n - j];
      }
    }

    /** The loop of list_reverse. */
    method SwapInner(ghost s: seq<Elem>)
      requires Valid() && s == nodes && |s| > 2
      modifies repr
      ensures forall k {:trigger s[k].next} :: 0 < k < |s| - 1 ==> s[k].next == s[k - 1]
      ensures forall k {:trigger s[k].prev} :: 0 < k < |s| - 1 ==> s[k].prev == s[k + 1]
      ensures head.prev == null && head.next == s[1] && tail.next == null && tail.prev == s[|s| - 2]
    {
      var e := head.next;
      ghost var i := 1;
      while e != tail
        invariant 0 < i < |s| && s[i] == e && s == nodes
        invariant forall k {:trigger s[k].next} :: 0 < k < i ==> s[k].next == s[k - 1]
        invariant forall k {:trigger s[k].prev} :: 0 < k < i ==> s[k].prev == s[k + 1]
        invariant forall k {:trigger s[k].prev} :: i <= k < |s| ==> s[k].prev == s[k - 1]
        invariant forall k {:trigger s[k].next} :: i <= k < |s| - 1 ==> s[k].next == s[k + 1]
        invariant head.prev == null && head.next == s[1] && tail.next == null
        decreases |s| - i
      {
        e.prev, e.next := e.next, e.prev;
        e, i := e.prev, i + 1;
      }
    }

    /** The place of list_insert_ordered: the first element that elem is less than. */
    static ghost function OrderedPlace(less: (Elem, Elem) -> bool, elem: Elem, s: seq<Elem>): (k: nat)
      ensures k <= |s|
      ensures forall i :: 0 <= i < k ==> !less(elem, s[i])
      ensures k < |s| ==> less(elem, s[k])
    {
      if s == [] || less(elem, s[0]) then 0 else 1 + OrderedPlace(less, elem, s[1..])
    }

    /** list_insert_ordered: after the elements it is not less than, so after
        those it is equivalent to, and the list stays sorted. */
    method InsertOrdered(elem: Elem, less: (Elem, Elem) -> bool)
      requires Valid() && elem !in nodes
      requires MergeSpec.StrictWeak(less, MergeSpec.Elements(Elems() + [elem]))
      requires MergeSpec.Sorted(less, Elems())
      modifies this, repr, elem
      ensures Valid() && repr == old(repr) + {elem}
      ensures var s := old(Elems()); var k := OrderedPlace(less, elem, s); Elems() == s[..k] + [elem] + s[k..]
      ensures MergeSpec.Sorted(less, Elems())
    {
      ghost var s := Elems();
      ghost var p := OrderedPlace(less, elem, s);
      var e := Begin();
      ghost var i := 1;
      while e != tail && !less(elem, e)
        invariant 0 < i < |nodes| && nodes[i] == e && i - 1 <= p
        decreases |nodes| - i
      {
        assert nodes[i].next == nodes[i + 1];
        assert s[i - 1] == nodes[i];
        e, i := e.next, i + 1;
      }
      assert i - 1 == p by {
        if i < |nodes| - 1 { assert s[i - 1] == nodes[i]; }
      }
      OrderedStaysSorted(less, elem, s, p);
      InsertedInner(nodes, i, elem);
      Insert(e, elem, i);
    }

    static lemma InsertedInner(s: seq<Elem>, i: nat, elem: Elem)
      requires 0 < i < |s|
      ensures var r := s[..i] + [elem] + s[i..]; var t := s[1..|s| - 1];
        r[1..|r| - 1] == t[..i - 1] + [elem] + t[i - 1..]
    {
    }

    static lemma OrderedStaysSorted(less: (Elem, Elem) -> bool, elem: Elem, s: seq<Elem>, k: nat)
      requires MergeSpec.StrictWeak(less, MergeSpec.Elements(s + [elem])) && MergeSpec.Sorted(less, s)
      requires k == OrderedPlace(less, elem, s)
      ensures MergeSpec.Sorted(less, s[..k] + [elem] + s[k..])
    {
      var all := MergeSpec.Elements(s + [elem]);
      forall j | k <= j < |s|
        ensures !less(s[j], elem)
      {
        assert elem in s + [elem] && s[j] in s + [elem] && s[k] in s + [elem];
        assert elem in all && s[j] in all && s[k] in all;
        assert k < j ==> !less(s[j], s[k]);
      }
    }
  }
}
