/** The intrusive circular doubly linked list. */
module List {

  /** A list node; `container` is the structure it is embedded in, which container_of_dlist recovers. */
  class ListHead<T> {
    var next: ListHead?<T>
    var prev: ListHead?<T>
    const container: T

    constructor (container: T)
      ensures this.container == container
    {
      this.container := container;
      next, prev := null, null;
    }
  }

  ghost predicate Distinct<T>(s: seq<T>) {
    forall i, j :: 0 <= i < j < |s| ==> s[i] != s[j]
  }

  lemma DistinctInsert<T>(s: seq<T>, k: nat, x: T)
    requires Distinct(s) && k <= |s| && x !in s
    ensures Distinct(s[..k] + [x] + s[k..])
  {
  }

  lemma DistinctRemove<T>(s: seq<T>, k: nat)
    requires Distinct(s) && k < |s|
    ensures Distinct(s[..k] + s[k + 1..])
  {
  }

  /** The nodes met when walking once around from the head back to the head. */
  ghost function Cycle<T>(head: ListHead<T>, s: seq<ListHead<T>>): seq<ListHead<T>> {
    [head] + s + [head]
  }

  /** The two neighbours of a gap occur nowhere else on the walk around the ring. */
  lemma NeighboursUnique<T>(head: ListHead<T>, s: seq<ListHead<T>>, k: nat)
    requires Distinct([head] + s) && k <= |s|
    ensures forall i :: 0 <= i <= |s| && i != k ==> Cycle(head, s)[i] != Cycle(head, s)[k]
    ensures forall i :: 1 <= i <= |s| + 1 && i != k + 1 ==> Cycle(head, s)[i] != Cycle(head, s)[k + 1]
  {
    var c, f := Cycle(head, s), [head] + s;
    assert forall i :: 0 <= i <= |s| ==> c[i] == f[i];
    forall i | 1 <= i <= |s| + 1 && i != k + 1 ensures c[i] != c[k + 1] {
      assert c[i] == f[if i == |s| + 1 then 0 else i];
      assert c[k + 1] == f[if k == |s| then 0 else k + 1];
    }
  }

  ghost predicate Linked<T>(a: ListHead<T>, b: ListHead<T>)
    reads a, b
  {
    a.next == b && b.prev == a
  }

  /** head and the nodes s form one cycle, in this order, with next and prev mutually inverse. */
  ghost predicate Ring<T>(head: ListHead<T>, s: seq<ListHead<T>>)
    reads {head} + set n | n in s
  {
    && Distinct([head] + s)
    && forall i :: 0 <= i <= |s| ==> Linked(Cycle(head, s)[i], Cycle(head, s)[i + 1])
  }

  lemma RingDistinct<T>(head: ListHead<T>, s: seq<ListHead<T>>)
    requires Ring(head, s)
    ensures Distinct(s) && head !in s
  {
    var f := [head] + s;
    assert forall i :: 0 <= i < |s| ==> s[i] == f[i + 1];
    assert forall i :: 0 <= i < |s| ==> s[i] != f[0];
  }

  /** INIT_LIST_HEAD */
  method InitListHead<T>(list: ListHead<T>)
    modifies list
    ensures Ring(list, [])
  {
    list.next := list;
    list.prev := list;
  }

  /** The walk around the ring with a new node in gap k. */
  lemma WalkInserted<T>(head: ListHead<T>, s: seq<ListHead<T>>, k: nat, n: ListHead<T>)
    requires Distinct([head] + s) && k <= |s| && n != head && n !in s
    ensures var c, s' := Cycle(head, s), s[..k] + [n] + s[k..];
            var c' := Cycle(head, s');
            && |c| == |s| + 2 && |c'| == |c| + 1 && Distinct([head] + s')
            && (forall i :: 0 <= i <= k ==> c'[i] == c[i]) && c'[k + 1] == n
            && (forall i :: k + 1 < i < |c'| ==> c'[i] == c[i - 1])
            && (forall i :: 0 <= i < |c| ==> c[i] != n)
  {
    var s' := s[..k] + [n] + s[k..];
    DistinctInsert([head] + s, k + 1, n);
    assert [head] + s' == ([head] + s)[..k + 1] + [n] + ([head] + s)[k + 1..];
    assert Cycle(head, s') == Cycle(head, s)[..k + 1] + [n] + Cycle(head, s)[k + 1..];
  }

  /** The walk around the ring without node k. */
  lemma WalkRemoved<T>(head: ListHead<T>, s: seq<ListHead<T>>, k: nat)
    requires Distinct([head] + s) && k < |s|
    ensures var c, s' := Cycle(head, s), s[..k] + s[k + 1..];
            var c' := Cycle(head, s');
            && |c| == |s| + 2 && |c'| + 1 == |c| && Distinct([head] + s') && c[k + 1] == s[k]
            && (forall i :: 0 <= i <= k ==> c'[i] == c[i])
            && (forall i :: k < i < |c'| ==> c'[i] == c[i + 1])
  {
    var s' := s[..k] + s[k + 1..];
    DistinctRemove([head] + s, k + 1);
    assert [head] + s' == ([head] + s)[..k + 1] + ([head] + s)[k + 2..];
    assert Cycle(head, s') == Cycle(head, s)[..k + 1] + Cycle(head, s)[k + 2..];
  }

  /** __list_add */
  method Insert<T>(pnew: ListHead<T>, prev: ListHead<T>, next: ListHead<T>,
                   ghost head: ListHead<T>, ghost s: seq<ListHead<T>>, ghost k: nat)
    requires Ring(head, s) && k <= |s| && pnew != head && pnew !in s
    requires prev == Cycle(head, s)[k] && next == Cycle(head, s)[k + 1]
    modifies pnew, prev, next
    ensures Ring(head, s[..k] + [pnew] + s[k..])
  {
    ghost var c, s' := Cycle(head, s), s[..k] + [pnew] + s[k..];
    ghost var c' := Cycle(head, s');
    WalkInserted(head, s, k, pnew);
    NeighboursUnique(head, s, k);
    hide Distinct, Cycle;
    assert forall i :: 0 <= i <= |s| ==> Linked(c[i], c[i + 1]);
    next.prev := pnew;
    pnew.next := next;
    pnew.prev := prev;
    prev.next := pnew;
    forall i | 0 <= i <= |s'| ensures Linked(c'[i], c'[i + 1]) {
      if i < k {
        assert Linked(c[i], c[i + 1]);
      } else if k + 1 < i {
        assert Linked(c[i - 1], c[i]);
      }
    }
  }

  /** list_add: the new entry becomes the first. */
  method Add<T>(pnew: ListHead<T>, head: ListHead<T>, ghost s: seq<ListHead<T>>)
    requires Ring(head, s) && pnew != head && pnew !in s
    modifies pnew, head, head.next
    ensures Ring(head, [pnew] + s)
  {
    assert Linked(Cycle(head, s)[0], Cycle(head, s)[1]);
    assert s[..0] + [pnew] + s[0..] == [pnew] + s;
    Insert(pnew, head, head.next, head, s, 0);
  }

  /** list_add_tail: the new entry becomes the last. */
  method AddTail<T>(pnew: ListHead<T>, head: ListHead<T>, ghost s: seq<ListHead<T>>)
    requires Ring(head, s) && pnew != head && pnew !in s
    modifies pnew, head, head.prev
    ensures Ring(head, s + [pnew])
  {
    assert Linked(Cycle(head, s)[|s|], Cycle(head, s)[|s| + 1]);
    assert s[..|s|] + [pnew] + s[|s|..] == s + [pnew];
    Insert(pnew, head.prev, head, head, s, |s|);
  }

  /** list_del: the entry leaves the ring and its own links are cleared. */
  method Del<T>(entry: ListHead<T>, ghost head: ListHead<T>, ghost s: seq<ListHead<T>>, ghost k: nat)
    requires Ring(head, s) && k < |s| && s[k] == entry
    modifies entry, entry.prev, entry.next
    ensures Ring(head, s[..k] + s[k + 1..])
    ensures entry.next == null && entry.prev == null
  {
    ghost var c, s' := Cycle(head, s), s[..k] + s[k + 1..];
    ghost var c' := Cycle(head, s');
    WalkRemoved(head, s, k);
    NeighboursUnique(head, s, k);
    NeighboursUnique(head, s, k + 1);
    hide Distinct, Cycle;
    assert forall i :: 0 <= i <= |s| ==> Linked(c[i], c[i + 1]);
    assert Linked(c[k], c[k + 1]) && Linked(c[k + 1], c[k + 2]);
    entry.next.prev := entry.prev;
    entry.prev.next := entry.next;
    entry.next := null;
    entry.prev := null;
    forall i | 0 <= i <= |s'| ensures Linked(c'[i], c'[i + 1]) {
      if i < k {
        assert Linked(c[i], c[i + 1]);
      } else if k < i {
        assert Linked(c[i + 1], c[i + 2]);
      }
    }
  }

  /** list_empty */
  method IsEmpty<T>(head: ListHead<T>, ghost s: seq<ListHead<T>>) returns (empty: bool)
    requires Ring(head, s)
    ensures empty <==> s == []
  {
    assert Linked(Cycle(head, s)[0], Cycle(head, s)[1]);
    empty := head.next == head;
  }

  // ---------- several rings at once ----------

  /** Every node of ring i has i as its home, so no node is on two rings. */
  ghost predicate Apart<T>(heads: seq<ListHead<T>>, lists: seq<seq<ListHead<T>>>, home: map<ListHead<T>, nat>) {
    && |heads| == |lists|
    && (forall i :: 0 <= i < |heads| ==> heads[i] in home && home[heads[i]] == i)
    && forall i, n :: 0 <= i < |lists| && n in lists[i] ==> n in home && home[n] == i
  }

  /** A family of disjoint rings. */
  ghost predicate Family<T>(heads: seq<ListHead<T>>, lists: seq<seq<ListHead<T>>>, home: map<ListHead<T>, nat>)
    reads home.Keys
  {
    Apart(heads, lists, home) && forall i :: 0 <= i < |heads| ==> Ring(heads[i], lists[i])
  }

  /** The neighbours around gap k of ring h belong to ring h. */
  lemma RingStaysHome<T>(heads: seq<ListHead<T>>, lists: seq<seq<ListHead<T>>>, home: map<ListHead<T>, nat>,
                         h: nat, k: nat)
    requires Family(heads, lists, home) && h < |heads| && k <= |lists[h]|
    ensures var c := Cycle(heads[h], lists[h]);
            && Linked(c[k], c[k + 1]) && (1 <= k ==> c[k] == lists[h][k - 1])
            && c[k] in home && home[c[k]] == h && c[k + 1] in home && home[c[k + 1]] == h
  {
    assert Ring(heads[h], lists[h]);
    var c := Cycle(heads[h], lists[h]);
    assert forall j :: 0 <= j <= |lists[h]| ==> c[j] == ([heads[h]] + lists[h])[j];
  }

  lemma ApartRemove<T>(heads: seq<ListHead<T>>, lists: seq<seq<ListHead<T>>>, home: map<ListHead<T>, nat>,
                       h: nat, k: nat)
    requires Apart(heads, lists, home) && h < |heads| && k < |lists[h]|
    requires Distinct(lists[h]) && heads[h] !in lists[h]
    ensures Apart(heads, lists[h := lists[h][..k] + lists[h][k + 1..]], home - {lists[h][k]})
  {
    var s := lists[h];
    assert s[k] in s && home[s[k]] == h;
    forall n | n in s[..k] + s[k + 1..] ensures n in s && n != s[k] {
      var j :| 0 <= j < |s| && j != k && s[j] == n;
    }
  }

  lemma ApartInsert<T>(heads: seq<ListHead<T>>, lists: seq<seq<ListHead<T>>>, home: map<ListHead<T>, nat>,
                       h: nat, n: ListHead<T>, s: seq<ListHead<T>>)
    requires Apart(heads, lists, home) && h < |heads| && n !in home
    requires forall m :: m in s ==> m == n || m in lists[h]
    ensures Apart(heads, lists[h := s], home[n := h])
  {
  }

  /** Removing a node from one ring of a family leaves the others as they were. */
  method DelFrom<T>(entry: ListHead<T>, ghost heads: seq<ListHead<T>>, ghost lists: seq<seq<ListHead<T>>>,
                    ghost home: map<ListHead<T>, nat>, ghost h: nat, ghost k: nat)
    requires Family(heads, lists, home) && h < |heads| && k < |lists[h]| && entry == lists[h][k]
    modifies home.Keys
    ensures Family(heads, lists[h := lists[h][..k] + lists[h][k + 1..]], home - {entry})
    ensures entry.next == null && entry.prev == null
  {
    RingStaysHome(heads, lists, home, h, k);
    RingStaysHome(heads, lists, home, h, k + 1);
    RingDistinct(heads[h], lists[h]);
    ApartRemove(heads, lists, home, h, k);
    hide Ring, Distinct, Cycle;
    Del(entry, heads[h], lists[h], k);
  }

  /** list_add on one ring of a family. */
  method AddTo<T>(pnew: ListHead<T>, head: ListHead<T>, ghost heads: seq<ListHead<T>>,
                  ghost lists: seq<seq<ListHead<T>>>, ghost home: map<ListHead<T>, nat>, ghost h: nat)
    requires Family(heads, lists, home) && h < |heads| && head == heads[h] && pnew !in home
    modifies pnew, home.Keys
    ensures Family(heads, lists[h := [pnew] + lists[h]], home[pnew := h])
  {
    RingStaysHome(heads, lists, home, h, 0);
    ApartInsert(heads, lists, home, h, pnew, [pnew] + lists[h]);
    hide Ring, Distinct, Cycle;
    Add(pnew, head, lists[h]);
  }

  /** list_add_tail on one ring of a family. */
  method AddTailTo<T>(pnew: ListHead<T>, head: ListHead<T>, ghost heads: seq<ListHead<T>>,
                      ghost lists: seq<seq<ListHead<T>>>, ghost home: map<ListHead<T>, nat>, ghost h: nat)
    requires Family(heads, lists, home) && h < |heads| && head == heads[h] && pnew !in home
    modifies pnew, home.Keys
    ensures Family(heads, lists[h := lists[h] + [pnew]], home[pnew := h])
  {
    RingStaysHome(heads, lists, home, h, |lists[h]|);
    ApartInsert(heads, lists, home, h, pnew, lists[h] + [pnew]);
    hide Ring, Distinct, Cycle;
    AddTail(pnew, head, lists[h]);
  }
}
