/** Whole runs of the allocator, over the abstract pools that the in-place methods are proved against:
    no block is ever lost or listed twice, and blocks keep their class for life. */
module MemRuns {
  import opened MemState

  datatype Move =
    | Malloc(b: Block, c: nat, e: MemEntry)
    | Reuse(c: nat)
    | Free(k: nat, c: nat)

  /** The moves mem_alloc and mem_free make: malloc only for an empty pool, free into the block's class. */
  ghost predicate Enabled(p: Pools, m: Move) {
    && |p.lists| == MEM_TYPE_MAX + 1 && |p.malloced| == MEM_TYPE_MAX
    && match m
       case Malloc(b, c, _) => c < MEM_TYPE_MAX && p.lists[c] == [] && b !in p.cls
       case Reuse(c) => c < MEM_TYPE_MAX && p.lists[c] != []
       case Free(k, c) =>
         && k < |p.lists[USED]| && c < MEM_TYPE_MAX
         && p.lists[USED][k] in p.cls && p.cls[p.lists[USED][k]] == c
  }

  ghost function After(p: Pools, m: Move): Pools
    requires Enabled(p, m)
  {
    match m
    case Malloc(b, c, e) => Grown(p, b, c, e)
    case Reuse(c) => Reused(p, c)
    case Free(k, c) => Freed(p, k, c)
  }

  ghost predicate Run(p: Pools, ms: seq<Move>, q: Pools)
    decreases |ms|
  {
    if ms == [] then p == q
    else Enabled(p, ms[0]) && Run(After(p, ms[0]), ms[1..], q)
  }

  /** A run goes on with one more move. */
  lemma {:induction false} RunExtends(p: Pools, ms: seq<Move>, q: Pools, m: Move)
    requires Run(p, ms, q) && Enabled(q, m)
    ensures Run(p, ms + [m], After(q, m))
    decreases |ms|
  {
    hide Enabled, After;
    if ms == [] {
      assert ms + [m] == [m] && [m][1..] == [];
      assert Run(After(q, m), [], After(q, m));
    } else {
      assert (ms + [m])[0] == ms[0] && (ms + [m])[1..] == ms[1..] + [m];
      RunExtends(After(p, ms[0]), ms[1..], q, m);
    }
  }

  /** The state mem_module_init leaves: no block anywhere. */
  ghost predicate Initial(p: Pools) {
    && p.lists == seq(MEM_TYPE_MAX + 1, _ => []) && p.malloced == seq(MEM_TYPE_MAX, _ => 0)
    && p.cls == map[]
  }

  /** Every node of every list, with multiplicity. */
  ghost function Nodes(lists: seq<seq<Block>>): multiset<Block> {
    if lists == [] then multiset{}
    else multiset(lists[0]) + Nodes(lists[1..])
  }

  lemma Shift<T>(a: multiset<T>, b: multiset<T>, c: multiset<T>, d: multiset<T>, e: multiset<T>)
    requires b + c == d + e
    ensures (a + b) + c == (a + d) + e
  {
    assert (a + b) + c == a + (b + c);
    assert (a + d) + e == a + (d + e);
  }

  lemma {:induction false} NodesUpdate(lists: seq<seq<Block>>, i: nat, s: seq<Block>)
    requires i < |lists|
    ensures Nodes(lists[i := s]) + multiset(lists[i]) == Nodes(lists) + multiset(s)
  {
    var l := lists[i := s];
    assert Nodes(l) == multiset(l[0]) + Nodes(l[1..]);
    assert Nodes(lists) == multiset(lists[0]) + Nodes(lists[1..]);
    if i == 0 {
      assert l[1..] == lists[1..];
    } else {
      assert l[1..] == lists[1..][i - 1 := s];
      NodesUpdate(lists[1..], i - 1, s);
      Shift(multiset(lists[0]), Nodes(l[1..]), multiset(lists[i]), Nodes(lists[1..]), multiset(s));
    }
  }

  /** Conservation: the blocks ever malloc'ed, each exactly once, are what the lists hold. */
  ghost predicate Conserved(p: Pools) {
    Nodes(p.lists) == multiset(p.cls.Keys)
  }

  lemma Grew(p: Pools, b: Block, c: nat, e: MemEntry)
    requires Conserved(p) && Enabled(p, Malloc(b, c, e))
    ensures Conserved(Grown(p, b, c, e))
  {
    var live := p.lists[USED];
    NodesUpdate(p.lists, USED, [b] + live);
    assert multiset([b] + live) == multiset(live) + multiset{b};
    Cancel(Nodes(p.lists[USED := [b] + live]), Nodes(p.lists) + multiset{b}, multiset(live));
    var keys := Grown(p, b, c, e).cls.Keys;
    assert keys == p.cls.Keys + {b};
    assert multiset(keys) == multiset(p.cls.Keys) + multiset{b};
  }

  lemma Cancel<T>(a: multiset<T>, b: multiset<T>, c: multiset<T>)
    requires a + c == b + c
    ensures a == b
  {
    assert (a + c) - c == a && (b + c) - c == b;
  }

  /** A block that leaves list i and joins list j changes no count. */
  lemma NodesMove(lists: seq<seq<Block>>, i: nat, j: nat, s: seq<Block>, t: seq<Block>, b: Block)
    requires i < |lists| && j < |lists| && i != j
    requires multiset(lists[i]) == multiset(s) + multiset{b}
    requires multiset(t) == multiset(lists[j]) + multiset{b}
    ensures Nodes(lists[i := s][j := t]) == Nodes(lists)
  {
    var mid := lists[i := s];
    NodesUpdate(lists, i, s);
    NodesUpdate(mid, j, t);
    var n0, n1, n2 := Nodes(lists), Nodes(mid), Nodes(mid[j := t]);
    var ms, mj, mb := multiset(s), multiset(lists[j]), multiset{b};
    assert n1 + (ms + mb) == n0 + ms && n2 + mj == n1 + (mj + mb);
    assert (n1 + mb) + ms == n1 + (ms + mb);
    Cancel(n1 + mb, n0, ms);
    assert (n1 + mb) + mj == n1 + (mj + mb);
    Cancel(n2, n1 + mb, mj);
  }

  lemma MoveConserves(p: Pools, m: Move)
    requires Conserved(p) && Enabled(p, m)
    ensures Conserved(After(p, m))
  {
    hide Nodes;
    var live := p.lists[USED];
    match m {
      case Malloc(b, c, e) =>
        Grew(p, b, c, e);
      case Reuse(c) =>
        var s := p.lists[c];
        assert s == [s[0]] + s[1..];
        NodesMove(p.lists, c, USED, s[1..], [s[0]] + live, s[0]);
      case Free(k, c) =>
        assert live == live[..k] + [live[k]] + live[k + 1..];
        NodesMove(p.lists, USED, c, live[..k] + live[k + 1..], p.lists[c] + [live[k]], live[k]);
    }
  }

  /** What holds between the start and the end of any run. */
  ghost predicate Keeps(p: Pools, q: Pools) {
    && Conserved(q)
    && |q.malloced| == |p.malloced|
    && (forall b :: b in p.cls ==> b in q.cls && q.cls[b] == p.cls[b])
    && (forall i :: 0 <= i < |p.malloced| ==> p.malloced[i] <= q.malloced[i])
  }

  /** Over every run of alloc and free: no block is lost or duplicated, none changes its class, and
      nothing is ever given back to malloc. */
  lemma {:induction false} RunConserves(p: Pools, ms: seq<Move>, q: Pools)
    requires Conserved(p) && Run(p, ms, q)
    ensures Keeps(p, q)
    decreases |ms|
  {
    hide Conserved;
    if ms != [] {
      MoveConserves(p, ms[0]);
      RunConserves(After(p, ms[0]), ms[1..], q);
    }
  }

  lemma {:induction false} NoNodes(n: nat)
    ensures Nodes(seq(n, _ => [])) == multiset{}
  {
    if n > 0 {
      var empty: seq<seq<Block>> := seq(n, _ => []);
      assert empty[1..] == seq(n - 1, _ => []);
      NoNodes(n - 1);
    }
  }

  lemma InitialConserved(p: Pools)
    requires Initial(p)
    ensures Conserved(p)
  {
    NoNodes(MEM_TYPE_MAX + 1);
  }

  /** How often the run takes a block out of pool c. */
  function Reuses(ms: seq<Move>, c: nat): nat {
    if ms == [] then 0 else (if ms[0] == Reuse(c) then 1 else 0) + Reuses(ms[1..], c)
  }

  /** A freed block waits behind those freed before it: over any run, however frees, mallocs and reuses of
      all classes interleave, it moves up by one place with each reuse of its class and with nothing
      else. */
  lemma {:induction false} WaitsItsTurn(p: Pools, ms: seq<Move>, q: Pools, c: nat, ahead: nat)
    requires Run(p, ms, q) && |p.lists| == MEM_TYPE_MAX + 1 && c < MEM_TYPE_MAX && ahead < |p.lists[c]|
    requires Reuses(ms, c) <= ahead
    ensures |q.lists| == MEM_TYPE_MAX + 1 && ahead - Reuses(ms, c) < |q.lists[c]|
    ensures q.lists[c][ahead - Reuses(ms, c)] == p.lists[c][ahead]
    decreases |ms|
  {
    if ms != [] {
      var r := After(p, ms[0]);
      var ahead' := if ms[0] == Reuse(c) then ahead - 1 else ahead;
      assert ahead' < |r.lists[c]| && r.lists[c][ahead'] == p.lists[c][ahead];
      WaitsItsTurn(r, ms[1..], q, c, ahead');
    }
  }

  /** First freed, first reused: the block with `ahead` others in front of it is the one that comes out at
      the first reuse of the class after `ahead` of them, whatever else happens before. */
  lemma FirstFreedFirstReused(p: Pools, ms: seq<Move>, q: Pools, c: nat, ahead: nat)
    requires Run(p, ms, q) && |p.lists| == MEM_TYPE_MAX + 1 && c < MEM_TYPE_MAX && ahead < |p.lists[c]|
    requires Reuses(ms, c) == ahead && |q.malloced| == MEM_TYPE_MAX
    ensures Enabled(q, Reuse(c)) && |After(q, Reuse(c)).lists| == MEM_TYPE_MAX + 1
    ensures After(q, Reuse(c)).lists[USED] == [p.lists[c][ahead]] + q.lists[USED]
  {
    WaitsItsTurn(p, ms, q, c, ahead);
  }
}
