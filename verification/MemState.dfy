/** The state of the pooled allocator, over values: size classes, blocks, seventeen power-of-two free
    lists and a list of live blocks, and the three moves between states. */
module MemState {
  import opened Bytes
  import opened List

  const MEM_TYPE_MAX: nat := 17
  const MAX_EXT_MEM_BLOCK: nat := 0x10_0000
  const FENCE: byte := 0xf
  const USED: nat := MEM_TYPE_MAX

  /** `1 << (i + 4)` */
  function Cap(i: nat): (c: nat)
    ensures 16 <= c
  {
    if i == 0 then 16 else 2 * Cap(i - 1)
  }

  lemma {:induction false} CapGrows(i: nat, j: nat)
    requires i <= j
    ensures Cap(i) <= Cap(j)
  {
    if i < j {
      CapGrows(i, j - 1);
    }
  }

  lemma LargestCap()
    ensures Cap(MEM_TYPE_MAX - 1) == MAX_EXT_MEM_BLOCK
  {
    assert Cap(4) == 256;
    assert Cap(8) == 4096;
    assert Cap(12) == 65536;
    assert Cap(16) == 1048576;
  }

  /** The smallest class at or after i that holds `size` bytes, or MEM_TYPE_MAX. */
  function FirstFit(size: nat, i: nat): nat
    requires i <= MEM_TYPE_MAX
    decreases MEM_TYPE_MAX - i
  {
    if i == MEM_TYPE_MAX || size <= Cap(i) then i else FirstFit(size, i + 1)
  }

  function SizeClass(size: nat): nat {
    FirstFit(size, 0)
  }

  /** The class search stops at the least class that fits; it fails only above one megabyte. */
  lemma {:induction false} FirstFitLeast(size: nat, i: nat)
    requires i <= MEM_TYPE_MAX
    ensures var c := FirstFit(size, i);
            && i <= c <= MEM_TYPE_MAX
            && (c < MEM_TYPE_MAX ==> size <= Cap(c))
            && (forall j :: i <= j < c ==> Cap(j) < size)
    decreases MEM_TYPE_MAX - i
  {
    hide Cap;
    if i < MEM_TYPE_MAX && Cap(i) < size {
      FirstFitLeast(size, i + 1);
    }
  }

  lemma SizeClassExact(size: nat)
    ensures SizeClass(size) < MEM_TYPE_MAX <==> size <= MAX_EXT_MEM_BLOCK
    ensures SizeClass(size) < MEM_TYPE_MAX ==> size <= Cap(SizeClass(size))
  {
    FirstFitLeast(size, 0);
    LargestCap();
    var c := SizeClass(size);
    if c < MEM_TYPE_MAX {
      CapGrows(c, MEM_TYPE_MAX - 1);
    }
  }

  /** The seventeen capacities. */
  lemma Capacities(i: nat)
    requires i < MEM_TYPE_MAX
    ensures i < 17 && MEM_TYPE_MAX == 17
    ensures Cap(i) == [16, 32, 64, 128, 256, 512, 1024, 2048, 4096, 8192, 16384, 32768, 65536,
                       131072, 262144, 524288, 1048576][i]
  {
    assert Cap(4) == 256;
    assert Cap(8) == 4096;
    assert Cap(12) == 65536;
    assert Cap(16) == 1048576;
  }

  /** No request up to a megabyte gets twice as much as it asks for, except that 16 is the least there is. */
  lemma TightFit(size: nat)
    requires size <= 1048576
    ensures var cap := Cap(SizeClass(size));
            && SizeClass(size) < 17 && size <= cap && (if size <= 16 then cap == 16 else cap < 2 * size)
  {
    hide FirstFit;
    SizeClassExact(size);
    FirstFitLeast(size, 0);
    var c := SizeClass(size);
    if 1 <= c {
      assert Cap(c - 1) < size && Cap(c) == 2 * Cap(c - 1);
    }
  }

  /** The class loop shared by mem_alloc and mem_free. */
  method FindClass(size: nat) returns (i: nat)
    ensures i == SizeClass(size)
  {
    i := 0;
    while i < MEM_TYPE_MAX
      invariant i <= MEM_TYPE_MAX && FirstFit(size, i) == SizeClass(size)
    {
      if size <= Cap(i) {
        break;
      }
      i := i + 1;
    }
  }

  // ---------- blocks ----------

  /** mem_entry_t without its list node: the bookkeeping fields and the client bytes with the fence
      behind them. */
  class MemEntry {
    var objSize: nat
    var refcount: int
    var mod: Option<string>
    const obj: array<byte>
    ghost var node: ListHead?<MemEntry?>

    constructor (cap: nat, size: nat)
      ensures obj.Length == cap + 1 && fresh(obj) && obj[cap] == FENCE
      ensures objSize == size && refcount == 1
    {
      obj := new byte[cap + 1];
      objSize, refcount, mod, node := size, 1, None, null;
      new;
      obj[cap] := FENCE;
    }
  }

  type Block = ListHead<MemEntry?>

  datatype MemStat = MemStat(blocksUsed: int, blocksFree: int)

  /** How many blocks of the list belong to class i. */
  ghost function CountClass(s: seq<Block>, cls: map<Block, nat>, i: nat): nat {
    if s == [] then 0
    else CountClass(s[1..], cls, i) + if s[0] in cls && cls[s[0]] == i then 1 else 0
  }

  lemma {:induction false} CountRemove(s: seq<Block>, k: nat, cls: map<Block, nat>, i: nat)
    requires k < |s|
    ensures CountClass(s, cls, i)
         == CountClass(s[..k] + s[k + 1..], cls, i) + if s[k] in cls && cls[s[k]] == i then 1 else 0
  {
    var t := s[..k] + s[k + 1..];
    if k == 0 {
      assert t == s[1..];
    } else {
      CountRemove(s[1..], k - 1, cls, i);
      assert t[1..] == s[1..][..k - 1] + s[1..][k..];
    }
  }

  lemma {:induction false} CountSame(s: seq<Block>, cls: map<Block, nat>, cls': map<Block, nat>, i: nat)
    requires forall k :: 0 <= k < |s| ==> s[k] in cls && s[k] in cls' && cls[s[k]] == cls'[s[k]]
    ensures CountClass(s, cls, i) == CountClass(s, cls', i)
  {
    if s != [] {
      CountSame(s[1..], cls, cls', i);
    }
  }

  // ---------- the abstract pools ----------

  /** The lists (pool 0 .. pool 16, used list), the number of mallocs per class, and for every block its
      class, the list it is on, and the owner of its bytes. */
  datatype Pools = Pools(lists: seq<seq<Block>>, malloced: seq<nat>,
                         cls: map<Block, nat>, home: map<Block, nat>,
                         entries: set<MemEntry>, bufs: map<array<byte>, Block>)

  /** Heads are no blocks, every block has a class, and pool i only holds blocks of class i. */
  ghost predicate Sorted(heads: seq<Block>, p: Pools) {
    && |heads| == |p.lists| == MEM_TYPE_MAX + 1
    && (forall h :: h in heads ==> h !in p.cls)
    && (forall b :: b in p.cls ==> p.cls[b] < MEM_TYPE_MAX && b in p.home)
    && (forall i, b :: 0 <= i <= USED && b in p.lists[i] ==> b in p.cls && (i != USED ==> p.cls[b] == i))
  }

  /** blocks_free and blocks_used count the lists; together they account for every malloc. */
  ghost predicate Accounts(stat: seq<MemStat>, p: Pools) {
    && |p.lists| == MEM_TYPE_MAX + 1 && |p.malloced| == |stat| == MEM_TYPE_MAX
    && forall i :: 0 <= i < MEM_TYPE_MAX ==>
         && stat[i].blocksFree == |p.lists[i]|
         && stat[i].blocksUsed == CountClass(p.lists[USED], p.cls, i)
         && p.malloced[i] == stat[i].blocksUsed + stat[i].blocksFree
  }

  /** The entry of a block of class c: fence in place, class recoverable from obj_size. */
  ghost predicate Entry(b: Block, c: nat, refs: int, bufs: map<array<byte>, Block>)
    reads b.container, if b.container == null then {} else {b.container.obj}
  {
    var e := b.container;
    && e != null && e.node == b
    && e.obj in bufs && bufs[e.obj] == b
    && e.obj.Length == Cap(c) + 1 && e.obj[Cap(c)] == FENCE
    && SizeClass(e.objSize) == c
    && e.refcount == refs
  }

  /** Live blocks hold one reference, pooled blocks none. */
  ghost function Refs(p: Pools, b: Block): int {
    if b in p.home && p.home[b] == USED then 1 else 0
  }

  ghost predicate Entries(p: Pools)
    reads p.entries, p.bufs.Keys
  {
    forall b :: b in p.cls ==>
      b.container in p.entries && b.container.obj in p.bufs && Entry(b, p.cls[b], Refs(p, b), p.bufs)
  }

  // ---------- the three moves ----------

  /** A block from malloc joins class i and goes to the front of the used list. */
  ghost function Grown(p: Pools, b: Block, i: nat, e: MemEntry): Pools
    requires |p.lists| == MEM_TYPE_MAX + 1 && i < |p.malloced|
  {
    Pools(p.lists[USED := [b] + p.lists[USED]], p.malloced[i := p.malloced[i] + 1],
          p.cls[b := i], p.home[b := USED], p.entries + {e}, p.bufs[e.obj := b])
  }

  /** The first block of pool i goes to the front of the used list. */
  ghost function Reused(p: Pools, i: nat): Pools
    requires |p.lists| == MEM_TYPE_MAX + 1 && i < MEM_TYPE_MAX && p.lists[i] != []
  {
    var b := p.lists[i][0];
    p.(lists := p.lists[i := p.lists[i][1..]][USED := [b] + p.lists[USED]], home := p.home[b := USED])
  }

  /** Block k of the used list goes to the end of pool i. */
  ghost function Freed(p: Pools, k: nat, i: nat): Pools
    requires |p.lists| == MEM_TYPE_MAX + 1 && k < |p.lists[USED]| && i < MEM_TYPE_MAX
  {
    var live := p.lists[USED];
    var b := live[k];
    p.(lists := p.lists[USED := live[..k] + live[k + 1..]][i := p.lists[i] + [b]], home := p.home[b := i])
  }

  lemma GrownSorted(heads: seq<Block>, p: Pools, b: Block, i: nat, e: MemEntry)
    requires Sorted(heads, p) && b !in heads && b !in p.cls && i < MEM_TYPE_MAX && |p.malloced| == MEM_TYPE_MAX
    ensures Sorted(heads, Grown(p, b, i, e))
  {
  }

  lemma ReusedSorted(heads: seq<Block>, p: Pools, i: nat)
    requires Sorted(heads, p) && i < MEM_TYPE_MAX && p.lists[i] != []
    ensures Sorted(heads, Reused(p, i))
  {
  }

  lemma FreedSorted(heads: seq<Block>, p: Pools, k: nat, i: nat)
    requires Sorted(heads, p) && k < |p.lists[USED]| && i < MEM_TYPE_MAX
    requires p.lists[USED][k] in p.cls && p.cls[p.lists[USED][k]] == i
    ensures Sorted(heads, Freed(p, k, i))
  {
  }

  lemma GrownAccounts(stat: seq<MemStat>, p: Pools, b: Block, i: nat, e: MemEntry)
    requires Accounts(stat, p) && i < MEM_TYPE_MAX
    requires b !in p.cls && forall c :: c in p.lists[USED] ==> c in p.cls
    ensures Accounts(stat[i := stat[i].(blocksUsed := stat[i].blocksUsed + 1)], Grown(p, b, i, e))
  {
    var live := p.lists[USED];
    assert ([b] + live)[1..] == live;
    forall j | 0 <= j < MEM_TYPE_MAX
      ensures CountClass([b] + live, p.cls[b := i], j) == CountClass(live, p.cls, j) + if i == j then 1 else 0
    {
      CountSame(live, p.cls, p.cls[b := i], j);
    }
  }

  lemma ReusedAccounts(stat: seq<MemStat>, p: Pools, i: nat)
    requires Accounts(stat, p) && i < MEM_TYPE_MAX && p.lists[i] != []
    requires p.lists[i][0] in p.cls && p.cls[p.lists[i][0]] == i
    ensures Accounts(stat[i := MemStat(stat[i].blocksUsed + 1, stat[i].blocksFree - 1)], Reused(p, i))
  {
    var b := p.lists[i][0];
    assert ([b] + p.lists[USED])[1..] == p.lists[USED];
  }

  lemma FreedAccounts(stat: seq<MemStat>, p: Pools, k: nat, i: nat)
    requires Accounts(stat, p) && k < |p.lists[USED]| && i < MEM_TYPE_MAX
    requires p.lists[USED][k] in p.cls && p.cls[p.lists[USED][k]] == i
    ensures Accounts(stat[i := MemStat(stat[i].blocksUsed - 1, stat[i].blocksFree + 1)], Freed(p, k, i))
  {
    forall j | 0 <= j < MEM_TYPE_MAX {
      CountRemove(p.lists[USED], k, p.cls, j);
    }
  }

  lemma GrownEntries(p: Pools, b: Block, i: nat)
    requires Entries(p) && b !in p.cls && b.container != null && b.container.obj !in p.bufs
    requires |p.lists| == MEM_TYPE_MAX + 1 && i < |p.malloced|
    requires Entry(b, i, 1, p.bufs[b.container.obj := b])
    ensures Entries(Grown(p, b, i, b.container))
  {
    var q := Grown(p, b, i, b.container);
    forall a | a in q.cls ensures a.container in q.entries && a.container.obj in q.bufs && Entry(a, q.cls[a], Refs(q, a), q.bufs) {
      if a != b {
        assert Entry(a, p.cls[a], Refs(p, a), p.bufs);
      }
    }
  }

  lemma MovedEntries(p: Pools, q: Pools, b: Block)
    requires b in p.cls && b in q.home && q == p.(lists := q.lists, home := p.home[b := q.home[b]])
    requires b.container in p.entries && b.container.obj in p.bufs
    requires Entry(b, p.cls[b], Refs(q, b), p.bufs)
    requires forall c :: c in p.cls && c != b ==>
               c.container in p.entries && c.container.obj in p.bufs && Entry(c, p.cls[c], Refs(p, c), p.bufs)
    ensures Entries(q)
  {
    forall c | c in q.cls ensures Entry(c, q.cls[c], Refs(q, c), q.bufs) {
      if c != b {
        assert Refs(q, c) == Refs(p, c);
      }
    }
  }

  /** A listed block sits on its home list. */
  lemma ListedAtHome(heads: seq<Block>, p: Pools, i: nat, k: nat)
    requires Sorted(heads, p) && Family(heads, p.lists, p.home) && i <= USED && k < |p.lists[i]|
    ensures var b := p.lists[i][k];
            && b in p.cls && b in p.home && p.home[b] == i && (i != USED ==> p.cls[b] == i)
            && Refs(p, b) == if i == USED then 1 else 0
  {
    assert p.lists[i][k] in p.lists[i];
  }
}
