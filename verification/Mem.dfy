/** The pooled allocator in place: rings of heap nodes, counters, and the blocks' own bytes. */
module Mem {
  import opened Bytes
  import opened List
  import opened MemState
  import opened MemRuns

  method Zero(obj: array<byte>, n: nat)
    requires n <= obj.Length
    modifies obj
    ensures forall k :: 0 <= k < n ==> obj[k] == 0
    ensures forall k :: n <= k < obj.Length ==> obj[k] == old(obj[k])
  {
    var k := 0;
    while k < n
      invariant 0 <= k <= n
      invariant forall j :: 0 <= j < k ==> obj[j] == 0
      invariant forall j :: n <= j < obj.Length ==> obj[j] == old(obj[j])
    {
      obj[k] := 0;
      k := k + 1;
    }
  }

  /** `memcpy(obj, data, |data|)` */
  method Fill(obj: array<byte>, data: seq<byte>)
    requires |data| <= obj.Length
    modifies obj
    ensures obj[..] == data + old(obj[|data|..])
  {
    ghost var tail := obj[|data|..];
    var k := 0;
    while k < |data|
      invariant 0 <= k <= |data| && obj[..k] == data[..k] && obj[|data|..] == tail
    {
      obj[k] := data[k];
      k := k + 1;
    }
    assert obj[..] == obj[..|data|] + obj[|data|..];
  }

  // ---------- the allocator ----------

  class MemPools {
    const heads: seq<Block>       // MemPools[0..MEM_TYPE_MAX], then MEM_USED_LIST
    const stat: array<MemStat>
    ghost const start: Pools
    ghost var p: Pools
    ghost var history: seq<Move>  // every allocation and free so far
    ghost var Repr: set<object>

    ghost predicate Valid()
      reads this, Repr
    {
      && this in Repr && stat in Repr && stat.Length == MEM_TYPE_MAX
      && p.home.Keys <= Repr && p.entries <= Repr && p.bufs.Keys <= Repr
      && Sorted(heads, p)
      && Family(heads, p.lists, p.home)
      && Entries(p)
      && Accounts(stat[..], p)
      && Initial(start) && Run(start, history, p)
    }

    /** Conservation for every execution: whatever was allocated and freed so far, each block ever
        malloc'ed is on exactly one list, exactly once, and in the class it began in. */
    lemma NoBlockLost()
      requires Valid()
      ensures Keeps(start, p)
      ensures forall b :: Nodes(p.lists)[b] == if b in p.cls then 1 else 0
    {
      InitialConserved(start);
      RunConserves(start, history, p);
    }

    /** The blocks handed out and not yet freed, latest first. */
    ghost function Live(): seq<Block>
      requires |p.lists| == MEM_TYPE_MAX + 1
      reads this
    {
      p.lists[USED]
    }

    static method NewHeads() returns (hs: seq<Block>, ghost home: map<Block, nat>)
      ensures |hs| == MEM_TYPE_MAX + 1
      ensures (forall h :: h in hs ==> h in home) && fresh(home.Keys)
      ensures Family(hs, seq(MEM_TYPE_MAX + 1, _ => []), home)
    {
      hs, home := [], map[];
      while |hs| < MEM_TYPE_MAX + 1
        invariant |hs| <= MEM_TYPE_MAX + 1 && fresh(home.Keys)
        invariant Family(hs, seq(|hs|, _ => []), home)
      {
        var head := new ListHead<MemEntry?>(null);
        InitListHead(head);
        home := home[head := |hs|];
        hs := hs + [head];
      }
    }

    /** mem_module_init */
    constructor ()
      ensures Valid() && fresh(Repr)
      ensures Initial(p) && history == []
    {
      var hs;
      ghost var home;
      hs, home := NewHeads();
      heads := hs;
      stat := new MemStat[MEM_TYPE_MAX](_ => MemStat(0, 0));
      p := Pools(seq(MEM_TYPE_MAX + 1, _ => []), seq(MEM_TYPE_MAX, _ => 0), map[], home, {}, map[]);
      start, history := p, [];
      new;
      Repr := {this, stat} + home.Keys;
    }

    /** What a client can see of a block: its bytes (fence included), recorded size and owner. */
    static ghost function Contents(b: Block): (seq<byte>, nat, Option<string>)
      requires b.container != null
      reads b.container, b.container.obj
    {
      (b.container.obj[..], b.container.objSize, b.container.mod)
    }

    /** A block straight from malloc, not yet on any list. */
    static method NewBlock(i: nat, size: nat, mod: Option<string>) returns (b: Block)
      ensures fresh(b) && b.container != null && fresh(b.container) && fresh(b.container.obj)
      ensures b.container.node == b && b.container.refcount == 1 && b.container.objSize == size
      ensures b.container.obj.Length == Cap(i) + 1 && b.container.obj[Cap(i)] == FENCE
      ensures Contents(b) == (seq(Cap(i), _ => 0) + [FENCE], size, mod)
    {
      var me := new MemEntry(Cap(i), size);
      b := new ListHead<MemEntry?>(me);
      me.node := b;
      me.mod := mod;
      Zero(me.obj, Cap(i));
      assert me.obj[..] == seq(Cap(i), _ => 0) + [FENCE];
    }

    /** Every operation ends by adjusting one counter pair; the abstract state follows the move. */
    method Commit(i: nat, s: MemStat, ghost m: Move, ghost more: set<object>)
      requires Initial(start) && Run(start, history, p) && Enabled(p, m)
      requires var q := After(p, m);
               && q.home.Keys <= Repr + more && q.entries <= Repr + more && q.bufs.Keys <= Repr + more
               && this in Repr && stat in Repr && stat.Length == MEM_TYPE_MAX && i < MEM_TYPE_MAX
               && Sorted(heads, q) && Family(heads, q.lists, q.home) && Entries(q) && Accounts(stat[..][i := s], q)
      modifies this, stat
      ensures Valid() && p == After(old(p), m) && history == old(history) + [m] && Repr == old(Repr) + more
      ensures stat[..] == old(stat[..])[i := s]
    {
      hide Sorted, Family, Entries, Accounts, Run, Enabled, After;
      RunExtends(start, history, p, m);
      stat[i] := s;
      p := After(p, m);
      history := history + [m];
      Repr := Repr + more;
    }

    /** All blocks but b keep their entries and their contents. */
    twostate predicate OthersKept(q: Pools, b: Block)
      reads q.entries, q.bufs.Keys
    {
      forall c :: c in q.cls && c != b ==>
        && c.container in q.entries && c.container.obj in q.bufs
        && Entry(c, q.cls[c], Refs(q, c), q.bufs)
        && Contents(c) == old(Contents(c))
    }

    lemma Sizes()
      requires Valid()
      ensures |heads| == |p.lists| == MEM_TYPE_MAX + 1 && |p.malloced| == MEM_TYPE_MAX
      ensures (forall h :: h in heads ==> h in p.home) && (forall b :: b in p.cls ==> b in p.home)
      ensures forall b :: b in p.lists[USED] ==> b in p.cls
    {
    }

    /** The malloc branch of mem_alloc up to the counters. */
    method MallocBlock(i: nat, size: nat, mod: Option<string>) returns (b: Block)
      requires Valid() && i < MEM_TYPE_MAX && SizeClass(size) == i
      modifies p.home.Keys
      ensures fresh(b) && b.container != null && fresh(b.container) && fresh(b.container.obj)
      ensures |p.malloced| == MEM_TYPE_MAX && |p.lists| == MEM_TYPE_MAX + 1
      ensures var q := Grown(p, b, i, b.container); Family(heads, q.lists, q.home) && Entries(q)
      ensures Contents(b) == (seq(Cap(i), _ => 0) + [FENCE], size, mod)
    {
      hide Sorted, Family, Entries, Accounts, Run, Initial;
      Sizes();
      b := NewBlock(i, size, mod);
      GrownEntries(p, b, i);
      AddTo(b, heads[USED], heads, p.lists, p.home, USED);
    }

    lemma GrownFacts(b: Block, i: nat, e: MemEntry)
      requires Sorted(heads, p) && Accounts(stat[..], p) && i < MEM_TYPE_MAX && b !in heads && b !in p.cls
      ensures |p.malloced| == MEM_TYPE_MAX && |p.lists| == MEM_TYPE_MAX + 1
      ensures var q := Grown(p, b, i, e);
              && Sorted(heads, q)
              && Accounts(stat[..][i := stat[i].(blocksUsed := stat[i].blocksUsed + 1)], q)
              && q.home.Keys == p.home.Keys + {b} && q.entries == p.entries + {e}
              && q.bufs.Keys == p.bufs.Keys + {e.obj}
      ensures p.lists[i] == [] ==> Enabled(p, Move.Malloc(b, i, e)) && After(p, Move.Malloc(b, i, e)) == Grown(p, b, i, e)
    {
      GrownSorted(heads, p, b, i, e);
      GrownAccounts(stat[..], p, b, i, e);
    }

    lemma HaveEntries()
      requires Valid()
      ensures forall c :: c in p.cls ==> c.container in p.entries && c.container.obj in p.bufs
    {
    }

    /** The malloc branch of mem_alloc. */
    method Malloc(i: nat, size: nat, mod: Option<string>) returns (b: Block)
      requires Valid() && i < MEM_TYPE_MAX && SizeClass(size) == i && p.lists[i] == []
      modifies Repr
      ensures Valid() && fresh(Repr - old(Repr))
      ensures fresh(b) && b.container != null && p == Grown(old(p), b, i, b.container)
      ensures history == old(history) + [Move.Malloc(b, i, b.container)]
      ensures stat[..] == old(stat[..])[i := MemStat(old(stat[i]).blocksUsed + 1, old(stat[i]).blocksFree)]
      ensures Contents(b) == (seq(Cap(i), _ => 0) + [FENCE], size, mod)
      ensures forall c :: c in old(p.cls) ==> c.container != null && Contents(c) == old(Contents(c))
    {
      hide Sorted, Family, Entries, Entry, Accounts, SizeClass, Cap, Run, Initial;
      HaveEntries();
      Sizes();
      b := MallocBlock(i, size, mod);
      GrownFacts(b, i, b.container);
      Commit(i, stat[i].(blocksUsed := stat[i].blocksUsed + 1), Move.Malloc(b, i, b.container),
             {b, b.container, b.container.obj});
    }

    /** The list part of reuse: the first block of pool i moves to the front of the used list. */
    method Relink(i: nat) returns (b: Block)
      requires Valid() && i < MEM_TYPE_MAX && p.lists[i] != []
      modifies p.home.Keys
      ensures b == p.lists[i][0] && |p.lists| == MEM_TYPE_MAX + 1
      ensures Family(heads, Reused(p, i).lists, Reused(p, i).home)
    {
      hide Ring, Apart, Entries, Accounts, Run, Initial;
      RingStaysHome(heads, p.lists, p.home, i, 0);
      RingStaysHome(heads, p.lists, p.home, i, 1);
      b := heads[i].next;
      DelFrom(b, heads, p.lists, p.home, i, 0);
      ghost var rest := p.lists[i := p.lists[i][1..]];
      assert p.lists[i][..0] + p.lists[i][1..] == p.lists[i][1..];
      AddTo(b, heads[USED], heads, rest, p.home - {b}, USED);
      assert (p.home - {b})[b := USED] == p.home[b := USED];
      assert rest[USED := [b] + rest[USED]] == Reused(p, i).lists;
    }

    /** The block part of reuse: owner set, reference taken, bytes cleared; obj_size is not refreshed. */
    method Revive(b: Block, i: nat, mod: Option<string>)
      requires Entries(p) && b in p.cls && p.cls[b] == i && Refs(p, b) == 0 && b.container != null
      modifies b.container, b.container.obj
      ensures Entry(b, i, 1, p.bufs) && OthersKept(p, b)
      ensures b.container in p.entries && b.container.obj in p.bufs
      ensures Contents(b) == (seq(Cap(i), _ => 0) + [FENCE], old(b.container.objSize), mod)
    {
      var me := b.container;
      me.mod := mod;
      me.refcount := me.refcount + 1;
      assert me.refcount == 1;
      Zero(me.obj, Cap(i));
      assert me.obj[..] == seq(Cap(i), _ => 0) + [FENCE];
    }

    /** The reuse branch of mem_alloc up to the counters. */
    method ReuseBlock(i: nat, mod: Option<string>) returns (b: Block)
      requires Valid() && i < MEM_TYPE_MAX && p.lists[i] != []
      modifies p.home.Keys, p.entries, p.bufs.Keys
      ensures |p.lists| == MEM_TYPE_MAX + 1 && b == p.lists[i][0]
      ensures Family(heads, Reused(p, i).lists, Reused(p, i).home) && Entries(Reused(p, i))
      ensures b.container != null && Contents(b) == (seq(Cap(i), _ => 0) + [FENCE], old(b.container.objSize), mod)
      ensures OthersKept(p, b)
    {
      hide Sorted, Family, Accounts, Entry, Run, Initial;
      ListedAtHome(heads, p, i, 0);
      b := Relink(i);
      Revive(b, i, mod);
      MovedEntries(p, Reused(p, i), b);
    }

    lemma ReusedFacts(i: nat)
      requires Valid() && i < MEM_TYPE_MAX && p.lists[i] != []
      ensures |p.lists| == MEM_TYPE_MAX + 1
      ensures Sorted(heads, Reused(p, i)) && Reused(p, i).home.Keys == p.home.Keys
      ensures Accounts(stat[..][i := MemStat(stat[i].blocksUsed + 1, stat[i].blocksFree - 1)], Reused(p, i))
      ensures Enabled(p, Move.Reuse(i)) && After(p, Move.Reuse(i)) == Reused(p, i)
    {
      hide Run;
      ListedAtHome(heads, p, i, 0);
      ReusedSorted(heads, p, i);
      ReusedAccounts(stat[..], p, i);
    }

    /** The reuse branch of mem_alloc. */
    method Reuse(i: nat, mod: Option<string>) returns (b: Block)
      requires Valid() && i < MEM_TYPE_MAX && p.lists[i] != []
      modifies Repr
      ensures Valid() && Repr == old(Repr) && b == old(p.lists[i][0]) && p == Reused(old(p), i)
      ensures history == old(history) + [Move.Reuse(i)]
      ensures stat[..] == old(stat[..])[i := MemStat(old(stat[i]).blocksUsed + 1, old(stat[i]).blocksFree - 1)]
      ensures b.container != null && Contents(b) == (seq(Cap(i), _ => 0) + [FENCE], old(b.container.objSize), mod)
      ensures forall c :: c in p.cls && c != b ==> c.container != null && Contents(c) == old(Contents(c))
    {
      hide Sorted, Family, Accounts, Entries, Entry, Apart, Cap, Refs, Run, Initial;
      ReusedFacts(i);
      b := ReuseBlock(i, mod);
      Commit(i, MemStat(stat[i].blocksUsed + 1, stat[i].blocksFree - 1), Move.Reuse(i), {});
    }

    lemma LiveEntries()
      requires Valid()
      ensures forall b :: b in Live() ==> b in p.cls && b.container != null
    {
    }

    lemma AllocFacts(i: nat)
      requires Valid() && i <= USED
      ensures |heads| == |p.lists| == MEM_TYPE_MAX + 1 && Ring(heads[i], p.lists[i])
      ensures i != USED ==> forall b :: b in p.lists[i] ==> b !in p.lists[USED] && b in p.cls && p.cls[b] == i
      ensures forall b :: b in p.lists[USED] ==> b in p.cls
    {
      if i != USED {
        forall b | b in p.lists[i] ensures b !in p.lists[USED] {
          assert p.home[b] == i;
        }
      }
    }

    /** mem_alloc */
    method Alloc(size: nat, mod: Option<string>) returns (b: Block)
      requires Valid() && size <= MAX_EXT_MEM_BLOCK
      modifies Repr
      ensures Valid() && fresh(Repr - old(Repr))
      ensures b.container != null && b !in old(Live())
      ensures |p.lists| == 18 && Live() == [b] + old(Live())
      ensures size <= Cap(SizeClass(size)) && SizeClass(size) < MEM_TYPE_MAX
      ensures var room := b.container.obj.Length - 1;
              size <= room && (if size <= 16 then room == 16 else room < 2 * size) && b.container.obj[room] == 0xf
      ensures b in p.cls && p.cls[b] == SizeClass(size)
      ensures if old(p.lists[SizeClass(size)]) == []
              then
                && fresh(b) && p == Grown(old(p), b, SizeClass(size), b.container) && b.container.objSize == size
                && history == old(history) + [Move.Malloc(b, SizeClass(size), b.container)]
              else
                && b == old(p.lists[SizeClass(size)][0]) && p == Reused(old(p), SizeClass(size))
                && b.container.objSize == old(b.container.objSize) && history == old(history) + [Move.Reuse(SizeClass(size))]
      ensures b.container.obj[..] == seq(Cap(SizeClass(size)), _ => 0) + [FENCE] && b.container.mod == mod
      ensures var i, recycled := SizeClass(size), if old(p.lists[SizeClass(size)]) == [] then 0 else 1;
              stat[..] == old(stat[..])[i := MemStat(old(stat[i]).blocksUsed + 1, old(stat[i]).blocksFree - recycled)]
      ensures forall c :: c in old(p.cls) && c != b ==> c.container != null && Contents(c) == old(Contents(c))
    {
      hide Sorted, Family, Accounts, Entries, Entry, SizeClass, Cap, Run, Initial;
      SizeClassExact(size);
      TightFit(size);
      var i := FindClass(size);
      assert i < MEM_TYPE_MAX;
      AllocFacts(i);
      var empty := IsEmpty(heads[i], p.lists[i]);
      if empty {
        b := Malloc(i, size, mod);
      } else {
        b := Reuse(i, mod);
      }
      ghost var bytes := b.container.obj[..];
      assert bytes == seq(Cap(i), _ => 0) + [FENCE];
      assert |bytes| == Cap(i) + 1 && bytes[Cap(i)] == FENCE;
    }

    /** No block is live twice, and no two blocks share their bytes. */
    lemma BlocksDisjoint(j: nat, k: nat)
      requires Valid() && j < k < |Live()|
      ensures Live()[j] != Live()[k]
      ensures Live()[j].container != null && Live()[k].container != null
      ensures Live()[j].container != Live()[k].container && Live()[j].container.obj != Live()[k].container.obj
    {
      hide Sorted, Accounts, Cap, SizeClass, Run, Initial;
      LiveEntries();
      AllocFacts(USED);
      RingDistinct(heads[USED], Live());
      var b, c := Live()[j], Live()[k];
      assert Entry(b, p.cls[b], Refs(p, b), p.bufs) && Entry(c, p.cls[c], Refs(p, c), p.bufs);
    }

    /** The checks of mem_free: the fence is intact and the last reference goes. */
    method Release(b: Block, i: nat)
      requires Entries(p) && b in p.cls && p.cls[b] == i && Refs(p, b) == 1 && b.container != null
      modifies b.container
      ensures Entry(b, i, 0, p.bufs) && OthersKept(p, b) && Contents(b) == old(Contents(b))
      ensures b.container in p.entries && b.container.obj in p.bufs
    {
      var me := b.container;
      assert me.obj[Cap(i)] == FENCE;
      me.refcount := me.refcount - 1;
      assert me.refcount == 0;
    }

    /** The list part of mem_free: block k of the used list goes to the end of pool i. */
    method Unlink(b: Block, i: nat, ghost k: nat)
      requires Valid() && k < |Live()| && Live()[k] == b && i < MEM_TYPE_MAX
      modifies p.home.Keys
      ensures |p.lists| == MEM_TYPE_MAX + 1
      ensures Family(heads, Freed(p, k, i).lists, Freed(p, k, i).home)
    {
      hide Ring, Apart, Entries, Accounts, Run, Initial;
      ghost var live := p.lists[USED];
      DelFrom(b, heads, p.lists, p.home, USED, k);
      ghost var rest := p.lists[USED := live[..k] + live[k + 1..]];
      AddTailTo(b, heads[i], heads, rest, p.home - {b}, i);
      assert (p.home - {b})[b := i] == p.home[b := i];
      assert rest[i := rest[i] + [b]] == Freed(p, k, i).lists;
    }

    lemma LiveFacts(k: nat)
      requires Valid() && k < |Live()|
      ensures |heads| == |p.lists| == MEM_TYPE_MAX + 1
      ensures var b := Live()[k];
              && b in p.cls && p.cls[b] < MEM_TYPE_MAX && Refs(p, b) == 1
              && b.container in p.entries && b.container.obj in p.bufs && SizeClass(b.container.objSize) == p.cls[b]
    {
      ListedAtHome(heads, p, USED, k);
    }

    lemma FreedFacts(k: nat, i: nat)
      requires Valid() && k < |Live()| && Live()[k] in p.cls && p.cls[Live()[k]] == i < MEM_TYPE_MAX
      ensures Sorted(heads, Freed(p, k, i)) && Freed(p, k, i).home.Keys == p.home.Keys
      ensures Refs(Freed(p, k, i), Live()[k]) == 0
      ensures Accounts(stat[..][i := MemStat(stat[i].blocksUsed - 1, stat[i].blocksFree + 1)], Freed(p, k, i))
      ensures Enabled(p, Move.Free(k, i)) && After(p, Move.Free(k, i)) == Freed(p, k, i)
    {
      hide Run;
      ListedAtHome(heads, p, USED, k);
      FreedSorted(heads, p, k, i);
      FreedAccounts(stat[..], p, k, i);
    }

    /** mem_free up to the counters. */
    method FreeBlock(b: Block, i: nat, ghost k: nat)
      requires Valid() && k < |Live()| && Live()[k] == b && b in p.cls && p.cls[b] == i < MEM_TYPE_MAX
      modifies p.home.Keys, p.entries
      ensures Family(heads, Freed(p, k, i).lists, Freed(p, k, i).home) && Entries(Freed(p, k, i))
      ensures forall c :: c in p.cls ==> c.container in p.entries && Contents(c) == old(Contents(c))
    {
      hide Sorted, Family, Accounts, Entry, SizeClass, Run, Initial;
      LiveFacts(k);
      FreedFacts(k, i);
      Unlink(b, i, k);
      Release(b, i);
      MovedEntries(p, Freed(p, k, i), b);
    }

    /** mem_free of the block at place k of the used list.  The class is found from obj_size, which a
        reused block keeps from its first owner. */
    method Free(b: Block, ghost k: nat)
      requires Valid() && k < |Live()| && Live()[k] == b
      modifies Repr
      ensures Valid() && Repr == old(Repr)
      ensures b.container != null && SizeClass(b.container.objSize) < MEM_TYPE_MAX
      ensures b in p.cls && p.cls[b] == SizeClass(b.container.objSize)
      ensures p == Freed(old(p), k, SizeClass(b.container.objSize))
      ensures |p.lists| == 18 && Live() == old(Live()[..k] + Live()[k + 1..])
      ensures var i := SizeClass(b.container.objSize); p.lists[i] == old(p.lists)[i] + [b]
      ensures history == old(history) + [Move.Free(k, SizeClass(b.container.objSize))]
      ensures var i := SizeClass(b.container.objSize);
              stat[..] == old(stat[..])[i := MemStat(old(stat[i]).blocksUsed - 1, old(stat[i]).blocksFree + 1)]
      ensures forall c :: c in p.cls ==> c.container != null && Contents(c) == old(Contents(c))
    {
      hide Sorted, Family, Accounts, Entries, SizeClass, Refs, Run, Initial;
      LiveFacts(k);
      var i := FindClass(b.container.objSize);
      FreedFacts(k, i);
      FreeBlock(b, i, k);
      Commit(i, MemStat(stat[i].blocksUsed - 1, stat[i].blocksFree + 1), Move.Free(k, i), {});
    }

    /** A client writing inside the capacity of a block it holds; the fence is behind that. */
    method ClientWrite(b: Block, at: nat, v: byte, ghost k: nat)
      requires Valid() && k < |Live()| && Live()[k] == b && b in p.cls && b.container != null
      requires at < Cap(p.cls[b]) && at < b.container.obj.Length
      modifies b.container.obj
      ensures Valid()
      ensures b.container.obj[..] == old(b.container.obj[..])[at := v]
      ensures forall c :: c in p.cls && c != b ==> c.container != null && Contents(c) == old(Contents(c))
    {
      hide Sorted, Family, Accounts, Run, Initial;
      b.container.obj[at] := v;
    }

    /** A client filling the front of a block it holds. */
    method ClientFill(b: Block, data: seq<byte>, ghost k: nat)
      requires Valid() && k < |Live()| && Live()[k] == b && b in p.cls && b.container != null
      requires |data| <= Cap(p.cls[b]) && |data| <= b.container.obj.Length
      modifies b.container.obj
      ensures Valid()
      ensures b.container.obj[..] == data + old(b.container.obj[|data|..])
      ensures forall c :: c in p.cls && c != b ==> c.container != null && Contents(c) == old(Contents(c))
    {
      hide Sorted, Family, Accounts, Run, Initial;
      Fill(b.container.obj, data);
    }

    /** A new block whose front is filled. */
    method AllocFilled(data: seq<byte>, size: nat, mod: Option<string>) returns (n: Block)
      requires Valid() && |data| <= size <= MAX_EXT_MEM_BLOCK
      modifies Repr
      ensures Valid() && fresh(Repr - old(Repr)) && n.container != null && n !in old(Live())
      ensures size < n.container.obj.Length == Cap(SizeClass(size)) + 1
      ensures n.container.obj[..|data|] == data
      ensures |p.lists| == 18 && Live() == [n] + old(Live())
      ensures old(p.cls).Keys <= p.cls.Keys
      ensures forall c :: c in old(p.cls) && c != n ==> c.container != null && Contents(c) == old(Contents(c))
    {
      hide Sorted, Family, Accounts, Entries, Run, Initial, Cap, SizeClass;
      Sizes();
      n := Alloc(size, mod);
      assert n.container.obj[..] == seq(Cap(SizeClass(size)), _ => 0) + [FENCE];
      HaveEntries();
      ClientFill(n, data, 0);
    }

    /** The steps of buf_realloc on the pools: a block of the larger size, the queue copied to its front,
        the old block freed.  Nobody else's block changes. */
    method Regrow(b: Block, used: nat, size: nat, mod: Option<string>, ghost k: nat) returns (n: Block)
      requires Valid() && k < |Live()| && Live()[k] == b && b.container != null
      requires used <= b.container.obj.Length && used <= size <= MAX_EXT_MEM_BLOCK
      modifies Repr
      ensures Valid() && fresh(Repr - old(Repr)) && n.container != null && n != b
      ensures size < n.container.obj.Length == Cap(SizeClass(size)) + 1
      ensures n.container.obj[..used] == old(b.container.obj[..used])
      ensures Live() == [n] + old(Live()[..k] + Live()[k + 1..])
      ensures forall c :: c in old(p.cls) && c != n ==> c.container != null && Contents(c) == old(Contents(c))
    {
      hide Sorted, Family, Accounts, Entries, Run, Initial, Cap, SizeClass;
      Sizes();
      ghost var live := Live();
      var data := b.container.obj[..used];
      n := AllocFilled(data, size, mod);
      assert Live()[k + 1] == live[k];
      LiveEntries();
      ghost var bytes := n.container.obj[..];
      Free(b, k + 1);
      assert n.container.obj[..] == bytes;
      assert Live() == [n] + (live[..k] + live[k + 1..]);
    }

    static ghost predicate Owns(b: Block, name: string)
      reads b.container
    {
      b.container != null && b.container.mod == Some(name)
    }

    /** The blocks of the list that carry the name. */
    static ghost function OwnedBy(s: seq<Block>, name: string): set<Block>
      reads set b | b in s && b.container != null :: b.container
    {
      set b | b in s && Owns(b, name)
    }

    /** What the walk reports as the size: the first size other than 0 among the owner's blocks, in list
        order, unless the caller passed one in; 0 when there is none. */
    static ghost predicate SizeReported(s: seq<Block>, name: string, given: nat, reported: nat)
      reads set b | b in s && b.container != null :: b.container
    {
      if given != 0 then reported == given
      else if reported == 0 then forall j :: 0 <= j < |s| && Owns(s[j], name) ==> s[j].container.objSize == 0
      else
        exists k :: 0 <= k < |s| && Owns(s[k], name) && s[k].container.objSize == reported
                    && forall j :: 0 <= j < k && Owns(s[j], name) ==> s[j].container.objSize == 0
    }

    /** mem_check_mod_count: counts the live blocks of the named owner; NULL owns nothing. */
    method CheckModCount(mod: Option<string>, objsize: nat) returns (count: nat, objsize': nat)
      requires Valid()
      ensures mod.None? ==> count == 0 && objsize' == objsize
      ensures mod.Some? ==> count == |OwnedBy(Live(), mod.value)| && SizeReported(Live(), mod.value, objsize, objsize')
    {
      count, objsize' := 0, objsize;
      if mod.None? {
        return;
      }
      ghost var live, k := Live(), 0;
      HaveEntries();
      AllocFacts(USED);
      LiveEntries();
      RingDistinct(heads[USED], live);
      hide Sorted, Entries, Accounts, Run, Initial;
      assert Linked(Cycle(heads[USED], live)[0], Cycle(heads[USED], live)[1]);
      var cursor := heads[USED].next;
      while cursor != heads[USED]
        invariant k <= |live| && cursor == Cycle(heads[USED], live)[k + 1]
        invariant count == |OwnedBy(live[..k], mod.value)|
        invariant SizeReported(live[..k], mod.value, objsize, objsize')
        decreases |live| - k
      {
        assert cursor == live[k];
        var q := cursor.container;
        ghost var sz := objsize';
        if q.mod == mod {
          if objsize' == 0 {
            objsize' := q.objSize;
          }
          count := count + 1;
        }
        OneMoreOwned(live, k, mod.value, objsize, sz);
        assert Linked(Cycle(heads[USED], live)[k + 1], Cycle(heads[USED], live)[k + 2]);
        cursor, k := cursor.next, k + 1;
      }
      assert live[..k] == live;
    }

    static lemma OneMoreOwned(s: seq<Block>, k: nat, name: string, given: nat, sz: nat)
      requires k < |s| && Distinct(s) && s[k].container != null && SizeReported(s[..k], name, given, sz)
      ensures var e := s[k].container;
              if e.mod == Some(name) then
                && |OwnedBy(s[..k + 1], name)| == |OwnedBy(s[..k], name)| + 1
                && SizeReported(s[..k + 1], name, given, if sz == 0 then e.objSize else sz)
              else OwnedBy(s[..k + 1], name) == OwnedBy(s[..k], name) && SizeReported(s[..k + 1], name, given, sz)
    {
      hide Distinct, OwnedBy, SizeReported;
      OwnedGrows(s, k, name);
      assert s[..k + 1] == s[..k] + [s[k]];
      if sz == 0 && Owns(s[k], name) {
        SizeFound(s[..k], s[k], name, given);
      } else {
        SizeKept(s[..k], s[k], name, given, sz);
      }
    }

    static lemma SizeFound(s: seq<Block>, b: Block, name: string, given: nat)
      requires Owns(b, name) && SizeReported(s, name, given, 0)
      ensures SizeReported(s + [b], name, given, b.container.objSize)
    {
      var t := s + [b];
      assert Owns(t[|s|], name);
    }

    static lemma SizeKept(s: seq<Block>, b: Block, name: string, given: nat, sz: nat)
      requires SizeReported(s, name, given, sz) && b.container != null && (sz != 0 || !Owns(b, name))
      ensures SizeReported(s + [b], name, given, sz)
    {
      var t := s + [b];
      if given == 0 && sz != 0 {
        var j :| 0 <= j < |s| && Owns(s[j], name) && s[j].container.objSize == sz
                 && forall i :: 0 <= i < j && Owns(s[i], name) ==> s[i].container.objSize == 0;
        assert Owns(t[j], name);
      }
    }

    static lemma OwnedGrows(s: seq<Block>, k: nat, name: string)
      requires k < |s| && Distinct(s)
      ensures s[k] !in OwnedBy(s[..k], name)
      ensures OwnedBy(s[..k + 1], name) == OwnedBy(s[..k], name) + if Owns(s[k], name) then {s[k]} else {}
    {
      assert s[..k + 1] == s[..k] + [s[k]];
    }
  }
}
