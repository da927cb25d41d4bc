/** The block format in plain numbers: the bytes an instruction is written as, the instruction a few
    bytes are read as, and whole decoder runs, all without the functions that write and read. */
module FastlzLayout {
  import opened Bytes
  import opened LZ
  import opened FastlzFormat

  // ---------- what is written ----------

  /** What has a code: runs of 1 to 32 literals; matches of 3 to 264 bytes up to 8192 back at level 1, of any
      32-bit length up to 73727 back at level 2. */
  lemma Codes(level: Level, o: Op)
    ensures Encodable(level, o) <==>
              match o
              case Literal(bytes) => 1 <= |bytes| <= 32
              case Match(d, n) =>
                if level.One? then 1 <= d <= 8192 && 3 <= n <= 264 else 1 <= d <= 73727 && 3 <= n <= 0x7fff_ffff
  {
  }

  /** A literal run: its length less one, then its bytes. */
  lemma LiteralLayout(level: Level, bytes: seq<byte>)
    requires 1 <= |bytes| <= 32
    ensures var s := EncodeOp(level, Literal(bytes)); |s| == |bytes| + 1 && s[0] == |bytes| - 1 && s[1..] == bytes
  {
  }

  /** How many bytes carry the length of a match beyond its first byte. */
  function LengthBytes(level: Level, n: nat): nat {
    if n < 9 then 0 else if level.One? then 1 else (n - 9) / 255 + 1
  }

  /** A match, byte by byte: three length bits and the high distance bits; the rest of the length; at
      level 2 from distance 8192 on the escape 31, 255 and sixteen more bits, most significant first. */
  lemma MatchLayout(level: Level, d: nat, n: nat)
    requires Encodable(level, Match(d, n))
    ensures var s, k, far := EncodeOp(level, Match(d, n)), LengthBytes(level, n), level.Two? && 8192 <= d;
            && |s| == k + (if far then 4 else 2)
            && s[0] == 32 * (if n < 9 then n - 2 else 7) + (if far then 31 else (d - 1) / 256)
            && (level.One? && 9 <= n ==> s[1] == n - 9)
            && (level.Two? && 9 <= n ==> (forall i :: 1 <= i < k ==> s[i] == 255) && s[k] == (n - 9) % 255)
            && if far then s[k + 1] == 255 && s[k + 2] == (d - 8192) / 256 && s[k + 3] == (d - 8192) % 256
               else s[k + 1] == (d - 1) % 256
  {
    hide Chain;
    if level.Two? && 9 <= n {
      ChainLayout(n - 9);
    }
  }

  lemma {:induction false} ChainLayout(v: nat)
    ensures var s := Chain(v);
            |s| == v / 255 + 1 && s[v / 255] == v % 255 && forall i :: 0 <= i < v / 255 ==> s[i] == 255
  {
    if 255 <= v {
      ChainLayout(v - 255);
      assert (v - 255) / 255 == v / 255 - 1;
    }
  }

  // ---------- what is read ----------

  /** The bytes from q on, behind the control byte `ctrl`, are a match of n bytes from d back that ends
      before `next`; k of them carry the length. */
  predicate CodeAt(level: Level, mem: seq<byte>, q: nat, ctrl: byte, k: nat, d: nat, n: nat, next: nat) {
    && 32 <= ctrl && q + k < |mem|
    && (if ctrl < 224 then k == 0 && n == ctrl / 32 + 2
        else if level.One? then k == 1 && n == mem[q] as int + 9
        else
          && 1 <= k && (forall i :: q <= i < q + k - 1 ==> mem[i] == 255) && mem[q + k - 1] != 255
          && n == (6 + 255 * (k - 1) + mem[q + k - 1]) % 0x1_0000_0000 + 3)
    && (if level.Two? && ctrl % 32 == 31 && mem[q + k] == 255 then
          && q + k + 2 < |mem| && d == 8192 + 256 * (mem[q + k + 1] as int) + mem[q + k + 2] && next == q + k + 3
        else d == 256 * (ctrl % 32) + mem[q + k] + 1 && next == q + k + 1)
  }

  /** The decoder reads a match code as just that. */
  lemma CodeRead(level: Level, mem: seq<byte>, q: nat, ctrl: byte, k: nat, d: nat, n: nat, next: nat)
    requires q <= |mem| && CodeAt(level, mem, q, ctrl, k, d, n, next)
    ensures ParseMatch(level, mem, q, ctrl) == Some(MatchCode(d, n, next))
  {
    hide ParseChain;
    if level.Two? && 224 <= ctrl {
      ChainRead(mem, q, k, 6);
    }
  }

  lemma {:induction false} ChainRead(mem: seq<byte>, q: nat, k: nat, len: nat)
    requires 1 <= k && q + k <= |mem| && (forall i :: q <= i < q + k - 1 ==> mem[i] == 255) && mem[q + k - 1] != 255
    ensures ParseChain(mem, q, len) == Some(((len + 255 * (k - 1) + mem[q + k - 1]) % 0x1_0000_0000, q + k))
    decreases k
  {
    if 1 < k {
      ChainRead(mem, q + 1, k - 1, U32(len + 255));
      Wraps(len + 255, 255 * (k - 2) + mem[q + k - 1]);
    }
  }

  lemma Wraps(a: nat, b: nat)
    ensures (a % 0x1_0000_0000 + b) % 0x1_0000_0000 == (a + b) % 0x1_0000_0000
  {
  }

  /** And what it reads as a match is one; when it runs off, there is none. */
  lemma CodeFound(level: Level, mem: seq<byte>, q: nat, ctrl: byte) returns (k: nat)
    requires q <= |mem| && 32 <= ctrl
    ensures match ParseMatch(level, mem, q, ctrl)
            case Some(MatchCode(d, n, next)) => CodeAt(level, mem, q, ctrl, k, d, n, next)
            case None => NoCode(level, mem, q, ctrl)
  {
    hide ParseChain, CodeAt;
    match ParseMatch(level, mem, q, ctrl)
    case Some(_) =>
      k := LengthOf(level, mem, q, ctrl);
    case None =>
      k := 0;
      forall j, d, n, next ensures !CodeAt(level, mem, q, ctrl, j, d, n, next) {
        if CodeAt(level, mem, q, ctrl, j, d, n, next) {
          CodeRead(level, mem, q, ctrl, j, d, n, next);
        }
      }
  }

  lemma LengthOf(level: Level, mem: seq<byte>, q: nat, ctrl: byte) returns (k: nat)
    requires q <= |mem| && 32 <= ctrl && ParseMatch(level, mem, q, ctrl).Some?
    ensures var m := ParseMatch(level, mem, q, ctrl).value; CodeAt(level, mem, q, ctrl, k, m.distance, m.count, m.next)
  {
    hide ParseChain;
    if ctrl < 224 {
      k := 0;
    } else if level.One? {
      k := 1;
    } else {
      k := ChainFound(mem, q, 6);
    }
  }

  lemma {:induction false} ChainFound(mem: seq<byte>, q: nat, len: nat) returns (k: nat)
    requires q <= |mem| && ParseChain(mem, q, len).Some?
    ensures 1 <= k && q + k <= |mem| && (forall i :: q <= i < q + k - 1 ==> mem[i] == 255) && mem[q + k - 1] != 255
    ensures ParseChain(mem, q, len) == Some(((len + 255 * (k - 1) + mem[q + k - 1]) % 0x1_0000_0000, q + k))
    decreases |mem| - q
  {
    if mem[q] == 255 {
      k := ChainFound(mem, q + 1, U32(len + 255));
      k := k + 1;
    } else {
      k := 1;
    }
    ChainRead(mem, q, k, len);
  }

  // ---------- a whole decoding ----------

  /** Where the decoder is about to read a control byte, and what it has written. */
  datatype Cursor = Cursor(p: nat, out: seq<byte>)

  /** The first control byte carries the level in its top bits. */
  function Control(mem: seq<byte>, p: nat): byte
    requires p < |mem|
  {
    if p == 0 then mem[0] % 32 else mem[p]
  }

  /** b continues a with period d. */
  predicate Continues(a: seq<byte>, b: seq<byte>, d: nat) {
    && 1 <= d <= |a| <= |b| && b[..|a|] == a
    && forall i :: |a| <= i < |b| ==> b[i] == b[i - d]
  }

  /** The match whose code goes on at q takes `out` to b. */
  ghost predicate Copies(level: Level, mem: seq<byte>, q: nat, ctrl: byte, out: seq<byte>, b: Cursor) {
    exists k, d, n ::
      CodeAt(level, mem, q, ctrl, k, d, n, b.p) && |b.out| == |out| + n && Continues(out, b.out, d)
  }

  ghost predicate TooMuch(level: Level, mem: seq<byte>, q: nat, ctrl: byte, maxout: nat, done: nat) {
    exists k, d, n, next :: CodeAt(level, mem, q, ctrl, k, d, n, next) && (maxout < done + n || done < d)
  }

  ghost predicate NoCode(level: Level, mem: seq<byte>, q: nat, ctrl: byte) {
    forall k, d, n, next :: !CodeAt(level, mem, q, ctrl, k, d, n, next)
  }

  /** One instruction that is carried out. */
  ghost predicate Advances(level: Level, mem: seq<byte>, length: nat, maxout: nat, a: Cursor, b: Cursor) {
    && a.p < |mem| && |b.out| <= maxout
    && var ctrl := Control(mem, a.p);
       if ctrl < 32 then
         && b.p == a.p + ctrl + 2 <= length <= |mem| && b.out == a.out + mem[a.p + 1..b.p]
       else
         Copies(level, mem, a.p + 1, ctrl, a.out, b)
  }

  /** One that is refused: it would write or read too much, or reach before the first byte. */
  ghost predicate Refused(level: Level, mem: seq<byte>, length: nat, maxout: nat, a: Cursor) {
    && a.p < |mem|
    && var ctrl := Control(mem, a.p);
       if ctrl < 32 then maxout < |a.out| + ctrl + 1 || length < a.p + ctrl + 2
       else
         TooMuch(level, mem, a.p + 1, ctrl, maxout, |a.out|)
  }

  /** A match whose code is not all in memory. */
  ghost predicate RunsOff(level: Level, mem: seq<byte>, a: Cursor) {
    a.p < |mem| && 32 <= Control(mem, a.p) && NoCode(level, mem, a.p + 1, Control(mem, a.p))
  }

  /** The instructions are carried out one after the other, each but the first at a place before the end. */
  ghost predicate Runs(level: Level, mem: seq<byte>, length: nat, maxout: nat, run: seq<Cursor>) {
    forall i :: 0 <= i < |run| - 1 ==>
      Advances(level, mem, length, maxout, run[i], run[i + 1]) && (1 <= i ==> run[i].p < length)
  }

  /** How it ends. */
  ghost predicate Ends(level: Level, mem: seq<byte>, length: nat, maxout: nat, first: bool, z: Cursor, r: Decoding) {
    match r
    case Finished(out) => out == z.out && !first && length <= z.p
    case Rejected(out) => out == z.out && (first || z.p < length) && Refused(level, mem, length, maxout, z)
    case RanOff(out) => out == z.out && (first || z.p < length) && RunsOff(level, mem, z)
  }

  lemma CopyContinues(out: seq<byte>, d: nat, n: nat)
    requires 1 <= d <= |out|
    ensures Continues(out, CopyMatch(out, d, n), d)
  {
    hide CopyMatch;
    var r := CopyMatch(out, d, n);
    CopyMatchExtends(out, d, n);
    forall i | |out| <= i < |r| ensures r[i] == r[i - d] {
      CopyMatchPeriodic(out, d, n, i);
    }
  }

  /** What DecodeFrom makes of the instruction at p: an advance, or an end. */
  lemma OneInstruction(level: Level, mem: seq<byte>, length: nat, maxout: nat, p: nat, out: seq<byte>)
    returns (b: Cursor, moved: bool)
    requires p < |mem| && length <= |mem|
    ensures var r, a := DecodeFrom(level, mem, length, maxout, p + 1, Control(mem, p), out), Cursor(p, out);
            if moved then
              && Advances(level, mem, length, maxout, a, b) && p < b.p <= |mem|
              && r == if b.p < length then DecodeFrom(level, mem, length, maxout, b.p + 1, mem[b.p], b.out)
                      else Finished(b.out)
            else
              || (r == Rejected(out) && Refused(level, mem, length, maxout, a))
              || (r == RanOff(out) && RunsOff(level, mem, a))
  {
    hide ParseMatch, CopyMatch, CodeAt, Continues;
    b, moved := Cursor(p, out), false;
    var ctrl := Control(mem, p);
    if ctrl < 32 {
      if p + ctrl + 2 <= length && |out| + ctrl + 1 <= maxout {
        b, moved := Cursor(p + ctrl + 2, out + mem[p + 1..p + ctrl + 2]), true;
      }
    } else {
      var k := CodeFound(level, mem, p + 1, ctrl);
      match ParseMatch(level, mem, p + 1, ctrl)
      case None =>
      case Some(MatchCode(d, n, next)) =>
        if d <= |out| && |out| + n <= maxout {
          CopyContinues(out, d, n);
          b, moved := Cursor(next, CopyMatch(out, d, n)), true;
        }
    }
  }

  lemma {:induction false} RunFrom(level: Level, mem: seq<byte>, length: nat, maxout: nat, a: Cursor)
    returns (run: seq<Cursor>)
    requires a.p < |mem| && length <= |mem|
    ensures run != [] && run[0] == a
    ensures a.p == 0 || a.p < length ==> Runs(level, mem, length, maxout, run)
    ensures a.p == 0 || a.p < length ==>
              Ends(level, mem, length, maxout, a.p == 0 && |run| == 1, run[|run| - 1],
                   DecodeFrom(level, mem, length, maxout, a.p + 1, Control(mem, a.p), a.out))
    decreases |mem| - a.p
  {
    hide DecodeFrom, Advances, Refused, RunsOff;
    var b, moved := OneInstruction(level, mem, length, maxout, a.p, a.out);
    if moved && b.p < length {
      var rest := RunFrom(level, mem, length, maxout, b);
      run := [a] + rest;
    } else if moved {
      run := [a, b];
    } else {
      run := [a];
    }
  }

  /** Decoding a block at a known level is a run of instructions from the empty output to the end of the
      block, to a refusal, or out of memory; the result is the output at that point. */
  lemma DecodeRun(level: Level, mem: seq<byte>, length: nat, maxout: nat) returns (run: seq<Cursor>)
    requires 1 <= |mem| && length <= |mem|
    ensures run != [] && run[0] == Cursor(0, []) && Runs(level, mem, length, maxout, run)
    ensures Ends(level, mem, length, maxout, |run| == 1, run[|run| - 1], Decode(level, mem, length, maxout))
  {
    run := RunFrom(level, mem, length, maxout, Cursor(0, []));
  }

  /** The level comes from the top three bits; any but the two known ones yields nothing. */
  lemma LevelRead(mem: seq<byte>, length: nat, maxout: nat)
    requires 1 <= |mem| && length <= |mem|
    ensures Decompress(mem, length, maxout)
         == if mem[0] < 32 then Decode(One, mem, length, maxout)
            else if mem[0] < 64 then Decode(Two, mem, length, maxout)
            else Rejected([])
  {
    hide Decode;
  }
}
