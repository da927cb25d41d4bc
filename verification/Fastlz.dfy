/** The public FastLZ interface and what it promises: decompression undoes compression, the output
    fits the documented buffer, and the decoder is safe on any bytes. */
module Fastlz {
  import opened Bytes
  import opened LZ
  import opened FastlzFormat
  import opened FastlzRoundTrip
  import opened FastlzParse
  import opened FastlzParseProofs
  import opened FastlzCompress
  import opened FastlzDecompress

  // ---------- entry points ----------

  /** A little-endian 16-bit read. */
  function Read16(b0: bv8, b1: bv8): bv16 {
    (b0 as bv16) | ((b1 as bv16) << 8)
  }

  /** HASH_FUNCTION of the source: two overlapping reads, mixed into 13 bits. */
  function Mix(b0: bv8, b1: bv8, b2: bv8): bv16 {
    var v := Read16(b0, b1);
    (v ^ Read16(b1, b2) ^ (v >> 3)) & 8191
  }

  function HashFunction(b0: byte, b1: byte, b2: byte): Slot {
    var h := Mix(b0 as bv8, b1 as bv8, b2 as bv8);
    assert h <= 8191;
    h as int
  }

  /** The low eight bits of the hash take the first two bytes and both of them shifted. */
  lemma MixLow(b0: bv8, b1: bv8, b2: bv8)
    ensures Mix(b0, b1, b2) & 255 == (b0 ^ b1 ^ (b0 >> 3) ^ (b1 << 5)) as bv16
  {
  }

  /** Its high five bits take the last two bytes and the second shifted. */
  lemma MixHigh(b0: bv8, b1: bv8, b2: bv8)
    ensures Mix(b0, b1, b2) >> 8 == ((b1 ^ b2 ^ (b1 >> 3)) & 31) as bv16
  {
  }

  /** fastlz_compress: level 1 for short inputs, level 2 from 64 KiB on.  The size is returned as an int. */
  method CompressAuto(x: seq<byte>, beyond: byte, output: array<byte>) returns (ret: int)
    requires |x| <= I32_MAX && Capacity(|x|) <= output.Length
    modifies output
    ensures var block := Block(Config(if |x| < 65536 then One else Two, HashFunction, beyond), x);
            && |block| <= output.Length && output[..|block|] == block && ret == I32(|block|)
            && (x != [] ==> block != [] && output[0] / 32 == if |x| < 65536 then 0 else 1)
    ensures forall k :: Capacity(|x|) <= k < output.Length ==> output[k] == old(output[k])
  {
    hide Block;
    var size;
    if |x| < 65536 {
      size := Compress(Config(One, HashFunction, beyond), x, output);
    } else {
      size := Compress(Config(Two, HashFunction, beyond), x, output);
    }
    ret := I32(size);
    if x != [] {
      Dispatch(Config(if |x| < 65536 then One else Two, HashFunction, beyond), x);
    }
  }

  /** fastlz_compress_level: any other level compresses nothing and returns 0. */
  method CompressLevel(level: int, x: seq<byte>, beyond: byte, output: array<byte>) returns (ret: int)
    requires |x| <= I32_MAX && Capacity(|x|) <= output.Length
    modifies output
    ensures level in {1, 2} ==>
              var block := Block(Config(if level == 1 then One else Two, HashFunction, beyond), x);
              |block| <= output.Length && output[..|block|] == block && ret == I32(|block|)
    ensures level !in {1, 2} ==> ret == 0 && output[..] == old(output[..])
    ensures forall k :: Capacity(|x|) <= k < output.Length ==> output[k] == old(output[k])
  {
    hide Block;
    var size := 0;
    if level == 1 {
      size := Compress(Config(One, HashFunction, beyond), x, output);
    } else if level == 2 {
      size := Compress(Config(Two, HashFunction, beyond), x, output);
    } else {
      return 0;
    }
    ret := I32(size);
  }

  /** The int returned is the size, unless input and block together come close to the end of the range. */
  lemma IntSize(c: Config, x: seq<byte>)
    requires |x| <= I32_MAX
    ensures I32(|Block(c, x)|) == |Block(c, x)| <==> |Block(c, x)| <= I32_MAX
    ensures |x| <= 2082408384 ==> I32(|Block(c, x)|) == |Block(c, x)|
  {
    hide Block;
    if x == [] {
      EmptyBlock(c, x);
    } else {
      BlockIs(c, x);
    }
  }

  // ---------- round trip ----------

  lemma BlockIs(c: Config, x: seq<byte>)
    requires 1 <= |x| <= I32_MAX
    ensures Covers(BlockLevel(c, x), x, Parse(c, x), |x|) && Parse(c, x) != []
    ensures Encode(BlockLevel(c, x), Parse(c, x)) != []
    ensures Block(c, x) == SetMarker(BlockLevel(c, x), Encode(BlockLevel(c, x), Parse(c, x)))
    ensures |Block(c, x)| == |Encode(BlockLevel(c, x), Parse(c, x))| <= |x| + CeilDiv(|x|, 32)
  {
    hide Parse, Encode, Covers;
    ParseCorrect(c, x);
    BlockNonEmpty(c, x);
  }

  /** Decompression undoes compression: for every input, either level, any hash function, any byte
      behind the input and any bytes behind the block, exactly x comes back when it fits; when it does
      not, 0 is returned and only a prefix of x has been written. */
  lemma RoundTrip(c: Config, x: seq<byte>, rest: seq<byte>, maxout: nat)
    requires 1 <= |x| <= I32_MAX
    ensures Block(c, x) != []
    ensures var d := Decompress(Block(c, x) + rest, |Block(c, x)|, maxout);
            if |x| <= maxout then d == Finished(x)
            else StatusOf(d) == Returned(0) && d.out <= x && |d.out| <= maxout
  {
    hide Parse, Encode, ReachesBack, AllEncodable, Decompress, Block, SetMarker;
    BlockIs(c, x);
    var level, ops := BlockLevel(c, x), Parse(c, x);
    var mem := Block(c, x) + rest;
    assert At(mem, 0, Block(c, x)) by {
      assert mem[0..|Block(c, x)|] == Block(c, x);
    }
    assert Expand(ops) == x by {
      assert x[..|x|] == x;
    }
    DecompressEncoded(level, ops, mem, maxout);
  }

  /** The first byte of a block names the decoder: its top three bits are 1 exactly for a level-2 block
      of at least four bytes; shorter ones are unmarked and decode as level 1. */
  lemma Dispatch(c: Config, x: seq<byte>)
    requires 1 <= |x| <= I32_MAX
    ensures Block(c, x) != []
    ensures Block(c, x)[0] / 32 == if c.level.Two? && 4 <= |x| then 1 else 0
  {
    hide Parse, Encode, ReachesBack, AllEncodable, Block;
    BlockIs(c, x);
    FirstByte(BlockLevel(c, x), Parse(c, x));
  }

  /** The size bound, and the buffer the header file asks for: 5% larger than the input and at least
      66 bytes is always enough. */
  lemma DocumentedBuffer(c: Config, x: seq<byte>, capacity: nat)
    requires |x| <= I32_MAX
    requires 66 <= capacity && 105 * |x| <= 100 * capacity
    ensures |Block(c, x)| <= |x| + CeilDiv(|x|, 32) <= Capacity(|x|) <= capacity
    ensures Capacity(|x|) <= |x| + |x| / 32 + 1
  {
    hide Block;
    if x == [] {
      assert Block(c, x) == [] by { EmptyBlock(c, x); }
    } else {
      BlockIs(c, x);
    }
  }

  // ---------- the byte behind the input ----------

  function Beyond(c: Config, b: byte): Config {
    c.(beyond := b)
  }

  predicate SameChoice(s: State, t: State) {
    s.ip == t.ip && s.copy == t.copy && s.ops == t.ops
  }

  /** The round that hashes the byte behind the input: a far match, found in the last round, that is still
      running twelve bytes on. */
  predicate LooksBehind(c: Config, x: seq<byte>, s: State)
    requires InRange(x, s) && Table(s.htab, s.ip) && s.ip + 12 < |x|
  {
    var d := s.ip - s.htab[HashAt(c, x, s.ip)];
    && c.level.Two? && s.ip + 13 == |x| && !RunHere(c.level, x, s.ip)
    && NEAR_TWO <= d < FAR_TWO && Repeats(x, d, s.ip, s.ip + 12)
  }

  /** A match leaves a single byte of input exactly in those rounds. */
  lemma LeavesOne(c: Config, x: seq<byte>, s: State)
    requires InRange(x, s) && Table(s.htab, s.ip) && s.ip + 12 < |x|
    ensures Step(c, x, s).ip + 1 == |x| <==> LooksBehind(c, x, s)
  {
    hide Probe, MatchEnd, SplitMatch, FlushLiterals, HashAt;
    var ref := s.htab[HashAt(c, x, s.ip)];
    var d := s.ip - ref;
    ProbeExact(c.level, x, s.ip, ref);
    var start := Probe(c.level, x, s.ip, ref);
    if !RunHere(c.level, x, s.ip) && start == 5 && s.ip + 13 == |x| {
      assert Bound(x, d, s.ip + 5) == s.ip + 13;
      LastMatch(x, d, s.ip);
    }
  }

  lemma LastMatch(x: seq<byte>, d: nat, ip: nat)
    requires 1 <= d <= ip && ip + 13 == |x| && Repeats(x, d, ip, ip + 5)
    ensures MatchEnd(x, d, ip + 5, |x|) == |x| <==> Repeats(x, d, ip, ip + 12)
  {
    hide MatchEnd;
    MatchEndExact(x, d, ip + 5, |x|);
  }

  /** Level 1 never looks behind the input, and no level does so on fewer than NEAR_TWO + 13 bytes.
      Elsewhere the byte b behind the input is read exactly in the rounds above: there it decides where the
      table names the last position but one, and in all others the round is the same for every b. */
  lemma StepBeyond(c: Config, x: seq<byte>, s: State, b: byte)
    requires InRange(x, s) && Table(s.htab, s.ip) && s.ip + 12 < |x|
    ensures var r, t := Step(c, x, s), Step(Beyond(c, b), x, s);
            && SameChoice(r, t)
            && (LooksBehind(c, x, s) <==> r.ip + 1 == |x|)
            && if LooksBehind(c, x, s) then t.htab[c.hash(x[|x| - 2], x[|x| - 1], b)] == |x| - 2 else r == t
    ensures LooksBehind(c, x, s) ==> c.level.Two? && NEAR_TWO + 13 <= |x|
  {
    hide MatchEnd, SplitMatch, FlushLiterals, Probe, RunHere;
    LeavesOne(c, x, s);
    ProbeExact(c.level, x, s.ip, s.htab[HashAt(c, x, s.ip)]);
  }

  /** 8204 bytes: a one, zeros, a one at distance NEAR_TWO, zeros. */
  function OverReadInput(): (x: seq<byte>) {
    seq(NEAR_TWO + 13, i => if i == 0 || i == NEAR_TWO then 1 else 0)
  }

  lemma Hashes()
    ensures HashFunction(1, 0, 0) == 1 && HashFunction(0, 0, 1) == 256 && HashFunction(0, 1, 0) == 289
  {
  }

  /** The bound is sharp: the level-2 compressor, with the hash function it really uses, hashes the byte
      behind this input of NEAR_TWO + 13 bytes in its second round. */
  lemma OverReads(b: byte)
    ensures var c, x := Config(Two, HashFunction, b), OverReadInput();
            && |x| == NEAR_TWO + 13
            && var s := Step(c, x, Start());
               s.ip + 12 < |x| && LooksBehind(c, x, s)
  {
    hide MatchEnd, HashFunction, SplitMatch;
    var c, x := Config(Two, HashFunction, b), OverReadInput();
    assert RunHere(Two, x, 2);
    MatchEndExact(x, 1, 5, |x| - 2);
    var e := MatchEnd(x, 1, 5, |x| - 2);
    assert x[NEAR_TWO] != x[NEAR_TWO - 1];
    assert e == NEAR_TWO + 1;
    var s := Step(c, x, Start());
    assert s.ip == NEAR_TWO;
    Hashes();
    assert HashAt(c, x, e - 3) == 256 && HashAt(c, x, e - 2) == 289 && HashAt(c, x, NEAR_TWO) == 1;
    assert s.htab[1] == 0;
    assert Repeats(x, NEAR_TWO, NEAR_TWO, NEAR_TWO + 12);
  }

  lemma {:induction false} LoopBeyond(c: Config, x: seq<byte>, s: State, b: byte)
    requires InRange(x, s) && Table(s.htab, s.ip)
    ensures SameChoice(Loop(c, x, s), Loop(Beyond(c, b), x, s))
    decreases |x| - s.ip
  {
    hide Step;
    if s.ip + 12 < |x| {
      StepBeyond(c, x, s, b);
      LoopBeyond(c, x, Step(c, x, s), b);
    }
  }

  lemma {:induction false} TailSameChoice(x: seq<byte>, s: State, t: State)
    requires InRange(x, s) && Table(s.htab, s.ip) && Table(t.htab, t.ip) && SameChoice(s, t)
    ensures SameChoice(Tail(x, s), Tail(x, t))
    decreases |x| - s.ip
  {
    if s.ip < |x| {
      TailSameChoice(x, AddLiteral(x, s), AddLiteral(x, t));
    }
  }

  /** The block depends on the input alone: the byte that level 2 may hash behind it never shows. */
  lemma BeyondIrrelevant(c: Config, x: seq<byte>, b: byte)
    requires |x| <= I32_MAX
    ensures Block(Beyond(c, b), x) == Block(c, x)
  {
    hide Loop, Tail, Encode, SetMarker;
    if 4 <= |x| {
      LoopBeyond(c, x, Start(), b);
      TailSameChoice(x, Loop(c, x, Start()), Loop(Beyond(c, b), x, Start()));
    }
  }

  // ---------- arbitrary bytes ----------

  lemma OneMore(ops: seq<Op>, o: Op)
    requires ReachesBack([], ops)
    requires o.Match? ==> 1 <= o.distance <= |Expand(ops)|
    ensures ReachesBack([], ops + [o]) && Expand(ops + [o]) == Apply(Expand(ops), o)
  {
    assert (ops + [o])[..|ops|] == ops;
  }

  /** The instruction the decoder carries out at p, if it does not stop there. */
  lemma NextOp(level: Level, mem: seq<byte>, length: nat, maxout: nat, p: nat, ctrl: byte, out: seq<byte>)
    returns (o: Option<Op>, q: nat)
    requires p <= |mem| && length <= |mem| && |out| <= maxout
    ensures o.None? ==> DecodeFrom(level, mem, length, maxout, p, ctrl, out) in {Rejected(out), RanOff(out)}
    ensures o.Some? ==>
              && p < q <= |mem| && |out| < |Apply(out, o.value)| <= maxout
              && (o.value.Match? ==> 1 <= o.value.distance <= |out|)
              && DecodeFrom(level, mem, length, maxout, p, ctrl, out)
                 == if q < length then DecodeFrom(level, mem, length, maxout, q + 1, mem[q], Apply(out, o.value))
                    else Finished(Apply(out, o.value))
  {
    hide ParseMatch, CopyMatch;
    o, q := None, p;
    if 32 <= ctrl {
      var m := ParseMatch(level, mem, p, ctrl);
      if m.Some? && |out| + m.value.count <= maxout && m.value.distance <= |out| {
        o, q := Some(Match(m.value.distance, m.value.count)), m.value.next;
      }
    } else if |out| + ctrl + 1 <= maxout && p + ctrl + 1 <= length {
      q := p + ctrl + 1;
      o := Some(Literal(mem[p..q]));
    }
  }

  /** On any memory, from any instruction on, the decoder writes at most maxout bytes, and what it has
      written when it stops is the meaning of instructions that refer only to bytes already written. */
  lemma {:induction false} DecodeFromSafe(level: Level, mem: seq<byte>, length: nat, maxout: nat,
                                          p: nat, ctrl: byte, ops: seq<Op>)
    returns (ops': seq<Op>)
    requires p <= |mem| && length <= |mem|
    requires ReachesBack([], ops) && |Expand(ops)| <= maxout
    ensures ops <= ops' && ReachesBack([], ops')
    ensures var d := DecodeFrom(level, mem, length, maxout, p, ctrl, Expand(ops));
            Expand(ops') == d.out && |d.out| <= maxout && (d.Finished? ==> |Expand(ops)| < |d.out|)
    decreases length - p
  {
    hide DecodeFrom, ReachesBack, ExpandOn, Apply;
    ops' := ops;
    var o, q := NextOp(level, mem, length, maxout, p, ctrl, Expand(ops));
    if o.Some? {
      OneMore(ops, o.value);
      ops' := ops + [o.value];
      if q < length {
        ops' := DecodeFromSafe(level, mem, length, maxout, q + 1, mem[q], ops');
      }
    }
  }

  // ---------- how far the decoder reads ----------

  /** The bytes behind a block that keep the decoder in memory.  At level 1 any two do.  At level 2 a
      length chain may run on into them: it must end there, before a distance byte, and when that byte is
      255 two more must follow. */
  predicate Safe(level: Level, behind: seq<byte>)
    decreases |behind|
  {
    if level.One? then 2 <= |behind|
    else if behind == [] then false
    else if behind[0] == 255 then Safe(Two, behind[1..])
    else 2 <= |behind| && (behind[1] == 255 ==> 4 <= |behind|)
  }

  /** A distance that begins at q, at or before the end of the block or anywhere the rest is safe. */
  predicate DistanceFits(mem: seq<byte>, q: nat) {
    q < |mem| && (mem[q] == 255 ==> q + 2 < |mem|)
  }

  lemma SafeLength(behind: seq<byte>)
    requires Safe(Two, behind)
    ensures 2 <= |behind| && (behind[0] == 255 ==> 3 <= |behind|)
  {
    if behind[0] == 255 {
      SafeLength(behind[1..]);
    }
  }

  /** With safe bytes behind the block, a chain that begins in it or right behind it ends, and leaves
      room for the distance. */
  lemma {:induction false} ChainSafe(mem: seq<byte>, length: nat, p: nat, len: nat)
    requires length <= |mem| && p <= |mem|
    requires p <= length ==> Safe(Two, mem[length..])
    requires length < p ==> Safe(Two, mem[p..])
    ensures var r := ParseChain(mem, p, len); r.Some? && DistanceFits(mem, r.value.1)
    decreases |mem| - p
  {
    SafeLength(mem[if p <= length then length else p..]);
    if mem[p] == 255 {
      if length <= p {
        assert mem[p..][1..] == mem[p + 1..];
      }
      ChainSafe(mem, length, p + 1, U32(len + 255));
    }
  }

  lemma MatchSafe(level: Level, mem: seq<byte>, length: nat, p: nat, ctrl: byte)
    requires p <= length <= |mem| && 32 <= ctrl && Safe(level, mem[length..])
    ensures ParseMatch(level, mem, p, ctrl).Some?
  {
    if level.Two? {
      SafeLength(mem[length..]);
      if ctrl / 32 == 7 {
        ChainSafe(mem, length, p, 6);
      } else {
        assert DistanceFits(mem, p);
      }
    }
  }

  lemma {:induction false} SafeDecode(level: Level, mem: seq<byte>, length: nat, maxout: nat,
                                      p: nat, ctrl: byte, out: seq<byte>)
    requires p <= length <= |mem| && Safe(level, mem[length..])
    ensures !DecodeFrom(level, mem, length, maxout, p, ctrl, out).RanOff?
    decreases length - p
  {
    hide ParseMatch, CopyMatch, Safe;
    if 32 <= ctrl {
      MatchSafe(level, mem, length, p, ctrl);
      var m := ParseMatch(level, mem, p, ctrl).value;
      if |out| + m.count <= maxout && m.distance <= |out| && m.next < length {
        SafeDecode(level, mem, length, maxout, m.next + 1, mem[m.next], CopyMatch(out, m.distance, m.count));
      }
    } else {
      var q := p + ctrl + 1;
      if |out| + ctrl + 1 <= maxout && q < length {
        SafeDecode(level, mem, length, maxout, q + 1, mem[q], out + mem[p..q]);
      }
    }
  }

  /** Behind an opened chain, bytes that are not safe are run off. */
  lemma {:induction false} UnsafeChain(mem: seq<byte>, p: nat, len: nat)
    requires p <= |mem| && !Safe(Two, mem[p..])
    ensures var r := ParseChain(mem, p, len); r.None? || !DistanceFits(mem, r.value.1)
    decreases |mem| - p
  {
    if p < |mem| && mem[p] == 255 {
      assert mem[p..][1..] == mem[p + 1..];
      UnsafeChain(mem, p + 1, U32(len + 255));
    }
  }

  /** The block that asks the most of the bytes behind it: one literal, then the control byte of a match
      whose length and distance both lie behind. */
  function Opening(level: Level): seq<byte> {
    [if level.One? then 0 else 32, 0, 255]
  }

  lemma UnsafeOpening(level: Level, behind: seq<byte>)
    requires !Safe(level, behind)
    ensures Decompress(Opening(level) + behind, 3, 1) == Decode(level, Opening(level) + behind, 3, 1) == RanOff([0])
  {
    hide CopyMatch;
    var mem := Opening(level) + behind;
    assert mem[1..2] == [0] && [] + [0] == mem[1..2];
    assert mem[3..] == behind;
    assert ParseMatch(level, mem, 3, 255).None? by {
      if level.Two? { UnsafeChain(mem, 3, 6); }
    }
    assert DecodeFrom(level, mem, 3, 1, 3, 255, [0]) == RanOff([0]);
  }

  /** Read safety, exactly: the bytes behind keep the decoder in memory for every block and every output
      size if and only if they are safe. */
  lemma ReadSafety(level: Level, behind: seq<byte>)
    ensures Safe(level, behind) <==>
              forall block: seq<byte>, maxout: nat :: block != [] ==>
                !Decode(level, block + behind, |block|, maxout).RanOff?
  {
    hide Decode, Safe;
    if Safe(level, behind) {
      forall block: seq<byte>, maxout: nat | block != []
        ensures !Decode(level, block + behind, |block|, maxout).RanOff?
      {
        SafeBlock(level, block, behind, maxout);
      }
    } else {
      UnsafeOpening(level, behind);
      assert Decode(level, Opening(level) + behind, |Opening(level)|, 1).RanOff?;
    }
  }

  lemma SafeBlock(level: Level, block: seq<byte>, behind: seq<byte>, maxout: nat)
    requires block != [] && Safe(level, behind)
    ensures !Decode(level, block + behind, |block|, maxout).RanOff?
  {
    hide Safe, DecodeFrom;
    var mem := block + behind;
    assert mem[|block|..] == behind;
    SafeDecode(level, mem, |block|, maxout, 1, mem[0] % 32, []);
  }

  /** The level the public decoder takes from the first byte, if any. */
  function Marked(b: byte): Option<Level> {
    if b / 32 == 0 then Some(One) else if b / 32 == 1 then Some(Two) else None
  }

  /** The public decoder on arbitrary bytes: its writes are always safe, its reads when safe bytes follow
      the block, and 0 is returned exactly on rejection. */
  lemma DecompressSafe(mem: seq<byte>, length: nat, maxout: nat) returns (ops: seq<Op>)
    requires 1 <= |mem| && length <= |mem|
    ensures var d := Decompress(mem, length, maxout);
            && ReachesBack([], ops) && Expand(ops) == d.out
            && |d.out| <= maxout
            && (StatusOf(d) == Returned(0) <==> d.Rejected?)
            && (1 <= length && (Marked(mem[0]).Some? ==> Safe(Marked(mem[0]).value, mem[length..])) ==> !d.RanOff?)
  {
    hide DecodeFrom, Safe;
    ops := [];
    if mem[0] / 32 == 0 {
      ops := DecodeFromSafe(One, mem, length, maxout, 1, mem[0] % 32, []);
    } else if mem[0] / 32 == 1 {
      ops := DecodeFromSafe(Two, mem, length, maxout, 1, mem[0] % 32, []);
    }
    var level := Marked(mem[0]);
    if 1 <= length && level.Some? && Safe(level.value, mem[length..]) {
      assert mem == mem[..length] + mem[length..];
      SafeBlock(level.value, mem[..length], mem[length..], maxout);
    }
  }

  /** The same for the public decoder: a caller who knows the first byte of a block knows which bytes
      behind it suffice, and no weaker condition on those bytes does. */
  lemma PublicReadSafety(level: Level, behind: seq<byte>)
    ensures Safe(level, behind) <==>
              forall block: seq<byte>, maxout: nat :: block != [] && Marked(block[0]) == Some(level) ==>
                !Decompress(block + behind, |block|, maxout).RanOff?
  {
    hide Decode, Safe;
    if Safe(level, behind) {
      forall block: seq<byte>, maxout: nat | block != [] && Marked(block[0]) == Some(level)
        ensures !Decompress(block + behind, |block|, maxout).RanOff?
      {
        SafeBlock(level, block, behind, maxout);
      }
    } else {
      UnsafeOpening(level, behind);
      assert Decompress(Opening(level) + behind, |Opening(level)|, 1).RanOff?;
    }
  }

  /** The header file calls decompression memory safe; for reads that is not so.  A three-byte block
      whose last byte opens a level-1 match makes the decoder read the two bytes behind it. */
  lemma ReadsBehindBlock(a: byte, behind: seq<byte>)
    ensures var mem := [0, a, 7 * 32] + behind;
            Decompress(mem, 3, 300)
            == if |behind| < 2 then RanOff([a])
               else if behind[1] == 0 then Finished(CopyMatch([a], 1, 9 + behind[0] as int))
               else Rejected([a])
  {
    hide CopyMatch;
    var mem: seq<byte> := [0, a, 7 * 32] + behind;
    LiteralThenMatch(mem, a);
    assert ParseLength(One, mem, 3, 7 * 32) == if behind == [] then None else Some((6 + behind[0] as int, 4));
  }

  lemma LiteralThenMatch(mem: seq<byte>, a: byte)
    requires 3 <= |mem| && mem[..3] == [0, a, 7 * 32]
    ensures Decompress(mem, 3, 300) == DecodeFrom(One, mem, 3, 300, 3, 7 * 32, [a])
  {
    hide ParseMatch, CopyMatch;
    assert mem[0] == mem[..3][0] && mem[1] == mem[..3][1] && mem[2] == mem[..3][2];
    assert [] + mem[1..2] == [a];
  }
}
