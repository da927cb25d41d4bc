/** The FastLZ block format: how an instruction is written, how the decoder reads one back, and the
    proof that reading undoes writing at both levels. */
module FastlzFormat {
  import opened Bytes
  import opened LZ

  datatype Level = One | Two

  const MAX_COPY: nat := 32
  const MAX_LEN: nat := 264
  const NEAR_ONE: nat := 8192   // MAX_DISTANCE at level 1
  const NEAR_TWO: nat := 8191   // MAX_DISTANCE at level 2
  const FAR_TWO: nat := 65535 + 8191 - 1  // MAX_FARDISTANCE

  // ---------- writing ----------

  /** An instruction that has a code at this level. */
  predicate Encodable(level: Level, o: Op) {
    match o
    case Literal(bytes) => 1 <= |bytes| <= MAX_COPY
    case Match(d, n) =>
      && 1 <= d && 3 <= n
      && (level.One? ==> d <= NEAR_ONE && n <= MAX_LEN)
      && (level.Two? ==> d <= NEAR_TWO + 0x1_0000 && n <= I32_MAX)
  }

  predicate AllEncodable(level: Level, ops: seq<Op>) {
    forall k :: 0 <= k < |ops| ==> Encodable(level, ops[k])
  }

  /** No match reaches before the first byte, when `out` has already been produced. */
  predicate ReachesBack(out: seq<byte>, ops: seq<Op>) {
    ops != [] ==>
      && ReachesBack(out, ops[..|ops| - 1])
      && (ops[|ops| - 1].Match? ==>
            1 <= ops[|ops| - 1].distance <= |ExpandOn(out, ops[..|ops| - 1])|)
  }

  /** Every instruction has a code and refers only to bytes already produced. */
  predicate WellFormed(level: Level, ops: seq<Op>) {
    AllEncodable(level, ops) && ReachesBack([], ops)
  }

  /** A length as a chain of 255s closed by a smaller byte (level 2). */
  function Chain(v: nat): (r: seq<byte>)
    ensures |r| == v / 255 + 1
  {
    if v < 255 then [v] else [255] + Chain(v - 255)
  }

  /** The length of a match and the five high bits of its distance. */
  function EncodeLength(level: Level, len: nat, hi: nat): (r: seq<byte>)
    requires 1 <= len && hi < 32 && (level.One? ==> len <= MAX_LEN - 2)
    ensures 1 <= |r|
  {
    if len < 7 then [len * 32 + hi]
    else if level.One? then [7 * 32 + hi, len - 7]
    else [7 * 32 + hi] + Chain(len - 7)
  }

  /** The bytes of a match, from its biased distance and biased length. */
  function EncodeMatch(level: Level, dist: nat, len: nat): (r: seq<byte>)
    requires 1 <= len
    requires level.One? ==> dist < NEAR_ONE && len <= MAX_LEN - 2
    requires level.Two? ==> dist < NEAR_TWO + 0x1_0000
  {
    if level.One? || dist < NEAR_TWO then EncodeLength(level, len, dist / 256) + [dist % 256]
    else
      var far := dist - NEAR_TWO;
      EncodeLength(level, len, 31) + [255, far / 256, far % 256]
  }

  function EncodeOp(level: Level, o: Op): (r: seq<byte>)
    requires Encodable(level, o)
    ensures 2 <= |r|
  {
    match o
    case Literal(bytes) => [|bytes| - 1] + bytes
    case Match(d, n) => EncodeMatch(level, d - 1, n - 2)
  }

  /** The bytes of a whole instruction list. */
  function Encode(level: Level, ops: seq<Op>): seq<byte>
    requires AllEncodable(level, ops)
  {
    if ops == [] then []
    else Encode(level, ops[..|ops| - 1]) + EncodeOp(level, ops[|ops| - 1])
  }

  /** The level marker: bit 5 of the first byte is set at level 2. */
  function SetMarker(level: Level, s: seq<byte>): (r: seq<byte>)
    requires s != []
  {
    if level.Two? && s[0] / 32 % 2 == 0 then [s[0] + 32] + s[1..] else s
  }

  // ---------- reading ----------

  /** How a decoding ended, with the bytes written by then.  RanOff means that the decoder, which
      does not test its read pointer inside a match, left the memory `mem`. */
  datatype Decoding =
    | Finished(out: seq<byte>)
    | Rejected(out: seq<byte>)
    | RanOff(out: seq<byte>)

  datatype MatchCode = MatchCode(distance: nat, count: nat, next: nat)

  /** Adds up a level-2 length chain starting at p; the sum is a 32-bit unsigned value. */
  function ParseChain(mem: seq<byte>, p: nat, len: nat): (r: Option<(nat, nat)>)
    requires p <= |mem|
    ensures r.Some? ==> p < r.value.1 <= |mem|
    decreases |mem| - p
  {
    if p == |mem| then None
    else if mem[p] == 255 then ParseChain(mem, p + 1, U32(len + 255))
    else Some((U32(len + mem[p]), p + 1))
  }

  /** The biased length of a match whose control byte is ctrl, and where its distance continues. */
  function ParseLength(level: Level, mem: seq<byte>, p: nat, ctrl: byte): (r: Option<(nat, nat)>)
    requires p <= |mem| && 32 <= ctrl
    ensures r.Some? ==> p <= r.value.1 <= |mem|
  {
    var len := ctrl / 32 - 1;
    if len != 6 then Some((len, p))
    else if level.Two? then ParseChain(mem, p, len)
    else if p == |mem| then None
    else Some((len + mem[p], p + 1))
  }

  /** Reads the rest of a match: true distance, byte count, next position. */
  function ParseMatch(level: Level, mem: seq<byte>, p: nat, ctrl: byte): (r: Option<MatchCode>)
    requires p <= |mem| && 32 <= ctrl
    ensures r.Some? ==> p < r.value.next <= |mem| && 1 <= r.value.distance && 3 <= r.value.count
  {
    var ofs := ctrl % 32 * 256;
    match ParseLength(level, mem, p, ctrl)
    case None => None
    case Some((len, q)) =>
      if q == |mem| then None
      else if level.Two? && mem[q] == 255 && ofs == 31 * 256 then
        if q + 2 < |mem| then
          Some(MatchCode(mem[q + 1] * 256 + mem[q + 2] + NEAR_TWO + 1, len + 3, q + 3))
        else None
      else Some(MatchCode(ofs + mem[q] + 1, len + 3, q + 1))
  }

  /** Decoding on from an instruction whose control byte is ctrl and whose next byte is at p. */
  function DecodeFrom(level: Level, mem: seq<byte>, length: nat, maxout: nat,
                      p: nat, ctrl: byte, out: seq<byte>): Decoding
    requires p <= |mem| && length <= |mem|
    decreases length - p
  {
    if 32 <= ctrl then
      match ParseMatch(level, mem, p, ctrl)
      case None => RanOff(out)
      case Some(MatchCode(d, n, q)) =>
        if |out| + n > maxout || d > |out| then Rejected(out)
        else
          var out' := CopyMatch(out, d, n);
          if q < length then DecodeFrom(level, mem, length, maxout, q + 1, mem[q], out')
          else Finished(out')
    else
      var n := ctrl + 1;
      if |out| + n > maxout || p + n > length then Rejected(out)
      else
        var q := p + n;
        var out' := out + mem[p..q];
        if q < length then DecodeFrom(level, mem, length, maxout, q + 1, mem[q], out')
        else Finished(out')
  }

  /** A whole block at a known level: the first control byte is always taken as a literal run. */
  function Decode(level: Level, mem: seq<byte>, length: nat, maxout: nat): Decoding
    requires 1 <= |mem| && length <= |mem|
  {
    DecodeFrom(level, mem, length, maxout, 1, mem[0] % 32, [])
  }

  /** The public entry: the top three bits of the first byte choose the level. */
  function Decompress(mem: seq<byte>, length: nat, maxout: nat): Decoding
    requires 1 <= |mem| && length <= |mem|
  {
    var level := mem[0] / 32 + 1;
    if level == 1 then Decode(One, mem, length, maxout)
    else if level == 2 then Decode(Two, mem, length, maxout)
    else Rejected([])
  }

  // ---------- one match code ----------

  predicate At(mem: seq<byte>, p: nat, s: seq<byte>) {
    p + |s| <= |mem| && mem[p..p + |s|] == s
  }

  lemma AtSplit(mem: seq<byte>, p: nat, a: seq<byte>, b: seq<byte>)
    ensures At(mem, p, a + b) <==> At(mem, p, a) && At(mem, p + |a|, b)
  {
    if p + |a| + |b| <= |mem| {
      var m := mem[p..p + |a| + |b|];
      assert m[..|a|] == mem[p..p + |a|];
      assert m[|a|..] == mem[p + |a|..p + |a| + |b|];
      assert m == m[..|a|] + m[|a|..];
      assert (a + b)[..|a|] == a && (a + b)[|a|..] == b;
    }
  }

  lemma AtByte(mem: seq<byte>, p: nat, s: seq<byte>, i: nat)
    requires At(mem, p, s) && i < |s|
    ensures p + |s| <= |mem| && mem[p + i] == s[i]
  {
    assert mem[p..p + |s|][i] == s[i];
  }

  lemma {:induction false} ChainRoundTrip(mem: seq<byte>, p: nat, v: nat, len: nat)
    requires At(mem, p, Chain(v)) && len + v < U32_RANGE
    ensures ParseChain(mem, p, len) == Some((len + v, p + |Chain(v)|))
    decreases v
  {
    AtByte(mem, p, Chain(v), 0);
    if 255 <= v {
      AtSplit(mem, p, [255], Chain(v - 255));
      ChainRoundTrip(mem, p + 1, v - 255, len + 255);
    }
  }

  /** The length part reads back as the biased length, whatever distance bits share its first byte. */
  lemma LengthRoundTrip(level: Level, mem: seq<byte>, p: nat, len: nat, hi: nat)
    requires 1 <= len <= I32_MAX && hi < 32 && (level.One? ==> len <= MAX_LEN - 2)
    requires At(mem, p, EncodeLength(level, len, hi))
    ensures 32 <= mem[p] && mem[p] % 32 == hi
    ensures ParseLength(level, mem, p + 1, mem[p]) == Some((len - 1, p + |EncodeLength(level, len, hi)|))
  {
    hide At, Chain, ParseChain;
    var s := EncodeLength(level, len, hi);
    AtByte(mem, p, s, 0);
    if 7 <= len {
      if level.One? {
        AtByte(mem, p, s, 1);
      } else {
        AtSplit(mem, p, [7 * 32 + hi], Chain(len - 7));
        ChainRoundTrip(mem, p + 1, len - 7, 6);
      }
    }
  }

  /** Reading back what was written for a match gives its distance, its byte count and the position
      right behind it; in particular no near match reads as the far escape. */
  lemma MatchCodeRoundTrip(level: Level, mem: seq<byte>, p: nat, dist: nat, len: nat)
    requires 1 <= len <= I32_MAX
    requires level.One? ==> dist < NEAR_ONE && len <= MAX_LEN - 2
    requires level.Two? ==> dist < NEAR_TWO + 0x1_0000
    requires At(mem, p, EncodeMatch(level, dist, len))
    ensures 32 <= mem[p]
    ensures ParseMatch(level, mem, p + 1, mem[p])
         == Some(MatchCode(dist + 1, len + 2, p + |EncodeMatch(level, dist, len)|))
  {
    hide At, EncodeLength, ParseLength;
    var near := level.One? || dist < NEAR_TWO;
    var hi := if near then dist / 256 else 31;
    var head := EncodeLength(level, len, hi);
    var q := p + |head|;
    var last: seq<byte> := if near then [dist % 256]
                           else [255, (dist - NEAR_TWO) / 256, (dist - NEAR_TWO) % 256];
    AtSplit(mem, p, head, last);
    LengthRoundTrip(level, mem, p, len, hi);
    AtByte(mem, q, last, 0);
    if !near {
      AtByte(mem, q, last, 1);
      AtByte(mem, q, last, 2);
    }
    AtByte(mem, q, last, |last| - 1);
  }
}
