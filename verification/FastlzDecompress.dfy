/** The decompressor as the program runs it, writing the output buffer in place.  It is proved equal to
    the value-level decoder on every input, and never to write at or beyond maxout. */
module FastlzDecompress {
  import opened Bytes
  import opened LZ
  import opened FastlzFormat

  /** The C return value, or the event that a match read beyond the memory after the block. */
  datatype Status = Returned(value: nat) | ReadFault

  function StatusOf(d: Decoding): Status {
    match d
    case Finished(out) => Returned(|out|)
    case Rejected(_) => Returned(0)
    case RanOff(_) => ReadFault
  }

  // ---------- the three copy loops ----------

  lemma CopyMatchNone(base: seq<byte>, d: nat)
    requires 1 <= d <= |base|
    ensures CopyMatch(base, d, 0) == base
  {
  }

  /** `*op++ = *ref++`: one more byte of the copy. */
  method CopyByte(output: array<byte>, op: nat, ref: nat, ghost base: seq<byte>, ghost d: nat, ghost k: nat)
    requires 1 <= d <= |base| && op == |base| + k < output.Length && ref == op - d
    requires output[..op] == CopyMatch(base, d, k)
    modifies output
    ensures output[..op + 1] == CopyMatch(base, d, k + 1)
    ensures forall i :: op < i < output.Length ==> output[i] == old(output[i])
  {
    output[op] := output[ref];
  }

  /** A 16-bit load and store.  Reading both bytes before writing is harmless because d >= 2. */
  method CopyWord(output: array<byte>, op: nat, ref: nat, ghost base: seq<byte>, ghost d: nat, ghost k: nat)
    requires 2 <= d <= |base| && op == |base| + k && op + 2 <= output.Length && ref == op - d
    requires output[..op] == CopyMatch(base, d, k)
    modifies output
    ensures output[..op + 2] == CopyMatch(base, d, k + 2)
    ensures forall i :: op + 2 <= i < output.Length ==> output[i] == old(output[i])
  {
    var lo, hi := output[ref], output[ref + 1];
    output[op], output[op + 1] := lo, hi;
    ghost var r := CopyMatch(base, d, k);
    assert CopyMatch(base, d, k + 1) == r + [lo];
    assert CopyMatch(base, d, k + 2) == r + [lo] + [(r + [lo])[op + 1 - d]];
  }

  /** A match of distance one: the last byte is repeated. */
  method CopyRun(output: array<byte>, op: nat, len: nat)
    requires 1 <= op && op + len + 3 <= output.Length
    modifies output
    ensures output[..op + len + 3] == CopyMatch(old(output[..op]), 1, len + 3)
    ensures forall i :: op + len + 3 <= i < output.Length ==> output[i] == old(output[i])
  {
    ghost var base := output[..op];
    var b := output[op - 1];
    output[op] := b;
    assert output[..op + 1] == CopyMatch(base, 1, 1);
    output[op + 1] := b;
    assert output[..op + 2] == CopyMatch(base, 1, 2);
    output[op + 2] := b;
    var q, left := op + 3, len;
    while left != 0
      invariant 0 <= left <= len && q == op + 3 + (len - left)
      invariant output[..q] == CopyMatch(base, 1, len + 3 - left) && output[q - 1] == b
      invariant forall i :: q <= i < output.Length ==> output[i] == old(output[i])
    {
      output[q] := b;
      q, left := q + 1, left - 1;
    }
  }

  /** The three bytes every match starts with. */
  method CopyThree(output: array<byte>, op: nat, d: nat)
    requires 1 <= d <= op && op + 3 <= output.Length
    modifies output
    ensures output[..op + 3] == CopyMatch(old(output[..op]), d, 3)
    ensures forall i :: op + 3 <= i < output.Length ==> output[i] == old(output[i])
  {
    ghost var base := output[..op];
    CopyMatchNone(base, d);
    hide CopyMatch;
    CopyByte(output, op, op - d, base, d, 0);
    CopyByte(output, op + 1, op + 1 - d, base, d, 1);
    CopyByte(output, op + 2, op + 2 - d, base, d, 2);
  }

  /** The same copy one byte at a time. */
  method CopyBytes(output: array<byte>, op: nat, d: nat, len: nat)
    requires 1 <= d <= op && op + len + 3 <= output.Length
    modifies output
    ensures output[..op + len + 3] == CopyMatch(old(output[..op]), d, len + 3)
    ensures forall i :: op + len + 3 <= i < output.Length ==> output[i] == old(output[i])
  {
    hide CopyMatch;
    ghost var base := output[..op];
    CopyThree(output, op, d);
    var q, ref, left := op + 3, op + 3 - d, len;
    while left != 0
      invariant 0 <= left <= len && q == op + 3 + (len - left) && ref == q - d
      invariant output[..q] == CopyMatch(base, d, len + 3 - left)
      invariant forall i :: q <= i < output.Length ==> output[i] == old(output[i])
    {
      CopyByte(output, q, ref, base, d, len + 3 - left);
      q, ref, left := q + 1, ref + 1, left - 1;
    }
  }

  method CopyFourWords(output: array<byte>, q: nat, p: nat, ghost base: seq<byte>, ghost d: nat, ghost k: nat)
    requires 2 <= d <= |base| && q == |base| + k && q + 8 <= output.Length && p == q - d
    requires output[..q] == CopyMatch(base, d, k)
    modifies output
    ensures output[..q + 8] == CopyMatch(base, d, k + 8)
    ensures forall i :: q + 8 <= i < output.Length ==> output[i] == old(output[i])
  {
    hide CopyMatch;
    CopyWord(output, q, p, base, d, k);
    CopyWord(output, q + 2, p + 2, base, d, k + 2);
    CopyWord(output, q + 4, p + 4, base, d, k + 4);
    CopyWord(output, q + 6, p + 6, base, d, k + 6);
  }

  /** `words` 16-bit moves, four at a time while more than four remain. */
  method CopyManyWords(output: array<byte>, op: nat, count: nat, ghost base: seq<byte>, ghost d: nat, ref: nat)
    requires 2 <= d <= |base| <= op && ref == op - d && op + 2 * count <= output.Length
    requires output[..op] == CopyMatch(base, d, op - |base|)
    modifies output
    ensures output[..op + 2 * count] == CopyMatch(base, d, op + 2 * count - |base|)
    ensures forall i :: op + 2 * count <= i < output.Length ==> output[i] == old(output[i])
  {
    hide CopyMatch;
    var q, p, words := op, ref, count;
    while words > 4
      invariant 0 <= words && q + 2 * words == op + 2 * count && p == q - d && op <= q
      invariant output[..q] == CopyMatch(base, d, q - |base|)
      invariant forall i :: q <= i < output.Length ==> output[i] == old(output[i])
    {
      CopyFourWords(output, q, p, base, d, q - |base|);
      q, p, words := q + 8, p + 8, words - 4;
    }
    while words != 0
      invariant 0 <= words && q + 2 * words == op + 2 * count && p == q - d && op <= q
      invariant output[..q] == CopyMatch(base, d, q - |base|)
      invariant forall i :: q <= i < output.Length ==> output[i] == old(output[i])
    {
      CopyWord(output, q, p, base, d, q - |base|);
      q, p, words := q + 2, p + 2, words - 1;
    }
  }

  /** The same copy with 16-bit moves, behind one byte move when the length is odd. */
  method CopyWords(output: array<byte>, op: nat, d: nat, len: nat)
    requires 2 <= d <= op && op + len + 3 <= output.Length
    modifies output
    ensures output[..op + len + 3] == CopyMatch(old(output[..op]), d, len + 3)
    ensures forall i :: op + len + 3 <= i < output.Length ==> output[i] == old(output[i])
  {
    hide CopyMatch;
    ghost var base := output[..op];
    CopyThree(output, op, d);
    var q := op + 3;
    if len % 2 == 1 {
      CopyByte(output, q, q - d, base, d, 3);
      q := q + 1;
    }
    CopyManyWords(output, q, len / 2, base, d, q - d);
  }

  /** The copy of a match: a run fill, a byte copy or a word copy, all of them the same function. */
  method CopyInPlace(wide: bool, output: array<byte>, op: nat, d: nat, count: nat)
    requires 1 <= d <= op && 3 <= count && op + count <= output.Length
    modifies output
    ensures output[..op + count] == CopyMatch(old(output[..op]), d, count)
    ensures forall i :: op + count <= i < output.Length ==> output[i] == old(output[i])
  {
    hide CopyMatch;
    if d == 1 {
      CopyRun(output, op, count - 3);
    } else if wide {
      CopyWords(output, op, d, count - 3);
    } else {
      CopyBytes(output, op, d, count - 3);
    }
  }

  // ---------- reading a match ----------

  /** The 255-chain of a level-2 length. */
  method ReadChain(mem: seq<byte>, ip: nat, start: nat) returns (ok: bool, len: nat, next: nat)
    requires ip <= |mem|
    ensures (if ok then Some((len, next)) else None) == ParseChain(mem, ip, start)
  {
    len, next := start, ip;
    while next < |mem|
      invariant ip <= next <= |mem|
      invariant ParseChain(mem, next, len) == ParseChain(mem, ip, start)
    {
      var code := mem[next];
      len, next := U32(len + code), next + 1;
      if code != 255 {
        ok := true;
        return;
      }
    }
    ok := false;
  }

  method ReadMatch(level: Level, mem: seq<byte>, p: nat, ctrl: byte) returns (r: Option<MatchCode>)
    requires p <= |mem| && 32 <= ctrl
    ensures r == ParseMatch(level, mem, p, ctrl)
  {
    var ip, len: nat, ofs: nat := p, ctrl / 32 - 1, ctrl % 32 * 256;
    if len == 7 - 1 {
      if level.One? {
        if ip == |mem| { return None; }
        len := len + mem[ip];
        ip := ip + 1;
      } else {
        var ok;
        ok, len, ip := ReadChain(mem, ip, len);
        if !ok { return None; }
      }
    }
    if ip == |mem| { return None; }
    var code := mem[ip];
    ip := ip + 1;
    var distance: nat := ofs + code + 1;
    if level.Two? && code == 255 {
      if ofs == 31 * 256 {
        if |mem| < ip + 2 { return None; }
        ofs := (mem[ip] as int) * 256;
        ofs := ofs + mem[ip + 1];
        ip := ip + 2;
        distance := ofs + NEAR_TWO + 1;
      }
    }
    return Some(MatchCode(distance, len + 3, ip));
  }

  method CopyLiterals(mem: seq<byte>, ip: nat, output: array<byte>, op: nat, count: nat)
    requires 1 <= count && ip + count <= |mem| && op + count <= output.Length
    modifies output
    ensures output[..op + count] == old(output[..op]) + mem[ip..ip + count]
    ensures forall i :: op + count <= i < output.Length ==> output[i] == old(output[i])
  {
    ghost var base := output[..op];
    output[op] := mem[ip];
    var k := 1;
    while k < count
      invariant 1 <= k <= count && output[..op + k] == base + mem[ip..ip + k]
      invariant forall i :: op + k <= i < output.Length ==> output[i] == old(output[i])
    {
      output[op + k] := mem[ip + k];
      k := k + 1;
    }
  }

  // ---------- the decoder ----------

  /** The cursor after one instruction, or the reason to stop. */
  datatype Cursor =
    | Stop(status: Status)
    | Next(ip: nat, op: nat, ctrl: byte, loop: bool)

  /** What is left to decode at a cursor. */
  ghost predicate Leads(level: Level, mem: seq<byte>, length: nat, maxout: nat, output: array<byte>, op: nat,
                        r: Cursor, d: Decoding)
    requires length <= |mem|
    reads output
  {
    match r
    case Stop(status) =>
      status == StatusOf(d) && !d.Finished? && |d.out| == op <= output.Length && output[..op] == d.out
    case Next(ip', op', ctrl', loop) =>
      && ip' <= |mem| && op <= op' <= maxout <= output.Length
      && d == if loop then DecodeFrom(level, mem, length, maxout, ip', ctrl', output[..op'])
              else Finished(output[..op'])
  }

  method MatchInstruction(level: Level, wide: bool, mem: seq<byte>, length: nat, output: array<byte>, maxout: nat,
                          ip: nat, op: nat, ctrl: byte)
    returns (r: Cursor)
    requires ip <= |mem| && length <= |mem| && op <= maxout <= output.Length && 32 <= ctrl
    modifies output
    ensures Leads(level, mem, length, maxout, output, op, r,
                  old(DecodeFrom(level, mem, length, maxout, ip, ctrl, output[..op])))
    ensures r.Next? && r.loop ==> ip < r.ip && ip < length
    ensures forall i :: (if r.Next? then r.op else op) <= i < output.Length ==> output[i] == old(output[i])
  {
    hide ParseMatch, CopyMatch;
    var m := ReadMatch(level, mem, ip, ctrl);
    if m.None? {
      return Stop(ReadFault);
    }
    var MatchCode(dist, count, next) := m.value;
    if op + count > maxout || dist > op {
      return Stop(Returned(0));
    }
    if next < length {
      r := Next(next + 1, op + count, mem[next], true);
    } else {
      r := Next(next, op + count, ctrl, false);
    }
    CopyInPlace(wide, output, op, dist, count);
  }

  method LiteralInstruction(level: Level, mem: seq<byte>, length: nat, output: array<byte>, maxout: nat,
                            ip: nat, op: nat, ctrl: byte)
    returns (r: Cursor)
    requires ip <= |mem| && length <= |mem| && op <= maxout <= output.Length && ctrl < 32
    modifies output
    ensures Leads(level, mem, length, maxout, output, op, r,
                  old(DecodeFrom(level, mem, length, maxout, ip, ctrl, output[..op])))
    ensures r.Next? && r.loop ==> ip < r.ip && ip < length
    ensures forall i :: (if r.Next? then r.op else op) <= i < output.Length ==> output[i] == old(output[i])
  {
    var count := ctrl + 1;
    if op + count > maxout || ip + count > length {
      return Stop(Returned(0));
    }
    CopyLiterals(mem, ip, output, op, count);
    var next := ip + count;
    if next < length {
      r := Next(next + 1, op + count, mem[next], true);
    } else {
      r := Next(next, op + count, ctrl, false);
    }
  }

  /** fastlz1_decompress and fastlz2_decompress.  `wide` is the build's choice between 16-bit and byte
      copies; it does not show in the result. */
  method DecompressLevel(level: Level, wide: bool, mem: seq<byte>, length: nat, output: array<byte>, maxout: nat)
    returns (r: Status)
    requires 1 <= |mem| && length <= |mem| && maxout <= output.Length
    modifies output
    ensures var d := Decode(level, mem, length, maxout);
            && r == StatusOf(d)
            && |d.out| <= maxout && output[..|d.out|] == d.out
            && forall i :: |d.out| <= i < output.Length ==> output[i] == old(output[i])
  {
    hide DecodeFrom;
    var c := Next(1, 0, mem[0] % 32, true);
    ghost var d := Decode(level, mem, length, maxout);
    assert output[..0] == [];
    while c.loop
      invariant c.Next? && Leads(level, mem, length, maxout, output, 0, c, d)
      invariant forall i :: c.op <= i < output.Length ==> output[i] == old(output[i])
      decreases c.loop, length - c.ip
    {
      var op := c.op;
      if 32 <= c.ctrl {
        c := MatchInstruction(level, wide, mem, length, output, maxout, c.ip, op, c.ctrl);
      } else {
        c := LiteralInstruction(level, mem, length, output, maxout, c.ip, op, c.ctrl);
      }
      if c.Stop? {
        return c.status;
      }
    }
    return Returned(c.op);
  }

  /** fastlz_decompress: the top three bits of the first byte select the decoder. */
  method DecompressBlock(wide: bool, mem: seq<byte>, length: nat, output: array<byte>, maxout: nat)
    returns (r: Status)
    requires 1 <= |mem| && length <= |mem| && maxout <= output.Length
    modifies output
    ensures var d := Decompress(mem, length, maxout);
            && r == StatusOf(d)
            && |d.out| <= maxout && output[..|d.out|] == d.out
            && forall i :: |d.out| <= i < output.Length ==> output[i] == old(output[i])
  {
    hide Decode;
    var level := mem[0] / 32 + 1;
    if level == 1 {
      r := DecompressLevel(One, wide, mem, length, output, maxout);
    } else if level == 2 {
      r := DecompressLevel(Two, wide, mem, length, output, maxout);
    } else {
      r := Returned(0);
    }
  }
}
