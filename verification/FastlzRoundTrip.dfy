/** Decoding an encoded instruction list gives back the bytes it denotes. */
module FastlzRoundTrip {
  import opened Bytes
  import opened LZ
  import opened FastlzFormat

  // ---------- encodings of longer lists ----------

  lemma {:induction false} EncodeAppend(level: Level, a: seq<Op>, b: seq<Op>)
    requires AllEncodable(level, a) && AllEncodable(level, b)
    ensures Encode(level, a + b) == Encode(level, a) + Encode(level, b)
  {
    hide EncodeOp, Encodable;
    if b == [] {
      assert a + b == a;
    } else {
      var b' := b[..|b| - 1];
      EncodeAppend(level, a, b');
      assert (a + b)[..|a + b| - 1] == a + b';
      assert Encode(level, a + b) == Encode(level, a + b') + EncodeOp(level, b[|b| - 1]);
    }
  }

  lemma {:induction false} ReachesBackAppend(out: seq<byte>, a: seq<Op>, b: seq<Op>)
    ensures ReachesBack(out, a + b) <==> ReachesBack(out, a) && ReachesBack(ExpandOn(out, a), b)
  {
    if b == [] {
      assert a + b == a;
    } else {
      var b' := b[..|b| - 1];
      ReachesBackAppend(out, a, b');
      ExpandAppend(out, a, b');
      assert (a + b)[..|a + b| - 1] == a + b';
    }
  }

  lemma LastOp(level: Level, a: seq<Op>, o: Op)
    requires AllEncodable(level, a) && Encodable(level, o)
    ensures Encode(level, a + [o]) == Encode(level, a) + EncodeOp(level, o)
  {
    hide EncodeOp, Encodable;
    assert (a + [o])[..|a|] == a;
  }

  lemma LastApply(out: seq<byte>, a: seq<Op>, o: Op)
    ensures ExpandOn(out, a + [o]) == Apply(ExpandOn(out, a), o)
    ensures ReachesBack(out, a + [o]) && o.Match? ==> 1 <= o.distance <= |ExpandOn(out, a)|
  {
    hide Apply;
    assert (a + [o])[..|a|] == a;
  }

  /** Everything about instruction k of a well-formed list that decoding needs. */
  lemma Instruction(level: Level, ops: seq<Op>, k: nat)
    requires WellFormed(level, ops) && k < |ops|
    ensures Encode(level, ops) == Encode(level, ops[..k]) + EncodeOp(level, ops[k]) + Encode(level, ops[k + 1..])
    ensures Encode(level, ops[..k + 1]) == Encode(level, ops[..k]) + EncodeOp(level, ops[k])
    ensures ops[k].Match? ==> 1 <= ops[k].distance <= |Expand(ops[..k])|
    ensures Expand(ops[..k + 1]) == Apply(Expand(ops[..k]), ops[k])
    ensures Expand(ops[..k]) <= Expand(ops[..k + 1]) <= Expand(ops)
  {
    hide EncodeOp, Encodable, Encode, ReachesBack, ExpandOn, Apply;
    var a, b := ops[..k], ops[k + 1..];
    var a' := ops[..k + 1];
    assert ops == a' + b;
    assert a' == a + [ops[k]];
    LastOp(level, a, ops[k]);
    EncodeAppend(level, a', b);
    ReachesBackAppend([], a', b);
    LastApply([], a, ops[k]);
    ExpandAppend([], a', b);
    ExpandAppend([], a, [ops[k]]);
    ExpandExtends(Expand(a), [ops[k]]);
    ExpandExtends(Expand(a'), b);
  }

  // ---------- the decoder on an encoded list ----------

  /** mem holds the encoding of ops, except that byte 0 may carry the level marker. */
  predicate Holds(level: Level, ops: seq<Op>, mem: seq<byte>) {
    && WellFormed(level, ops) && ops != [] && ops[0].Literal?
    && 1 <= |Encode(level, ops)| <= |mem|
    && mem[1..|Encode(level, ops)|] == Encode(level, ops)[1..]
  }

  lemma HoldsTail(level: Level, ops: seq<Op>, k: nat)
    requires WellFormed(level, ops) && k < |ops|
    ensures k + 1 == |ops| <==> Encode(level, ops[k + 1..]) == []
    ensures k == 0 <==> Encode(level, ops[..k]) == []
  {
    hide EncodeOp, Encodable, ReachesBack;
  }

  lemma Sliced(mem: seq<byte>, e: seq<byte>, a: seq<byte>, s: seq<byte>, b: seq<byte>)
    requires e == a + s + b && s != []
    requires |e| <= |mem| && mem[1..|e|] == e[1..]
    ensures e[|a|] == s[0]
    ensures mem[|a| + 1..|a| + |s|] == s[1..]
    ensures 1 <= |a| ==> At(mem, |a|, s)
  {
    var p := |a|;
    assert e[p..p + |s|] == s;
    forall i | 1 <= i < |e| ensures mem[i] == e[i] {
      assert mem[1..|e|][i - 1] == e[1..][i - 1];
    }
    assert mem[p + 1..p + |s|] == e[p + 1..p + |s|];
    assert e[p + 1..p + |s|] == s[1..];
    if 1 <= p {
      assert mem[p..p + |s|] == e[p..p + |s|];
    }
  }

  lemma HoldsAt(level: Level, ops: seq<Op>, mem: seq<byte>, k: nat)
    requires Holds(level, ops, mem) && k < |ops|
    ensures var p := |Encode(level, ops[..k])|;
            var s := EncodeOp(level, ops[k]);
            && p + |s| == |Encode(level, ops[..k + 1])| <= |Encode(level, ops)|
            && Encode(level, ops)[p] == s[0]
            && mem[p + 1..p + |s|] == s[1..]
            && (1 <= k ==> At(mem, p, s))
            && (p + |s| == |Encode(level, ops)| <==> k + 1 == |ops|)
  {
    hide EncodeOp, Encodable, ReachesBack, Encode, At, Expand, Apply;
    Instruction(level, ops, k);
    HoldsTail(level, ops, k);
    Sliced(mem, Encode(level, ops), Encode(level, ops[..k]), EncodeOp(level, ops[k]), Encode(level, ops[k + 1..]));
  }

  /** What the decoder does after an instruction that ends at q and yields out'. */
  function Continue(level: Level, mem: seq<byte>, length: nat, maxout: nat, q: nat, out': seq<byte>): Decoding
    requires q <= length <= |mem|
  {
    if q < length then DecodeFrom(level, mem, length, maxout, q + 1, mem[q], out') else Finished(out')
  }

  lemma DecodeLiteral(level: Level, bytes: seq<byte>, mem: seq<byte>, length: nat, maxout: nat, p: nat, out: seq<byte>)
    requires 1 <= |bytes| <= MAX_COPY
    requires p + 1 + |bytes| <= length <= |mem| && mem[p + 1..p + 1 + |bytes|] == bytes
    ensures DecodeFrom(level, mem, length, maxout, p + 1, |bytes| - 1, out)
         == if |out + bytes| > maxout then Rejected(out)
            else Continue(level, mem, length, maxout, p + 1 + |bytes|, out + bytes)
  {
  }

  lemma DecodeMatch(level: Level, d: nat, n: nat, mem: seq<byte>, length: nat, maxout: nat, p: nat, out: seq<byte>)
    requires Encodable(level, Match(d, n)) && d <= |out|
    requires p + |EncodeMatch(level, d - 1, n - 2)| <= length <= |mem|
    requires At(mem, p, EncodeMatch(level, d - 1, n - 2))
    ensures DecodeFrom(level, mem, length, maxout, p + 1, mem[p], out)
         == if |out| + n > maxout then Rejected(out)
            else Continue(level, mem, length, maxout, p + |EncodeMatch(level, d - 1, n - 2)|, CopyMatch(out, d, n))
  {
    hide EncodeMatch, ParseMatch, CopyMatch;
    MatchCodeRoundTrip(level, mem, p, d - 1, n - 2);
  }

  /** The decoder on the code of one instruction, wherever it stands. */
  lemma DecodeOp(level: Level, o: Op, mem: seq<byte>, length: nat, maxout: nat, p: nat, out: seq<byte>)
    requires Encodable(level, o) && (o.Match? ==> o.distance <= |out|)
    requires p + |EncodeOp(level, o)| <= length <= |mem|
    requires mem[p + 1..p + |EncodeOp(level, o)|] == EncodeOp(level, o)[1..]
    requires o.Match? ==> At(mem, p, EncodeOp(level, o))
    ensures DecodeFrom(level, mem, length, maxout, p + 1, EncodeOp(level, o)[0], out)
         == if |Apply(out, o)| > maxout then Rejected(out)
            else Continue(level, mem, length, maxout, p + |EncodeOp(level, o)|, Apply(out, o))
  {
    hide EncodeMatch, DecodeFrom, CopyMatch, Continue;
    var s := EncodeOp(level, o);
    match o {
      case Literal(bytes) =>
        assert s[0] == |bytes| - 1 && s[1..] == bytes;
        DecodeLiteral(level, bytes, mem, length, maxout, p, out);
      case Match(d, n) =>
        AtByte(mem, p, s, 0);
        DecodeMatch(level, d, n, mem, length, maxout, p, out);
    }
  }

  /** One instruction: decoding either moves on to the next one or stops before writing too much. */
  lemma DecodeStep(level: Level, ops: seq<Op>, mem: seq<byte>, maxout: nat, k: nat)
    requires Holds(level, ops, mem) && k < |ops|
    ensures var e := Encode(level, ops);
            var p, q := |Encode(level, ops[..k])|, |Encode(level, ops[..k + 1])|;
            var out, out' := Expand(ops[..k]), Expand(ops[..k + 1]);
            && p < q <= |e| && (k + 1 < |ops| ==> q < |e|)
            && DecodeFrom(level, mem, |e|, maxout, p + 1, e[p], out)
               == if |out'| > maxout then Rejected(out)
                  else if k + 1 < |ops| then DecodeFrom(level, mem, |e|, maxout, q + 1, e[q], out')
                  else Finished(out')
  {
    hide EncodeOp, ReachesBack, Encode, DecodeFrom, Encodable, Apply, ExpandOn;
    Instruction(level, ops, k);
    HoldsAt(level, ops, mem, k);
    var e := Encode(level, ops);
    var p, q := |Encode(level, ops[..k])|, |Encode(level, ops[..k + 1])|;
    DecodeOp(level, ops[k], mem, |e|, maxout, p, Expand(ops[..k]));
    if k + 1 < |ops| {
      assert 1 <= q;
      assert mem[1..|e|][q - 1] == e[1..][q - 1];
    }
  }

  /** Decoding from instruction k reaches the end of the list exactly when the output fits. */
  lemma {:induction false} DecodeSuffix(level: Level, ops: seq<Op>, mem: seq<byte>, maxout: nat, k: nat)
    requires Holds(level, ops, mem) && k < |ops|
    requires |Expand(ops[..k])| <= maxout
    ensures |Encode(level, ops[..k])| < |Encode(level, ops)|
    ensures var e := Encode(level, ops);
            var p := |Encode(level, ops[..k])|;
            var r := DecodeFrom(level, mem, |e|, maxout, p + 1, e[p], Expand(ops[..k]));
            if |Expand(ops)| <= maxout then r == Finished(Expand(ops))
            else r.Rejected? && r.out <= Expand(ops) && |r.out| <= maxout
    decreases |ops| - k
  {
    hide DecodeFrom, EncodeOp, ReachesBack, Encodable;
    Instruction(level, ops, k);
    DecodeStep(level, ops, mem, maxout, k);
    if k + 1 == |ops| {
      assert ops[..k + 1] == ops;
    } else if |Expand(ops[..k + 1])| <= maxout {
      DecodeSuffix(level, ops, mem, maxout, k + 1);
    }
  }

  lemma FirstByte(level: Level, ops: seq<Op>)
    requires WellFormed(level, ops) && ops != [] && ops[0].Literal?
    ensures Encode(level, ops) != [] && Encode(level, ops)[0] < 32
  {
    hide EncodeMatch, ReachesBack, Encode;
    Instruction(level, ops, 0);
    HoldsTail(level, ops, 0);
    assert Encode(level, ops)[0] == EncodeOp(level, ops[0])[0];
  }

  /** The whole block, through the public entry, with any bytes following it in memory. */
  lemma DecompressEncoded(level: Level, ops: seq<Op>, mem: seq<byte>, maxout: nat)
    requires WellFormed(level, ops) && ops != [] && ops[0].Literal?
    requires Encode(level, ops) != [] ==> At(mem, 0, SetMarker(level, Encode(level, ops)))
    ensures 1 <= |Encode(level, ops)| <= |mem|
    ensures var r := Decompress(mem, |Encode(level, ops)|, maxout);
            if |Expand(ops)| <= maxout then r == Finished(Expand(ops))
            else r.Rejected? && r.out <= Expand(ops) && |r.out| <= maxout
  {
    hide DecodeFrom, EncodeOp, ReachesBack, Encode, AllEncodable;
    FirstByte(level, ops);
    var e := Encode(level, ops);
    var m := SetMarker(level, e);
    AtByte(mem, 0, m, 0);
    assert mem[0..|m|] == m;
    assert mem[1..|e|] == mem[0..|m|][1..] == e[1..];
    HoldsTail(level, ops, 0);
    DecodeSuffix(level, ops, mem, maxout, 0);
  }
}
