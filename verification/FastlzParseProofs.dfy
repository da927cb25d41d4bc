/** The chosen instructions mean the input, refer only backwards, and never cost more than one extra
    byte for every 32 bytes of input. */
module FastlzParseProofs {
  import opened Bytes
  import opened LZ
  import opened FastlzFormat
  import opened FastlzRoundTrip
  import opened FastlzParse

  // ---------- matches ----------

  /** Extension stops exactly at the first byte that breaks the period, or at its bound. */
  lemma {:induction false} MatchEndExact(x: seq<byte>, d: nat, k: nat, bound: nat)
    requires 1 <= d <= k <= bound <= |x|
    ensures var e := MatchEnd(x, d, k, bound);
            && (k < e ==> Repeats(x, d, k, e - 1))
            && (e < bound ==> x[e - 1] != x[e - 1 - d])
    decreases bound - k
  {
    if k < bound && x[k] == x[k - d] {
      MatchEndExact(x, d, k + 1, bound);
    }
  }

  /** A candidate is taken exactly when it lies in the window and its first 3 bytes (5 when far)
      agree; the hash value plays no part. */
  lemma ProbeExact(level: Level, x: seq<byte>, ip: nat, ref: nat)
    requires ref <= ip && ip + 12 < |x|
    ensures var d, start := ip - ref, Probe(level, x, ip, ref);
            && start in {0, 3, 5}
            && (start == 3 <==> 1 <= d < (if level.One? then NEAR_ONE else NEAR_TWO) && Repeats(x, d, ip, ip + 3))
            && (start == 5 <==> level.Two? && NEAR_TWO <= d < FAR_TWO && Repeats(x, d, ip, ip + 5))
  {
    var d := ip - ref;
    assert x[ref..ref + 3] == x[ip..ip + 3] <==> (x[ip] == x[ip - d] && x[ip + 1] == x[ip + 1 - d] && x[ip + 2] == x[ip + 2 - d]) by {
      assert x[ref..ref + 3] == [x[ref], x[ref + 1], x[ref + 2]];
      assert x[ip..ip + 3] == [x[ip], x[ip + 1], x[ip + 2]];
    }
    if Repeats(x, d, ip, ip + 3) {
      assert x[ip] == x[ip - d] && x[ip + 1] == x[ip + 1 - d] && x[ip + 2] == x[ip + 2 - d];
    }
    if Repeats(x, d, ip, ip + 5) {
      assert x[ip + 3] == x[ip + 3 - d] && x[ip + 4] == x[ip + 4 - d];
      assert Repeats(x, d, ip, ip + 3);
    }
  }

  predicate InWindow(level: Level, d: nat, count: nat) {
    && 1 <= d && 3 <= count <= I32_MAX
    && (level.One? ==> d <= NEAR_ONE)
    && (level.Two? ==> d <= NEAR_TWO + 0x1_0000 && (d <= NEAR_TWO || 5 <= count))
  }

  /** The pieces of a split match reproduce the whole match and cost at least one byte less than what
      they cover. */
  lemma {:induction false} SplitMatchMeaning(level: Level, d: nat, count: nat, out: seq<byte>)
    requires InWindow(level, d, count) && d <= |out|
    ensures AllEncodable(level, SplitMatch(level, d, count))
    ensures ReachesBack(out, SplitMatch(level, d, count))
    ensures ExpandOn(out, SplitMatch(level, d, count)) == CopyMatch(out, d, count)
    ensures |Encode(level, SplitMatch(level, d, count))| <= count - 1
    decreases count
  {
    hide ReachesBack, ExpandOn, Encode, EncodeOp, Encodable, CopyMatch;
    if level.One? && count > MAX_LEN {
      var m := MAX_LEN - 2;
      var first := Match(d, m);
      var rest := SplitMatch(level, d, count - m);
      SplitMatchMeaning(level, d, count - m, CopyMatch(out, d, m));
      CopyMatchCompose(out, d, m, count - m);
      OneMatch(level, d, m, out);
      SplitPiece(level, out, first, rest);
    } else {
      OneMatch(level, d, count, out);
    }
  }

  lemma OneMatch(level: Level, d: nat, count: nat, out: seq<byte>)
    requires InWindow(level, d, count) && d <= |out| && (level.One? ==> count <= MAX_LEN)
    ensures Encodable(level, Match(d, count))
    ensures ReachesBack(out, [Match(d, count)])
    ensures ExpandOn(out, [Match(d, count)]) == CopyMatch(out, d, count)
    ensures |Encode(level, [Match(d, count)])| <= count - 1
    ensures level.One? ==> |Encode(level, [Match(d, count)])| <= 3
  {
    var o := Match(d, count);
    assert [o][..0] == [];
    assert Encode(level, [o]) == [] + EncodeOp(level, o);
  }

  lemma SplitPiece(level: Level, out: seq<byte>, first: Op, rest: seq<Op>)
    requires Encodable(level, first) && AllEncodable(level, rest)
    requires ReachesBack(out, [first]) && ReachesBack(ExpandOn(out, [first]), rest)
    ensures AllEncodable(level, [first] + rest)
    ensures ReachesBack(out, [first] + rest)
    ensures ExpandOn(out, [first] + rest) == ExpandOn(ExpandOn(out, [first]), rest)
    ensures Encode(level, [first] + rest) == Encode(level, [first]) + Encode(level, rest)
  {
    hide ReachesBack, ExpandOn, Encode, EncodeOp, Encodable;
    ReachesBackAppend(out, [first], rest);
    ExpandAppend(out, [first], rest);
    EncodeAppend(level, [first], rest);
  }

  // ---------- the loop invariant ----------

  /** ops is a complete instruction encoding of x[..p], starting with a literal run. */
  predicate Covers(level: Level, x: seq<byte>, ops: seq<Op>, p: nat) {
    && p <= |x|
    && WellFormed(level, ops)
    && Expand(ops) == x[..p]
    && (ops != [] ==> ops[0].Literal?)
  }

  /** The back-patching invariant: everything but the pending literals is encoded, and the output,
      counting the open slot, is at most one byte per 32 ahead of the input. */
  predicate Good(c: Config, x: seq<byte>, s: State) {
    && InRange(x, s)
    && Covers(c.level, x, s.ops, s.ip - s.copy)
    && 32 * (|Encode(c.level, s.ops)| + s.copy) + s.copy <= 33 * s.ip
  }

  lemma CoversMore(level: Level, x: seq<byte>, ops: seq<Op>, p: nat, more: seq<Op>, q: nat)
    requires Covers(level, x, ops, p) && p <= q <= |x|
    requires AllEncodable(level, more) && ReachesBack(x[..p], more) && ExpandOn(x[..p], more) == x[..q]
    requires ops == [] && more != [] ==> more[0].Literal?
    ensures Covers(level, x, ops + more, q)
    ensures |Encode(level, ops + more)| == |Encode(level, ops)| + |Encode(level, more)|
  {
    hide ReachesBack, ExpandOn, Encode, EncodeOp, Encodable;
    ReachesBackAppend([], ops, more);
    ExpandAppend([], ops, more);
    EncodeAppend(level, ops, more);
  }

  lemma CoversLiteral(level: Level, x: seq<byte>, ops: seq<Op>, p: nat, q: nat)
    requires Covers(level, x, ops, p) && p < q <= |x| && q - p <= MAX_COPY
    ensures Covers(level, x, ops + [Literal(x[p..q])], q)
    ensures |Encode(level, ops + [Literal(x[p..q])])| == |Encode(level, ops)| + 1 + (q - p)
  {
    var o := Literal(x[p..q]);
    assert [o][..0] == [];
    assert ExpandOn(x[..p], [o]) == x[..p] + x[p..q] == x[..q];
    assert Encode(level, [o]) == [] + EncodeOp(level, o);
    CoversMore(level, x, ops, p, [o], q);
  }

  lemma AddLiteralGood(c: Config, x: seq<byte>, s: State)
    requires Good(c, x, s) && Table(s.htab, s.ip + 1) && s.ip < |x|
    ensures Good(c, x, AddLiteral(x, s))
  {
    hide WellFormed, Encode, Expand;
    if s.copy + 1 == MAX_COPY {
      CoversLiteral(c.level, x, s.ops, s.ip - s.copy, s.ip + 1);
    }
  }

  lemma FlushLiteralsGood(c: Config, x: seq<byte>, s: State)
    requires Good(c, x, s)
    ensures Covers(c.level, x, FlushLiterals(x, s), s.ip)
    ensures |Encode(c.level, FlushLiterals(x, s))|
         == |Encode(c.level, s.ops)| + if s.copy == 0 then 0 else 1 + s.copy
  {
    hide WellFormed, Encode, Expand;
    if s.copy != 0 {
      CoversLiteral(c.level, x, s.ops, s.ip - s.copy, s.ip);
    }
  }

  lemma FlushNonEmpty(level: Level, x: seq<byte>, ops: seq<Op>, p: nat)
    requires Covers(level, x, ops, p) && 1 <= p
    ensures ops != []
  {
  }

  /** A flushed state followed by a match of x[p..q]. */
  lemma CoversMatch(level: Level, x: seq<byte>, ops: seq<Op>, p: nat, d: nat, q: nat)
    requires Covers(level, x, ops, p) && 1 <= d <= p < q <= |x|
    requires Repeats(x, d, p, q) && InWindow(level, d, q - p)
    ensures Covers(level, x, ops + SplitMatch(level, d, q - p), q)
    ensures |Encode(level, ops + SplitMatch(level, d, q - p))| <= |Encode(level, ops)| + (q - p) - 1
  {
    hide AllEncodable, Encode, Expand, ReachesBack, ExpandOn, SplitMatch, Repeats, CopyMatch;
    FlushNonEmpty(level, x, ops, p);
    SplitMatchMeaning(level, d, q - p, x[..p]);
    CopyMatchReproduces(x, d, p, q);
    CoversMore(level, x, ops, p, SplitMatch(level, d, q - p), q);
  }

  lemma RepeatsJoin(x: seq<byte>, d: nat, p: nat, q: nat, r: nat)
    requires Repeats(x, d, p, q) && Repeats(x, d, q, r) && p <= q <= r
    ensures Repeats(x, d, p, r)
  {
  }

  /** A match keeps the invariant, provided its first `start` bytes agree. */
  lemma AddMatchGood(c: Config, x: seq<byte>, s: State, d: nat, start: nat)
    requires Good(c, x, s) && Table(s.htab, s.ip + 1) && s.ip + 12 < |x| <= I32_MAX
    requires 1 <= d <= s.ip && (start == 3 || (start == 5 && d != 1))
    requires Repeats(x, d, s.ip, s.ip + start) && InWindow(c.level, d, start)
    ensures Good(c, x, AddMatch(c, x, s, d, start))
  {
    hide Covers, Encode, FlushLiterals, MatchEnd, Table, SplitMatch, Repeats, HashAt;
    var p := s.ip;
    var e := MatchEnd(x, d, p + start, Bound(x, d, p + start));
    MatchEndExact(x, d, p + start, Bound(x, d, p + start));
    RepeatsJoin(x, d, p, p + start, e - 1);
    FlushLiteralsGood(c, x, s);
    CoversMatch(c.level, x, FlushLiterals(x, s), p, d, e - 1);
  }

  /** One round of the main loop keeps the invariant, whatever the hash function is. */
  lemma StepGood(c: Config, x: seq<byte>, s: State)
    requires Good(c, x, s) && Table(s.htab, s.ip) && s.ip + 12 < |x| <= I32_MAX
    ensures Good(c, x, Step(c, x, s))
  {
    hide WellFormed, Encode, Expand, AddMatch, AddLiteral, Covers, Probe;
    if RunHere(c.level, x, s.ip) {
      assert Repeats(x, 1, s.ip, s.ip + 3);
      AddMatchGood(c, x, s, 1, 3);
    } else {
      var slot := HashAt(c, x, s.ip);
      var ref := s.htab[slot];
      var s' := s.(htab := s.htab[slot := s.ip]);
      ProbeExact(c.level, x, s.ip, ref);
      var start := Probe(c.level, x, s.ip, ref);
      if start == 0 {
        AddLiteralGood(c, x, s');
      } else {
        AddMatchGood(c, x, s', s.ip - ref, start);
      }
    }
  }

  lemma {:induction false} LoopGood(c: Config, x: seq<byte>, s: State)
    requires Good(c, x, s) && Table(s.htab, s.ip) && |x| <= I32_MAX
    ensures Good(c, x, Loop(c, x, s))
    decreases |x| - s.ip
  {
    hide Covers, Encode, Step;
    if s.ip + 12 < |x| {
      StepGood(c, x, s);
      LoopGood(c, x, Step(c, x, s));
    }
  }

  lemma {:induction false} TailGood(c: Config, x: seq<byte>, s: State)
    requires Good(c, x, s) && Table(s.htab, s.ip)
    ensures Good(c, x, Tail(x, s))
    decreases |x| - s.ip
  {
    hide Covers, Encode, AddLiteral;
    if s.ip < |x| {
      AddLiteralGood(c, x, s);
      TailGood(c, x, AddLiteral(x, s));
    }
  }

  lemma StartGood(c: Config, x: seq<byte>)
    requires 4 <= |x|
    ensures Good(c, x, Start())
  {
    assert x[..0] == [];
  }

  /** The level at which a block is written: short ones always have the level-1 form. */
  function BlockLevel(c: Config, x: seq<byte>): Level {
    if |x| < 4 then One else c.level
  }

  function CeilDiv(n: nat, m: nat): nat
    requires 0 < m
  {
    (n + m - 1) / m
  }

  /** The instruction list denotes the input, is expressible, begins with a literal run, and its code
      is at most |x| + ceil(|x| / 32) bytes long. */
  lemma ParseCorrect(c: Config, x: seq<byte>)
    requires |x| <= I32_MAX
    ensures Covers(BlockLevel(c, x), x, Parse(c, x), |x|)
    ensures |Encode(BlockLevel(c, x), Parse(c, x))| <= |x| + CeilDiv(|x|, 32)
    ensures x != [] ==> Parse(c, x) != []
  {
    assert x[..|x|] == x;
    if x == [] {
    } else if |x| < 4 {
      assert [] + [Literal(x[0..|x|])] == [Literal(x)];
      CoversLiteral(One, x, [], 0, |x|);
    } else {
      hide Covers, Encode, Loop, Tail, Start;
      StartGood(c, x);
      LoopGood(c, x, Start());
      var s := Loop(c, x, Start());
      TailGood(c, x, s);
      FlushLiteralsGood(c, x, Tail(x, s));
      FlushNonEmpty(c.level, x, Parse(c, x), |x|);
    }
  }
}
