/** What the compressor chooses, said without the functions that choose: when a round takes a match and
    which, how far it extends, what it writes in the hash table, and what that makes of a whole input. */
module FastlzChoice {
  import opened Bytes
  import opened LZ
  import opened FastlzFormat
  import opened FastlzParse
  import opened FastlzParseProofs
  import opened FastlzRoundTrip
  import opened FastlzCompress
  import opened Fastlz

  // ---------- one round ----------

  /** Four equal bytes around the cursor; only level 2 looks for them. */
  predicate StartsRun(level: Level, x: seq<byte>, p: nat)
    requires 1 <= p && p + 2 < |x|
  {
    level.Two? && x[p - 1] == x[p] == x[p + 1] == x[p + 2]
  }

  /** The candidate d bytes back lies in the window and agrees in three bytes, in five from 8191 on. */
  predicate Acceptable(level: Level, x: seq<byte>, p: nat, d: nat)
    requires d <= p && p + 5 <= |x|
  {
    && 1 <= d < (if level.One? then 8192 else 73725)
    && x[p] == x[p - d] && x[p + 1] == x[p + 1 - d] && x[p + 2] == x[p + 2 - d]
    && (level.Two? && 8191 <= d ==> x[p + 3] == x[p + 3 - d] && x[p + 4] == x[p + 4 - d])
  }

  /** Where extension gives up: three bytes before the end, or, in a match that starts near the end, at the
      last of the eight comparisons that come before the first look at the bound. */
  function Reach(level: Level, x: seq<byte>, p: nat, d: nat): nat
    requires p + 12 < |x|
  {
    var start := p + if level.Two? && 8191 <= d then 5 else 3;
    if d == 1 || start + 10 <= |x| then |x| - 3 else start + 7
  }

  /** r follows s by a match of distance d that goes on for as long as the bytes repeat.  The literals
      before it are flushed, and the last two positions it covers enter the table. */
  predicate TakesMatch(c: Config, x: seq<byte>, s: State, htab: seq<nat>, d: nat, r: State)
    requires s.copy <= s.ip <= |x| && s.ip + 12 < |x| && |htab| == HASH_SIZE
  {
    && s.ip + 3 <= r.ip <= Reach(c.level, x, s.ip, d) < |x|
    && Repeats(x, d, s.ip, r.ip) && (r.ip < Reach(c.level, x, s.ip, d) ==> d <= r.ip && x[r.ip] != x[r.ip - d])
    && r.copy == 0
    && r.ops == s.ops + (if s.copy == 0 then [] else [Literal(x[s.ip - s.copy..s.ip])])
                      + SplitMatch(c.level, d, r.ip - s.ip)
    && r.htab == htab[c.hash(x[r.ip - 2], x[r.ip - 1], x[r.ip]) := r.ip - 2]
                     [c.hash(x[r.ip - 1], x[r.ip], if r.ip + 1 < |x| then x[r.ip + 1] else c.beyond) := r.ip - 1]
  }

  /** r follows s by one more pending literal; the thirty-second completes an instruction. */
  predicate TakesLiteral(x: seq<byte>, s: State, htab: seq<nat>, r: State)
    requires s.copy <= s.ip < |x|
  {
    && r.ip == s.ip + 1 && r.htab == htab
    && if s.copy == 31 then r.copy == 0 && r.ops == s.ops + [Literal(x[s.ip - 31..s.ip + 1])]
       else r.copy == s.copy + 1 && r.ops == s.ops
  }

  /** A round takes a match exactly when a run starts or the candidate of the hash table is acceptable. */
  lemma StepExact(c: Config, x: seq<byte>, s: State)
    requires InRange(x, s) && Table(s.htab, s.ip) && s.ip + 12 < |x|
    ensures var p, r := s.ip, Step(c, x, s);
            var slot := c.hash(x[p], x[p + 1], x[p + 2]);
            var d := p - s.htab[slot];
            if StartsRun(c.level, x, p) then TakesMatch(c, x, s, s.htab, 1, r)
            else if Acceptable(c.level, x, p, d) then TakesMatch(c, x, s, s.htab[slot := p], d, r)
            else TakesLiteral(x, s, s.htab[slot := p], r)
  {
    hide Probe, AddMatch, Repeats;
    var p := s.ip;
    var slot := HashAt(c, x, p);
    var ref := s.htab[slot];
    var d := p - ref;
    if RunHere(c.level, x, p) {
      AddMatchExact(c, x, s, 1, 3) by { RunRepeats(x, p); }
    } else {
      ProbeMeans(c.level, x, p, ref);
      var start := Probe(c.level, x, p, ref);
      if start != 0 {
        AddMatchExact(c, x, s.(htab := s.htab[slot := p]), d, start);
      }
    }
  }

  lemma RunRepeats(x: seq<byte>, p: nat)
    requires 1 <= p && p + 3 <= |x| && x[p - 1] == x[p] == x[p + 1] == x[p + 2]
    ensures Repeats(x, 1, p, p + 3)
  {
  }

  lemma ProbeMeans(level: Level, x: seq<byte>, p: nat, ref: nat)
    requires ref <= p && p + 12 < |x|
    ensures var d, start := p - ref, Probe(level, x, p, ref);
            && (start != 0 <==> Acceptable(level, x, p, d))
            && (start != 0 ==> start == (if level.Two? && 8191 <= d then 5 else 3) && Repeats(x, d, p, p + start))
  {
    hide Probe;
    ProbeExact(level, x, p, ref);
    var d := p - ref;
    if Repeats(x, d, p, p + 3) {
      assert x[p] == x[p - d] && x[p + 1] == x[p + 1 - d] && x[p + 2] == x[p + 2 - d];
    }
    if Repeats(x, d, p, p + 5) {
      assert x[p + 3] == x[p + 3 - d] && x[p + 4] == x[p + 4 - d] && Repeats(x, d, p, p + 3);
    }
  }

  /** Where extension ends, one back from where the loops stop. */
  lemma EndExact(level: Level, x: seq<byte>, p: nat, d: nat, start: nat)
    requires p + 12 < |x| && 1 <= d <= p && start == (if level.Two? && 8191 <= d then 5 else 3)
    requires Repeats(x, d, p, p + start)
    ensures var e := MatchEnd(x, d, p + start, Bound(x, d, p + start)) - 1;
            && p + 3 <= e <= Reach(level, x, p, d) < |x| && Repeats(x, d, p, e)
            && (e < Reach(level, x, p, d) ==> x[e] != x[e - d])
  {
    hide MatchEnd, Repeats;
    var k := p + start;
    MatchEndExact(x, d, k, Bound(x, d, k));
    RepeatsJoin(x, d, p, k, MatchEnd(x, d, k, Bound(x, d, k)) - 1);
  }

  lemma AddMatchExact(c: Config, x: seq<byte>, s: State, d: nat, start: nat)
    requires InRange(x, s) && Table(s.htab, s.ip + 1) && s.ip + 12 < |x|
    requires 1 <= d <= s.ip && start == (if c.level.Two? && 8191 <= d then 5 else 3)
    requires Repeats(x, d, s.ip, s.ip + start)
    ensures TakesMatch(c, x, s, s.htab, d, AddMatch(c, x, s, d, start))
  {
    hide MatchEnd, SplitMatch, Repeats, Bound, Reach;
    EndExact(c.level, x, s.ip, d, start);
  }

  // ---------- a whole input ----------

  /** One round, or one of the left-over literals in the last twelve bytes. */
  predicate Follows(c: Config, x: seq<byte>, s: State, r: State) {
    && 2 <= s.ip < |x| && s.copy <= s.ip && |s.htab| == HASH_SIZE
    && if |x| <= s.ip + 12 then TakesLiteral(x, s, s.htab, r)
       else
         var p := s.ip;
         var slot := c.hash(x[p], x[p + 1], x[p + 2]);
         && s.htab[slot] <= p
         && var d := p - s.htab[slot];
            if StartsRun(c.level, x, p) then TakesMatch(c, x, s, s.htab, 1, r)
            else if Acceptable(c.level, x, p, d) then TakesMatch(c, x, s, s.htab[slot := p], d, r)
            else TakesLiteral(x, s, s.htab[slot := p], r)
  }

  predicate Rounds(c: Config, x: seq<byte>, run: seq<State>) {
    forall i :: 0 <= i < |run| - 1 ==> Follows(c, x, run[i], run[i + 1])
  }

  lemma OneRound(c: Config, x: seq<byte>, s: State)
    requires InRange(x, s) && Table(s.htab, s.ip) && s.ip < |x|
    ensures Follows(c, x, s, if s.ip + 12 < |x| then Step(c, x, s) else AddLiteral(x, s))
  {
    hide Step, TakesMatch;
    if s.ip + 12 < |x| {
      StepExact(c, x, s);
    }
  }

  lemma {:induction false} RunFrom(c: Config, x: seq<byte>, s: State) returns (run: seq<State>)
    requires InRange(x, s) && Table(s.htab, s.ip)
    ensures run != [] && run[0] == s && run[|run| - 1] == Tail(x, Loop(c, x, s)) && Rounds(c, x, run)
    decreases |x| - s.ip
  {
    hide Step, AddLiteral, Follows;
    if s.ip < |x| {
      OneRound(c, x, s);
      var rest := RunFrom(c, x, if s.ip + 12 < |x| then Step(c, x, s) else AddLiteral(x, s));
      run := [s] + rest;
    } else {
      run := [s];
    }
  }

  /** The compressor starts with two pending literals and a table that names position 0 everywhere, makes
      round after round to the end of the input, and closes the pending literals. */
  lemma ParseRun(c: Config, x: seq<byte>) returns (run: seq<State>)
    requires 4 <= |x|
    ensures run != [] && Rounds(c, x, run)
    ensures run[0].ip == run[0].copy == 2 && run[0].ops == []
    ensures |run[0].htab| == 8192 && forall k :: 0 <= k < 8192 ==> run[0].htab[k] == 0
    ensures var last := run[|run| - 1];
            && last.ip == |x| && last.copy < 32 && last.copy <= |x|
            && Parse(c, x) == last.ops + if last.copy == 0 then [] else [Literal(x[|x| - last.copy..])]
  {
    hide Loop, Tail, Rounds;
    run := RunFrom(c, x, Start());
    var last := Tail(x, Loop(c, x, Start()));
    assert x[|x| - last.copy..] == x[|x| - last.copy..|x|];
  }

  /** Short inputs are one literal. */
  lemma ParseShort(c: Config, x: seq<byte>)
    requires |x| < 4
    ensures Parse(c, x) == if x == [] then [] else [Literal(x)]
  {
  }

  // ---------- the pieces of a long match ----------

  /** Level 2 writes any match whole.  Level 1 writes up to 264 bytes whole; of a longer match it cuts off
      as many pieces of 262 bytes as leave a rest of 3 to 264. */
  lemma {:induction false} SplitExact(level: Level, d: nat, count: nat)
    requires 3 <= count
    ensures var ps, k := SplitMatch(level, d, count), if level.Two? then 0 else (count - 3) / 262;
            && |ps| == k + 1 && ps[k] == Match(d, count - 262 * k)
            && forall i :: 0 <= i < k ==> ps[i] == Match(d, 262)
    decreases count
  {
    if level.One? && 264 < count {
      SplitExact(level, d, count - 262);
      assert (count - 262 - 3) / 262 == (count - 3) / 262 - 1;
    }
  }

  // ---------- repeated data gets small ----------

  /** The code of a level-1 match: at most three bytes for every piece. */
  lemma {:induction false} SplitSizeOne(d: nat, count: nat)
    requires 1 <= d <= 8192 && 3 <= count
    requires AllEncodable(One, SplitMatch(One, d, count))
    ensures |Encode(One, SplitMatch(One, d, count))| <= 3 * ((count - 3) / 262 + 1)
    decreases count
  {
    hide Encode, SplitMatch, AllEncodable;
    if 264 < count {
      SplitMore(d, count);
      SplitSizeOne(d, count - 262);
      assert (count - 262 - 3) / 262 == (count - 3) / 262 - 1;
    } else {
      SplitLast(One, d, count);
    }
  }

  /** Three bytes left over. */
  lemma TailOfThree(x: seq<byte>, s: State)
    requires InRange(x, s) && Table(s.htab, s.ip) && s.ip + 3 == |x| && s.copy == 0
    ensures var t := Tail(x, s); t.ip == |x| && t.copy == 3 && t.ops == s.ops
  {
    var r := AddLiteral(x, s);
    var q := AddLiteral(x, r);
    assert Tail(x, s) == Tail(x, r) == Tail(x, q);
  }

  lemma FirstMatch(c: Config, v: byte, n: nat)
    requires 15 <= n
    ensures var x := seq(n, _ => v);
            var r := Step(c, x, Start());
            && r.ip == n - 3 && r.copy == 0
            && r.ops == [Literal([v, v])] + SplitMatch(c.level, if c.level.One? then 2 else 1, n - 5)
  {
    hide Step, SplitMatch;
    var x := seq(n, _ => v);
    StepExact(c, x, Start());
    assert x[0..2] == [v, v];
  }

  /** n equal bytes, n >= 15: two literals, one match, three literals. */
  lemma EqualBytesParse(c: Config, v: byte, n: nat)
    requires 15 <= n
    ensures Parse(c, seq(n, _ => v))
         == [Literal([v, v])] + SplitMatch(c.level, if c.level.One? then 2 else 1, n - 5) + [Literal([v, v, v])]
  {
    hide Step, SplitMatch, HashAt, Start, Tail;
    var x := seq(n, _ => v);
    FirstMatch(c, v, n);
    var r := Step(c, x, Start());
    assert Loop(c, x, Start()) == Loop(c, x, r) == r by { assert Start().ip == 2 by { StartsAtTwo(); } }
    TailOfThree(x, r);
    assert x[n - 3..n] == [v, v, v];
  }

  lemma StartsAtTwo()
    ensures Start().ip == 2
  {
  }

  /** The compressor compresses: of n equal bytes it makes at most 10 bytes and three for every 262 more at
      level 1, and exactly 10 bytes and one for every 255 more at level 2, whatever the hash function. */
  lemma EqualBytes(c: Config, v: byte, n: nat)
    requires 15 <= n <= I32_MAX
    ensures var size := |Block(c, seq(n, _ => v))|;
            if c.level.One? then size <= 10 + 3 * ((n - 8) / 262) else size == 10 + (n - 14) / 255
  {
    hide Block, Parse, Encode, SplitMatch, AllEncodable, EncodeMatch;
    var x := seq(n, _ => v);
    BlockIs(c, x);
    EqualBytesParse(c, v, n);
    var d := if c.level.One? then 2 else 1;
    var m := SplitMatch(c.level, d, n - 5);
    MatchCode(c.level, d, n - 5);
    LiteralFirst(c.level, [v, v], m);
    var a := [Literal([v, v])] + m;
    LiteralLast(c.level, a, [v, v, v]);
  }

  lemma LiteralFirst(level: Level, lits: seq<byte>, ops: seq<Op>)
    requires 1 <= |lits| <= 32 && AllEncodable(level, ops)
    ensures AllEncodable(level, [Literal(lits)] + ops)
    ensures |Encode(level, [Literal(lits)] + ops)| == 1 + |lits| + |Encode(level, ops)|
  {
    hide Encode;
    LiteralCode(level, lits);
    LastOp(level, [], Literal(lits));
    assert [] + [Literal(lits)] == [Literal(lits)];
    assert Encode(level, []) == [] by { EmptyCode(level); }
    EncodeAppend(level, [Literal(lits)], ops);
  }

  lemma LiteralLast(level: Level, ops: seq<Op>, lits: seq<byte>)
    requires 1 <= |lits| <= 32 && AllEncodable(level, ops)
    ensures AllEncodable(level, ops + [Literal(lits)])
    ensures |Encode(level, ops + [Literal(lits)])| == |Encode(level, ops)| + 1 + |lits|
  {
    hide Encode;
    LiteralCode(level, lits);
    LastOp(level, ops, Literal(lits));
  }

  lemma MatchCode(level: Level, d: nat, count: nat)
    requires d == (if level.One? then 2 else 1) && 10 <= count <= I32_MAX
    ensures AllEncodable(level, SplitMatch(level, d, count))
    ensures var size := |Encode(level, SplitMatch(level, d, count))|;
            if level.One? then size <= 3 + 3 * ((count - 3) / 262) else size == 3 + (count - 9) / 255
  {
    hide Encode, AllEncodable, ReachesBack, ExpandOn, CopyMatch;
    SplitMatchMeaning(level, d, count, [0, 0]);
    if level.One? {
      hide SplitMatch;
      SplitSizeOne(d, count);
    } else {
      SplitLast(Two, 1, count);
    }
  }
}
