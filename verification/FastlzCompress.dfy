/** The compressor as the program runs it: one pass over the input, a hash table updated in place, a
    literal count back-patched in the output buffer.  Each method is proved against the choice of
    instructions in FastlzParse. */
module FastlzCompress {
  import opened Bytes
  import opened LZ
  import opened FastlzFormat
  import opened FastlzRoundTrip
  import opened FastlzParse
  import opened FastlzParseProofs

  /** The compressed form of x. */
  function Block(c: Config, x: seq<byte>): seq<byte>
    requires |x| <= I32_MAX
  {
    ParseCorrect(c, x);
    if x == [] then []
    else
      var e := Encode(BlockLevel(c, x), Parse(c, x));
      BlockNonEmpty(c, x);
      SetMarker(BlockLevel(c, x), e)
  }

  lemma BlockNonEmpty(c: Config, x: seq<byte>)
    requires 1 <= |x| <= I32_MAX
    ensures AllEncodable(BlockLevel(c, x), Parse(c, x)) && Encode(BlockLevel(c, x), Parse(c, x)) != []
  {
    hide Parse, Encode, ReachesBack;
    ParseCorrect(c, x);
    FirstByte(BlockLevel(c, x), Parse(c, x));
  }

  /** The output buffer the compressor needs. */
  function Capacity(n: nat): nat {
    if n == 0 then 0 else n + n / 32 + 1
  }

  /** What the output holds at a loop head: finished instructions, an open count slot, and the pending
      literals. */
  ghost function Pending(level: Level, x: seq<byte>, s: State): seq<byte>
    requires InRange(x, s) && AllEncodable(level, s.ops)
  {
    Encode(level, s.ops) + [MAX_COPY - 1] + x[s.ip - s.copy..s.ip]
  }

  lemma PendingFits(c: Config, x: seq<byte>, s: State)
    requires Good(c, x, s) && 1 <= |x|
    ensures AllEncodable(c.level, s.ops)
    ensures |Pending(c.level, x, s)| == |Encode(c.level, s.ops)| + 1 + s.copy <= Capacity(|x|)
  {
    hide Encode, ReachesBack, Expand, Encodable;
    assert |Encode(c.level, s.ops)| + s.copy <= s.ip + s.ip / 32;
  }

  /** Match extension in a run: the byte behind the cursor is compared with the repeated value. */
  method ExtendRun(x: seq<byte>, start: nat) returns (ip: nat)
    requires 2 <= start <= |x| - 2 && x[start - 1] == x[start - 2]
    ensures ip == MatchEnd(x, 1, start, |x| - 2)
  {
    ip := start;
    var ref := start - 1;
    var v := x[ip - 1];
    while ip < |x| - 2
      invariant start <= ip <= |x| - 2 && ref == ip - 1
      invariant x[ip - 1] != v ==> start < ip && MatchEnd(x, 1, start, |x| - 2) == ip
      invariant x[ip - 1] == v ==> MatchEnd(x, 1, start, |x| - 2) == MatchEnd(x, 1, ip, |x| - 2)
    {
      if x[ref] != v {
        break;
      }
      ref, ip := ref + 1, ip + 1;
    }
  }

  lemma MatchEndStep(x: seq<byte>, d: nat, k: nat, bound: nat)
    requires 1 <= d <= k <= bound <= |x|
    ensures MatchEnd(x, d, k, bound)
         == if k == bound then k else if x[k] != x[k - d] then k + 1 else MatchEnd(x, d, k + 1, bound)
  {
  }

  lemma BoundFacts(x: seq<byte>, d: nat, start: nat)
    requires 1 < d && 2 <= start && start + 8 <= |x|
    ensures var b := Bound(x, d, start);
            start + 8 <= b <= |x| && (b == |x| - 2 || (b == start + 8 && |x| - 2 <= b))
  {
  }

  /** Match extension at any other distance: eight unrolled comparisons, then a bounded loop. */
  method ExtendCopy(x: seq<byte>, d: nat, start: nat) returns (ip: nat)
    requires 1 < d <= start && start + 8 <= |x|
    ensures ip == MatchEnd(x, d, start, Bound(x, d, start))
  {
    hide MatchEnd, Bound;
    ghost var b := Bound(x, d, start);
    BoundFacts(x, d, start);
    ip := start;
    var ref := start - d;
    MatchEndStep(x, d, ip, b);
    ip, ref := ip + 1, ref + 1;
    if x[ref - 1] != x[ip - 1] { return; }
    MatchEndStep(x, d, ip, b);
    ip, ref := ip + 1, ref + 1;
    if x[ref - 1] != x[ip - 1] { return; }
    MatchEndStep(x, d, ip, b);
    ip, ref := ip + 1, ref + 1;
    if x[ref - 1] != x[ip - 1] { return; }
    MatchEndStep(x, d, ip, b);
    ip, ref := ip + 1, ref + 1;
    if x[ref - 1] != x[ip - 1] { return; }
    MatchEndStep(x, d, ip, b);
    ip, ref := ip + 1, ref + 1;
    if x[ref - 1] != x[ip - 1] { return; }
    MatchEndStep(x, d, ip, b);
    ip, ref := ip + 1, ref + 1;
    if x[ref - 1] != x[ip - 1] { return; }
    MatchEndStep(x, d, ip, b);
    ip, ref := ip + 1, ref + 1;
    if x[ref - 1] != x[ip - 1] { return; }
    MatchEndStep(x, d, ip, b);
    ip, ref := ip + 1, ref + 1;
    if x[ref - 1] != x[ip - 1] { return; }
    while ip < |x| - 2
      invariant start + 8 <= ip <= b && ref == ip - d
      invariant MatchEnd(x, d, start, b) == MatchEnd(x, d, ip, b)
    {
      MatchEndStep(x, d, ip, b);
      ip, ref := ip + 1, ref + 1;
      if x[ref - 1] != x[ip - 1] {
        return;
      }
    }
    MatchEndStep(x, d, ip, b);
  }

  /** Where the match of distance d ends, its bytes before `start` being known to agree. */
  method ExtendMatch(x: seq<byte>, d: nat, start: nat) returns (ip: nat)
    requires 1 <= d <= start && 2 <= start && start + 8 <= |x|
    requires d == 1 ==> x[start - 1] == x[start - 2]
    ensures ip == MatchEnd(x, d, start, Bound(x, d, start))
  {
    if d == 1 {
      ip := ExtendRun(x, start);
    } else {
      ip := ExtendCopy(x, d, start);
    }
  }

  /** `*op++ = b` */
  method Put(output: array<byte>, op: nat, b: byte) returns (op': nat)
    requires op < output.Length
    modifies output
    ensures op' == op + 1 && output[..op'] == old(output[..op]) + [b]
    ensures forall k :: op' <= k < output.Length ==> output[k] == old(output[k])
  {
    output[op] := b;
    op' := op + 1;
  }

  method WriteChain(output: array<byte>, op: nat, len: nat) returns (op': nat)
    requires op + |Chain(len)| <= output.Length
    modifies output
    ensures op' == op + |Chain(len)| && output[..op'] == old(output[..op]) + Chain(len)
    ensures forall k :: op' <= k < output.Length ==> output[k] == old(output[k])
  {
    op' := op;
    var rest := len;
    ghost var base := output[..op];
    while rest >= 255
      invariant op <= op' && op' + |Chain(rest)| == op + |Chain(len)|
      invariant output[..op'] + Chain(rest) == base + Chain(len)
      invariant forall k :: op' <= k < output.Length ==> output[k] == old(output[k])
    {
      ghost var before := output[..op'];
      op' := Put(output, op', 255);
      assert before + Chain(rest) == before + [255] + Chain(rest - 255);
      rest := rest - 255;
    }
    op' := Put(output, op', rest);
  }

  method WriteLength(level: Level, output: array<byte>, op: nat, len: nat, hi: nat) returns (op': nat)
    requires 1 <= len && hi < 32 && (level.One? ==> len <= MAX_LEN - 2)
    requires op + |EncodeLength(level, len, hi)| <= output.Length
    modifies output
    ensures op' == op + |EncodeLength(level, len, hi)|
    ensures output[..op'] == old(output[..op]) + EncodeLength(level, len, hi)
    ensures forall k :: op' <= k < output.Length ==> output[k] == old(output[k])
  {
    hide Chain;
    if len < 7 {
      op' := Put(output, op, len * 32 + hi);
    } else {
      op' := Put(output, op, 7 * 32 + hi);
      if level.One? {
        op' := Put(output, op', len - 7);
      } else {
        op' := WriteChain(output, op', len - 7);
      }
    }
  }

  /** The code of one match, near or behind the 16-bit escape. */
  method WriteCode(level: Level, output: array<byte>, op: nat, dist: nat, len: nat) returns (op': nat)
    requires 1 <= len
    requires level.One? ==> dist < NEAR_ONE && len <= MAX_LEN - 2
    requires level.Two? ==> dist < NEAR_TWO + 0x1_0000
    requires op + |EncodeMatch(level, dist, len)| <= output.Length
    modifies output
    ensures op' == op + |EncodeMatch(level, dist, len)|
    ensures output[..op'] == old(output[..op]) + EncodeMatch(level, dist, len)
    ensures forall k :: op' <= k < output.Length ==> output[k] == old(output[k])
  {
    hide EncodeLength;
    ghost var base := output[..op];
    if level.Two? && NEAR_TWO <= dist {
      var far := dist - NEAR_TWO;
      op' := WriteLength(level, output, op, len, 31);
      ghost var head := output[..op'];
      op' := Put(output, op', 255);
      op' := Put(output, op', far / 256);
      op' := Put(output, op', far % 256);
      assert output[..op'] == head + [255, far / 256, far % 256];
    } else {
      op' := WriteLength(level, output, op, len, dist / 256);
      op' := Put(output, op', dist % 256);
    }
  }

  lemma SplitLast(level: Level, d: nat, count: nat)
    requires Encodable(level, Match(d, count))
    ensures AllEncodable(level, SplitMatch(level, d, count))
    ensures Encode(level, SplitMatch(level, d, count)) == EncodeMatch(level, d - 1, count - 2)
  {
    hide EncodeMatch;
    LastOp(level, [], Match(d, count));
    assert [] + [Match(d, count)] == [Match(d, count)];
  }

  /** A level-1 match longer than 264 bytes: the bytes of its first piece, then the rest. */
  lemma SplitMore(d: nat, count: nat)
    requires 1 <= d <= NEAR_ONE && count > MAX_LEN
    requires AllEncodable(One, SplitMatch(One, d, count))
    ensures AllEncodable(One, SplitMatch(One, d, count - (MAX_LEN - 2)))
    ensures Encode(One, SplitMatch(One, d, count))
         == [7 * 32 + (d - 1) / 256, MAX_LEN - 2 - 7 - 2, (d - 1) % 256]
            + Encode(One, SplitMatch(One, d, count - (MAX_LEN - 2)))
  {
    hide Encode, Encodable;
    var piece := Match(d, MAX_LEN - 2);
    var s, rest := SplitMatch(One, d, count), SplitMatch(One, d, count - (MAX_LEN - 2));
    assert s == [piece] + rest;
    assert forall k :: 0 <= k < |rest| ==> rest[k] == s[k + 1];
    PieceCode(d);
    EncodeAppend(One, [piece], rest);
  }

  lemma PieceCode(d: nat)
    requires 1 <= d <= NEAR_ONE
    ensures Encodable(One, Match(d, MAX_LEN - 2))
    ensures Encode(One, [Match(d, MAX_LEN - 2)])
         == [7 * 32 + (d - 1) / 256, MAX_LEN - 2 - 7 - 2, (d - 1) % 256]
  {
    LastOp(One, [], Match(d, MAX_LEN - 2));
    assert [] + [Match(d, MAX_LEN - 2)] == [Match(d, MAX_LEN - 2)];
  }

  /** A whole match of biased distance `dist`; level 1 first emits pieces of 262 bytes. */
  method WriteMatch(level: Level, output: array<byte>, op: nat, dist: nat, length: nat) returns (op': nat)
    requires InWindow(level, dist + 1, length + 2) && AllEncodable(level, SplitMatch(level, dist + 1, length + 2))
    requires op + |Encode(level, SplitMatch(level, dist + 1, length + 2))| <= output.Length
    modifies output
    ensures op' == op + |Encode(level, SplitMatch(level, dist + 1, length + 2))|
    ensures output[..op'] == old(output[..op]) + Encode(level, SplitMatch(level, dist + 1, length + 2))
    ensures forall k :: op' <= k < output.Length ==> output[k] == old(output[k])
  {
    hide Encode, SplitMatch, EncodeMatch, AllEncodable;
    op' := op;
    var len := length;
    ghost var base := output[..op];
    while level.One? && len > MAX_LEN - 2
      invariant 1 <= len <= length && op <= op'
      invariant AllEncodable(level, SplitMatch(level, dist + 1, len + 2))
      invariant op' + |Encode(level, SplitMatch(level, dist + 1, len + 2))|
             == op + |Encode(level, SplitMatch(level, dist + 1, length + 2))|
      invariant output[..op'] + Encode(level, SplitMatch(level, dist + 1, len + 2))
             == base + Encode(level, SplitMatch(level, dist + 1, length + 2))
      invariant forall k :: op' <= k < output.Length ==> output[k] == old(output[k])
    {
      SplitMore(dist + 1, len + 2);
      ghost var before := output[..op'];
      op' := Put(output, op', 7 * 32 + dist / 256);
      op' := Put(output, op', MAX_LEN - 2 - 7 - 2);
      op' := Put(output, op', dist % 256);
      assert output[..op'] == before + [7 * 32 + dist / 256, MAX_LEN - 2 - 7 - 2, dist % 256];
      len := len - (MAX_LEN - 2);
    }
    SplitLast(level, dist + 1, len + 2);
    op' := WriteCode(level, output, op', dist, len);
  }

  /** The code of a literal run that may be empty. */
  function Closed(pending: seq<byte>): seq<byte>
    requires |pending| <= MAX_COPY
  {
    if pending == [] then [] else [|pending| - 1] + pending
  }

  /** Closes the open literal run: its count is patched in place, or the empty slot is dropped. */
  method CloseLiterals(output: array<byte>, op: nat, copy: nat, ghost done: seq<byte>, ghost pending: seq<byte>)
    returns (op': nat)
    requires |pending| == copy < MAX_COPY && op <= output.Length
    requires output[..op] == done + [MAX_COPY - 1] + pending
    modifies output
    ensures op' <= op && output[..op'] == done + Closed(pending)
    ensures forall k :: op <= k < output.Length ==> output[k] == old(output[k])
  {
    if copy != 0 {
      output[op - copy - 1] := copy - 1;
      op' := op;
      assert output[..op'] == done + ([copy - 1] + pending);
    } else {
      op' := op - 1;
      assert output[..op'] == done;
    }
  }

  // ---------- one round, in place ----------

  /** The buffer and the table agree with the state s, and so do the loop variables. */
  ghost predicate Matches(c: Config, x: seq<byte>, s: State, output: array<byte>, op: nat, ip: nat, copy: nat)
    reads output
  {
    && Good(c, x, s) && s.ip == ip && s.copy == copy
    && 1 <= |x| && Capacity(|x|) <= output.Length
    && op <= output.Length && output[..op] == Pending(c.level, x, s)
  }

  lemma PendingLiteral(c: Config, x: seq<byte>, s: State)
    requires Good(c, x, s) && Table(s.htab, s.ip + 1) && s.ip < |x|
    ensures var r := AddLiteral(x, s);
            && AllEncodable(c.level, r.ops)
            && Pending(c.level, x, r)
               == Pending(c.level, x, s) + [x[s.ip]] + if s.copy + 1 < MAX_COPY then [] else [MAX_COPY - 1]
  {
    hide Encode, ReachesBack, Expand, Encodable, Table;
    var p := s.ip;
    assert x[p - s.copy..p] + [x[p]] == x[p - s.copy..p + 1];
    if s.copy + 1 == MAX_COPY {
      var lits := x[p + 1 - MAX_COPY..p + 1];
      assert Encodable(c.level, Literal(lits)) && EncodeOp(c.level, Literal(lits)) == [MAX_COPY - 1] + lits by {
        LiteralCode(c.level, lits);
      }
      LastOp(c.level, s.ops, Literal(lits));
    }
  }

  lemma LiteralCode(level: Level, lits: seq<byte>)
    requires 1 <= |lits| <= MAX_COPY
    ensures Encodable(level, Literal(lits)) && EncodeOp(level, Literal(lits)) == [|lits| - 1] + lits
  {
  }

  /** One literal; a full run of 32 needs no patch and opens a new slot at once. */
  method EmitLiteral(c: Config, x: seq<byte>, ghost s: State, output: array<byte>, op: nat, ip: nat, copy: nat)
    returns (op': nat, copy': nat)
    requires Matches(c, x, s, output, op, ip, copy) && Table(s.htab, s.ip + 1) && ip < |x|
    modifies output
    ensures Matches(c, x, AddLiteral(x, s), output, op', ip + 1, copy')
    ensures forall k :: Capacity(|x|) <= k < output.Length ==> output[k] == old(output[k])
  {
    hide Encode, WellFormed, Expand, Table, Covers;
    AddLiteralGood(c, x, s);
    PendingLiteral(c, x, s);
    PendingFits(c, x, AddLiteral(x, s));
    op' := Put(output, op, x[ip]);
    copy' := copy + 1;
    if copy' == MAX_COPY {
      copy' := 0;
      op' := Put(output, op', MAX_COPY - 1);
    }
  }

  function ClosedRun(x: seq<byte>, s: State): seq<byte>
    requires InRange(x, s)
  {
    Closed(x[s.ip - s.copy..s.ip])
  }

  /** How the buffer grows when s becomes r by a match of distance d. */
  ghost predicate Grown(level: Level, x: seq<byte>, s: State, r: State, d: nat) {
    && InRange(x, s) && InRange(x, r) && s.ip <= r.ip && 1 <= d
    && AllEncodable(level, s.ops) && AllEncodable(level, r.ops)
    && AllEncodable(level, SplitMatch(level, d, r.ip - s.ip))
    && InWindow(level, d, r.ip - s.ip)
    && Pending(level, x, r)
       == Encode(level, s.ops) + ClosedRun(x, s) + Encode(level, SplitMatch(level, d, r.ip - s.ip)) + [MAX_COPY - 1]
  }

  lemma PendingMatch(c: Config, x: seq<byte>, s: State, d: nat, start: nat)
    requires Good(c, x, s) && Table(s.htab, s.ip + 1) && s.ip + 12 < |x| <= I32_MAX
    requires 1 <= d <= s.ip && (start == 3 || (start == 5 && d != 1))
    requires Repeats(x, d, s.ip, s.ip + start) && InWindow(c.level, d, start)
    ensures Good(c, x, AddMatch(c, x, s, d, start))
    ensures Grown(c.level, x, s, AddMatch(c, x, s, d, start), d)
  {
    hide Encode, ReachesBack, Expand, Encodable, Table, FlushLiterals, MatchEnd, SplitMatch, ClosedRun, CopyMatch;
    AddMatchGood(c, x, s, d, start);
    var r := AddMatch(c, x, s, d, start);
    var m := SplitMatch(c.level, d, r.ip - s.ip);
    SplitMatchMeaning(c.level, d, r.ip - s.ip, x[..s.ip]);
    FlushCodeClosed(c, x, s);
    EncodeAppend(c.level, FlushLiterals(x, s), m);
    assert x[r.ip - 0..r.ip] == [];
  }

  lemma FlushCodeClosed(c: Config, x: seq<byte>, s: State)
    requires Good(c, x, s)
    ensures AllEncodable(c.level, FlushLiterals(x, s))
    ensures Encode(c.level, FlushLiterals(x, s)) == Encode(c.level, s.ops) + ClosedRun(x, s)
  {
    hide Encode, ReachesBack, Expand, Encodable, EncodeOp;
    if s.copy != 0 {
      var lits := x[s.ip - s.copy..s.ip];
      LiteralCode(c.level, lits);
      LastOp(c.level, s.ops, Literal(lits));
    }
  }

  lemma RepeatedByte(x: seq<byte>, d: nat, p: nat, q: nat)
    requires Repeats(x, d, p, q) && p < q
    ensures d == 1 && p + 1 < q ==> x[q - 1] == x[q - 2]
  {
  }

  /** Closes the run, writes the match and opens the next count slot. */
  method EmitMatchCode(level: Level, output: array<byte>, op: nat, copy: nat, dist: nat, len: nat,
                       ghost done: seq<byte>, ghost pending: seq<byte>)
    returns (op': nat)
    requires |pending| == copy < MAX_COPY && op <= output.Length
    requires output[..op] == done + [MAX_COPY - 1] + pending
    requires InWindow(level, dist + 1, len + 2) && AllEncodable(level, SplitMatch(level, dist + 1, len + 2))
    requires |done + Closed(pending)| + |Encode(level, SplitMatch(level, dist + 1, len + 2))| < output.Length
    modifies output
    ensures op' <= output.Length
    ensures output[..op']
         == done + Closed(pending) + Encode(level, SplitMatch(level, dist + 1, len + 2)) + [MAX_COPY - 1]
    ensures forall k :: op <= k && op' <= k < output.Length ==> output[k] == old(output[k])
  {
    hide Encode, SplitMatch, AllEncodable, InWindow;
    op' := CloseLiterals(output, op, copy, done, pending);
    op' := WriteMatch(level, output, op', dist, len);
    op' := Put(output, op', MAX_COPY - 1);
  }

  /** The two positions at the end of a match enter the hash table. */
  method EnterBoundary(c: Config, x: seq<byte>, htab: array<nat>, ip: nat) returns (ip': nat)
    requires htab.Length == HASH_SIZE && ip + 3 <= |x|
    modifies htab
    ensures ip' == ip + 2
    ensures htab[..] == old(htab[..])[HashAt(c, x, ip) := ip][HashAt(c, x, ip + 1) := ip + 1]
  {
    htab[HashAt(c, x, ip)] := ip;
    ip' := ip + 1;
    htab[HashAt(c, x, ip')] := ip';
    ip' := ip' + 1;
  }

  lemma AddMatchShape(c: Config, x: seq<byte>, s: State, d: nat, start: nat)
    requires InRange(x, s) && Table(s.htab, s.ip + 1) && s.ip + 12 < |x|
    requires 1 <= d <= s.ip && (start == 3 || (start == 5 && d != 1))
    ensures var r, e := AddMatch(c, x, s, d, start), MatchEnd(x, d, s.ip + start, Bound(x, d, s.ip + start));
            && s.ip + 4 <= e <= |x| && r.ip == e - 1 && r.copy == 0
            && r.htab == s.htab[HashAt(c, x, e - 3) := e - 3][HashAt(c, x, e - 2) := e - 2]
  {
  }

  /** A match whose first `start` bytes agree: extended, encoded, its end entered in the table. */
  method EmitMatch(c: Config, x: seq<byte>, ghost s: State, output: array<byte>, htab: array<nat>,
                   op: nat, ip: nat, copy: nat, d: nat, start: nat)
    returns (op': nat, ip': nat)
    requires Matches(c, x, s, output, op, ip, copy) && |x| <= I32_MAX
    requires htab[..] == s.htab && Table(s.htab, s.ip + 1) && ip + 12 < |x|
    requires 1 <= d <= ip && (start == 3 || (start == 5 && d != 1))
    requires Repeats(x, d, ip, ip + start) && InWindow(c.level, d, start)
    modifies output, htab
    ensures Matches(c, x, AddMatch(c, x, s, d, start), output, op', ip', 0)
    ensures htab[..] == AddMatch(c, x, s, d, start).htab
    ensures forall k :: Capacity(|x|) <= k < output.Length ==> output[k] == old(output[k])
  {
    hide Encode, Good, AddMatch, MatchEnd, Bound, HashAt, SplitMatch, Repeats, InWindow, Closed;
    InRangeOf(c, x, s);
    AddMatchShape(c, x, s, d, start);
    var anchor := ip;
    RepeatedByte(x, d, ip, ip + start);
    ip' := ExtendMatch(x, d, anchor + start);
    ghost var r := AddMatch(c, x, s, d, start);
    PendingMatch(c, x, s, d, start);
    PendingFits(c, x, s);
    PendingFits(c, x, r);
    ip' := ip' - 3;
    op' := EmitMatchCode(c.level, output, op, copy, d - 1, ip' - anchor, Encode(c.level, s.ops), x[ip - copy..ip]);
    ip' := EnterBoundary(c, x, htab, ip');
  }

  /** One round of the main loop. */
  method Round(c: Config, x: seq<byte>, ghost s: State, output: array<byte>, htab: array<nat>,
               op: nat, ip: nat, copy: nat)
    returns (op': nat, ip': nat, copy': nat)
    requires Matches(c, x, s, output, op, ip, copy) && |x| <= I32_MAX
    requires htab[..] == s.htab && Table(s.htab, s.ip) && ip + 12 < |x|
    modifies output, htab
    ensures Matches(c, x, Step(c, x, s), output, op', ip', copy')
    ensures htab[..] == Step(c, x, s).htab
    ensures forall k :: Capacity(|x|) <= k < output.Length ==> output[k] == old(output[k])
  {
    hide Good, AddMatch, Probe, Pending, Repeats;
    assert InRange(x, s) by { InRangeOf(c, x, s); }
    if RunHere(c.level, x, ip) {
      RunRepeats(c.level, x, ip);
      op', ip' := EmitMatch(c, x, s, output, htab, op, ip, copy, 1, 3);
      copy' := 0;
    } else {
      var slot := HashAt(c, x, ip);
      var ref := htab[slot];
      htab[slot] := ip;
      ghost var s' := s.(htab := s.htab[slot := ip]);
      SameButTable(c, x, s, s');
      ProbeExact(c.level, x, ip, ref);
      var start := Probe(c.level, x, ip, ref);
      if start == 0 {
        op', copy' := EmitLiteral(c, x, s', output, op, ip, copy);
        ip' := ip + 1;
      } else {
        op', ip' := EmitMatch(c, x, s', output, htab, op, ip, copy, ip - ref, start);
        copy' := 0;
      }
    }
  }

  lemma InRangeOf(c: Config, x: seq<byte>, s: State)
    requires Good(c, x, s)
    ensures InRange(x, s) && AllEncodable(c.level, s.ops)
  {
  }

  lemma RunRepeats(level: Level, x: seq<byte>, ip: nat)
    requires 1 <= ip && ip + 2 < |x| && RunHere(level, x, ip)
    ensures Repeats(x, 1, ip, ip + 3)
  {
  }

  /** The table plays no part in what has been written. */
  lemma SameButTable(c: Config, x: seq<byte>, s: State, s': State)
    requires Good(c, x, s) && s' == s.(htab := s'.htab)
    ensures Good(c, x, s')
    ensures InRange(x, s) && AllEncodable(c.level, s.ops) && Pending(c.level, x, s') == Pending(c.level, x, s)
  {
  }

  // ---------- the whole compressor ----------

  lemma ShortBlock(c: Config, x: seq<byte>)
    requires 1 <= |x| < 4
    ensures Block(c, x) == [|x| - 1] + x
  {
    hide Encode, Loop, Tail, Start, Covers, EncodeOp, ReachesBack, Encodable;
    ParseCorrect(c, x);
    BlockNonEmpty(c, x);
    LiteralCode(One, x);
    LastOp(One, [], Literal(x));
    assert [] + [Literal(x)] == [Literal(x)];
    assert Encode(One, []) == [] by { EmptyCode(One); }
  }

  lemma EmptyCode(level: Level)
    ensures Encode(level, []) == []
  {
  }

  lemma EmptyBlock(c: Config, x: seq<byte>)
    requires x == []
    ensures Block(c, x) == []
  {
  }

  /** Inputs under four bytes become one literal run, in the level-1 form at either level. */
  method CompressShort(x: seq<byte>, output: array<byte>) returns (size: nat)
    requires |x| < 4 && Capacity(|x|) <= output.Length
    modifies output
    ensures size <= output.Length && output[..size] == if x == [] then [] else [|x| - 1] + x
    ensures forall k :: Capacity(|x|) <= k < output.Length ==> output[k] == old(output[k])
  {
    if x == [] {
      return 0;
    }
    var op := Put(output, 0, |x| - 1);
    var ip := 0;
    while ip < |x|
      invariant 0 <= ip <= |x| && op == ip + 1
      invariant output[..op] == [|x| - 1] + x[..ip]
      invariant forall k :: Capacity(|x|) <= k < output.Length ==> output[k] == old(output[k])
    {
      op := Put(output, op, x[ip]);
      ip := ip + 1;
    }
    return |x| + 1;
  }

  method InitTable() returns (htab: array<nat>)
    ensures fresh(htab) && htab[..] == Start().htab
  {
    htab := new nat[HASH_SIZE];
    var slot := 0;
    while slot < HASH_SIZE
      invariant slot <= HASH_SIZE
      invariant forall k :: 0 <= k < slot ==> htab[k] == 0
    {
      htab[slot] := 0;
      slot := slot + 1;
    }
  }

  lemma PendingStart(c: Config, x: seq<byte>)
    requires 4 <= |x|
    ensures Good(c, x, Start()) && Pending(c.level, x, Start()) == [MAX_COPY - 1, x[0], x[1]]
  {
    StartGood(c, x);
  }

  /** `*output |= 1 << 5` at level 2. */
  method Mark(level: Level, output: array<byte>, size: nat)
    requires 1 <= size <= output.Length
    modifies output
    ensures output[..size] == SetMarker(level, old(output[..size]))
    ensures forall k :: 1 <= k < output.Length ==> output[k] == old(output[k])
  {
    if level.Two? && output[0] / 32 % 2 == 0 {
      output[0] := output[0] + 32;
    }
  }

  /** The main loop and the left-over literals. */
  method CompressBody(c: Config, x: seq<byte>, output: array<byte>)
    returns (op: nat, copy: nat, ghost s: State)
    requires 4 <= |x| <= I32_MAX && Capacity(|x|) <= output.Length
    modifies output
    ensures s == Tail(x, Loop(c, x, Start()))
    ensures Matches(c, x, s, output, op, |x|, copy)
    ensures forall k :: Capacity(|x|) <= k < output.Length ==> output[k] == old(output[k])
  {
    hide Good, Step, Pending, AddLiteral;
    var htab := InitTable();
    op := Put(output, 0, MAX_COPY - 1);
    op := Put(output, op, x[0]);
    op := Put(output, op, x[1]);
    var ip := 2;
    copy := 2;
    s := Start();
    PendingStart(c, x);
    while ip + 12 < |x|
      invariant Matches(c, x, s, output, op, ip, copy) && 2 <= ip < |x|
      invariant htab[..] == s.htab && InRange(x, s) && Table(s.htab, s.ip)
      invariant Loop(c, x, s) == Loop(c, x, Start())
      invariant forall k :: Capacity(|x|) <= k < output.Length ==> output[k] == old(output[k])
      decreases |x| - ip
    {
      op, ip, copy := Round(c, x, s, output, htab, op, ip, copy);
      s := Step(c, x, s);
    }
    ghost var body := s;
    while ip < |x|
      invariant Matches(c, x, s, output, op, ip, copy) && 2 <= ip <= |x|
      invariant InRange(x, s) && Table(s.htab, s.ip)
      invariant Tail(x, s) == Tail(x, body)
      invariant forall k :: Capacity(|x|) <= k < output.Length ==> output[k] == old(output[k])
      decreases |x| - ip
    {
      op, copy := EmitLiteral(c, x, s, output, op, ip, copy);
      s := AddLiteral(x, s);
      ip := ip + 1;
    }
  }

  /** The last literal run is closed like the others. */
  method Finish(c: Config, x: seq<byte>, ghost s: State, output: array<byte>, op: nat, copy: nat)
    returns (size: nat)
    requires Matches(c, x, s, output, op, |x|, copy)
    modifies output
    ensures AllEncodable(c.level, FlushLiterals(x, s)) && size <= output.Length
    ensures output[..size] == Encode(c.level, FlushLiterals(x, s))
    ensures forall k :: Capacity(|x|) <= k < output.Length ==> output[k] == old(output[k])
  {
    hide Encode, Covers, Closed, FlushLiterals, AllEncodable;
    InRangeOf(c, x, s);
    PendingFits(c, x, s);
    FlushCodeClosed(c, x, s);
    size := CloseLiterals(output, op, copy, Encode(c.level, s.ops), x[|x| - copy..|x|]);
  }

  lemma LongBlock(c: Config, x: seq<byte>, ops: seq<Op>)
    requires 4 <= |x| <= I32_MAX && ops == FlushLiterals(x, Tail(x, Loop(c, x, Start())))
    ensures AllEncodable(c.level, ops) && Encode(c.level, ops) != []
    ensures Block(c, x) == SetMarker(c.level, Encode(c.level, ops))
  {
    hide Encode, Loop, Tail, Start, Covers, SetMarker;
    BlockNonEmpty(c, x);
  }

  /** fastlz1_compress and fastlz2_compress: the output holds exactly the encoding of the chosen
      instructions, and nothing at or beyond index n + n/32 + 1 is touched. */
  method Compress(c: Config, x: seq<byte>, output: array<byte>) returns (size: nat)
    requires |x| <= I32_MAX && Capacity(|x|) <= output.Length
    modifies output
    ensures size <= output.Length && output[..size] == Block(c, x)
    ensures forall k :: Capacity(|x|) <= k < output.Length ==> output[k] == old(output[k])
  {
    if |x| < 4 {
      hide Block;
      size := CompressShort(x, output);
      if x == [] { EmptyBlock(c, x); } else { ShortBlock(c, x); }
    } else {
      hide Block, Good, Encode, FlushLiterals, Loop, Tail, Start, SetMarker, Pending;
      ghost var s;
      var copy;
      size, copy, s := CompressBody(c, x, output);
      assert InRange(x, s) by { InRangeOf(c, x, s); }
      size := Finish(c, x, s, output, size, copy);
      LongBlock(c, x, FlushLiterals(x, s));
      Mark(c.level, output, size);
    }
  }
}
