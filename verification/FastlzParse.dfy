/** Which instructions the compressor chooses, stated over values: the hash table is a sequence, the
    pending literals are a count, and the output is an instruction list.  The in-place compressor is
    proved to write exactly the encoding of this list. */
module FastlzParse {
  import opened Bytes
  import opened LZ
  import opened FastlzFormat

  const HASH_SIZE: nat := 8192

  type Slot = i: nat | i < HASH_SIZE

  /** The compile-time level, the hash function, and the byte that happens to follow the input in
      memory (level 2 may hash it, see Fastlz.StepBeyond). */
  datatype Config = Config(level: Level, hash: (byte, byte, byte) -> Slot, beyond: byte)

  /** The state at the head of the main loop. */
  datatype State = State(ip: nat, copy: nat, htab: seq<nat>, ops: seq<Op>)

  predicate InRange(x: seq<byte>, s: State) {
    2 <= s.ip <= |x| && s.copy < MAX_COPY && s.copy <= s.ip
  }

  /** The table only names positions before `end`. */
  predicate Table(htab: seq<nat>, end: nat) {
    |htab| == HASH_SIZE && forall k :: 0 <= k < HASH_SIZE ==> htab[k] < end
  }

  function HashAt(c: Config, x: seq<byte>, p: nat): Slot
    requires p + 2 <= |x|
  {
    c.hash(x[p], x[p + 1], if p + 2 < |x| then x[p + 2] else c.beyond)
  }

  // ---------- finding a match ----------

  predicate RunHere(level: Level, x: seq<byte>, ip: nat)
    requires 1 <= ip && ip + 2 < |x|
  {
    level.Two? && x[ip] == x[ip - 1] && x[ip - 1] == x[ip + 1] && x[ip] == x[ip + 2]
  }

  /** How many bytes at ref are known to equal those at ip: 0 when the candidate is refused, 3 for a
      match, 5 for a far match (level 2). */
  function Probe(level: Level, x: seq<byte>, ip: nat, ref: nat): (start: nat)
    requires ref <= ip && ip + 12 < |x|
  {
    var d := ip - ref;
    if d == 0 || d >= (if level.One? then NEAR_ONE else FAR_TWO) || x[ref..ref + 3] != x[ip..ip + 3] then 0
    else if level.Two? && d >= NEAR_TWO then
      if x[ref + 3] == x[ip + 3] && x[ref + 4] == x[ip + 4] then 5 else 0
    else 3
  }

  /** One past the first mismatch at or after k, but never past the bound. */
  function MatchEnd(x: seq<byte>, d: nat, k: nat, bound: nat): (e: nat)
    requires 1 <= d <= k <= bound <= |x|
    ensures k <= e <= bound
    ensures k < bound ==> k < e
    decreases bound - k
  {
    if k == bound then k
    else if x[k] != x[k - d] then k + 1
    else MatchEnd(x, d, k + 1, bound)
  }

  /** Extension compares eight bytes before it looks at the bound, except in a run. */
  function Bound(x: seq<byte>, d: nat, k: nat): nat
    requires 2 <= |x|
  {
    if d == 1 || k + 8 <= |x| - 2 then |x| - 2 else k + 8
  }

  // ---------- one step ----------

  function AddLiteral(x: seq<byte>, s: State): (r: State)
    requires InRange(x, s) && Table(s.htab, s.ip + 1) && s.ip < |x|
    ensures InRange(x, r) && Table(r.htab, r.ip) && r.ip == s.ip + 1
  {
    if s.copy + 1 < MAX_COPY then s.(ip := s.ip + 1, copy := s.copy + 1)
    else s.(ip := s.ip + 1, copy := 0, ops := s.ops + [Literal(x[s.ip + 1 - MAX_COPY..s.ip + 1])])
  }

  function FlushLiterals(x: seq<byte>, s: State): seq<Op>
    requires InRange(x, s)
  {
    if s.copy == 0 then s.ops else s.ops + [Literal(x[s.ip - s.copy..s.ip])]
  }

  /** Level 1 cuts a match into pieces of 262 bytes and a rest. */
  function SplitMatch(level: Level, d: nat, count: nat): seq<Op> {
    if level.One? && count > MAX_LEN then [Match(d, MAX_LEN - 2)] + SplitMatch(level, d, count - (MAX_LEN - 2))
    else [Match(d, count)]
  }

  /** A match of distance d whose first `start` bytes are known to agree: it is extended, the byte that
      ended it is given back, and the last two positions it covers enter the hash table. */
  function AddMatch(c: Config, x: seq<byte>, s: State, d: nat, start: nat): (r: State)
    requires InRange(x, s) && Table(s.htab, s.ip + 1) && s.ip + 12 < |x|
    requires 1 <= d <= s.ip && (start == 3 || (start == 5 && d != 1))
    ensures InRange(x, r) && Table(r.htab, r.ip) && s.ip + 3 <= r.ip < |x|
  {
    var e := MatchEnd(x, d, s.ip + start, Bound(x, d, s.ip + start));
    var htab := s.htab[HashAt(c, x, e - 3) := e - 3];
    State(e - 1, 0, htab[HashAt(c, x, e - 2) := e - 2],
          FlushLiterals(x, s) + SplitMatch(c.level, d, e - 1 - s.ip))
  }

  /** One round of the main loop. */
  function Step(c: Config, x: seq<byte>, s: State): (r: State)
    requires InRange(x, s) && Table(s.htab, s.ip) && s.ip + 12 < |x|
    ensures InRange(x, r) && Table(r.htab, r.ip) && s.ip < r.ip < |x|
  {
    if RunHere(c.level, x, s.ip) then AddMatch(c, x, s, 1, 3)
    else
      var slot := HashAt(c, x, s.ip);
      var ref := s.htab[slot];
      var start := Probe(c.level, x, s.ip, ref);
      var s' := s.(htab := s.htab[slot := s.ip]);
      if start == 0 then AddLiteral(x, s') else AddMatch(c, x, s', s.ip - ref, start)
  }

  /** The main loop from state s on. */
  function Loop(c: Config, x: seq<byte>, s: State): (r: State)
    requires InRange(x, s) && Table(s.htab, s.ip)
    ensures InRange(x, r) && Table(r.htab, r.ip) && |x| <= r.ip + 12
    ensures s.ip < |x| ==> r.ip < |x|
    decreases |x| - s.ip
  {
    if s.ip + 12 < |x| then Loop(c, x, Step(c, x, s)) else s
  }

  /** The left-over bytes as literals. */
  function Tail(x: seq<byte>, s: State): (r: State)
    requires InRange(x, s) && Table(s.htab, s.ip)
    ensures InRange(x, r) && r.ip == |x|
    decreases |x| - s.ip
  {
    if s.ip < |x| then Tail(x, AddLiteral(x, s)) else s
  }

  function Start(): State {
    State(2, 2, seq(HASH_SIZE, _ => 0), [])
  }

  /** The instructions chosen for a whole input. */
  function Parse(c: Config, x: seq<byte>): seq<Op> {
    if x == [] then []
    else if |x| < 4 then [Literal(x)]
    else
      var s := Tail(x, Loop(c, x, Start()));
      FlushLiterals(x, s)
  }
}
