/** The LZ77 meaning of a compressed block: a list of literal runs and self-overlapping copies. */
module LZ {
  import opened Bytes

  datatype Op =
    | Literal(bytes: seq<byte>)
    | Match(distance: nat, count: nat)

  /** out followed by n bytes, each equal to the byte d places before it. */
  function CopyMatch(out: seq<byte>, d: nat, n: nat): (r: seq<byte>)
    requires 1 <= d <= |out|
    ensures |r| == |out| + n
  {
    if n == 0 then out
    else
      var r := CopyMatch(out, d, n - 1);
      r + [r[|r| - d]]
  }

  /** What one instruction does to the bytes decoded so far.  A match that would reach before the
      first byte has no effect; WellFormed rules it out. */
  function Apply(out: seq<byte>, o: Op): (r: seq<byte>)
    ensures |out| <= |r|
  {
    match o
    case Literal(bytes) => out + bytes
    case Match(d, n) => if 1 <= d <= |out| then CopyMatch(out, d, n) else out
  }

  function ExpandOn(out: seq<byte>, ops: seq<Op>): (r: seq<byte>)
    ensures |out| <= |r|
  {
    if ops == [] then out
    else Apply(ExpandOn(out, ops[..|ops| - 1]), ops[|ops| - 1])
  }

  /** The bytes denoted by a list of instructions. */
  function Expand(ops: seq<Op>): seq<byte> {
    ExpandOn([], ops)
  }

  /** CopyMatch keeps what was there and continues it with period d. */
  lemma {:induction false} CopyMatchPeriodic(out: seq<byte>, d: nat, n: nat, i: nat)
    requires 1 <= d <= |out|
    requires i < |out| + n
    ensures CopyMatch(out, d, n)[i] == if i < |out| then out[i] else CopyMatch(out, d, n)[i - d]
  {
    if n == 0 {
    } else if i == |out| + n - 1 {
    } else {
      CopyMatchPeriodic(out, d, n - 1, i);
    }
  }

  /** A copy in two pieces is one copy; this is why level 1 may split a long match. */
  lemma {:induction false} CopyMatchCompose(out: seq<byte>, d: nat, m: nat, n: nat)
    requires 1 <= d <= |out|
    ensures CopyMatch(CopyMatch(out, d, m), d, n) == CopyMatch(out, d, m + n)
  {
    if n > 0 {
      CopyMatchCompose(out, d, m, n - 1);
    }
  }

  predicate Repeats(x: seq<byte>, d: nat, p: nat, q: nat) {
    d <= p && q <= |x| && forall k :: p <= k < q ==> x[k] == x[k - d]
  }

  /** A stretch of x that repeats with period d is exactly what a match of distance d reproduces,
      and nothing else is. */
  lemma {:induction false} CopyMatchReproduces(x: seq<byte>, d: nat, p: nat, q: nat)
    requires 1 <= d <= p <= q <= |x|
    ensures CopyMatch(x[..p], d, q - p) == x[..q] <==> Repeats(x, d, p, q)
  {
    if p < q {
      CopyMatchReproduces(x, d, p, q - 1);
      var r := CopyMatch(x[..p], d, q - 1 - p);
      assert CopyMatch(x[..p], d, q - p) == r + [r[|r| - d]];
      assert x[..q] == x[..q - 1] + [x[q - 1]];
      if CopyMatch(x[..p], d, q - p) == x[..q] {
        assert r == CopyMatch(x[..p], d, q - p)[..q - 1] == x[..q][..q - 1] == x[..q - 1];
        assert CopyMatch(x[..p], d, q - p)[q - 1] == x[..q][q - 1];
      }
    }
  }

  lemma {:induction false} ExpandAppend(out: seq<byte>, a: seq<Op>, b: seq<Op>)
    ensures ExpandOn(out, a + b) == ExpandOn(ExpandOn(out, a), b)
  {
    if b == [] {
      assert a + b == a;
    } else {
      var m := |b| - 1;
      ExpandAppend(out, a, b[..m]);
      assert (a + b)[..|a + b| - 1] == a + b[..m];
    }
  }

  lemma CopyMatchExtends(out: seq<byte>, d: nat, n: nat)
    requires 1 <= d <= |out|
    ensures out <= CopyMatch(out, d, n)
  {
    forall i | 0 <= i < |out| ensures CopyMatch(out, d, n)[i] == out[i] {
      CopyMatchPeriodic(out, d, n, i);
    }
  }

  /** Decoding only ever appends. */
  lemma {:induction false} ExpandExtends(out: seq<byte>, ops: seq<Op>)
    ensures out <= ExpandOn(out, ops)
  {
    if ops != [] {
      var mid := ExpandOn(out, ops[..|ops| - 1]);
      ExpandExtends(out, ops[..|ops| - 1]);
      match ops[|ops| - 1] {
        case Literal(_) =>
        case Match(d, n) =>
          if 1 <= d <= |mid| { CopyMatchExtends(mid, d, n); }
      }
    }
  }
}
