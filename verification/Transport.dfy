/** Both ends of a connection together: a transaction is queued, sent, cut into pieces by the network in
    any way, read and reassembled, and do_work is given the body. */
module Transport {
  import opened Bytes
  import MemState
  import opened Stream
  import opened Frame
  import opened Receive
  import opened Schedule
  import opened Server
  import opened FastlzFormat
  import opened FastlzParse
  import opened FastlzCompress
  import opened FastlzDecompress
  import opened Fastlz
  import Client

  // ---------- the network ----------

  /** What the server's next read finds: an interruption, nothing yet, an error, the end of the
      connection, or a piece of at most n bytes. */
  datatype Cut = Retry | Wait | Fail | Hangup | Piece(n: nat)

  /** The bytes in order, cut as the list says; what is left over comes in one piece. */
  function Carry(b: seq<byte>, cuts: seq<Cut>): (script: seq<ReadResult>)
    ensures |script| <= |cuts| + 1
    decreases |cuts|
  {
    if cuts == [] then
      if b == [] then [] else [Arrived(b)]
    else
      match cuts[0]
      case Retry => [ReadInterrupted] + Carry(b, cuts[1..])
      case Wait => [ReadBlocked] + Carry(b, cuts[1..])
      case Fail => [ReadFailed] + Carry(b, cuts[1..])
      case Hangup => [Arrived([])] + Carry(b, cuts[1..])
      case Piece(n) =>
        var m := Min(n, |b|);
        if m == 0 then Carry(b, cuts[1..]) else [Arrived(b[..m])] + Carry(b[m..], cuts[1..])
  }

  /** No error and no hang-up. */
  predicate Benign(cuts: seq<Cut>) {
    forall k :: 0 <= k < |cuts| ==> !cuts[k].Fail? && !cuts[k].Hangup?
  }

  /** The length of the first piece of `len` bytes. */
  function FirstPiece(cuts: seq<Cut>, len: nat): nat {
    if cuts == [] then len
    else if cuts[0].Piece? && cuts[0].n != 0 then Min(cuts[0].n, len)
    else FirstPiece(cuts[1..], len)
  }

  /** What holds of the script a cut makes of b. */
  predicate Delivers(script: seq<ReadResult>, b: seq<byte>, cuts: seq<Cut>) {
    && Concat(Arrivals(script)) == b && Within(script, |b|)
    && (Benign(cuts) ==>
          Clean(script) && (b != [] ==> Arrivals(script) != [] && |Arrivals(script)[0]| == FirstPiece(cuts, |b|)))
  }

  /** The network loses, repeats and reorders nothing. */
  lemma {:induction false} CarryDelivers(b: seq<byte>, cuts: seq<Cut>)
    ensures Delivers(Carry(b, cuts), b, cuts)
    decreases |cuts|
  {
    if cuts == [] {
      if b != [] {
        ArrivesFirst(b, []);
        assert [Arrived(b)] + [] == [Arrived(b)];
      }
    } else {
      var rest := cuts[1..];
      match cuts[0] {
        case Piece(n) =>
          var m := Min(n, |b|);
          CarryDelivers(b[m..], rest);
          if m == 0 {
            assert b[m..] == b;
          } else {
            PieceFirst(b, m, Carry(b[m..], rest), cuts);
          }
        case Retry =>
          CarryDelivers(b, rest);
          Idles(ReadInterrupted, Carry(b, rest), b, cuts);
        case Wait =>
          CarryDelivers(b, rest);
          Idles(ReadBlocked, Carry(b, rest), b, cuts);
        case Fail =>
          CarryDelivers(b, rest);
          Idles(ReadFailed, Carry(b, rest), b, cuts);
        case Hangup =>
          CarryDelivers(b, rest);
          Idles(Arrived([]), Carry(b, rest), b, cuts);
      }
    }
  }

  lemma PieceFirst(b: seq<byte>, m: nat, rest: seq<ReadResult>, cuts: seq<Cut>)
    requires 1 <= m <= |b| && cuts != [] && cuts[0].Piece? && cuts[0].n != 0 && m == Min(cuts[0].n, |b|)
    requires Delivers(rest, b[m..], cuts[1..])
    ensures Delivers([Arrived(b[..m])] + rest, b, cuts)
  {
    hide Arrivals, Concat;
    ArrivesFirst(b[..m], rest);
    assert b[..m] + b[m..] == b;
  }

  lemma Idles(r: ReadResult, rest: seq<ReadResult>, b: seq<byte>, cuts: seq<Cut>)
    requires r.Arrived? ==> r.bytes == []
    requires cuts != [] && !cuts[0].Piece? && (Benign(cuts) ==> !r.Arrived? && !r.ReadFailed?)
    requires Delivers(rest, b, cuts[1..])
    ensures Delivers([r] + rest, b, cuts)
  {
    hide Concat;
    if r.Arrived? {
      ArrivesFirst([], rest);
    } else {
      assert ([r] + rest)[1..] == rest;
      assert Arrivals([r] + rest) == Arrivals(rest);
    }
  }

  /** It can do anything else: every script of reads is a way to cut what it brings. */
  lemma {:induction false} CarryIsAny(script: seq<ReadResult>) returns (cuts: seq<Cut>)
    ensures Carry(Concat(Arrivals(script)), cuts) == script
    decreases |script|
  {
    hide Concat, Arrivals;
    if script == [] {
      cuts := [];
      assert Concat(Arrivals([])) == [] by { TraceNothing([], []); }
    } else {
      var rest := CarryIsAny(script[1..]);
      assert script == [script[0]] + script[1..];
      cuts := [CutFor(script[0])] + rest;
      assert cuts[1..] == rest;
      ArrivesAfter(script[0], script[1..]);
      var b := Concat(Arrivals(script[1..]));
      if script[0].Arrived? && script[0].bytes != [] {
        var m := |script[0].bytes|;
        assert (script[0].bytes + b)[..m] == script[0].bytes && (script[0].bytes + b)[m..] == b;
      }
    }
  }

  function CutFor(r: ReadResult): Cut {
    match r
    case ReadInterrupted => Retry
    case ReadBlocked => Wait
    case ReadFailed => Fail
    case Arrived(bytes) => if bytes == [] then Hangup else Piece(|bytes|)
  }

  lemma ArrivesAfter(r: ReadResult, rest: seq<ReadResult>)
    ensures var b := Concat(Arrivals([r] + rest));
            b == if r.Arrived? && r.bytes != [] then r.bytes + Concat(Arrivals(rest)) else Concat(Arrivals(rest))
  {
    hide Concat;
    if r.Arrived? {
      ArrivesFirst(r.bytes, rest);
    } else {
      assert ([r] + rest)[1..] == rest;
      assert Arrivals([r] + rest) == Arrivals(rest);
    }
  }

  // ---------- one transaction ----------

  /** What decides whether a body gets through. */
  predicate GetsThrough(body: seq<byte>, sent: nat, cuts: seq<Cut>) {
    1 <= |body| <= LOG_MAX_LEN && sent == HEADER + |body| && HEADER <= FirstPiece(cuts, sent)
  }

  /** A delivery from a prefix of a frame needs the whole frame. */
  lemma DeliveredIsWhole(body: seq<byte>, n: nat, cs: seq<seq<byte>>)
    requires |body| < 0x1_0000_0000 && n <= HEADER + |body|
    requires NonEmpty(cs) && Prefix(Concat(cs), Frame.Encode(body)[..n])
    requires Reads(Fresh(), cs).fate.Delivered?
    ensures 1 <= |body| <= LOG_MAX_LEN && n == HEADER + |body| && Reads(Fresh(), cs).fate == Delivered(body)
  {
    hide Hits, Reads, Concat, StoreWord, LoadWord;
    ConnectionExact(cs);
    var m :| Announces(cs, m) && Hits(cs, HEADER + m);
    HitsBounded(cs, HEADER + m);
    HeaderOf(body, |body|);
    StartsWith(cs);
    assert cs[0][..HEADER] == Concat(cs)[..HEADER] == Frame.Encode(body)[..HEADER];
    assert Concat(cs)[HEADER..HEADER + m] == body;
  }

  lemma StartsWith(cs: seq<seq<byte>>)
    requires cs != []
    ensures Prefix(cs[0], Concat(cs))
  {
  }

  /** The server on the first n bytes of a frame, whatever the network and the events do to them. */
  lemma NeverWrong(body: seq<byte>, n: nat, cuts: seq<Cut>, es: seq<Ready>, toWrite: seq<WriteResult>)
    requires |body| < 0x1_0000_0000 && n <= HEADER + |body|
    ensures var r := Calls(Fresh(), Trace(es, Carry(Frame.Encode(body)[..n], cuts), toWrite, 0)).fate;
            r.Delivered? ==> r == Delivered(body) && 1 <= |body| <= LOG_MAX_LEN && n == HEADER + |body|
  {
    hide Calls, Reads, Trace, Carry, Chunks, Arrivals, Concat, FirstPiece;
    var script := Carry(Frame.Encode(body)[..n], cuts);
    CarryDelivers(Frame.Encode(body)[..n], cuts);
    TraceReads(es, script, toWrite);
    var tr := Trace(es, script, toWrite, 0);
    if Calls(Fresh(), tr).fate.Delivered? {
      DeliveredByReads(Fresh(), tr);
      DeliveredIsWhole(body, n, Chunks(tr));
    }
  }

  /** The same, when nothing fails and there are as many read events as there can be things to read. */
  lemma Verdict(body: seq<byte>, n: nat, cuts: seq<Cut>, es: seq<Ready>, toWrite: seq<WriteResult>)
    requires |body| < 0x1_0000_0000 && n <= HEADER + |body|
    requires Benign(cuts) && SomethingReady(es) && |cuts| < ReadEvents(es)
    ensures Calls(Fresh(), Trace(es, Carry(Frame.Encode(body)[..n], cuts), toWrite, 0)).fate.Delivered?
            <==> GetsThrough(body, n, cuts)
  {
    hide Calls, Reads, Trace, Carry, Chunks, Arrivals, Concat, FirstPiece;
    var sent := Frame.Encode(body)[..n];
    var script := Carry(sent, cuts);
    CarryDelivers(sent, cuts);
    NeverWrong(body, n, cuts, es, toWrite);
    if 1 <= |body| <= LOG_MAX_LEN && n == HEADER + |body| {
      var tr := Trace(es, script, toWrite, 0);
      TraceHealthy(es, script, toWrite);
      TraceReads(es, script, toWrite);
      CallsAreReads(Fresh(), tr);
      assert sent == Frame.Encode(body);
      FrameDelivered(body, Chunks(tr));
    }
  }

  /** The sending half of a transaction. */
  method Sending(body: seq<byte>, takes: seq<WriteResult>, ws: seq<Ready>, fd: nat)
    returns (c: TcpStream, released: bool)
    requires CFG_HTTP_BUF_SIZE + |body| <= MemState.MAX_EXT_MEM_BLOCK
    ensures |c.sock.sent| <= HEADER + |body| && c.sock.sent == Frame.Encode(body)[..|c.sock.sent|]
    ensures Client.NoFailure(takes) && Client.OnlyWrites(ws) && |takes| <= |ws| ==>
              && |c.sock.sent| == Min(HEADER + |body|, Client.Total(takes))
              && (released <==> HEADER + |body| <= Client.Total(takes))
  {
    hide Client.Sends, Client.Total;
    var sock := new Socket(takes, []);
    c := Client.NewTransaction(sock, fd, body);
    if Client.NoFailure(takes) && Client.OnlyWrites(ws) && |takes| <= |ws| {
      Client.AllSent(ws, takes, HEADER + |body|);
    }
    released := Client.Serve(c, ws);
  }

  /** The receiving half, on a connection that brings the bytes `sent`. */
  method Receiving(sent: seq<byte>, cuts: seq<Cut>, es: seq<Ready>, replies: seq<WriteResult>, fd: nat, qps: nat)
    returns (r: Session)
    ensures r.fate == Calls(Fresh(), Trace(es, Carry(sent, cuts), replies, 0)).fate
    ensures r.qps == qps + if r.fate.Delivered? then 1 else 0
  {
    hide Trace, Calls, Carry;
    var sock := new Socket(replies, Carry(sent, cuts));
    var s := new TcpStream.Create(sock, fd);
    r := new Session(s, qps);
    r.Serve(es);
  }

  /** A transaction from end to end, over any sockets, any network and any events.

      What leaves the client is a prefix of the frame, and do_work is given exactly the body or nothing, at
      most once, and only when the whole frame was sent.  When the client is given write events for as long
      as its socket has anything to say, what leaves is as much of the frame as the socket ever takes.  When
      the server is given read events for as long as there is anything to read, the work is done if and
      only if the length is legal, everything was sent, and the first piece holds the header. */
  method Transaction(body: seq<byte>, takes: seq<WriteResult>, ws: seq<Ready>, cuts: seq<Cut>, es: seq<Ready>,
                     replies: seq<WriteResult>, fd: nat, cfd: nat, qps: nat)
    returns (c: TcpStream, released: bool, r: Session)
    requires CFG_HTTP_BUF_SIZE + |body| <= MemState.MAX_EXT_MEM_BLOCK
    ensures |c.sock.sent| <= HEADER + |body| && c.sock.sent == Frame.Encode(body)[..|c.sock.sent|]
    ensures r.fate.Delivered? ==>
              r.fate == Delivered(body) && 1 <= |body| <= LOG_MAX_LEN && c.sock.sent == Frame.Encode(body)
    ensures r.qps == qps + if r.fate.Delivered? then 1 else 0
    ensures Client.NoFailure(takes) && Client.OnlyWrites(ws) && |takes| <= |ws| ==>
              && |c.sock.sent| == Min(HEADER + |body|, Client.Total(takes))
              && (released <==> HEADER + |body| <= Client.Total(takes))
    ensures Benign(cuts) && SomethingReady(es) && |cuts| < ReadEvents(es) ==>
              (r.fate.Delivered? <==> GetsThrough(body, |c.sock.sent|, cuts))
  {
    hide Client.Total, Trace, Calls, Carry, FirstPiece, GetsThrough;
    c, released := Sending(body, takes, ws, fd);
    var n := |c.sock.sent|;
    NeverWrong(body, n, cuts, es, replies);
    if Benign(cuts) && SomethingReady(es) && |cuts| < ReadEvents(es) {
      Verdict(body, n, cuts, es, replies);
    }
    r := Receiving(c.sock.sent, cuts, es, replies, cfd, qps);
  }

  /** A transaction whose body is a compressed message: whatever do_work is given decompresses to the
      message. */
  method CompressedTransaction(level: Level, x: seq<byte>, beyond: byte, maxout: nat, wide: bool,
                               takes: seq<WriteResult>, ws: seq<Ready>, cuts: seq<Cut>, es: seq<Ready>,
                               replies: seq<WriteResult>, fd: nat, cfd: nat, qps: nat)
    returns (c: TcpStream, r: Session, message: Option<seq<byte>>)
    requires 1 <= |x| <= maxout && CFG_HTTP_BUF_SIZE + Capacity(|x|) <= MemState.MAX_EXT_MEM_BLOCK
    ensures message == if r.fate.Delivered? then Some(x) else None
    ensures Benign(cuts) && SomethingReady(es) && |cuts| < ReadEvents(es) ==>
              (r.fate.Delivered? <==> GetsThrough(Block(Config(level, HashFunction, beyond), x), |c.sock.sent|, cuts))
  {
    hide Block, Decompress, GetsThrough, FirstPiece, Client.Total;
    var output := new byte[Capacity(|x|)];
    var config := Config(level, HashFunction, beyond);
    var size := CompressLevel(if level.One? then 1 else 2, x, beyond, output);
    IntSize(config, x);
    var released;
    c, released, r := Transaction(output[..size], takes, ws, cuts, es, replies, fd, cfd, qps);
    message := None;
    if r.fate.Delivered? {
      var body := r.fate.body;
      RoundTrip(config, x, [], maxout);
      assert body + [] == body;
      var plain := new byte[maxout];
      var status := DecompressBlock(wide, body, |body|, plain, maxout);
      if status.Returned? && status.value <= maxout {
        message := Some(plain[..status.value]);
      }
    }
  }
}
