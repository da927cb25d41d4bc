/** A connection under a schedule of events: which calls of data_transfer the two scripts of a socket
    lead to, and what the reads among them bring. */
module Schedule {
  import opened Bytes
  import opened Stream
  import opened Frame
  import opened Receive

  /** What epoll reports for a descriptor. */
  datatype Ready = Ready(read: bool, write: bool)

  /** The calls of data_transfer that a schedule of events makes, when the socket follows its two scripts
      and `want` bytes are queued for sending. */
  function Trace(es: seq<Ready>, toRead: seq<ReadResult>, toWrite: seq<WriteResult>, want: nat): seq<Call>
    decreases |es|
  {
    if es == [] then []
    else
      var e, d := es[0], DrainRun(toWrite, want);
      [Call(e.read, e.write, d.ok, FeedRun(toRead, MID_HTTP_BUF_SIZE))]
      + Trace(es[1..],
              if e.read then FeedRest(toRead, MID_HTTP_BUF_SIZE) else toRead,
              if e.write then d.rest else toWrite,
              if e.write && d.n <= want then want - d.n else want)
  }

  /** The first call of a schedule, and what the socket is like behind it if the stream is still open. */
  lemma NextCall(c: Conn, es: seq<Ready>, toRead: seq<ReadResult>, toWrite: seq<WriteResult>, want: nat)
    requires Sound(c) && c.fate.Open? && es != []
    ensures var e, d, f := es[0], DrainRun(toWrite, want), FeedRun(toRead, MID_HTTP_BUF_SIZE);
            var c' := OnEvent(c, e.read, e.write, d.ok, f);
            && Sound(c') && d.n <= want
            && (c'.fate.Open? ==> (e.write ==> d.ok) && (e.read ==> c.out == []))
            && Calls(c, Trace(es, toRead, toWrite, want))
               == if c'.fate.Open? then
                    Calls(c', Trace(es[1..],
                                    if e.read then FeedRest(toRead, MID_HTTP_BUF_SIZE) else toRead,
                                    if e.write then d.rest else toWrite,
                                    if e.write then want - d.n else want))
                  else c'
  {
    hide DrainRun, FeedRun, FeedRest;
    var e, d, f := es[0], DrainRun(toWrite, want), FeedRun(toRead, MID_HTTP_BUF_SIZE);
    CallSound(c, Call(e.read, e.write, d.ok, f));
    DrainExact(toWrite, want);
    assert Trace(es, toRead, toWrite, want)[0] == Call(e.read, e.write, d.ok, f);
  }

  lemma LastCall(c: Conn, es: seq<Ready>, toRead: seq<ReadResult>, toWrite: seq<WriteResult>, want: nat)
    requires Sound(c) && (es == [] || !c.fate.Open?)
    ensures Calls(c, Trace(es, toRead, toWrite, want)) == c
  {
  }

  /** A peer that only sends: no error, no end of file. */
  predicate Clean(script: seq<ReadResult>) {
    forall k :: 0 <= k < |script| ==> !script[k].ReadFailed? && (script[k].Arrived? ==> script[k].bytes != [])
  }

  /** The pieces the script brings. */
  function Arrivals(script: seq<ReadResult>): seq<seq<byte>> {
    if script == [] then []
    else (if script[0].Arrived? then [script[0].bytes] else []) + Arrivals(script[1..])
  }

  predicate Within(script: seq<ReadResult>, room: nat) {
    forall k :: 0 <= k < |script| && script[k].Arrived? ==> |script[k].bytes| <= room
  }

  /** One more piece in front. */
  lemma ArrivesFirst(bytes: seq<byte>, rest: seq<ReadResult>)
    ensures Arrivals([Arrived(bytes)] + rest) == [bytes] + Arrivals(rest)
    ensures Concat(Arrivals([Arrived(bytes)] + rest)) == bytes + Concat(Arrivals(rest))
  {
    assert ([Arrived(bytes)] + rest)[1..] == rest;
    assert ([bytes] + Arrivals(rest))[1..] == Arrivals(rest);
  }

  /** What is left of a script is as good as the script. */
  lemma {:induction false} RestKept(script: seq<ReadResult>, room: nat)
    requires 1 <= room
    ensures var rest := FeedRest(script, room);
            && (Clean(script) ==> Clean(rest))
            && (Within(script, room) ==> Within(rest, room) && (script != [] ==> |rest| < |script|))
    decreases |script|
  {
    if script != [] && script[0].ReadInterrupted? {
      RestKept(script[1..], room);
    }
  }

  /** One read event takes the next bytes off the script, a whole piece if the pieces fit. */
  lemma {:induction false} OneFeed(script: seq<ReadResult>, room: nat)
    requires 1 <= room
    ensures var f, rest := FeedRun(script, room), FeedRest(script, room);
            && (f.Fed? ==> f.bytes != [])
            && Concat(Arrivals(script)) == (if f.Fed? then f.bytes + Concat(Arrivals(rest)) else Concat(Arrivals(rest)))
            && (Clean(script) ==> !f.Lost?)
            && (Clean(script) && Within(script, room) ==>
                  Arrivals(script) == (if f.Fed? then [f.bytes] + Arrivals(rest) else Arrivals(rest)))
    decreases |script|
  {
    hide Concat;
    if script != [] {
      var rest := script[1..];
      match script[0] {
        case ReadInterrupted =>
          assert Arrivals(script) == Arrivals(rest);
          OneFeed(rest, room);
        case ReadBlocked =>
          assert Arrivals(script) == Arrivals(rest);
        case ReadFailed =>
          assert Arrivals(script) == Arrivals(rest);
        case Arrived(bytes) =>
          assert script == [Arrived(bytes)] + rest;
          hide Clean, Within;
          assert (Clean(script) ==> bytes != []) && (Within(script, room) ==> |bytes| <= room) by { Head(bytes, rest, room); }
          if bytes == [] {
            ArrivesFirst([], rest);
          } else {
            FeedPiece(bytes, rest, room);
          }
      }
    }
  }

  lemma Head(bytes: seq<byte>, rest: seq<ReadResult>, room: nat)
    ensures var script := [Arrived(bytes)] + rest;
            (Clean(script) ==> bytes != []) && (Within(script, room) ==> |bytes| <= room)
  {
    assert ([Arrived(bytes)] + rest)[0] == Arrived(bytes);
  }

  lemma FeedPiece(bytes: seq<byte>, rest: seq<ReadResult>, room: nat)
    requires 1 <= room && bytes != []
    ensures var script := [Arrived(bytes)] + rest;
            var f, left := FeedRun(script, room), FeedRest(script, room);
            && f.Fed? && f.bytes != []
            && Concat(Arrivals(script)) == f.bytes + Concat(Arrivals(left))
            && if |bytes| <= room then f.bytes == bytes && left == rest && Arrivals(script) == [bytes] + Arrivals(rest)
               else left == [Arrived(bytes[room..])] + rest
  {
    hide Arrivals, Concat;
    ArrivesFirst(bytes, rest);
    assert ([Arrived(bytes)] + rest)[1..] == rest;
    if room < |bytes| {
      ArrivesFirst(bytes[room..], rest);
      assert bytes == bytes[..room] + bytes[room..];
    } else {
      assert bytes == bytes[..|bytes|];
    }
  }

  function ReadEvents(es: seq<Ready>): nat {
    if es == [] then 0 else (if es[0].read then 1 else 0) + ReadEvents(es[1..])
  }

  predicate SomethingReady(es: seq<Ready>) {
    forall k :: 0 <= k < |es| ==> es[k].read || es[k].write
  }

  predicate Prefix(a: seq<byte>, b: seq<byte>) {
    |a| <= |b| && a == b[..|a|]
  }

  lemma {:induction false} TraceHealthy(es: seq<Ready>, toRead: seq<ReadResult>, toWrite: seq<WriteResult>)
    requires Clean(toRead) && SomethingReady(es)
    ensures Healthy(Trace(es, toRead, toWrite, 0))
    decreases |es|
  {
    if es != [] {
      OneFeed(toRead, MID_HTTP_BUF_SIZE);
      RestKept(toRead, MID_HTTP_BUF_SIZE);
      DrainNothing(toWrite);
      TraceHealthy(es[1..], if es[0].read then FeedRest(toRead, MID_HTTP_BUF_SIZE) else toRead, toWrite);
    }
  }

  function ReadIf(e: Ready, script: seq<ReadResult>): seq<ReadResult> {
    if e.read then FeedRest(script, MID_HTTP_BUF_SIZE) else script
  }

  /** The reads of a schedule, one event at a time. */
  lemma TraceStep(es: seq<Ready>, toRead: seq<ReadResult>, toWrite: seq<WriteResult>)
    requires es != []
    ensures var tail, f := Chunks(Trace(es[1..], ReadIf(es[0], toRead), toWrite, 0)), FeedRun(toRead, MID_HTTP_BUF_SIZE);
            var cs := Chunks(Trace(es, toRead, toWrite, 0));
            if es[0].read && f.Fed? then cs == [f.bytes] + tail && Concat(cs) == f.bytes + Concat(tail) else cs == tail
  {
    hide FeedRun, FeedRest;
    DrainNothing(toWrite);
    var t := Trace(es, toRead, toWrite, 0);
    assert t[1..] == Trace(es[1..], ReadIf(es[0], toRead), toWrite, 0);
    assert Chunks(t) == (if es[0].read && t[0].feed.Fed? then [t[0].feed.bytes] else []) + Chunks(t[1..]);
    if es[0].read && t[0].feed.Fed? {
      assert Chunks(t)[1..] == Chunks(t[1..]);
    }
  }

  /** What the calls read is a prefix of what the peer sends.  When the peer only sends, pieces
      no larger than the read buffer are read one by one, and as many read events as the script is long
      read them all. */
  lemma {:induction false} TraceReads(es: seq<Ready>, toRead: seq<ReadResult>, toWrite: seq<WriteResult>)
    ensures var cs := Chunks(Trace(es, toRead, toWrite, 0));
            && NonEmpty(cs) && Prefix(Concat(cs), Concat(Arrivals(toRead)))
            && (Clean(toRead) && Within(toRead, MID_HTTP_BUF_SIZE) && |toRead| <= ReadEvents(es) ==> cs == Arrivals(toRead))
    decreases |es|
  {
    hide FeedRun, FeedRest, Trace, Chunks, Concat, Arrivals;
    if es == [] {
      TraceNothing(toRead, toWrite);
    } else {
      OneFeed(toRead, MID_HTTP_BUF_SIZE);
      RestKept(toRead, MID_HTTP_BUF_SIZE);
      TraceReads(es[1..], ReadIf(es[0], toRead), toWrite);
      TraceStep(es, toRead, toWrite);
    }
  }

  lemma TraceNothing(toRead: seq<ReadResult>, toWrite: seq<WriteResult>)
    ensures Chunks(Trace([], toRead, toWrite, 0)) == [] && Concat([]) == [] && Arrivals([]) == []
  {
  }
}
