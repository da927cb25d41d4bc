/** The sending callbacks: what create_transaction queues, and how the events of the client send it. */
module Client {
  import opened Bytes
  import opened MemState
  import opened Stream
  import opened Frame
  import opened Schedule

  /** The sending half of create_transaction: the length as a machine word, then the body. */
  method NewTransaction(sock: Socket, fd: int, body: seq<byte>) returns (s: TcpStream)
    requires CFG_HTTP_BUF_SIZE + |body| <= MAX_EXT_MEM_BLOCK && sock.sent == []
    ensures fresh(s) && fresh(s.inBuf) && fresh(s.outBuf) && fresh(s.inBuf.buffer) && fresh(s.outBuf.buffer)
    ensures s.Valid() && s.sock == sock && s.serverSock == fd && s.queued == Frame.Encode(body)
    ensures s.inBuf.Contents() == Frame.Encode(body) && s.outBuf.Contents() == []
  {
    s := new TcpStream(sock, fd, StoreWord(|body|, HEADER), body);
  }

  /** How many bytes a schedule of events gets out, and whether it ends the transaction. */
  datatype Sending = Sending(n: nat, released: bool)

  /** The events of a client, when the socket follows the script and `want` bytes are queued.  The first
      failed flush, the flush that sends the last byte, the first read event, and an event that is neither
      end the transaction. */
  function Sends(es: seq<Ready>, script: seq<WriteResult>, want: nat): Sending
    decreases |es|
  {
    if es == [] then Sending(0, false)
    else
      var e, d := es[0], DrainRun(script, want);
      if !e.write then Sending(0, true)
      else if !d.ok || want <= d.n || e.read then Sending(d.n, true)
      else
        var t := Sends(es[1..], d.rest, want - d.n);
        Sending(d.n + t.n, t.released)
  }

  /** Nothing is sent after the release, and until then every event was a write that took less than what
      was left without breaking. */
  lemma {:induction false} SendsExact(es: seq<Ready>, script: seq<WriteResult>, want: nat, more: seq<Ready>)
    ensures var t := Sends(es, script, want);
            && t.n <= want
            && (t.released ==> Sends(es + more, script, want) == t)
            && (!t.released ==> OnlyWrites(es) && (es != [] ==> t.n < want && !WriteBreaks(script, want)))
            && (es != [] && es[0].read ==> t.released)
    decreases |es|
  {
    hide DrainRun;
    if es != [] {
      DrainExact(script, want);
      var d := DrainRun(script, want);
      assert (es + more)[0] == es[0] && (es + more)[1..] == es[1..] + more;
      if es[0].write && d.ok && d.n < want && !es[0].read {
        SendsExact(es[1..], d.rest, want - d.n, more);
      }
    }
  }

  /** What the first event does. */
  lemma FirstEvent(es: seq<Ready>, script: seq<WriteResult>, want: nat)
    requires es != []
    ensures var t := Sends(es, script, want);
            && (!es[0].write ==> t == Sending(0, true))
            && (es[0].write && (es[0].read || want <= Willing(script) || WriteBreaks(script, want)) ==>
                  t == Sending(Min(want, Willing(script)), true))
            && (es[0].write ==> Min(want, Willing(script)) <= t.n)
  {
    hide DrainRun;
    DrainExact(script, want);
  }

  /** data_transfer of the client: a stream is released when all is sent, when something fails, or when
      the server says anything. */
  method DataTransfer(s: TcpStream, e: Ready) returns (released: bool)
    requires s.Valid() && 0 <= s.serverSock
    modifies s`serverClosed, s`dataIn, s.inBuf`dataLen, s.inBuf.buffer, s.outBuf`dataLen, s.outBuf.buffer
    modifies s.sock`toRead, s.sock`toWrite, s.sock`sent
    ensures s.Valid() && s.queued == old(s.queued)
    ensures if e.write then
              var d := old(DrainRun(s.sock.toWrite, s.inBuf.dataLen));
              && |s.sock.sent| == old(|s.sock.sent|) + d.n && s.sock.toWrite == d.rest
              && (released <==> !d.ok || old(s.inBuf.dataLen) <= d.n || e.read)
            else released && s.sock.sent == old(s.sock.sent) && s.sock.toWrite == old(s.sock.toWrite)
  {
    hide DrainRun, FeedRun, FeedRest;
    if !e.read && !e.write {
      return true;
    }
    if e.write {
      var ret := s.FlushOut(-1);
      if ret < 0 || s.inBuf.dataLen == 0 {
        return true;
      }
    }
    if e.read {
      var ret := s.FeedOut();
      return true;
    }
    released := false;
  }

  /** The callbacks of main_loop for one transaction, event after event, until it is released: what has
      left is always a prefix of what was queued, as long as the schedule says. */
  method Serve(s: TcpStream, es: seq<Ready>) returns (released: bool)
    requires s.Valid() && 0 <= s.serverSock
    modifies s`serverClosed, s`dataIn, s.inBuf`dataLen, s.inBuf.buffer, s.outBuf`dataLen, s.outBuf.buffer
    modifies s.sock`toRead, s.sock`toWrite, s.sock`sent
    ensures s.Valid() && s.queued == old(s.queued)
    ensures var t := old(Sends(es, s.sock.toWrite, s.inBuf.dataLen));
            |s.sock.sent| == old(|s.sock.sent|) + t.n && released == t.released
    ensures s.sock.sent == s.queued[..|s.sock.sent|]
  {
    hide DrainRun;
    released := false;
    ghost var all := Sends(es, s.sock.toWrite, s.inBuf.dataLen);
    var k := 0;
    while k < |es| && !released
      invariant 0 <= k <= |es| && s.Valid() && s.queued == old(s.queued)
      invariant old(|s.sock.sent|) <= |s.sock.sent|
      invariant var n := |s.sock.sent| - old(|s.sock.sent|);
                if released then n == all.n && all.released
                else
                  var t := Sends(es[k..], s.sock.toWrite, s.inBuf.dataLen);
                  all == Sending(n + t.n, t.released)
    {
      assert es[k..][1..] == es[k + 1..];
      released := DataTransfer(s, es[k]);
      k := k + 1;
    }
  }

  // ---------- everything gets out ----------

  predicate NoFailure(script: seq<WriteResult>) {
    forall k :: 0 <= k < |script| ==> !script[k].WriteFailed?
  }

  /** All the bytes the script will ever take, however often it blocks or is interrupted in between. */
  function Total(script: seq<WriteResult>): nat {
    if script == [] then 0 else (if script[0].Wrote? then script[0].n else 0) + Total(script[1..])
  }

  /** One flush uses up some of the script and moves what it can. */
  lemma {:induction false} OneFlush(script: seq<WriteResult>, want: nat)
    requires NoFailure(script)
    ensures var d := DrainRun(script, want);
            && d.ok && NoFailure(d.rest) && d.n <= want
            && d.n + Min(want - d.n, Total(d.rest)) == Min(want, Total(script))
            && (want != 0 && script != [] ==> |d.rest| < |script|) && |d.rest| <= |script|
    decreases |script|
  {
    if want != 0 && script != [] {
      var t := script[1..];
      match script[0] {
        case WriteInterrupted => OneFlush(t, want);
        case Wrote(n) =>
          if n != 0 { OneFlush(t, want - Min(n, want)); }
        case WriteBlocked =>
        case WriteFailed => assert false;
      }
    }
  }

  predicate OnlyWrites(es: seq<Ready>) {
    forall k :: 0 <= k < |es| ==> es[k].write && !es[k].read
  }

  /** Under any schedule of partial writes, blocking and interruption, as many write events as the script
      is long send everything that is queued, or everything the socket ever takes; the transaction is
      released exactly in the first case. */
  lemma {:induction false} AllSent(es: seq<Ready>, script: seq<WriteResult>, want: nat)
    requires NoFailure(script) && OnlyWrites(es) && |script| <= |es| && 1 <= want
    ensures Sends(es, script, want) == Sending(Min(want, Total(script)), want <= Total(script))
    decreases |es|
  {
    hide DrainRun;
    if es != [] {
      OneFlush(script, want);
      var d := DrainRun(script, want);
      if d.n < want {
        if script == [] {
          NothingMore(es[1..], d.rest, want - d.n);
        } else {
          AllSent(es[1..], d.rest, want - d.n);
        }
      }
    }
  }

  lemma {:induction false} NothingMore(es: seq<Ready>, script: seq<WriteResult>, want: nat)
    requires OnlyWrites(es) && script == [] && 1 <= want
    ensures Sends(es, script, want) == Sending(0, false)
    decreases |es|
  {
    if es != [] {
      NothingMore(es[1..], script, want);
    }
  }
}
