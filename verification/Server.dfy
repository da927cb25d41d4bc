/** The receiving callbacks on the mutable stream, proved to take exactly the steps of Receive. */
module Server {
  import opened Bytes
  import opened Buf
  import opened Stream
  import opened Frame
  import opened Receive
  import opened Schedule

  class Session {
    const s: TcpStream
    var fate: Fate
    var qps: nat

    ghost predicate Valid()
      reads this, s, s.inBuf, s.outBuf, s.sock, s.workBuf, s.inBuf.buffer, s.outBuf.buffer
      reads if s.workBuf == null then {} else {s.workBuf.buffer}
    {
      && s.Valid() && s.outBuf.bufLen == MID_HTTP_BUF_SIZE && 0 <= s.dataRecved && 0 <= s.contentLen
      && (s.workBuf != null && s.workBuf.dataLen <= LOG_MAX_LEN ==> s.workBuf.bufLen == LOG_MAX_LEN)
    }

    /** The fields of the stream as Receive sees them. */
    ghost function View(): Conn
      requires Valid()
      reads this, s, s.inBuf, s.outBuf, s.sock, s.workBuf, s.inBuf.buffer, s.outBuf.buffer
      reads if s.workBuf == null then {} else {s.workBuf.buffer}
    {
      Conn(fate, s.outBuf.Contents(), s.replyBodySizeLeft, s.dataRecved, s.contentLen,
           if s.workBuf == null then None else Some(s.workBuf.Contents()))
    }

    constructor (s: TcpStream, qps: nat)
      requires s.Valid() && s.outBuf.bufLen == MID_HTTP_BUF_SIZE && s.outBuf.Contents() == [] && s.workBuf == null
      requires s.replyBodySizeLeft == s.dataRecved == s.contentLen == 0
      ensures Valid() && this.s == s && this.qps == qps && View() == Fresh()
    {
      this.s, fate, this.qps := s, Open, qps;
    }

    /** A work buffer once there stays, and its bytes and the buffer itself are replaced by new ones only. */
    twostate predicate WorkKept()
      reads this, s, s.workBuf
    {
      && (old(s.workBuf) != null ==>
            s.workBuf == old(s.workBuf) && (s.workBuf.buffer == old(s.workBuf.buffer) || fresh(s.workBuf.buffer)))
      && (old(s.workBuf) == null && s.workBuf != null ==> fresh(s.workBuf) && fresh(s.workBuf.buffer))
    }

    /** How a step that began on an open stream ends: the work has been counted if it was done, and the
        descriptor is closed unless the stream is still open or the process gone. */
    twostate predicate Settled()
      reads this, s
    {
      && qps == old(qps) + (if fate.Delivered? then 1 else 0)
      && (fate.Open? ==> s.serverSock == old(s.serverSock))
      && (fate.Delivered? || fate.Dropped? ==> s.serverSock == -1)
    }

    /** close_stream, as far as this session can see it. */
    method Close()
      requires Valid()
      modifies this`fate, s`serverSock
      ensures Valid() && s.serverSock == -1 && fate == if old(fate).Open? then Dropped else old(fate)
      ensures View() == old(View()).(fate := fate)
    {
      s.serverSock := -1;
      if fate.Open? {
        fate := Dropped;
      }
    }

    /** alloc_work_buff */
    method AllocWorkBuff()
      requires Valid() && s.workBuf == null
      modifies s`workBuf
      ensures Valid() && s.workBuf != null && fresh(s.workBuf) && fresh(s.workBuf.buffer)
      ensures s.workBuf.bufLen == LOG_MAX_LEN
      ensures View() == old(View()).(work := Some([]))
    {
      s.workBuf := new Buffer(LOG_MAX_LEN);
    }

    /** The read buffer moves to the end of the body. */
    method MoveBody()
      requires Valid() && s.workBuf != null && s.workBuf.bufLen <= LOG_MAX_LEN
      modifies s.workBuf, s.workBuf.buffer, s.outBuf`dataLen, s.outBuf.buffer
      ensures s.Valid() && s.outBuf.Contents() == [] && s.outBuf.bufLen == MID_HTTP_BUF_SIZE
      ensures s.workBuf.Contents() == old(s.workBuf.Contents() + s.outBuf.Contents())
      ensures if old(s.outBuf.dataLen) <= old(s.workBuf.FreeSpace())
              then s.workBuf.buffer == old(s.workBuf.buffer) && s.workBuf.bufLen == old(s.workBuf.bufLen)
              else fresh(s.workBuf.buffer)
    {
      s.workBuf.Put(s.outBuf.buffer[..s.outBuf.dataLen]);
      s.outBuf.Clear();
    }

    /** collect_data: 1 when the body is complete, 0 when more is needed, -1 when the lengths disagree
        (which Receive.OnReadSound shows never happens). */
    method CollectData() returns (ret: int)
      requires Valid() && fate.Open? && s.workBuf != null && s.workBuf.dataLen <= LOG_MAX_LEN
      modifies this`fate, s`dataRecved, s`replyBodySizeLeft, s`serverSock
      modifies s.workBuf, s.workBuf.buffer, s.outBuf`dataLen, s.outBuf.buffer
      ensures Valid() && s.workBuf == old(s.workBuf)
      ensures |s.workBuf.Contents()| <= LOG_MAX_LEN ==>
                s.workBuf.buffer == old(s.workBuf.buffer) && s.workBuf.bufLen == old(s.workBuf.bufLen)
      ensures WorkKept()
      ensures s.serverSock == if ret == -1 then -1 else old(s.serverSock)
      ensures var c := Collect(old(View()));
              && View() == c.(fate := if c.fate.Delivered? then Open else c.fate)
              && (ret == 1 <==> c.fate.Delivered?) && (ret == -1 <==> c.fate.Dropped?) && ret in {-1, 0, 1}
    {
      var size := s.outBuf.dataLen;
      MoveBody();
      s.dataRecved := s.dataRecved + size;
      s.replyBodySizeLeft := s.replyBodySizeLeft - size;
      if s.replyBodySizeLeft == 0 {
        if s.dataRecved != s.contentLen {
          s.outBuf.Clear();
          Close();
          return -1;
        }
        return 1;
      }
      return 0;
    }

    /** What follows collect_data in data_transfer: a complete body is worked on and the stream closed.
        The work buffer is not replaced while the body stays within its size. */
    method CollectAndWork() returns (open: bool)
      requires Valid() && fate.Open? && s.workBuf != null && s.workBuf.dataLen == s.dataRecved <= LOG_MAX_LEN
      modifies this, s`dataRecved, s`replyBodySizeLeft, s`serverSock
      modifies s.workBuf, s.workBuf.buffer, s.outBuf`dataLen, s.outBuf.buffer
      ensures Valid() && View() == Collect(old(View())) && open == fate.Open?
      ensures s.workBuf == old(s.workBuf)
      ensures |s.workBuf.Contents()| <= LOG_MAX_LEN ==>
                s.workBuf.buffer == old(s.workBuf.buffer) && s.workBuf.bufLen == old(s.workBuf.bufLen)
      ensures WorkKept() && Settled()
    {
      var ret := CollectData();
      if ret == 1 {
        fate := Delivered(s.workBuf.buffer[..s.dataRecved]);
        qps := qps + 1;
        Close();
        return false;
      }
      return ret != -1;
    }

    /** The header is taken from the front of the read buffer and the body begins behind it. */
    method TakeHeader() returns (open: bool)
      requires Valid() && fate.Open? && HEADER <= s.outBuf.dataLen && s.workBuf == null
      requires s.replyBodySizeLeft == s.dataRecved == 0
      modifies this, s`workBuf, s`replyBodySizeLeft, s`dataRecved, s`contentLen, s`serverSock
      modifies s.outBuf`dataLen, s.outBuf.buffer
      ensures Valid() && View() == Header(old(View())) && open == fate.Open?
      ensures WorkKept() && Settled()
    {
      var n := LoadWord(s.outBuf.buffer[..HEADER]);
      assert s.outBuf.Contents()[..HEADER] == s.outBuf.buffer[..HEADER];
      if n > LOG_MAX_LEN || n == 0 {
        s.outBuf.Clear();
        Close();
        return false;
      }
      s.replyBodySizeLeft := n;
      s.contentLen := n;
      s.outBuf.Pick(HEADER);
      AllocWorkBuff();
      open := CollectAndWork();
    }

    /** The byte behind the data just read is cleared, when there is room for it. */
    method Terminate()
      requires Valid()
      modifies s.outBuf.buffer
      ensures Valid() && View() == old(View())
    {
      if s.outBuf.dataLen < s.outBuf.bufLen {
        s.outBuf.buffer[s.outBuf.dataLen] := 0;
      }
    }

    /** The rest of data_transfer once a read has brought the bytes now in the read buffer. */
    method Consume()
      requires Valid() && fate.Open? && (s.workBuf == null ==> s.dataRecved == 0 && s.replyBodySizeLeft == 0)
      requires s.workBuf != null ==> s.replyBodySizeLeft != 0 && (s.replyBodySizeLeft > 0 ==> s.workBuf.dataLen == s.dataRecved <= LOG_MAX_LEN)
      modifies this, s`workBuf, s`replyBodySizeLeft, s`dataRecved, s`contentLen, s`serverSock
      modifies s.outBuf`dataLen, s.outBuf.buffer
      modifies if s.workBuf == null then {} else {s.workBuf}
      modifies if s.workBuf == null then {} else {s.workBuf.buffer}
      ensures Valid() && WorkKept() && Settled()
      ensures View() == old(if s.replyBodySizeLeft > 0 then Collect(View())
                            else if s.replyBodySizeLeft == 0 && HEADER <= |View().out| then Header(View())
                            else View())
    {
      Terminate();
      var open := true;
      if s.replyBodySizeLeft > 0 {
        open := CollectAndWork();
      } else if s.replyBodySizeLeft == 0 {
        if s.outBuf.dataLen < HEADER {
          return;
        }
        open := TakeHeader();
      }
    }

    /** What the write half of data_transfer does to the socket. */
    twostate predicate Flushed()
      reads s.sock, s
      requires old(s.Valid())
    {
      if old(s.serverSock) < 0 then s.sock.sent == old(s.sock.sent) && s.sock.toWrite == old(s.sock.toWrite)
      else
        var d := old(DrainRun(s.sock.toWrite, s.inBuf.dataLen));
        |s.sock.sent| == old(|s.sock.sent|) + d.n && s.sock.toWrite == d.rest
    }

    /** The write half of data_transfer: what is queued goes out; a hard error closes the stream. */
    method WriteReady() returns (flushed: bool)
      requires Valid() && fate.Open?
      modifies this`fate, s`serverSock, s.inBuf`dataLen, s.inBuf.buffer, s.sock`toWrite, s.sock`sent
      ensures Valid() && Flushed() && Settled()
      ensures flushed == old(s.serverSock >= 0 && DrainRun(s.sock.toWrite, s.inBuf.dataLen).ok)
      ensures View() == old(View()).(fate := if flushed then Open else Dropped)
    {
      hide DrainRun;
      var t := s.FlushOut(-1);
      flushed := t >= 0;
      if !flushed {
        Close();
      }
    }

    /** What a read event will find. */
    ghost function Incoming(): Feed
      reads s, s.sock
    {
      if s.serverSock < 0 then Lost(false) else FeedRun(s.sock.toRead, MID_HTTP_BUF_SIZE)
    }

    /** What will be left of the read script behind it: all of it when the read buffer is not empty, for
        then the process dies first. */
    ghost function Remaining(): seq<ReadResult>
      requires Valid()
      reads this, s, s.inBuf, s.outBuf, s.sock, s.workBuf, s.inBuf.buffer, s.outBuf.buffer
      reads if s.workBuf == null then {} else {s.workBuf.buffer}
    {
      if s.serverSock < 0 || s.outBuf.Contents() != [] then s.sock.toRead else FeedRest(s.sock.toRead, MID_HTTP_BUF_SIZE)
    }

    /** The read half of data_transfer. */
    method ReadReady()
      requires Valid() && fate.Open? && Sound(View())
      modifies this, s`workBuf, s`replyBodySizeLeft, s`dataRecved, s`contentLen, s`serverSock, s`serverClosed, s`dataIn
      modifies s.outBuf`dataLen, s.outBuf.buffer, s.sock`toRead
      modifies if s.workBuf == null then {} else {s.workBuf}
      modifies if s.workBuf == null then {} else {s.workBuf.buffer}
      ensures Valid() && WorkKept() && Settled()
      ensures View() == old(OnEvent(View(), true, false, true, Incoming()))
      ensures s.sock.toRead == old(Remaining())
    {
      hide FeedRun, FeedRest, Header;
      if s.outBuf.dataLen != 0 {
        fate := Crashed;
        return;
      }
      ghost var feed, c := Incoming(), View();
      assert c.out == [];
      var t := s.FeedOut();
      assert feed.Fed? ==> c.out + feed.bytes == feed.bytes;
      assert View() == c.(out := if feed.Fed? then feed.bytes else []);
      if t < 0 {
        // a failing read leaves nothing to collect, so the branch for left-over bytes is dead
        assert s.outBuf.dataLen == 0;
        Close();
        return;
      }
      Consume();
    }

    /** What closes an open stream: an event in neither direction, a flush that breaks, a read that breaks. */
    lemma Closing(e: Ready)
      requires Valid() && fate.Open? && Sound(View())
      ensures var flushed := 0 <= s.serverSock && DrainRun(s.sock.toWrite, s.inBuf.dataLen).ok;
              var d := OnEvent(View(), e.read, e.write, flushed, Incoming()).fate;
              && (Breaks(e) ==> d.Dropped?)
              && (d.Open? ==> !Breaks(e) && (e.read ==> View().out == []))
    {
      hide Collect, Header, DrainRun, FeedRun, FeedRest;
      var flushed := 0 <= s.serverSock && DrainRun(s.sock.toWrite, s.inBuf.dataLen).ok;
      CallExact(View(), Call(e.read, e.write, flushed, Incoming()));
      DrainExact(s.sock.toWrite, s.inBuf.dataLen);
      FeedExact(s.sock.toRead, MID_HTTP_BUF_SIZE);
    }

    /** The event is in neither direction, or the socket breaks in one that is ready: in a write before all
        is sent, or in a read into an empty buffer. */
    ghost predicate Breaks(e: Ready)
      requires Valid()
      reads this, s, s.inBuf, s.outBuf, s.sock, s.workBuf, s.inBuf.buffer, s.outBuf.buffer
      reads if s.workBuf == null then {} else {s.workBuf.buffer}
    {
      || (!e.read && !e.write)
      || (e.write && (s.serverSock < 0 || WriteBreaks(s.sock.toWrite, |s.inBuf.Contents()|)))
      || (e.read && s.outBuf.Contents() == [] && (s.serverSock < 0 || ReadBreaks(s.sock.toRead)))
    }

    /** data_transfer, up to the change of the epoll registration. */
    method DataTransfer(readEvent: bool, writeEvent: bool)
      requires Valid() && fate.Open? && Sound(View())
      modifies this, s`workBuf, s`replyBodySizeLeft, s`dataRecved, s`contentLen, s`serverSock, s`serverClosed, s`dataIn
      modifies s.inBuf`dataLen, s.inBuf.buffer, s.outBuf`dataLen, s.outBuf.buffer
      modifies s.sock`toRead, s.sock`toWrite, s.sock`sent
      modifies if s.workBuf == null then {} else {s.workBuf}
      modifies if s.workBuf == null then {} else {s.workBuf.buffer}
      ensures Valid() && Sound(View()) && WorkKept() && Settled()
      ensures old(Breaks(Ready(readEvent, writeEvent))) ==> fate.Dropped? && s.serverSock == -1
      ensures fate.Open? ==> !old(Breaks(Ready(readEvent, writeEvent)))
      ensures View() == old(OnEvent(View(), readEvent, writeEvent,
                                    s.serverSock >= 0 && DrainRun(s.sock.toWrite, s.inBuf.dataLen).ok, Incoming()))
      ensures if writeEvent then Flushed() else s.sock.sent == old(s.sock.sent) && s.sock.toWrite == old(s.sock.toWrite)
      ensures s.sock.toRead
           == old(if readEvent && (writeEvent ==> s.serverSock >= 0 && DrainRun(s.sock.toWrite, s.inBuf.dataLen).ok)
                  then Remaining() else s.sock.toRead)
    {
      hide DrainRun, FeedRun, FeedRest, Collect, Header;
      ghost var before := View();
      Closing(Ready(readEvent, writeEvent));
      if !readEvent && !writeEvent {
        Close();
        return;
      }
      if writeEvent {
        var flushed := WriteReady();
        if !flushed {
          return;
        }
      }
      if readEvent {
        CallSound(before, Call(true, false, true, Incoming()));
        ReadReady();
      }
    }

    /** What the schedule makes of the connection from here on. */
    ghost function Outcome(es: seq<Ready>): Conn
      requires Valid() && Sound(View())
      reads this, s, s.inBuf, s.outBuf, s.sock, s.workBuf, s.inBuf.buffer, s.outBuf.buffer
      reads if s.workBuf == null then {} else {s.workBuf.buffer}
    {
      Calls(View(), Trace(es, s.sock.toRead, s.sock.toWrite, s.inBuf.dataLen))
    }

    /** One round of main_rcv_loop for this connection. */
    method Round(ghost es: seq<Ready>, e: Ready)
      requires Valid() && fate.Open? && Sound(View()) && 0 <= s.serverSock && es != [] && e == es[0]
      modifies this, s`workBuf, s`replyBodySizeLeft, s`dataRecved, s`contentLen, s`serverSock, s`serverClosed, s`dataIn
      modifies s.inBuf`dataLen, s.inBuf.buffer, s.outBuf`dataLen, s.outBuf.buffer
      modifies s.sock`toRead, s.sock`toWrite, s.sock`sent
      modifies if s.workBuf == null then {} else {s.workBuf}
      modifies if s.workBuf == null then {} else {s.workBuf.buffer}
      ensures Valid() && Sound(View()) && WorkKept() && Settled() && s.queued == old(s.queued)
      ensures old(Outcome(es)) == if fate.Open? then Outcome(es[1..]) else View()
    {
      hide Sound, Collect, OnEvent, DrainRun, FeedRun, FeedRest, Trace, Calls;
      NextCall(View(), es, s.sock.toRead, s.sock.toWrite, s.inBuf.dataLen);
      DataTransfer(e.read, e.write);
    }

    /** The callbacks of main_rcv_loop for this connection, event after event, until it is closed: the
        stream ends as the calls of the schedule say. */
    method Serve(es: seq<Ready>)
      requires Valid() && fate.Open? && Sound(View()) && 0 <= s.serverSock
      modifies this, s`workBuf, s`replyBodySizeLeft, s`dataRecved, s`contentLen, s`serverSock, s`serverClosed, s`dataIn
      modifies s.inBuf`dataLen, s.inBuf.buffer, s.outBuf`dataLen, s.outBuf.buffer
      modifies s.sock`toRead, s.sock`toWrite, s.sock`sent
      modifies if s.workBuf == null then {} else {s.workBuf}
      modifies if s.workBuf == null then {} else {s.workBuf.buffer}
      ensures Valid() && Sound(View()) && WorkKept() && Settled() && s.queued == old(s.queued)
      ensures View() == old(Calls(View(), Trace(es, s.sock.toRead, s.sock.toWrite, s.inBuf.dataLen)))
    {
      hide Sound, Calls, Trace;
      var k := 0;
      while k < |es| && fate.Open?
        invariant 0 <= k <= |es| && Valid() && Sound(View()) && WorkKept() && Settled()
        invariant old(Outcome(es)) == if fate.Open? then Outcome(es[k..]) else View()
      {
        assert es[k..][1..] == es[k + 1..];
        Round(es[k..], es[k]);
        k := k + 1;
      }
      LastCall(View(), es[k..], s.sock.toRead, s.sock.toWrite, s.inBuf.dataLen);
    }
  }
}
