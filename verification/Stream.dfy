/** The stream over a non-blocking socket: partial writes drain one buffer, reads fill the other. */
module Stream {
  import opened Bytes
  import opened MemState
  import opened Buf

  const CFG_HTTP_BUF_SIZE: nat := 8 * 1024
  const MID_HTTP_BUF_SIZE: nat := 64 * 1024
  const LOG_MAX_LEN: nat := 1024 * 32

  // ---------- the socket ----------

  /** What one write(2) does: EINTR, EAGAIN, another error, or at most n bytes taken. */
  datatype WriteResult = WriteInterrupted | WriteBlocked | WriteFailed | Wrote(n: nat)

  /** What one read(2) does; no bytes means that the peer has closed. */
  datatype ReadResult = ReadInterrupted | ReadBlocked | ReadFailed | Arrived(bytes: seq<byte>)

  function Min(a: nat, b: nat): nat {
    if a < b then a else b
  }

  /** What the next write of n bytes answers; a script that is over blocks. */
  function NextWrite(script: seq<WriteResult>, n: nat): (r: WriteResult)
    ensures r.Wrote? ==> r.n <= n
    ensures script == [] ==> r.WriteBlocked?
  {
    if script == [] then WriteBlocked
    else if script[0].Wrote? then Wrote(Min(script[0].n, n))
    else script[0]
  }

  /** What the next read into `room` bytes answers. */
  function NextRead(script: seq<ReadResult>, room: nat): (r: ReadResult)
    ensures r.Arrived? ==> |r.bytes| <= room
    ensures script == [] ==> r.ReadBlocked?
  {
    if script == [] then ReadBlocked
    else if script[0].Arrived? then Arrived(script[0].bytes[..Min(room, |script[0].bytes|)])
    else script[0]
  }

  function Rest<T>(script: seq<T>): seq<T> {
    if script == [] then [] else script[1..]
  }

  /** A socket whose behaviour is any finite script. */
  class Socket {
    var toWrite: seq<WriteResult>
    var toRead: seq<ReadResult>
    var sent: seq<byte>

    constructor (toWrite: seq<WriteResult>, toRead: seq<ReadResult>)
      ensures this.toWrite == toWrite && this.toRead == toRead && sent == []
    {
      this.toWrite, this.toRead, sent := toWrite, toRead, [];
    }

    method Write(data: seq<byte>) returns (r: WriteResult)
      modifies this`toWrite, this`sent
      ensures r == NextWrite(old(toWrite), |data|) && toWrite == Rest(old(toWrite))
      ensures sent == if r.Wrote? then old(sent) + data[..r.n] else old(sent)
    {
      r := NextWrite(toWrite, |data|);
      toWrite := Rest(toWrite);
      if r.Wrote? {
        sent := sent + data[..r.n];
      }
    }

    method Read(room: nat) returns (r: ReadResult)
      modifies this`toRead
      ensures r == NextRead(old(toRead), room) && toRead == AfterRead(old(toRead), room)
    {
      r := NextRead(toRead, room);
      toRead := AfterRead(toRead, room);
    }
  }

  // ---------- what the loops do ----------

  /** A drain: how many bytes went, whether without a hard error, and the script that is left. */
  datatype Drain = Drain(n: nat, ok: bool, rest: seq<WriteResult>)

  function DrainRun(script: seq<WriteResult>, want: nat): Drain
    decreases |script|
  {
    if want == 0 || script == [] then Drain(0, true, script)
    else
      match NextWrite(script, want)
      case WriteInterrupted => DrainRun(script[1..], want)
      case WriteBlocked => Drain(0, true, script[1..])
      case WriteFailed => Drain(0, false, script[1..])
      case Wrote(m) =>
        if m == 0 then Drain(0, true, script[1..])
        else
          var d := DrainRun(script[1..], want - m);
          Drain(m + d.n, d.ok, d.rest)
  }

  /** The bytes the socket is willing to take before it first blocks or fails. */
  function Willing(script: seq<WriteResult>): nat {
    if script == [] then 0
    else
      match script[0]
      case WriteInterrupted => Willing(script[1..])
      case Wrote(n) => if n == 0 then 0 else n + Willing(script[1..])
      case _ => 0
  }

  /** Where the socket first does anything but take bytes or ask for a retry. */
  function Passes(script: seq<WriteResult>): (k: nat)
    ensures k <= |script|
    ensures forall i :: 0 <= i < k ==> script[i].WriteInterrupted? || (script[i].Wrote? && script[i].n != 0)
    ensures k < |script| ==> !script[k].WriteInterrupted? && (script[k].Wrote? ==> script[k].n == 0)
  {
    if script == [] || script[0].WriteBlocked? || script[0].WriteFailed? || script[0] == Wrote(0) then 0
    else 1 + Passes(script[1..])
  }

  /** A hard error comes before `want` bytes are taken. */
  predicate WriteBreaks(script: seq<WriteResult>, want: nat) {
    var k := Passes(script);
    Willing(script) < want && k < |script| && script[k].WriteFailed?
  }

  /** A drain moves exactly as much as is wanted and the socket is willing to take.  It fails exactly when
      a hard error comes before that much is taken, and it stops right behind whatever stopped it. */
  lemma {:induction false} DrainExact(script: seq<WriteResult>, want: nat)
    ensures var d, k := DrainRun(script, want), Passes(script);
            && d.n == Min(want, Willing(script))
            && (!d.ok <==> WriteBreaks(script, want))
            && (Willing(script) < want ==> d.rest == Rest(script[k..]))
    decreases |script|
  {
    if want != 0 && script != [] {
      match script[0] {
        case Wrote(n) =>
          if n != 0 { DrainExact(script[1..], want - Min(n, want)); }
        case WriteInterrupted => DrainExact(script[1..], want);
        case WriteBlocked =>
        case WriteFailed =>
      }
    }
  }

  datatype Feed = Fed(bytes: seq<byte>) | Idle | Lost(eof: bool)

  /** One stream_feed_out: it stops at the first read that yields anything but EINTR. */
  function FeedRun(script: seq<ReadResult>, room: nat): Feed
    decreases |script|
  {
    if room == 0 || script == [] then Idle
    else
      match NextRead(script, room)
      case ReadInterrupted => FeedRun(script[1..], room)
      case ReadBlocked => Idle
      case ReadFailed => Lost(false)
      case Arrived(bytes) => if bytes == [] then Lost(true) else Fed(bytes)
  }

  /** What that stream_feed_out leaves of the script: everything behind the read that ended it, and of that
      read the bytes that did not fit. */
  function FeedRest(script: seq<ReadResult>, room: nat): (rest: seq<ReadResult>)
    ensures |rest| <= |script|
    decreases |script|
  {
    if room == 0 || script == [] then script
    else
      match script[0]
      case ReadInterrupted => FeedRest(script[1..], room)
      case Arrived(bytes) => AfterRead(script, room)
      case _ => script[1..]
  }

  /** The script after one read into `room` bytes; what does not fit stays at its front. */
  function AfterRead(script: seq<ReadResult>, room: nat): seq<ReadResult> {
    if script != [] && script[0].Arrived? && room < |script[0].bytes|
    then [Arrived(script[0].bytes[room..])] + script[1..]
    else Rest(script)
  }

  /** How often a read is retried. */
  function Retries(script: seq<ReadResult>): (k: nat)
    ensures k <= |script| && forall i :: 0 <= i < k ==> script[i].ReadInterrupted?
    ensures k < |script| ==> !script[k].ReadInterrupted?
  {
    if script == [] || !script[0].ReadInterrupted? then 0 else 1 + Retries(script[1..])
  }

  /** The first answer that is not an interruption is an error or the end of the connection. */
  predicate ReadBreaks(script: seq<ReadResult>) {
    var k := Retries(script);
    k < |script| && (script[k].ReadFailed? || script[k] == Arrived([]))
  }

  /** The first answer that is not an interruption decides: nothing yet, an error, the end of the
      connection, or bytes, of which as many are taken as fit. */
  lemma {:induction false} FeedExact(script: seq<ReadResult>, room: nat)
    requires 1 <= room
    ensures FeedRun(script, room).Lost? <==> ReadBreaks(script)
    ensures var k, f, rest := Retries(script), FeedRun(script, room), FeedRest(script, room);
            if k == |script| then f == Idle && rest == []
            else
              match script[k]
              case ReadInterrupted => false
              case ReadBlocked => f == Idle && rest == script[k + 1..]
              case ReadFailed => f == Lost(false) && rest == script[k + 1..]
              case Arrived(b) =>
                if b == [] then f == Lost(true) && rest == script[k + 1..]
                else if |b| <= room then f == Fed(b) && rest == script[k + 1..]
                else f == Fed(b[..room]) && rest == [Arrived(b[room..])] + script[k + 1..]
    decreases |script|
  {
    if script != [] && script[0].ReadInterrupted? {
      FeedExact(script[1..], room);
    }
  }

  lemma DrainStep(script: seq<WriteResult>, want: nat)
    requires want != 0
    ensures DrainRun(script, want)
         == match NextWrite(script, want)
            case WriteInterrupted => DrainRun(Rest(script), want)
            case WriteBlocked => Drain(0, true, Rest(script))
            case WriteFailed => Drain(0, false, Rest(script))
            case Wrote(m) =>
              if m == 0 then Drain(0, true, Rest(script))
              else
                var d := DrainRun(Rest(script), want - m);
                Drain(m + d.n, d.ok, d.rest)
  {
  }

  /** One write: what the socket took leaves the buffer. */
  method WriteOnce(buf: Buffer, sock: Socket, want: nat) returns (r: WriteResult)
    requires buf.Valid() && 1 <= want <= buf.dataLen
    modifies buf`dataLen, buf.buffer, sock`toWrite, sock`sent
    ensures buf.Valid() && r == NextWrite(old(sock.toWrite), want) && sock.toWrite == Rest(old(sock.toWrite))
    ensures sock.sent + buf.Contents() == old(sock.sent + buf.Contents())
    ensures |sock.sent| == old(|sock.sent|) + if r.Wrote? then r.n else 0
  {
    ghost var all := buf.Contents();
    r := sock.Write(buf.buffer[..want]);
    if r.Wrote? && r.n != 0 {
      buf.Pick(r.n);
      assert buf.buffer[..buf.dataLen] == all[r.n..];
      assert all == all[..r.n] + all[r.n..];
    }
  }

  /** The write loop: the front of the buffer goes out piece by piece. */
  method DrainLoop(buf: Buffer, sock: Socket, want: nat) returns (t: int)
    requires buf.Valid() && want <= buf.dataLen
    modifies buf`dataLen, buf.buffer, sock`toWrite, sock`sent
    ensures buf.Valid() && sock.sent + buf.Contents() == old(sock.sent + buf.Contents())
    ensures var d := old(DrainRun(sock.toWrite, want));
            && d.n <= want && |sock.sent| == old(|sock.sent|) + d.n
            && sock.toWrite == d.rest
            && t == if d.ok then d.n else -1
  {
    hide DrainRun, NextWrite;
    t := 0;
    var curSize: nat := want;
    ghost var d := DrainRun(sock.toWrite, curSize);
    while curSize > 0
      invariant buf.Valid() && 0 <= t && t + curSize == want
      invariant sock.sent + buf.Contents() == old(sock.sent + buf.Contents())
      invariant |sock.sent| == old(|sock.sent|) + t
      invariant var e := DrainRun(sock.toWrite, curSize); d == Drain(t + e.n, e.ok, e.rest)
      decreases |sock.toWrite|, curSize
    {
      DrainStep(sock.toWrite, curSize);
      var r := WriteOnce(buf, sock, curSize);
      match r {
        case WriteInterrupted =>
        case WriteBlocked => return;
        case WriteFailed => return -1;
        case Wrote(n) =>
          if n == 0 {
            return;
          }
          curSize, t := curSize - n, t + n;
      }
    }
    DrainNothing(sock.toWrite);
  }

  lemma FeedStep(script: seq<ReadResult>, room: nat)
    requires room != 0
    ensures FeedRun(script, room)
         == match NextRead(script, room)
            case ReadInterrupted => FeedRun(Rest(script), room)
            case ReadBlocked => Idle
            case ReadFailed => Lost(false)
            case Arrived(bytes) => if bytes == [] then Lost(true) else Fed(bytes)
    ensures FeedRest(script, room)
         == if NextRead(script, room).ReadInterrupted? then FeedRest(AfterRead(script, room), room)
            else AfterRead(script, room)
    ensures NextRead(script, room).ReadInterrupted? ==> AfterRead(script, room) == Rest(script)
  {
  }

  /** The read loop: the bytes of one successful read join the end of the buffer. */
  method FeedLoop(buf: Buffer, sock: Socket) returns (r: Feed)
    requires buf.Valid()
    modifies buf`dataLen, buf.buffer, sock`toRead
    ensures buf.Valid() && r == old(FeedRun(sock.toRead, buf.FreeSpace()))
    ensures sock.toRead == old(FeedRest(sock.toRead, buf.FreeSpace()))
    ensures buf.Contents() == old(buf.Contents()) + if r.Fed? then r.bytes else []
  {
    hide FeedRun, NextRead, FeedRest, AfterRead;
    var room := buf.FreeSpace();
    while room > 0
      invariant buf.Valid() && buf.Contents() == old(buf.Contents()) && room == buf.FreeSpace()
      invariant FeedRun(sock.toRead, room) == old(FeedRun(sock.toRead, buf.FreeSpace()))
      invariant FeedRest(sock.toRead, room) == old(FeedRest(sock.toRead, buf.FreeSpace()))
      decreases |sock.toRead|
    {
      FeedStep(sock.toRead, room);
      var got := sock.Read(room);
      match got {
        case ReadInterrupted =>
        case ReadBlocked => return Idle;
        case ReadFailed => return Lost(false);
        case Arrived(bytes) =>
          if bytes == [] {
            return Lost(true);
          }
          buf.CopyIn(buf.dataLen, bytes);
          buf.dataLen := buf.dataLen + |bytes|;
          return Fed(bytes);
      }
    }
    FeedNothing(sock.toRead);
    return Idle;
  }

  lemma FeedNothing(script: seq<ReadResult>)
    ensures FeedRun(script, 0) == Idle && FeedRest(script, 0) == script
  {
  }

  lemma DrainNothing(script: seq<WriteResult>)
    ensures DrainRun(script, 0) == Drain(0, true, script)
  {
  }

  // ---------- the stream ----------

  class TcpStream {
    const inBuf: Buffer
    const outBuf: Buffer
    const sock: Socket
    var serverSock: int
    var workBuf: Buffer?
    var replyBodySizeLeft: int
    var dataRecved: int
    var contentLen: int
    var dataIn: int
    var serverClosed: bool
    ghost var queued: seq<byte>   // everything ever put into inBuf

    /** The buffers are well-formed and share nothing; what was queued is either sent or still there. */
    ghost predicate Valid()
      reads this, inBuf, outBuf, sock, workBuf, inBuf.buffer, outBuf.buffer
      reads if workBuf == null then {} else {workBuf.buffer}
    {
      && inBuf.Valid() && outBuf.Valid() && inBuf != outBuf && inBuf.buffer != outBuf.buffer
      && (workBuf != null ==>
            && workBuf.Valid() && workBuf != inBuf && workBuf != outBuf
            && workBuf.buffer != inBuf.buffer && workBuf.buffer != outBuf.buffer)
      && queued == sock.sent + inBuf.Contents()
    }

    /** new_transaction_stream: the length prefix and the body are queued for sending. */
    constructor (sock: Socket, fd: int, prefix: seq<byte>, body: seq<byte>)
      requires |prefix| == 8 && CFG_HTTP_BUF_SIZE + |body| <= MAX_EXT_MEM_BLOCK
      requires sock.sent == []
      ensures Valid() && this.sock == sock && serverSock == fd
      ensures fresh(inBuf) && fresh(outBuf) && fresh(inBuf.buffer) && fresh(outBuf.buffer)
      ensures queued == inBuf.Contents() == prefix + body && outBuf.Contents() == [] && workBuf == null
      ensures outBuf.bufLen == 65536
      ensures replyBodySizeLeft == dataRecved == contentLen == dataIn == 0 && !serverClosed
    {
      var i := new Buffer(CFG_HTTP_BUF_SIZE);
      var o := new Buffer(MID_HTTP_BUF_SIZE);
      i.Put(prefix);
      i.Put(body);
      inBuf, outBuf, this.sock, serverSock, workBuf := i, o, sock, fd, null;
      replyBodySizeLeft, dataRecved, contentLen, dataIn, serverClosed := 0, 0, 0, 0, false;
      queued := prefix + body;
    }

    /** stream_create: both buffers empty. */
    constructor Create(sock: Socket, fd: int)
      requires sock.sent == []
      ensures Valid() && this.sock == sock && serverSock == fd
      ensures fresh(inBuf) && fresh(outBuf) && fresh(inBuf.buffer) && fresh(outBuf.buffer)
      ensures queued == inBuf.Contents() == outBuf.Contents() == [] && workBuf == null
      ensures inBuf.bufLen == 8192 && outBuf.bufLen == 65536
      ensures replyBodySizeLeft == dataRecved == contentLen == dataIn == 0 && !serverClosed
    {
      inBuf := new Buffer(CFG_HTTP_BUF_SIZE);
      outBuf := new Buffer(MID_HTTP_BUF_SIZE);
      this.sock, serverSock, workBuf := sock, fd, null;
      replyBodySizeLeft, dataRecved, contentLen, dataIn, serverClosed := 0, 0, 0, 0, false;
      queued := [];
    }

    /** stream_flush_out: up to size bytes; everything when size is not positive or exceeds what is queued. */
    method FlushOut(size: int) returns (t: int)
      requires Valid()
      modifies inBuf`dataLen, inBuf.buffer, sock`toWrite, sock`sent
      ensures Valid() && queued == old(queued)
      ensures serverSock < 0 ==> t == -1 && sock.sent == old(sock.sent) && sock.toWrite == old(sock.toWrite)
      ensures serverSock >= 0 ==>
                var want := if size <= 0 || old(|inBuf.Contents()|) < size then old(|inBuf.Contents()|) else size;
                var d := old(DrainRun(sock.toWrite, want));
                && sock.sent + inBuf.Contents() == old(sock.sent + inBuf.Contents())
                && |sock.sent| == old(|sock.sent|) + d.n
                && sock.toWrite == d.rest
                && t == if d.ok then d.n else -1
    {
      hide DrainRun;
      if serverSock < 0 {
        return -1;
      }
      t := DrainLoop(inBuf, sock, if inBuf.dataLen < size || size <= 0 then inBuf.dataLen else size);
    }

    /** stream_feed_out.  `data_in` is only ever raised by nothing: the statement that adds to it is
        reached when there was no room to read at all. */
    method FeedOut() returns (t: int)
      requires Valid()
      modifies this`serverClosed, this`dataIn, outBuf`dataLen, outBuf.buffer, sock`toRead
      ensures Valid() && queued == old(queued) && dataIn == old(dataIn)
      ensures sock.toRead == if serverSock < 0 then old(sock.toRead) else old(FeedRest(sock.toRead, outBuf.FreeSpace()))
      ensures serverSock < 0 ==> t == -1 && outBuf.Contents() == old(outBuf.Contents()) && serverClosed == old(serverClosed)
      ensures serverSock >= 0 ==>
                match old(FeedRun(sock.toRead, outBuf.FreeSpace()))
                case Fed(bytes) =>
                  t == |bytes| && outBuf.Contents() == old(outBuf.Contents()) + bytes && serverClosed == old(serverClosed)
                case Idle => t == 0 && outBuf.Contents() == old(outBuf.Contents()) && serverClosed == old(serverClosed)
                case Lost(eof) =>
                  && t == -1 && outBuf.Contents() == old(outBuf.Contents())
                  && serverClosed == (eof || old(serverClosed))
    {
      hide FeedRun, FeedRest;
      t := 0;
      if serverSock < 0 {
        return -1;
      }
      var full := outBuf.FreeSpace() == 0;
      var r := FeedLoop(outBuf, sock);
      match r {
        case Fed(bytes) => t := |bytes|;
        case Idle =>
          if full {
            dataIn := dataIn + t;
          }
        case Lost(eof) =>
          if eof {
            serverClosed := true;
          }
          t := -1;
      }
    }
  }
}
