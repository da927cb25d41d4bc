/** What the receiving side of a connection does with the bytes it reads, over values: one step per
    read event, and whole connections. */
module Receive {
  import opened Bytes
  import opened Stream
  import opened Frame

  /** The stream is open; or do_work ran and it was closed; or it was closed without work; or the
      assertion that the read buffer is empty stopped the process. */
  datatype Fate = Open | Delivered(body: seq<byte>) | Dropped | Crashed

  /** The fields of the stream the reassembly uses.  `work` is None before the header has been seen. */
  datatype Conn = Conn(fate: Fate, out: seq<byte>, left: int, recved: nat, content: nat, work: Option<seq<byte>>)

  function Fresh(): Conn {
    Conn(Open, [], 0, 0, 0, None)
  }

  /** collect_data and what follows it: the read buffer joins the body; at the exact end of the body
      the work is done and the stream closed. */
  function Collect(c: Conn): Conn
    requires c.work.Some?
  {
    var d := c.(out := [], left := c.left - |c.out|, recved := c.recved + |c.out|,
                work := Some(c.work.value + c.out));
    if d.left != 0 then d
    else if d.recved != d.content then d.(fate := Dropped)
    else d.(fate := Delivered(d.work.value))
  }

  /** The header has arrived at the front of the read buffer. */
  function Header(c: Conn): Conn
    requires HEADER <= |c.out|
  {
    var n := LoadWord(c.out[..HEADER]);
    if n > LOG_MAX_LEN || n == 0 then c.(fate := Dropped, out := [])
    else Collect(c.(left := n, content := n, out := c.out[HEADER..], work := Some([])))
  }

  /** One read event that brings the bytes `chunk` (none when the socket would block). */
  function OnRead(c: Conn, chunk: seq<byte>): Conn
    requires c.left > 0 ==> c.work.Some?
  {
    if c.fate != Open then c
    else if c.out != [] then c.(fate := Crashed)
    else
      var d := c.(out := chunk);
      if d.left > 0 then Collect(d)
      else if d.left == 0 && HEADER <= |d.out| then Header(d)
      else d
  }

  /** One epoll event: neither direction ready, or a failed flush or read, closes the stream; a read
      event on a non-empty read buffer trips the assertion. */
  function OnEvent(c: Conn, readEvent: bool, writeEvent: bool, flushed: bool, feed: Feed): Conn
    requires c.left > 0 ==> c.work.Some?
  {
    if (!readEvent && !writeEvent) || (writeEvent && !flushed) then c.(fate := Dropped)
    else if !readEvent then c
    else if c.out != [] then c.(fate := Crashed)
    else
      match feed
      case Lost(_) => c.(fate := Dropped)
      case Idle => OnRead(c, [])
      case Fed(bytes) => OnRead(c, bytes)
  }

  /** What holds between read events of an open stream: after the header, the bytes received and the
      bytes still missing always add up to the announced length, and `work` has
      as many bytes as were received; BodyContents says which. */
  predicate Sound(c: Conn) {
    && (c.left > 0 ==> c.work.Some?)
    && (c.fate.Open? && c.work.Some? ==>
          && c.left != 0 && (c.left > 0 ==> c.out == [])
          && c.recved + c.left == c.content <= LOG_MAX_LEN && |c.work.value| == c.recved)
    && (c.fate.Open? && c.work.None? ==> c.left == 0 && c.recved == 0)
  }

  /** Every read event keeps the accounts straight, and the branch of collect_data for a mismatch
      between the received and the announced length is never taken. */
  lemma OnReadSound(c: Conn, chunk: seq<byte>)
    requires Sound(c) && c.fate.Open?
    ensures Sound(OnRead(c, chunk))
    ensures OnRead(c, chunk).fate.Dropped? <==>
              && c.out == [] && c.left == 0 && HEADER <= |chunk|
              && (LoadWord(chunk[..HEADER]) > LOG_MAX_LEN || LoadWord(chunk[..HEADER]) == 0)
    ensures OnRead(c, chunk).fate.Crashed? <==> c.out != []
  {
  }

  // ---------- whole connections ----------

  /** The connection after the reads cs. */
  function Reads(c: Conn, cs: seq<seq<byte>>): Conn
    requires Sound(c)
    decreases |cs|
  {
    if cs == [] || !c.fate.Open? then c
    else
      OnReadSound(c, cs[0]);
      Reads(OnRead(c, cs[0]), cs[1..])
  }

  predicate NonEmpty(cs: seq<seq<byte>>) {
    forall k :: 0 <= k < |cs| ==> cs[k] != []
  }

  /** Some reads, taken from the first on, bring exactly n bytes. */
  predicate Hits(cs: seq<seq<byte>>, n: nat)
    decreases |cs|
  {
    cs != [] && (|cs[0]| == n || (|cs[0]| < n && Hits(cs[1..], n - |cs[0]|)))
  }

  /** Hits says that n is the length of a non-empty prefix of the reads. */
  lemma {:induction false} HitsIsBoundary(cs: seq<seq<byte>>, n: nat)
    requires NonEmpty(cs)
    ensures Hits(cs, n) <==> exists k :: 1 <= k <= |cs| && |Concat(cs[..k])| == n
    decreases |cs|
  {
    if cs != [] {
      var m, t := |cs[0]|, cs[1..];
      forall k | 1 <= k <= |cs| ensures |Concat(cs[..k])| == m + |Concat(t[..k - 1])| {
        assert cs[..k][1..] == t[..k - 1];
      }
      if m < n {
        HitsIsBoundary(t, n - m);
        if Hits(cs, n) {
          var j :| 1 <= j <= |t| && |Concat(t[..j])| == n - m;
          assert |Concat(cs[..j + 1])| == n;
        }
      } else if m == n {
        assert |Concat(cs[..1])| == n;
      }
    }
  }

  /** Bytes beyond the announced length: the work is never done. */
  lemma {:induction false} Overrun(c: Conn, cs: seq<seq<byte>>)
    requires Sound(c) && c.fate.Open? && c.left < 0
    ensures !Reads(c, cs).fate.Delivered? && Reads(c, cs).left == c.left
    decreases |cs|
  {
    if cs != [] && c.out == [] {
      OnReadSound(c, cs[0]);
      Overrun(OnRead(c, cs[0]), cs[1..]);
    }
  }

  /** Once the header has been seen, the work is done exactly when some reads complete the body to the
      byte, and then on exactly the announced number of bytes. */
  lemma {:induction false} BodyExact(c: Conn, cs: seq<seq<byte>>)
    requires Sound(c) && c.fate.Open? && c.left > 0 && NonEmpty(cs)
    ensures Reads(c, cs).fate.Delivered? <==> Hits(cs, c.left)
    ensures Hits(cs, c.left) ==>
              c.left <= |Concat(cs)| && Reads(c, cs).fate == Delivered(c.work.value + Concat(cs)[..c.left])
    decreases |cs|
  {
    if cs != [] {
      var m, d := |cs[0]|, OnRead(c, cs[0]);
      OnReadSound(c, cs[0]);
      if m < c.left {
        BodyExact(d, cs[1..]);
        if Hits(cs, c.left) {
          assert Concat(cs)[..c.left] == cs[0] + Concat(cs[1..])[..d.left];
        }
      } else if m == c.left {
        assert Concat(cs)[..c.left] == cs[0];
        assert Reads(d, cs[1..]) == d;
      } else {
        Overrun(d, cs[1..]);
      }
    }
  }

  /** While the body is incomplete, the work buffer is what it was with every byte read since behind it,
      in order, and the count of received bytes follows. */
  lemma {:induction false} BodyContents(c: Conn, cs: seq<seq<byte>>)
    requires Sound(c) && c.fate.Open? && c.left > 0
    requires var r := Reads(c, cs); r.fate.Open? && r.left > 0
    ensures var r := Reads(c, cs);
            && r == Conn(Open, [], c.left - |Concat(cs)|, c.recved + |Concat(cs)|, c.content,
                         Some(c.work.value + Concat(cs)))
    decreases |cs|
  {
    if cs == [] {
      assert c.work.value + Concat(cs) == c.work.value;
    } else {
      OnReadSound(c, cs[0]);
      var d := OnRead(c, cs[0]);
      if d.left < 0 {
        Overrun(d, cs[1..]);
      } else {
        BodyContents(d, cs[1..]);
        assert c.work.value + cs[0] + Concat(cs[1..]) == c.work.value + Concat(cs);
      }
    }
  }

  /** What the header of the first read announces, when that read is long enough to hold one. */
  predicate Announces(cs: seq<seq<byte>>, n: nat) {
    cs != [] && HEADER <= |cs[0]| && LoadWord(cs[0][..HEADER]) == n && 1 <= n <= LOG_MAX_LEN
  }

  /** A whole connection, over any reads whatever: the work is done if and only if the first read holds
      the header, the length is legal, and some reads end exactly on the last byte of the frame. */
  lemma ConnectionExact(cs: seq<seq<byte>>)
    requires NonEmpty(cs)
    ensures Reads(Fresh(), cs).fate.Delivered? <==> exists n :: Announces(cs, n) && Hits(cs, HEADER + n)
    ensures forall n :: Announces(cs, n) && Hits(cs, HEADER + n) ==>
              HEADER + n <= |Concat(cs)| && Reads(Fresh(), cs).fate == Delivered(Concat(cs)[HEADER..HEADER + n])
  {
    if cs != [] {
      OnReadSound(Fresh(), cs[0]);
      var d, t := OnRead(Fresh(), cs[0]), cs[1..];
      if |cs[0]| < HEADER {
        ShortFirstRead(cs);
      } else {
        var n := LoadWord(cs[0][..HEADER]);
        if Announces(cs, n) {
          FirstReadExact(cs, n);
        }
      }
    }
  }

  /** A first read without a whole header: the next read event finds the buffer non-empty. */
  lemma ShortFirstRead(cs: seq<seq<byte>>)
    requires NonEmpty(cs) && cs != [] && |cs[0]| < HEADER
    ensures Reads(Fresh(), cs).fate == if |cs| == 1 then Open else Crashed
  {
    var d, t := OnRead(Fresh(), cs[0]), cs[1..];
    if t != [] {
      assert Reads(Fresh(), cs) == Reads(d, t) == Reads(OnRead(d, t[0]), t[1..]);
    }
  }

  lemma FirstReadExact(cs: seq<seq<byte>>, n: nat)
    requires NonEmpty(cs) && Announces(cs, n)
    ensures Reads(Fresh(), cs).fate.Delivered? <==> Hits(cs, HEADER + n)
    ensures Hits(cs, HEADER + n) ==>
              HEADER + n <= |Concat(cs)| && Reads(Fresh(), cs).fate == Delivered(Concat(cs)[HEADER..HEADER + n])
  {
    var first := cs[0][HEADER..];
    var h := Conn(Open, [], n, 0, n, Some([]));
    if first == [] {
      var d := OnRead(Fresh(), cs[0]);
      var none: seq<byte> := [];
      assert none + first == none;
      assert d == h;
      BodyExact(h, cs[1..]);
      if Hits(cs, HEADER + n) {
        assert Concat(cs)[HEADER..HEADER + n] == Concat(cs[1..])[..n];
      }
    } else {
      var cs' := [first] + cs[1..];
      assert cs'[1..] == cs[1..];
      assert OnRead(Fresh(), cs[0]) == OnRead(h, first);
      BodyExact(h, cs');
      assert Concat(cs)[HEADER..] == Concat(cs');
      if Hits(cs, HEADER + n) {
        assert Concat(cs)[HEADER..HEADER + n] == Concat(cs')[..n];
      }
    }
  }

  // ---------- one frame, any split ----------

  lemma {:induction false} HitsAll(cs: seq<seq<byte>>)
    requires NonEmpty(cs) && cs != []
    ensures Hits(cs, |Concat(cs)|)
    decreases |cs|
  {
    if |cs| == 1 {
      assert cs[1..] == [];
    } else {
      HitsAll(cs[1..]);
    }
  }

  lemma {:induction false} HitsBounded(cs: seq<seq<byte>>, n: nat)
    requires Hits(cs, n)
    ensures n <= |Concat(cs)|
    decreases |cs|
  {
    if |cs[0]| < n {
      HitsBounded(cs[1..], n - |cs[0]|);
    }
  }

  lemma {:induction false} ConcatAppend(a: seq<seq<byte>>, b: seq<seq<byte>>)
    ensures Concat(a + b) == Concat(a) + Concat(b)
  {
    if a == [] {
      assert a + b == b;
    } else {
      assert (a + b)[1..] == a[1..] + b;
      ConcatAppend(a[1..], b);
    }
  }

  /** Framing end to end: one frame of 1 to 32768 bytes, cut into reads in any way.  If the first read
      holds the header, the work is done exactly once, by the last read and by none before it, on
      exactly the body; if it does not, the process dies on its own assertion. */
  lemma FrameDelivered(body: seq<byte>, cs: seq<seq<byte>>)
    requires 1 <= |body| <= LOG_MAX_LEN && NonEmpty(cs) && Concat(cs) == Encode(body)
    ensures cs != []
    ensures Reads(Fresh(), cs).fate == if HEADER <= |cs[0]| then Delivered(body) else Crashed
    ensures forall k :: 0 <= k < |cs| ==> !Reads(Fresh(), cs[..k]).fate.Delivered?
  {
    assert cs != [];
    HeaderOf(body, |body|);
    if |cs[0]| < HEADER {
      assert |Concat(cs)| == |cs[0]| + |Concat(cs[1..])|;
      ShortFirstRead(cs);
    } else {
      assert cs[0][..HEADER] == Concat(cs)[..HEADER];
      HitsAll(cs);
      FirstReadExact(cs, |body|);
      assert Concat(cs)[HEADER..HEADER + |body|] == body;
    }
    forall k | 0 <= k < |cs| ensures !Reads(Fresh(), cs[..k]).fate.Delivered? {
      EarlierReads(body, cs, k);
    }
  }

  lemma EarlierReads(body: seq<byte>, cs: seq<seq<byte>>, k: nat)
    requires 1 <= |body| <= LOG_MAX_LEN && NonEmpty(cs) && Concat(cs) == Encode(body) && k < |cs|
    ensures !Reads(Fresh(), cs[..k]).fate.Delivered?
  {
    var a, b := cs[..k], cs[k..];
    assert cs == a + b;
    ConcatAppend(a, b);
    assert b[0] != [] && |Concat(a)| < |Concat(cs)|;
    HeaderOf(body, |body|);
    if k != 0 && HEADER <= |a[0]| {
      assert a[0][..HEADER] == Concat(cs)[..HEADER];
      if Hits(a, HEADER + |body|) {
        HitsBounded(a, HEADER + |body|);
      }
      FirstReadExact(a, |body|);
    } else if k != 0 {
      ShortFirstRead(a);
    }
  }

  // ---------- any schedule of events ----------

  /** One call of data_transfer: which directions are ready, whether a flush succeeds, what a read finds. */
  datatype Call = Call(readEvent: bool, writeEvent: bool, flushed: bool, feed: Feed)

  function Calls(c: Conn, es: seq<Call>): Conn
    requires Sound(c)
    decreases |es|
  {
    if es == [] || !c.fate.Open? then c
    else
      CallSound(c, es[0]);
      Calls(OnEvent(c, es[0].readEvent, es[0].writeEvent, es[0].flushed, es[0].feed), es[1..])
  }

  lemma CallSound(c: Conn, e: Call)
    requires Sound(c) && c.fate.Open?
    ensures Sound(OnEvent(c, e.readEvent, e.writeEvent, e.flushed, e.feed))
  {
    match e.feed {
      case Fed(bytes) => OnReadSound(c, bytes);
      case Idle => OnReadSound(c, []);
      case Lost(_) =>
    }
  }

  /** One call on an open stream, case by case. */
  lemma CallExact(c: Conn, e: Call)
    requires Sound(c) && c.fate.Open?
    ensures var d := OnEvent(c, e.readEvent, e.writeEvent, e.flushed, e.feed);
            if !e.readEvent && !e.writeEvent then d.fate.Dropped?
            else if e.writeEvent && !e.flushed then d.fate.Dropped?
            else if !e.readEvent then d == c
            else if c.out != [] then d.fate.Crashed?
            else
              match e.feed
              case Lost(_) => d.fate.Dropped?
              case Idle => d == c
              case Fed(bytes) =>
                if c.left == 0 && |bytes| < 8 then d == c.(out := bytes)
                else if c.left == 0 && !(1 <= LoadWord(bytes[..8]) <= 32768) then d.fate.Dropped?
                else if c.left == 0 then
                  Took(c, LoadWord(bytes[..8]), LoadWord(bytes[..8]), [], bytes[8..], d)
                else if 0 < c.left then Took(c, c.left, c.content, c.work.value, bytes, d)
                else d == c.(out := bytes)
  {
    assert c.out == [] && c.work.Some? ==> c.work.value + [] == c.work.value;
  }

  /** The bytes have joined the body `had`, of which `left` were missing: short of the end, at it, or
      past it. */
  predicate Took(c: Conn, left: int, content: nat, had: seq<byte>, bytes: seq<byte>, d: Conn) {
    && d.left == left - |bytes| && d.content == content && d.recved == |had + bytes|
    && d.out == [] && d.work == Some(had + bytes)
    && d.fate == if d.left == 0 then Delivered(had + bytes) else Open
  }

  /** A stream that is still open after the calls has seen no idle call, no failed flush, no failed or
      ended read. */
  lemma {:induction false} StillOpen(c: Conn, es: seq<Call>)
    requires Sound(c) && Calls(c, es).fate.Open?
    ensures forall k :: 0 <= k < |es| ==>
              && (es[k].readEvent || es[k].writeEvent)
              && (es[k].writeEvent ==> es[k].flushed)
              && (es[k].readEvent ==> !es[k].feed.Lost?)
    decreases |es|
  {
    if es != [] && c.fate.Open? {
      var e := es[0];
      CallExact(c, e);
      CallSound(c, e);
      StillOpen(OnEvent(c, e.readEvent, e.writeEvent, e.flushed, e.feed), es[1..]);
    }
  }

  /** One call more. */
  lemma {:induction false} CallsExtend(c: Conn, es: seq<Call>, e: Call)
    requires Sound(c) && Calls(c, es).fate.Open?
    ensures Sound(Calls(c, es))
    ensures Calls(c, es + [e]) == OnEvent(Calls(c, es), e.readEvent, e.writeEvent, e.flushed, e.feed)
    decreases |es|
  {
    if es == [] {
      assert [e][1..] == [];
      CallSound(c, e);
      assert Calls(OnEvent(c, e.readEvent, e.writeEvent, e.flushed, e.feed), []) == OnEvent(c, e.readEvent, e.writeEvent, e.flushed, e.feed);
      assert es + [e] == [e];
    } else {
      CallSound(c, es[0]);
      assert (es + [e])[1..] == es[1..] + [e];
      CallsExtend(OnEvent(c, es[0].readEvent, es[0].writeEvent, es[0].flushed, es[0].feed), es[1..], e);
    }
  }

  /** Whatever came before, such a call closes the stream; a failed or ended read does so unless the process
      dies first because the read buffer is not empty. */
  lemma BadCallCloses(c: Conn, es: seq<Call>, e: Call)
    requires Sound(c) && Calls(c, es).fate.Open?
    ensures (!e.readEvent && !e.writeEvent) || (e.writeEvent && !e.flushed) ==> Calls(c, es + [e]).fate.Dropped?
    ensures e.readEvent && (e.writeEvent ==> e.flushed) && e.feed.Lost? ==>
              Calls(c, es + [e]).fate == if Calls(c, es).out == [] then Dropped else Crashed
  {
    CallsExtend(c, es, e);
    CallExact(Calls(c, es), e);
  }

  /** No call fails, and a read that finds something finds at least one byte. */
  predicate Healthy(es: seq<Call>) {
    forall k :: 0 <= k < |es| ==>
      && (es[k].readEvent || es[k].writeEvent)
      && (es[k].writeEvent ==> es[k].flushed)
      && (es[k].readEvent ==> !es[k].feed.Lost? && (es[k].feed.Fed? ==> es[k].feed.bytes != []))
  }

  /** The non-empty reads among the calls. */
  function Chunks(es: seq<Call>): (cs: seq<seq<byte>>) {
    if es == [] then []
    else (if es[0].readEvent && es[0].feed.Fed? then [es[0].feed.bytes] else []) + Chunks(es[1..])
  }

  lemma {:induction false} ChunksNonEmpty(es: seq<Call>)
    requires Healthy(es)
    ensures NonEmpty(Chunks(es))
    decreases |es|
  {
    if es != [] {
      ChunksNonEmpty(es[1..]);
    }
  }

  /** A read event that finds nothing changes nothing, provided the read buffer is empty. */
  lemma IdleRead(c: Conn)
    requires Sound(c) && c.fate.Open? && c.out == []
    ensures OnRead(c, []) == c
  {
    if c.work.Some? {
      assert c.work.value + [] == c.work.value;
    }
  }

  lemma LeftOver(c: Conn, cs: seq<seq<byte>>)
    requires Sound(c) && c.fate.Open? && c.out != []
    ensures !Reads(c, cs).fate.Delivered?
  {
    if cs != [] {
      assert Reads(OnRead(c, cs[0]), cs[1..]).fate.Crashed?;
    }
  }

  /** Write events and idle read events in between decide neither whether the work is done nor on what:
      the calls deliver a body if and only if the reads among them do, and then the same one. */
  lemma {:induction false} CallsAreReads(c: Conn, es: seq<Call>)
    requires Sound(c) && c.fate.Open? && Healthy(es)
    ensures Calls(c, es).fate.Delivered? <==> Reads(c, Chunks(es)).fate.Delivered?
    ensures Calls(c, es).fate.Delivered? ==> Calls(c, es).fate == Reads(c, Chunks(es)).fate
    decreases |es|
  {
    if es != [] {
      var e, rest := es[0], es[1..];
      CallSound(c, e);
      if e.readEvent && c.out != [] {
        LeftOver(c, Chunks(es));
        assert Calls(c, es).fate.Crashed?;
      } else if e.readEvent && e.feed.Fed? {
        assert Chunks(es)[1..] == Chunks(rest);
        var d := OnRead(c, e.feed.bytes);
        if d.fate.Open? {
          CallsAreReads(d, rest);
        }
      } else {
        assert Chunks(es) == Chunks(rest);
        if e.readEvent {
          IdleRead(c);
        }
        CallsAreReads(c, rest);
      }
    }
  }

  /** Whatever the calls, a body they deliver is delivered by the reads among them. */
  lemma {:induction false} DeliveredByReads(c: Conn, es: seq<Call>)
    requires Sound(c) && c.fate.Open? && Calls(c, es).fate.Delivered?
    ensures Reads(c, Chunks(es)).fate == Calls(c, es).fate
    decreases |es|
  {
    var e, rest := es[0], es[1..];
    CallSound(c, e);
    if e.readEvent && e.feed.Fed? {
      assert Chunks(es)[1..] == Chunks(rest);
      var d := OnRead(c, e.feed.bytes);
      if d.fate.Open? {
        DeliveredByReads(d, rest);
      }
    } else {
      assert Chunks(es) == Chunks(rest);
      if e.readEvent && c.out == [] {
        IdleRead(c);
      }
      DeliveredByReads(c, rest);
    }
  }

  /** The transport promise: a frame whose first read holds the header is worked on, as sent, under any
      schedule of calls, however reads, writes and idle wake-ups are interleaved. */
  lemma FrameDeliveredByCalls(body: seq<byte>, es: seq<Call>)
    requires 1 <= |body| <= LOG_MAX_LEN && Healthy(es)
    requires Concat(Chunks(es)) == Encode(body)
    requires Chunks(es) != [] && HEADER <= |Chunks(es)[0]|
    ensures Calls(Fresh(), es).fate == Delivered(body)
  {
    ChunksNonEmpty(es);
    FrameDelivered(body, Chunks(es));
    CallsAreReads(Fresh(), es);
  }
}
