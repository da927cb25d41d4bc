/** The timeout sweep over the event table. */
module Event {
  const MAX_EVENTS: nat := 1024
  const TIMEOUT: nat := 10

  /** The stream behind a slot: none (a bare or idle connection), one that holds its buffers, or one whose
      memory has been given back. */
  datatype Owned = NoStream | Held(serverSock: int, work: bool) | Freed

  /** The part of an event-table entry the sweep looks at. */
  datatype Slot = Slot(fd: int, status: int, lastActive: int, stream: Owned)

  /** What the sweep has done to the outside on behalf of a slot: descriptors closed, blocks freed. */
  datatype Effects = Effects(closed: nat, frees: nat)

  predicate Expired(e: Slot, now: int, exceptFd: int) {
    e.status == 1 && now - e.lastActive >= TIMEOUT && exceptFd != e.fd
  }

  function Swept(e: Slot, now: int, exceptFd: int): Slot {
    if Expired(e, now, exceptFd) then e.(status := 0, stream := if e.stream.Held? then Freed else e.stream) else e
  }

  /** What close_stream gives back: an open descriptor, and every block of the stream; these are the
      stream itself, two buffers of two blocks each, and two more for the work buffer if there is one. */
  function Closing(e: Slot, f: Effects): Effects {
    if e.stream.Held? then
      Effects(f.closed + (if e.stream.serverSock >= 0 then 1 else 0), f.frees + 5 + (if e.stream.work then 2 else 0))
    else f
  }

  function Charged(e: Slot, now: int, exceptFd: int, f: Effects): Effects {
    if Expired(e, now, exceptFd) then Closing(e, f) else f
  }

  function Distance(from: nat, k: nat): nat
    requires from < MAX_EVENTS && k < MAX_EVENTS
  {
    if k >= from then k - from else k + MAX_EVENTS - from
  }

  /** g_events: the slots for connections, then the one for the listening socket. */
  class EventTable {
    const slots: array<Slot>
    ghost var log: seq<Effects>

    /** No active slot has a stream that is freed already. */
    ghost predicate Valid()
      reads this, slots
    {
      && slots.Length == |log| == MAX_EVENTS + 1
      && forall k :: 0 <= k < slots.Length ==> slots[k].status == 1 ==> !slots[k].stream.Freed?
    }

    constructor (initial: seq<Slot>)
      requires |initial| == MAX_EVENTS + 1
      requires forall k :: 0 <= k < |initial| ==> initial[k].status == 1 ==> !initial[k].stream.Freed?
      ensures Valid() && fresh(slots) && slots[..] == initial
      ensures log == seq(MAX_EVENTS + 1, _ => Effects(0, 0))
    {
      slots := new Slot[MAX_EVENTS + 1](i requires 0 <= i < |initial| => initial[i]);
      log := seq(MAX_EVENTS + 1, _ => Effects(0, 0));
    }

    /** eventdel */
    method EventDel(k: nat)
      requires Valid() && k < slots.Length
      modifies slots
      ensures Valid()
      ensures slots[..] == old(slots[..])[k := if old(slots[k]).status == 1 then old(slots[k]).(status := 0) else old(slots[k])]
    {
      if slots[k].status != 1 {
        return;
      }
      slots[k] := slots[k].(status := 0);
    }

    /** close_stream.  A stream whose socket is gone would stay registered, freed, were its slot active. */
    method CloseStream(k: nat)
      requires Valid() && k < slots.Length && !slots[k].stream.Freed?
      modifies this, slots
      ensures old(slots[k].status != 1 || !slots[k].stream.Held? || slots[k].stream.serverSock >= 0) ==> Valid()
      ensures var e := old(slots[k]);
              slots[..] == old(slots[..])[k :=
                if e.stream.Held? then e.(status := if e.status == 1 && e.stream.serverSock >= 0 then 0 else e.status, stream := Freed)
                else e]
      ensures var e, f := old(slots[k]), old(log)[k];
              log == old(log)[k :=
                if !e.stream.Held? then f
                else Effects(if e.stream.serverSock < 0 then f.closed else f.closed + 1,
                             if e.stream.work then f.frees + 7 else f.frees + 5)]
    {
      if slots[k].stream.Held? {
        log := log[k := Closing(slots[k], log[k])];
        if slots[k].stream.serverSock >= 0 {
          EventDel(k);
        }
        slots[k] := slots[k].(stream := Freed);
      }
    }

    /** One visit of the sweep. */
    method Visit(k: nat, now: int, exceptFd: int)
      requires Valid() && k < MAX_EVENTS
      modifies this, slots
      ensures Valid() && slots[..] == old(slots[..])[k := Swept(old(slots[k]), now, exceptFd)]
      ensures log == old(log)[k := Charged(old(slots[k]), now, exceptFd, old(log)[k])]
    {
      var e := slots[k];
      if e.status != 1 {
        return;
      }
      var duration := now - e.lastActive;
      if duration >= TIMEOUT && exceptFd != e.fd {
        EventDel(k);
        CloseStream(k);
      }
    }

    /** expires_house_keeping: whatever the cursor was, every connection slot is visited, the listener
        never; exactly the expired ones are taken out, each stream closed and freed once, although one slot
        is visited twice; the cursor moves on by one. */
    method ExpiresHouseKeeping(pos: nat, now: int, exceptFd: int) returns (pos': nat)
      requires Valid() && pos <= MAX_EVENTS
      modifies this, slots
      ensures Valid() && pos' == (if pos == MAX_EVENTS then 0 else pos) + 1 <= MAX_EVENTS
      ensures slots.Length == |log| == 1025
      ensures forall k :: 0 <= k < 1024 ==>
                (slots[k].status == 1 ==> now - slots[k].lastActive < 10 || slots[k].fd == exceptFd)
      ensures forall k :: 0 <= k < 1024 ==>
                var e, f := old(slots[k]), old(log[k]);
                if e.status != 1 || now - e.lastActive < 10 || e.fd == exceptFd then slots[k] == e && log[k] == f
                else
                  match e.stream
                  case Held(sock, work) =>
                    && slots[k] == Slot(e.fd, 0, e.lastActive, Freed)
                    && log[k].closed == (if sock < 0 then f.closed else f.closed + 1)
                    && log[k].frees == (if work then f.frees + 7 else f.frees + 5)
                  case _ => slots[k] == Slot(e.fd, 0, e.lastActive, e.stream) && log[k] == f
      ensures slots[1024] == old(slots[1024]) && log[1024] == old(log[1024])
    {
      var checkpos: nat, i := pos, 0;
      ghost var from: nat := if pos == MAX_EVENTS then 0 else pos;
      ghost var before, effects := slots[..], log;
      while i < MAX_EVENTS + 1
        invariant Valid() && 0 <= i <= MAX_EVENTS + 1 && checkpos <= MAX_EVENTS
        invariant i <= MAX_EVENTS ==>
                    (if checkpos == MAX_EVENTS then 0 else checkpos)
                    == if from + i < MAX_EVENTS then from + i else from + i - MAX_EVENTS
        invariant i == MAX_EVENTS + 1 ==> checkpos == from + 1
        invariant forall k :: 0 <= k < MAX_EVENTS ==>
                    && slots[k] == (if Distance(from, k) < i then Swept(before[k], now, exceptFd) else before[k])
                    && log[k] == if Distance(from, k) < i then Charged(before[k], now, exceptFd, effects[k]) else effects[k]
        invariant slots[MAX_EVENTS] == before[MAX_EVENTS] && log[MAX_EVENTS] == effects[MAX_EVENTS]
      {
        if checkpos == MAX_EVENTS {
          checkpos := 0;
        }
        Visit(checkpos, now, exceptFd);
        i, checkpos := i + 1, checkpos + 1;
      }
      pos' := checkpos;
    }
  }
}
