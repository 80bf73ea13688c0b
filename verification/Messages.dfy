/**
 The client's message buffers and the server's producer loop in the source's own
 form, proved to compute Frame and the delivery of ParseAll, and what sessions
 see of each other.
 */
module MessagesImpl {
  import opened Memory
  import opened Options
  import opened ArrayOps
  import F = Framing

  /** The fields of buffer[sid] that the producer writes. */
  datatype Slot = Slot(op: byte, pipename: seq<byte>, name: seq<byte>, fnum: int, len: nat, buf: seq<byte>)

  /** session_status[sid], -1 when the session is free, and buffer[sid]. */
  datatype Session = Session(status: int, slot: Slot)

  /** session_count and all sessions. */
  datatype Desk = Desk(count: int, sessions: seq<Session>)

  const FREE_SESSION: int := -1

  function Sessions(status: seq<int>, slots: seq<Slot>): (r: seq<Session>)
    requires |status| == |slots|
    ensures |r| == |slots|
    ensures forall i :: 0 <= i < |r| ==> r[i] == Session(status[i], slots[i])
  {
    seq(|slots|, i requires 0 <= i < |slots| => Session(status[i], slots[i]))
  }

  predicate ValidSession(sid: int) {
    0 <= sid < F.SESSIONS
  }

  /** What a mount does to one session: a free one is claimed and told, whichever client asked. */
  function Claim(s: Session, path: seq<byte>): Session {
    if s.status == FREE_SESSION then Session(0, s.slot.(op := 49, pipename := path)) else s
  }

  /** A mount goes through all sessions unless session_count says that they are in use. */
  function MountAll(d: Desk, path: seq<byte>): (r: Desk)
    requires |d.sessions| == F.SESSIONS
    ensures |r.sessions| == F.SESSIONS && r.count == d.count
  {
    if d.count >= F.SESSIONS then d
    else d.(sessions := seq(F.SESSIONS, i requires 0 <= i < F.SESSIONS => Claim(d.sessions[i], path)))
  }

  /** The fields of any other command in its slot. */
  function Filled(s: Slot, c: F.Command): Slot
    requires !c.MountCmd?
  {
    match c
    case UnmountCmd(_) => s.(op := 50)
    case OpenCmd(_, name, flags) => s.(op := 51, name := name, fnum := flags)
    case CloseCmd(_, fnum) => s.(op := 52, fnum := fnum)
    case WriteCmd(_, fnum, buf) => s.(op := 53, fnum := fnum, len := |buf|, buf := buf)
    case ReadCmd(_, fnum, len) => s.(op := 54, fnum := fnum, len := len)
    case ShutdownCmd(_) => s.(op := 55)
  }

  /** One command; None when it names no session. */
  function Deliver(d: Desk, c: F.Command): (r: Option<Desk>)
    requires |d.sessions| == F.SESSIONS
    ensures r.Some? ==> |r.value.sessions| == F.SESSIONS
  {
    if c.MountCmd? then Some(MountAll(d, c.pipename))
    else if !ValidSession(c.sid) then None
    else
      var s := d.sessions[c.sid];
      Some(d.(sessions := d.sessions[c.sid := s.(slot := Filled(s.slot, c))]))
  }

  function DeliverAll(d: Desk, cs: seq<F.Command>): (r: Option<Desk>)
    requires |d.sessions| == F.SESSIONS
    ensures r.Some? ==> |r.value.sessions| == F.SESSIONS
    decreases |cs|
  {
    if cs == [] then Some(d)
    else
      var before := DeliverAll(d, cs[..|cs| - 1]);
      if before.None? then None else Deliver(before.value, cs[|cs| - 1])
  }

  // ---------------------------------------------------------------------------
  // What sessions see of each other
  // ---------------------------------------------------------------------------

  /** A command arrives, or the consumer of session k gives it back after an unmount or a lost client. */
  datatype Event = Arrives(c: F.Command) | Released(k: nat)

  function Apply(d: Desk, e: Event): (r: Option<Desk>)
    requires |d.sessions| == F.SESSIONS
    ensures r.Some? ==> |r.value.sessions| == F.SESSIONS
  {
    match e
    case Arrives(c) => Deliver(d, c)
    case Released(k) =>
      if !ValidSession(k) then None
      else Some(Desk(d.count - 1, d.sessions[k := d.sessions[k].(status := FREE_SESSION)]))
  }

  function ApplyAll(d: Desk, es: seq<Event>): (r: Option<Desk>)
    requires |d.sessions| == F.SESSIONS
    ensures r.Some? ==> |r.value.sessions| == F.SESSIONS
    decreases |es|
  {
    if es == [] then Some(d)
    else
      var before := ApplyAll(d, es[..|es| - 1]);
      if before.None? then None else Apply(before.value, es[|es| - 1])
  }

  lemma {:induction false} ApplyPrefix(d: Desk, es: seq<Event>, n: nat)
    requires |d.sessions| == F.SESSIONS && n <= |es| && ApplyAll(d, es).Some?
    ensures ApplyAll(d, es[..n]).Some?
  {
    if n == |es| {
      assert es[..n] == es;
    } else {
      var m := |es| - 1;
      ApplyPrefix(d, es[..m], n);
      assert es[..m][..n] == es[..n];
    }
  }

  /** The event is session k's own. */
  predicate Own(e: Event, k: nat) {
    match e
    case Arrives(c) => !c.MountCmd? && c.sid == k
    case Released(j) => j == k
  }

  /** The events of session k. */
  function ForSession(es: seq<Event>, k: nat): seq<Event> {
    if es == [] then []
    else
      var last := es[|es| - 1];
      ForSession(es[..|es| - 1], k) + (if Own(last, k) then [last] else [])
  }

  /** A mount arrives as event i while session k is free. */
  ghost predicate MountWhileFree(d: Desk, es: seq<Event>, k: nat, i: nat)
    requires |d.sessions| == F.SESSIONS && ApplyAll(d, es).Some? && k < F.SESSIONS && i < |es|
  {
    ApplyPrefix(d, es, i);
    var before := ApplyAll(d, es[..i]).value;
    es[i].Arrives? && es[i].c.MountCmd? && before.count < F.SESSIONS && before.sessions[k].status == FREE_SESSION
  }

  /** After n events session k is as its own events alone would leave it. */
  ghost predicate SameAfter(d: Desk, es: seq<Event>, k: nat, n: nat)
    requires |d.sessions| == F.SESSIONS && ApplyAll(d, es).Some? && k < F.SESSIONS && n <= |es|
  {
    ApplyPrefix(d, es, n);
    var own := ApplyAll(d, ForSession(es[..n], k));
    own.Some? && own.value.sessions[k] == ApplyAll(d, es[..n]).value.sessions[k]
  }

  /** One event more. */
  lemma SameStep(d: Desk, es: seq<Event>, k: nat, n: nat)
    requires |d.sessions| == F.SESSIONS && ApplyAll(d, es).Some? && k < F.SESSIONS && n < |es|
    requires SameAfter(d, es, k, n)
    ensures SameAfter(d, es, k, n + 1) <==> !MountWhileFree(d, es, k, n)
  {
    ApplyPrefix(d, es, n);
    ApplyPrefix(d, es, n + 1);
    var e := es[n];
    var now := es[..n + 1];
    assert now[..n] == es[..n] && now[n] == e;
    var own := ForSession(es[..n], k);
    var before := ApplyAll(d, es[..n]).value;
    assert ApplyAll(d, now) == Apply(before, e);
    if Own(e, k) {
      assert ForSession(now, k) == own + [e];
      assert (own + [e])[..|own|] == own;
    } else {
      assert ForSession(now, k) == own + [] == own;
    }
  }

  lemma {:induction false} SameUpTo(d: Desk, es: seq<Event>, k: nat, n: nat)
    requires |d.sessions| == F.SESSIONS && ApplyAll(d, es).Some? && k < F.SESSIONS && n <= |es|
    requires forall i: nat :: i < n ==> !MountWhileFree(d, es, k, i)
    ensures SameAfter(d, es, k, n)
  {
    if n == 0 {
      assert es[..0] == [];
    } else {
      SameUpTo(d, es, k, n - 1);
      SameStep(d, es, k, n - 1);
    }
  }

  ghost predicate OwnAlways(d: Desk, es: seq<Event>, k: nat)
    requires |d.sessions| == F.SESSIONS && ApplyAll(d, es).Some? && k < F.SESSIONS
  {
    forall n: nat :: n <= |es| ==> SameAfter(d, es, k, n)
  }

  ghost predicate NoMountWhileFree(d: Desk, es: seq<Event>, k: nat)
    requires |d.sessions| == F.SESSIONS && ApplyAll(d, es).Some? && k < F.SESSIONS
  {
    forall i: nat :: i < |es| ==> !MountWhileFree(d, es, k, i)
  }

  /**
   When sessions do not disturb each other. Session k is at all times what its
   own commands make of it if and only if no mount arrives while k is free.
   */
  lemma SessionIsOwnIff(d: Desk, es: seq<Event>, k: nat)
    requires |d.sessions| == F.SESSIONS && ApplyAll(d, es).Some? && k < F.SESSIONS
    ensures OwnAlways(d, es, k) <==> NoMountWhileFree(d, es, k)
  {
    if forall i: nat :: i < |es| ==> !MountWhileFree(d, es, k, i) {
      forall n: nat | n <= |es|
        ensures SameAfter(d, es, k, n)
      {
        SameUpTo(d, es, k, n);
      }
    }
    if forall n: nat :: n <= |es| ==> SameAfter(d, es, k, n) {
      forall i: nat | i < |es|
        ensures !MountWhileFree(d, es, k, i)
      {
        assert SameAfter(d, es, k, i) && SameAfter(d, es, k, i + 1);
        SameStep(d, es, k, i);
      }
    }
  }

  /** The server at its start: no session in use. */
  ghost predicate Fresh(d: Desk) {
    && |d.sessions| == F.SESSIONS && d.count == 0
    && forall i :: 0 <= i < F.SESSIONS ==> d.sessions[i].status == FREE_SESSION
  }

  /** session_count never rises, so a mount is never turned away. */
  lemma {:induction false} NeverFull(d: Desk, es: seq<Event>)
    requires Fresh(d) && ApplyAll(d, es).Some?
    ensures ApplyAll(d, es).value.count <= 0
  {
    if es != [] {
      NeverFull(d, es[..|es| - 1]);
    }
  }

  // ---------------------------------------------------------------------------
  // Frames on the pipe
  // ---------------------------------------------------------------------------

  /** The requests of clients whose sessions the server knows. */
  predicate FromSessions(rs: seq<F.Request>) {
    forall i :: 0 <= i < |rs| ==> F.Sendable(rs[i]) && (rs[i].Mount? || ValidSession(rs[i].sid))
  }

  /** The commands among the events. */
  function Arrivals(es: seq<Event>): seq<F.Command> {
    if es == [] then []
    else
      var last := es[|es| - 1];
      Arrivals(es[..|es| - 1]) + (if last.Arrives? then [last.c] else [])
  }

  lemma {:induction false} KnownCommandsApply(d: Desk, es: seq<Event>)
    requires |d.sessions| == F.SESSIONS
    requires forall e :: e in es && e.Released? ==> ValidSession(e.k)
    requires forall c :: c in Arrivals(es) ==> c.MountCmd? || ValidSession(c.sid)
    ensures ApplyAll(d, es).Some?
  {
    if es != [] {
      var last := es[|es| - 1];
      assert last in es;
      KnownCommandsApply(d, es[..|es| - 1]);
      if last.Arrives? {
        assert last.c in Arrivals(es);
      }
    }
  }

  lemma FramesKnown(rs: seq<F.Request>)
    requires FromSessions(rs)
    ensures forall c :: c in F.ParseAll(F.Frames(rs)) ==> c.MountCmd? || ValidSession(c.sid)
  {
    hide F.ParseAll, F.Frames, F.Sendable;
    F.FramesInStep(rs);
    var cs := F.ParseAll(F.Frames(rs));
    forall c | c in cs
      ensures c.MountCmd? || ValidSession(c.sid)
    {
      var i :| 0 <= i < |cs| && cs[i] == c;
      assert c == F.Received(rs[i]);
    }
  }

  /**
   Clients on one pipe. However the frames of any requests and the releases of
   sessions follow each other, every command is delivered, and session k is at
   all times what its own commands make of it if and only if no mount arrives
   while k is free.
   */
  lemma FramesDelivered(d: Desk, rs: seq<F.Request>, es: seq<Event>, k: nat)
    requires |d.sessions| == F.SESSIONS && FromSessions(rs) && k < F.SESSIONS
    requires Arrivals(es) == F.ParseAll(F.Frames(rs)) && forall e :: e in es && e.Released? ==> ValidSession(e.k)
    ensures ApplyAll(d, es).Some?
    ensures OwnAlways(d, es, k) <==> NoMountWhileFree(d, es, k)
  {
    hide F.ParseAll, F.Frames, OwnAlways, NoMountWhileFree, ApplyAll, Arrivals, F.Sendable;
    FramesKnown(rs);
    KnownCommandsApply(d, es);
    SessionIsOwnIff(d, es, k);
  }

  /** What the bytes of an open's name are when they arrive: the flags lie over bytes 1 to 4. */
  ghost predicate NameReceived(name: seq<byte>, flags: int, got: seq<byte>)
    requires |name| == F.PIPE_NAME && IsInt(flags)
  {
    |got| == F.PIPE_NAME && got[0] == name[0] && got[1..5] == EncodeInt(flags) && got[5..] == name[5..]
  }

  /** What a request leaves in its session's slot: each field, from the caller's arguments or as it was. */
  ghost predicate SlotReceived(s: Slot, r: F.Request, s': Slot)
    requires F.Sendable(r) && !r.Mount?
  {
    match r
    case Unmount(_) => s' == Slot(50, s.pipename, s.name, s.fnum, s.len, s.buf)
    case Open(_, name, flags) => NameReceived(name, flags, s'.name) && s' == Slot(51, s.pipename, s'.name, 0, s.len, s.buf)
    case Close(_, fhandle) => s' == Slot(52, s.pipename, s.name, fhandle, s.len, s.buf)
    case Write(_, fhandle, data) => s' == Slot(53, s.pipename, s.name, fhandle, |data|, data)
    case Read(_, fhandle, _) => s' == Slot(54, s.pipename, s.name, fhandle, 0, s.buf)
    case Shutdown(_) => s' == Slot(55, s.pipename, s.name, s.fnum, s.len, s.buf)
  }

  /** What a request makes of session k; a mount claims it when it is free and the sessions are not counted as full. */
  ghost predicate SessionReceived(full: bool, k: nat, s: Session, r: F.Request, s': Session)
    requires F.Sendable(r)
  {
    if r.Mount? then
      s' == if s.status == -1 && !full then
              Session(0, Slot(49, r.path, s.slot.name, s.slot.fnum, s.slot.len, s.slot.buf))
            else s
    else if k == r.sid then s'.status == s.status && SlotReceived(s.slot, r, s'.slot)
    else s' == s
  }

  lemma ReceivedFills(s: Slot, r: F.Request)
    requires F.Sendable(r) && !r.Mount?
    ensures SlotReceived(s, r, Filled(s, F.Received(r)))
  {
    if r.Open? {
      var got := Splice(r.name, 1, EncodeInt(r.flags));
      assert got[1..5] == EncodeInt(r.flags) && got[5..] == r.name[5..];
    }
  }

  lemma ParsedAlone(r: F.Request)
    requires F.Sendable(r)
    ensures F.ParseAll(F.Frame(r)) == [F.Received(r)]
  {
    hide F.ParseAll, F.Frame;
    assert F.Frame(r) + [] == F.Frame(r);
    F.OneFrame(r, []);
    F.NothingParsed();
  }

  lemma DeliverOne(d: Desk, c: F.Command)
    requires |d.sessions| == F.SESSIONS
    ensures DeliverAll(d, [c]) == Deliver(d, c)
  {
    assert [c][..0] == [];
    assert DeliverAll(d, []) == Some(d);
  }

  /**
   From the client's call to the consumer's slot. The frame of a request leaves
   the caller's arguments in the fields of its session's slot and touches no
   other field and no other session; that of a mount claims exactly the free
   sessions, with its pipe name.
   */
  lemma RequestArrives(d: Desk, r: F.Request)
    requires |d.sessions| == F.SESSIONS && F.Sendable(r) && (r.Mount? || ValidSession(r.sid))
    ensures var after := DeliverAll(d, F.ParseAll(F.Frame(r)));
            && after.Some? && after.value.count == d.count
            && forall k :: 0 <= k < F.SESSIONS ==>
                 SessionReceived(d.count >= F.SESSIONS, k, d.sessions[k], r, after.value.sessions[k])
  {
    ParsedAlone(r);
    DeliverOne(d, F.Received(r));
    hide F.ParseAll, F.Frame, DeliverAll, SlotReceived;
    if !r.Mount? {
      ReceivedFills(d.sessions[r.sid].slot, r);
    }
  }

  /** On a fresh server a close from session 3 is lost when another client mounts. */
  lemma MountOverwrites(d: Desk, path: seq<byte>, fhandle: int)
    requires Fresh(d) && |path| == F.PIPE_NAME && IsInt(fhandle)
    ensures var rs := [F.Close(3, fhandle), F.Mount(path)];
            var after := DeliverAll(d, F.ParseAll(F.Frames(rs)));
            after.Some? && after.value.sessions[3].slot.op == 49
    ensures var own := DeliverAll(d, [F.CloseCmd(3, fhandle)]);
            own.Some? && own.value.sessions[3].slot.op == 52
  {
    var rs := [F.Close(3, fhandle), F.Mount(path)];
    hide F.Frames, F.ParseAll, F.Frame;
    F.FramesInStep(rs);
    var close, mount := F.CloseCmd(3, fhandle), F.MountCmd(path);
    assert F.ParseAll(F.Frames(rs)) == [close, mount];
    assert [close, mount][..1] == [close] && [close][..0] == [];
    assert DeliverAll(d, [close]) == Deliver(d, close);
  }

  // ---------------------------------------------------------------------------
  // The producer's rounds
  // ---------------------------------------------------------------------------

  /** One more command. */
  lemma DeliverMore(d: Desk, cs: seq<F.Command>, c: F.Command)
    requires |d.sessions| == F.SESSIONS
    ensures DeliverAll(d, cs + [c]) == if DeliverAll(d, cs).None? then None else Deliver(DeliverAll(d, cs).value, c)
  {
    assert (cs + [c])[..|cs|] == cs;
  }

  /** A stream with a command for no session fails as a whole. */
  lemma {:induction false} FailureStays(d: Desk, cs: seq<F.Command>, rest: seq<F.Command>)
    requires |d.sessions| == F.SESSIONS && DeliverAll(d, cs).None?
    ensures DeliverAll(d, cs + rest).None?
  {
    if rest == [] {
      assert cs + rest == cs;
    } else {
      var m := |rest| - 1;
      FailureStays(d, cs, rest[..m]);
      assert (cs + rest)[..|cs + rest| - 1] == cs + rest[..m];
    }
  }

  /** One round of the producer, then the rest of the stream. */
  lemma ParseRound(s: seq<byte>)
    requires s != []
    ensures var (c, n) := F.ParseOne(s);
            F.ParseAll(s) == (if c.Some? then [c.value] else []) + F.ParseAll(s[n..])
  {
  }

  // ---------------------------------------------------------------------------
  // The client
  // ---------------------------------------------------------------------------

  class Client {
    var sessionId: int

    constructor (sid: int)
      ensures sessionId == sid
    {
      sessionId := sid;
    }

    /** A zeroed message buffer with the op code. */
    method Start(op: byte) returns (m: array<byte>)
      ensures fresh(m) && m[..] == F.Begin(op)
    {
      m := new byte[F.FRAME](_ => 0);
      assert m[..] == F.Zeros(F.FRAME);
      Memcpy(m, 0, [op]);
    }

    method StartSession(op: byte) returns (m: array<byte>)
      requires IsInt(sessionId)
      ensures fresh(m) && m[..] == F.BeginSession(op, sessionId)
    {
      m := Start(op);
      Memcpy(m, 1, EncodeInt(sessionId));
    }

    method Mount(path: seq<byte>) returns (m: array<byte>)
      requires |path| == F.PIPE_NAME
      ensures fresh(m) && m[..] == F.Frame(F.Mount(path))
    {
      m := Start(49);
      Memcpy(m, 1, path);
    }

    method Unmount() returns (m: array<byte>)
      requires IsInt(sessionId)
      ensures fresh(m) && m[..] == F.Frame(F.Unmount(sessionId))
    {
      m := StartSession(50);
    }

    method Open(name: seq<byte>, flags: int) returns (m: array<byte>)
      requires F.Sendable(F.Open(sessionId, name, flags))
      ensures fresh(m) && m[..] == F.Frame(F.Open(sessionId, name, flags))
    {
      m := StartSession(51);
      Memcpy(m, 5, name);
      Memcpy(m, 6, EncodeInt(flags));
    }

    method Close(fhandle: int) returns (m: array<byte>)
      requires F.Sendable(F.Close(sessionId, fhandle))
      ensures fresh(m) && m[..] == F.Frame(F.Close(sessionId, fhandle))
    {
      m := StartSession(52);
      Memcpy(m, 5, EncodeInt(fhandle));
    }

    method Write(fhandle: int, data: seq<byte>) returns (m: array<byte>)
      requires F.Sendable(F.Write(sessionId, fhandle, data))
      ensures fresh(m) && m[..] == F.Frame(F.Write(sessionId, fhandle, data))
    {
      m := StartSession(53);
      Memcpy(m, 5, EncodeInt(fhandle));
      Memcpy(m, 9, F.EncodeSize(|data|));
      Memcpy(m, 17, data);
    }

    method Read(fhandle: int, len: nat) returns (m: array<byte>)
      requires F.Sendable(F.Read(sessionId, fhandle, len))
      ensures fresh(m) && m[..] == F.Frame(F.Read(sessionId, fhandle, len))
    {
      m := StartSession(54);
      Memcpy(m, 5, EncodeInt(fhandle));
    }

    method Shutdown() returns (m: array<byte>)
      requires IsInt(sessionId)
      ensures fresh(m) && m[..] == F.Frame(F.Shutdown(sessionId))
    {
      m := StartSession(55);
    }
  }

  // ---------------------------------------------------------------------------
  // The server
  // ---------------------------------------------------------------------------

  class Server {
    const status: array<int>
    const slots: array<Slot>
    var count: int

    ghost predicate Valid() {
      status.Length == F.SESSIONS && slots.Length == F.SESSIONS
    }

    ghost function View(): (d: Desk)
      reads this, status, slots
      requires Valid()
      ensures |d.sessions| == F.SESSIONS
    {
      Desk(count, Sessions(status[..], slots[..]))
    }

    constructor ()
      ensures Valid() && Fresh(View()) && fresh(status) && fresh(slots)
    {
      status := new int[F.SESSIONS](_ => FREE_SESSION);
      slots := new Slot[F.SESSIONS](_ => Slot(0, [], [], 0, 0, []));
      count := 0;
    }

    /** What a consumer does at the end of its session. */
    method Release(k: nat)
      requires Valid() && ValidSession(k)
      modifies this`count, status
      ensures Valid() && Some(View()) == Apply(old(View()), Released(k))
      ensures status[..] == old(status[..])[k := -1] && count == old(count) - 1
    {
      status[k] := FREE_SESSION;
      count := count - 1;
      assert View().sessions == old(View().sessions)[k := old(View().sessions[k]).(status := FREE_SESSION)];
    }

    /** The producer loop over the bytes on the pipe; false when a command names no session. */
    method Producer(stream: seq<byte>) returns (ok: bool)
      requires Valid()
      modifies status, slots
      ensures Valid()
      ensures ok <==> DeliverAll(old(View()), F.ParseAll(stream)).Some?
      ensures ok ==> Some(View()) == DeliverAll(old(View()), F.ParseAll(stream))
    {
      hide F.ParseOne, F.ParseAll, Deliver;
      ghost var start := View();
      ghost var done: seq<F.Command> := [];
      var at := 0;
      assert stream[0..] == stream;
      while at < |stream|
        invariant 0 <= at <= |stream|
        invariant F.ParseAll(stream) == done + F.ParseAll(stream[at..])
        invariant DeliverAll(start, done) == Some(View())
      {
        var n;
        ghost var c := F.ParseOne(stream[at..]).0;
        ParseRound(stream[at..]);
        ok, n := Round(stream[at..]);
        ghost var rest := F.ParseAll(stream[at..][n..]);
        assert stream[at..][n..] == stream[at + n..];
        if c.Some? {
          DeliverMore(start, done, c.value);
          assert done + ([c.value] + rest) == (done + [c.value]) + rest;
          done := done + [c.value];
        } else {
          assert [] + rest == rest;
        }
        if !ok {
          FailureStays(start, done, rest);
          return false;
        }
        at := at + n;
      }
      assert stream[at..] == [];
      F.NothingParsed();
      assert done + [] == done;
      return true;
    }

    /** One round of the producer: op code, fields, slot. */
    method Round(s: seq<byte>) returns (ok: bool, n: nat)
      requires Valid() && s != []
      modifies status, slots
      ensures Valid() && n == F.ParseOne(s).1
      ensures var c := F.ParseOne(s).0;
              if c.None? then ok && View() == old(View())
              else
                && (ok <==> Deliver(old(View()), c.value).Some?)
                && (ok ==> Some(View()) == Deliver(old(View()), c.value))
    {
      var op := s[0];
      if op < 49 || op > 55 {
        return true, 1;
      }
      if op == 49 {
        if |s| < 41 {
          return true, |s|;
        }
        Mount(s[1..41]);
        return true, 41;
      }
      var need := if op == 51 then 49 else if op == 52 then 9 else if op == 53 || op == 54 then 17 else 5;
      if |s| < need {
        return true, |s|;
      }
      var sid := F.IntAt(s, 1);
      if op == 53 && |s| < 17 + F.SizeAt(s, 9) {
        return true, |s|;
      }
      n := if op == 53 then 17 + F.SizeAt(s, 9) else need;
      if !ValidSession(sid) {
        return false, n;
      }
      Fill(s, op, sid);
      return true, n;
    }

    /** A mount claims every free session: the loop has no break. */
    method Mount(path: seq<byte>)
      requires Valid()
      modifies status, slots
      ensures Valid() && View() == MountAll(old(View()), path)
    {
      if count >= F.SESSIONS {
        return;
      }
      for i := 0 to F.SESSIONS
        invariant forall j :: 0 <= j < i ==> Session(status[j], slots[j]) == Claim(old(Session(status[j], slots[j])), path)
        invariant forall j :: i <= j < F.SESSIONS ==> status[j] == old(status[j]) && slots[j] == old(slots[j])
      {
        if status[i] == FREE_SESSION {
          status[i] := 0;
          slots[i] := slots[i].(op := 49, pipename := path);
        }
      }
      assert View().sessions == MountAll(old(View()), path).sessions;
    }

    /** The fields of the command, then the op code, go into the session's slot. */
    method Fill(s: seq<byte>, op: byte, sid: int)
      requires Valid() && ValidSession(sid) && s != [] && s[0] == op && 50 <= op <= 55
      requires F.ParseOne(s).0.Some? && |s| >= 5 && F.IntAt(s, 1) == sid
      modifies slots
      ensures Valid() && Some(View()) == Deliver(old(View()), F.ParseOne(s).0.value)
    {
      var slot := slots[sid];
      if op == 51 {
        slot := slot.(name := s[5..45], fnum := F.IntAt(s, 45));
      } else if op == 52 {
        slot := slot.(fnum := F.IntAt(s, 5));
      } else if op == 53 {
        slot := slot.(fnum := F.IntAt(s, 5), len := F.SizeAt(s, 9));
        slot := slot.(buf := s[17..17 + F.SizeAt(s, 9)]);
      } else if op == 54 {
        slot := slot.(fnum := F.IntAt(s, 5), len := F.SizeAt(s, 9));
      }
      slots[sid] := slot.(op := op);
      assert slot.(op := op) == Filled(old(slots[sid]), F.ParseOne(s).0.value);
      assert View().sessions == old(View().sessions)[sid := old(View().sessions[sid]).(slot := slot.(op := op))];
    }
  }
}
