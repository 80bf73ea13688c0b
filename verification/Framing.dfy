/**
 The requests of part two on the server's pipe. The client writes frames of 100
 bytes, padded with zeros; the server parses commands of different lengths and
 skips bytes that are no op code.
 */
module Framing {
  import opened Memory
  import opened Options

  const FRAME: nat := 100  // MAX_SIZE_MESSAGE
  const PIPE_NAME: nat := 40  // MAX_PIPE_NAME
  const MAX_DATA: nat := 83  // what is left of a frame for the data of a write
  const SESSIONS: nat := 10  // S

  /** A call of the client library. Names are the 40 bytes memcpy takes from the caller's pointer. */
  datatype Request =
    | Mount(path: seq<byte>)
    | Unmount(sid: int)
    | Open(sid: int, name: seq<byte>, flags: int)
    | Close(sid: int, fhandle: int)
    | Write(sid: int, fhandle: int, data: seq<byte>)
    | Read(sid: int, fhandle: int, len: nat)
    | Shutdown(sid: int)

  /** What the client's arguments are by their C types, and what fits into the message buffer. */
  predicate Sendable(r: Request) {
    match r
    case Mount(path) => |path| == PIPE_NAME
    case Unmount(sid) => IsInt(sid)
    case Open(sid, name, flags) => IsInt(sid) && |name| == PIPE_NAME && IsInt(flags)
    case Close(sid, fhandle) => IsInt(sid) && IsInt(fhandle)
    case Write(sid, fhandle, data) => IsInt(sid) && IsInt(fhandle) && |data| <= MAX_DATA
    case Read(sid, fhandle, len) => IsInt(sid) && IsInt(fhandle) && len < SIZE_MOD
    case Shutdown(sid) => IsInt(sid)
  }

  function EncodeSize(n: nat): (r: seq<byte>)
    ensures |r| == 8
  {
    Encode(n, 8)
  }

  function Zeros(n: nat): (r: seq<byte>)
    ensures |r| == n
  {
    seq<byte>(n, _ => 0)
  }

  /** A message buffer with its op code. */
  function Begin(op: byte): (r: seq<byte>)
    ensures |r| == FRAME
  {
    Splice(Zeros(FRAME), 0, [op])
  }

  /** The op code and the session id. */
  function BeginSession(op: byte, sid: int): (r: seq<byte>)
    requires IsInt(sid)
    ensures |r| == FRAME
  {
    Splice(Begin(op), 1, EncodeInt(sid))
  }

  /** The message buffer of each call. tfs_open puts the flags over bytes 1 to 4 of the name; tfs_read sends no len. */
  function Frame(r: Request): (m: seq<byte>)
    requires Sendable(r)
    ensures |m| == FRAME
  {
    match r
    case Mount(path) => Splice(Begin(49), 1, path)
    case Unmount(sid) => BeginSession(50, sid)
    case Open(sid, name, flags) => Splice(Splice(BeginSession(51, sid), 5, name), 6, EncodeInt(flags))
    case Close(sid, fhandle) => Splice(BeginSession(52, sid), 5, EncodeInt(fhandle))
    case Write(sid, fhandle, data) =>
      Splice(Splice(Splice(BeginSession(53, sid), 5, EncodeInt(fhandle)), 9, EncodeSize(|data|)), 17, data)
    case Read(sid, fhandle, _) => Splice(BeginSession(54, sid), 5, EncodeInt(fhandle))
    case Shutdown(sid) => BeginSession(55, sid)
  }

  // ---------------------------------------------------------------------------
  // The server
  // ---------------------------------------------------------------------------

  datatype Command =
    | MountCmd(pipename: seq<byte>)
    | UnmountCmd(sid: int)
    | OpenCmd(sid: int, name: seq<byte>, flags: int)
    | CloseCmd(sid: int, fnum: int)
    | WriteCmd(sid: int, fnum: int, buf: seq<byte>)
    | ReadCmd(sid: int, fnum: int, len: nat)
    | ShutdownCmd(sid: int)

  function IntAt(s: seq<byte>, at: nat): int
    requires at + 4 <= |s|
  {
    DecodeInt(s[at..at + 4])
  }

  function SizeAt(s: seq<byte>, at: nat): nat
    requires at + 8 <= |s|
  {
    Decode(s[at..at + 8])
  }

  /**
   One round of the producer: the command, if any, and the number of bytes it
   takes from the pipe. A command whose bytes have not all arrived takes what
   there is and yields nothing.
   */
  function ParseOne(s: seq<byte>): (r: (Option<Command>, nat))
    requires s != []
    ensures 1 <= r.1 <= |s|
  {
    var n := |s|;
    var op := s[0];
    if op == 49 then (if n >= 41 then (Some(MountCmd(s[1..41])), 41) else (None, n))
    else if op == 50 then (if n >= 5 then (Some(UnmountCmd(IntAt(s, 1))), 5) else (None, n))
    else if op == 51 then (if n >= 49 then (Some(OpenCmd(IntAt(s, 1), s[5..45], IntAt(s, 45))), 49) else (None, n))
    else if op == 52 then (if n >= 9 then (Some(CloseCmd(IntAt(s, 1), IntAt(s, 5))), 9) else (None, n))
    else if op == 53 then
      if n >= 17 && n >= 17 + SizeAt(s, 9) then
        (Some(WriteCmd(IntAt(s, 1), IntAt(s, 5), s[17..17 + SizeAt(s, 9)])), 17 + SizeAt(s, 9))
      else (None, n)
    else if op == 54 then (if n >= 17 then (Some(ReadCmd(IntAt(s, 1), IntAt(s, 5), SizeAt(s, 9))), 17) else (None, n))
    else if op == 55 then (if n >= 5 then (Some(ShutdownCmd(IntAt(s, 1))), 5) else (None, n))
    else (None, 1)
  }

  /** The commands in a stream. */
  function ParseAll(s: seq<byte>): seq<Command>
    decreases |s|
  {
    if s == [] then []
    else
      var (c, n) := ParseOne(s);
      (if c.Some? then [c.value] else []) + ParseAll(s[n..])
  }

  /** What the server makes of a request. */
  function Received(r: Request): Command
    requires Sendable(r)
  {
    match r
    case Mount(path) => MountCmd(path)
    case Unmount(sid) => UnmountCmd(sid)
    case Open(sid, name, flags) => OpenCmd(sid, Splice(name, 1, EncodeInt(flags)), 0)
    case Close(sid, fhandle) => CloseCmd(sid, fhandle)
    case Write(sid, fhandle, data) => WriteCmd(sid, fhandle, data)
    case Read(sid, fhandle, _) => ReadCmd(sid, fhandle, 0)
    case Shutdown(sid) => ShutdownCmd(sid)
  }

  /** What the client meant. */
  function Meant(r: Request): Command {
    match r
    case Mount(path) => MountCmd(path)
    case Unmount(sid) => UnmountCmd(sid)
    case Open(sid, name, flags) => OpenCmd(sid, name, flags)
    case Close(sid, fhandle) => CloseCmd(sid, fhandle)
    case Write(sid, fhandle, data) => WriteCmd(sid, fhandle, data)
    case Read(sid, fhandle, len) => ReadCmd(sid, fhandle, len)
    case Shutdown(sid) => ShutdownCmd(sid)
  }

  /** How many bytes of the frame the command takes. */
  function Taken(r: Request): nat {
    match r
    case Mount(_) => 41
    case Unmount(_) => 5
    case Open(_, _, _) => 49
    case Close(_, _) => 9
    case Write(_, _, data) => 17 + |data|
    case Read(_, _, _) => 17
    case Shutdown(_) => 5
  }

  // ---------------------------------------------------------------------------
  // Round trip
  // ---------------------------------------------------------------------------

  /** Four or eight zero bytes are the number 0. */
  lemma ZerosAreZero()
    ensures DecodeInt(Zeros(4)) == 0 && Decode(Zeros(8)) == 0
  {
    assert Zeros(4) == [0, 0, 0, 0] && Zeros(8) == [0, 0, 0, 0] + [0, 0, 0, 0];
    FourZeros([]);
    assert [0, 0, 0, 0] + [] == Zeros(4);
    FourZeros([0, 0, 0, 0]);
    assert Decode([]) == 0;
  }

  lemma SizeRoundTrip(n: nat)
    requires n < SIZE_MOD
    ensures Decode(EncodeSize(n)) == n
  {
    Pow256Values();
    DecodeEncode(n, 8);
  }

  /** The fields of a frame with a session id. */
  lemma SessionFields(op: byte, sid: int)
    requires IsInt(sid)
    ensures var m := BeginSession(op, sid);
            && m[0] == op && m[1..5] == EncodeInt(sid) && m[5..] == Zeros(95)
  {
    var m := BeginSession(op, sid);
    assert m[1..5] == EncodeInt(sid);
    assert m[5..] == Zeros(95);
  }

  /** The open frame: the name with the flags over it, then zeros. */
  lemma OpenFields(sid: int, name: seq<byte>, flags: int)
    requires Sendable(Open(sid, name, flags))
    ensures var m := Frame(Open(sid, name, flags));
            && m[0] == 51 && m[1..5] == EncodeInt(sid)
            && m[5..45] == Splice(name, 1, EncodeInt(flags)) && m[45..49] == Zeros(4) && m[49..] == Zeros(51)
  {
    SessionFields(51, sid);
    var m0 := BeginSession(51, sid);
    var m := Frame(Open(sid, name, flags));
    assert m[1..5] == m0[1..5];
    assert m[5..45] == Splice(name, 1, EncodeInt(flags));
    assert m[45..49] == Zeros(4) by {
      assert forall i :: 45 <= i < 100 ==> m[i] == m0[5..][i - 5];
    }
    assert m[49..] == Zeros(51) by {
      assert forall i :: 45 <= i < 100 ==> m[i] == m0[5..][i - 5];
    }
  }

  /** The frames with a session id and a handle. */
  lemma HandleFields(op: byte, sid: int, fhandle: int)
    requires IsInt(sid) && IsInt(fhandle)
    ensures var m := Splice(BeginSession(op, sid), 5, EncodeInt(fhandle));
            && m[0] == op && m[1..5] == EncodeInt(sid) && m[5..9] == EncodeInt(fhandle) && m[9..] == Zeros(91)
  {
    SessionFields(op, sid);
    var m0 := BeginSession(op, sid);
    var m := Splice(m0, 5, EncodeInt(fhandle));
    assert m[1..5] == m0[1..5];
    assert m[5..9] == EncodeInt(fhandle);
    assert forall i :: 9 <= i < 100 ==> m[i] == m0[5..][i - 5];
    assert m[9..] == Zeros(91);
  }

  lemma WriteFields(sid: int, fhandle: int, data: seq<byte>)
    requires Sendable(Write(sid, fhandle, data))
    ensures var m := Frame(Write(sid, fhandle, data));
            && m[0] == 53 && m[1..5] == EncodeInt(sid) && m[5..9] == EncodeInt(fhandle)
            && m[9..17] == EncodeSize(|data|) && m[17..17 + |data|] == data
            && m[17 + |data|..] == Zeros(83 - |data|)
  {
    HandleFields(53, sid, fhandle);
    var m0 := Splice(BeginSession(53, sid), 5, EncodeInt(fhandle));
    var m1 := Splice(m0, 9, EncodeSize(|data|));
    var m := Splice(m1, 17, data);
    assert m[1..5] == m0[1..5] && m[5..9] == m0[5..9];
    assert m[9..17] == EncodeSize(|data|);
    assert m[17..17 + |data|] == data;
    assert forall i :: 17 + |data| <= i < 100 ==> m[i] == m0[9..][i - 9];
    assert m[17 + |data|..] == Zeros(83 - |data|);
  }

  /** A field near the front of a stream is the frame's field. */
  lemma FrontField(m: seq<byte>, rest: seq<byte>, a: nat, b: nat)
    requires a <= b <= |m|
    ensures (m + rest)[a..b] == m[a..b]
  {
  }

  lemma ParseSession(op: byte, sid: int, rest: seq<byte>)
    requires IsInt(sid) && (op == 50 || op == 55)
    ensures ParseOne(BeginSession(op, sid) + rest) == (Some(if op == 50 then UnmountCmd(sid) else ShutdownCmd(sid)), 5)
    ensures BeginSession(op, sid)[5..] == Zeros(95)
  {
    var m := BeginSession(op, sid);
    SessionFields(op, sid);
    FrontField(m, rest, 1, 5);
    DecodeEncodeInt(sid);
  }

  lemma ParseHandle(op: byte, sid: int, fhandle: int, rest: seq<byte>)
    requires IsInt(sid) && IsInt(fhandle) && (op == 52 || op == 54)
    ensures var m := Splice(BeginSession(op, sid), 5, EncodeInt(fhandle));
            && m[9..] == Zeros(91)
            && ParseOne(m + rest) ==
                 if op == 52 then (Some(CloseCmd(sid, fhandle)), 9) else (Some(ReadCmd(sid, fhandle, 0)), 17)
  {
    var m := Splice(BeginSession(op, sid), 5, EncodeInt(fhandle));
    HandleFields(op, sid, fhandle);
    FrontField(m, rest, 1, 5);
    FrontField(m, rest, 5, 9);
    FrontField(m, rest, 9, 17);
    DecodeEncodeInt(sid);
    DecodeEncodeInt(fhandle);
    assert m[9..17] == m[9..][..8] == Zeros(8);
    ZerosAreZero();
  }

  lemma ParseMount(path: seq<byte>, rest: seq<byte>)
    requires |path| == PIPE_NAME
    ensures var m := Frame(Mount(path));
            ParseOne(m + rest) == (Some(MountCmd(path)), 41) && m[41..] == Zeros(59)
  {
    var m := Frame(Mount(path));
    FrontField(m, rest, 1, 41);
    assert m[1..41] == path;
    assert m[41..] == Zeros(59);
  }

  lemma ParseOpen(sid: int, name: seq<byte>, flags: int, rest: seq<byte>)
    requires Sendable(Open(sid, name, flags))
    ensures var m := Frame(Open(sid, name, flags));
            && ParseOne(m + rest) == (Some(OpenCmd(sid, Splice(name, 1, EncodeInt(flags)), 0)), 49)
            && m[49..] == Zeros(51)
  {
    var m := Frame(Open(sid, name, flags));
    OpenFields(sid, name, flags);
    FrontField(m, rest, 1, 5);
    FrontField(m, rest, 5, 45);
    FrontField(m, rest, 45, 49);
    DecodeEncodeInt(sid);
    ZerosAreZero();
  }

  lemma ParseWrite(sid: int, fhandle: int, data: seq<byte>, rest: seq<byte>)
    requires Sendable(Write(sid, fhandle, data))
    ensures var m := Frame(Write(sid, fhandle, data));
            && ParseOne(m + rest) == (Some(WriteCmd(sid, fhandle, data)), 17 + |data|)
            && m[17 + |data|..] == Zeros(83 - |data|)
  {
    var m := Frame(Write(sid, fhandle, data));
    WriteFields(sid, fhandle, data);
    FrontField(m, rest, 1, 5);
    FrontField(m, rest, 5, 9);
    FrontField(m, rest, 9, 17);
    DecodeEncodeInt(sid);
    DecodeEncodeInt(fhandle);
    SizeRoundTrip(|data|);
    FrontField(m, rest, 17, 17 + |data|);
  }

  /** A frame in front of anything: its command, then padding. */
  lemma ParseFrame(r: Request, rest: seq<byte>)
    requires Sendable(r)
    ensures ParseOne(Frame(r) + rest) == (Some(Received(r)), Taken(r))
    ensures Taken(r) <= FRAME && Frame(r)[Taken(r)..] == Zeros(FRAME - Taken(r))
  {
    hide Frame, ParseOne, Begin, BeginSession;
    match r
    case Mount(path) => ParseMount(path, rest);
    case Unmount(sid) => UnfoldSession(r); ParseSession(50, sid, rest);
    case Open(sid, name, flags) => ParseOpen(sid, name, flags, rest);
    case Close(sid, fhandle) => UnfoldSession(r); ParseHandle(52, sid, fhandle, rest);
    case Write(sid, fhandle, data) => ParseWrite(sid, fhandle, data, rest);
    case Read(sid, fhandle, _) =>
      UnfoldSession(r);
      ParseHandle(54, sid, fhandle, rest);
      assert Frame(r)[17..] == Frame(r)[9..][8..] == Zeros(83);
    case Shutdown(sid) => UnfoldSession(r); ParseSession(55, sid, rest);
  }

  lemma UnfoldSession(r: Request)
    requires Sendable(r)
    ensures r.Unmount? ==> Frame(r) == BeginSession(50, r.sid)
    ensures r.Close? ==> Frame(r) == Splice(BeginSession(52, r.sid), 5, EncodeInt(r.fhandle))
    ensures r.Read? ==> Frame(r) == Splice(BeginSession(54, r.sid), 5, EncodeInt(r.fhandle))
    ensures r.Shutdown? ==> Frame(r) == BeginSession(55, r.sid)
  {
  }

  lemma NothingParsed()
    ensures ParseAll([]) == []
  {
  }

  predicate OpCode(b: byte) {
    49 <= b <= 55  // '1' to '7'
  }

  /** A byte that is no op code is dropped. */
  lemma SkipOne(s: seq<byte>)
    requires s != [] && !OpCode(s[0])
    ensures ParseAll(s) == ParseAll(s[1..])
  {
    assert ParseOne(s) == (None, 1);
    hide ParseOne;
  }

  /** Bytes between commands that are no op codes, zero padding among them, are skipped one by one. */
  lemma {:induction false} SkipNoise(noise: seq<byte>, rest: seq<byte>)
    requires forall i :: 0 <= i < |noise| ==> !OpCode(noise[i])
    ensures ParseAll(noise + rest) == ParseAll(rest)
  {
    hide ParseOne, ParseAll;
    var s := noise + rest;
    if noise == [] {
      assert s == rest;
    } else {
      SkipNoise(noise[1..], rest);
      assert s[0] == noise[0] && s[1..] == noise[1..] + rest;
      SkipOne(s);
    }
  }

  /** A frame is read as one command, and exactly its 100 bytes are consumed. */
  lemma OneFrame(r: Request, rest: seq<byte>)
    requires Sendable(r)
    ensures ParseAll(Frame(r) + rest) == [Received(r)] + ParseAll(rest)
  {
    hide ParseOne, Frame;
    var s := Frame(r) + rest;
    ParseFrame(r, rest);
    assert s[Taken(r)..] == Zeros(FRAME - Taken(r)) + rest;
    SkipNoise(Zeros(FRAME - Taken(r)), rest);
  }

  function Frames(rs: seq<Request>): seq<byte>
    requires forall i :: 0 <= i < |rs| ==> Sendable(rs[i])
  {
    if rs == [] then [] else Frame(rs[0]) + Frames(rs[1..])
  }

  /**
   The server stays in step with its clients. For every sequence of requests,
   the parser gets one command per frame, in order, with the fields Received
   says.
   */
  lemma {:induction false} FramesInStep(rs: seq<Request>)
    requires forall i :: 0 <= i < |rs| ==> Sendable(rs[i])
    ensures |ParseAll(Frames(rs))| == |rs|
    ensures forall i :: 0 <= i < |rs| ==> ParseAll(Frames(rs))[i] == Received(rs[i])
  {
    hide ParseOne, Frame;
    if rs == [] {
      NothingParsed();
    } else {
      FramesInStep(rs[1..]);
      OneFrame(rs[0], Frames(rs[1..]));
    }
  }

  // ---------------------------------------------------------------------------
  // A stream that is cut
  // ---------------------------------------------------------------------------

  /** A front part of a request's command is no command, and all of it is consumed. */
  lemma CutCommand(r: Request, k: nat)
    requires Sendable(r) && 0 < k < Taken(r)
    ensures Taken(r) <= FRAME && ParseOne(Frame(r)[..k]) == (None, k)
  {
    var s := Frame(r)[..k];
    ParseFrame(r, []);
    assert Frame(r) + [] == Frame(r);
    if r.Write? && k >= 17 {
      WriteFields(r.sid, r.fhandle, r.data);
      SizeRoundTrip(|r.data|);
      assert s[9..17] == Frame(r)[9..17];
    }
    assert s[0] == Frame(r)[0];
  }

  /** A command is read from its own bytes, whether or not more have arrived. */
  lemma OwnBytes(s: seq<byte>, k: nat)
    requires s != [] && 0 < k <= |s| && ParseOne(s).0.Some? && ParseOne(s).1 <= k
    ensures ParseOne(s[..k]) == ParseOne(s)
  {
    var t := s[..k];
    assert t[0] == s[0];
    FrontField(t, s[k..], 1, 5);
    if s[0] == 49 {
      FrontField(t, s[k..], 1, 41);
    } else if s[0] == 51 {
      FrontField(t, s[k..], 5, 45);
      FrontField(t, s[k..], 45, 49);
    } else if s[0] == 52 {
      FrontField(t, s[k..], 5, 9);
    } else if s[0] == 53 || s[0] == 54 {
      FrontField(t, s[k..], 5, 9);
      FrontField(t, s[k..], 9, 17);
      if s[0] == 53 {
        FrontField(t, s[k..], 17, 17 + SizeAt(s, 9));
      }
    }
    assert t + s[k..] == s;
  }

  /** A stream that ends inside a frame, at its byte k: the frame's command counts when all its bytes have arrived. */
  lemma CutFrame(r: Request, k: nat)
    requires Sendable(r) && k <= FRAME
    ensures ParseAll(Frame(r)[..k]) == if k < Taken(r) then [] else [Received(r)]
  {
    hide Frame, ParseOne;
    var s := Frame(r)[..k];
    ParseFrame(r, []);
    assert Frame(r) + [] == Frame(r);
    NothingParsed();
    if 0 < k < Taken(r) {
      CutCommand(r, k);
      assert s[k..] == [];
    } else if k > 0 {
      OwnBytes(Frame(r), k);
      assert s[Taken(r)..] == Zeros(k - Taken(r)) + [];
      SkipNoise(Zeros(k - Taken(r)), []);
    }
  }

  /** How many of the requests have all bytes of their command among the first n of the stream. */
  function Arrived(rs: seq<Request>, n: nat): nat {
    if rs == [] || n < Taken(rs[0]) then 0
    else 1 + Arrived(rs[1..], if n >= FRAME then n - FRAME else 0)
  }

  /**
   When the stream stops anywhere, the server has the commands of the requests
   whose bytes have arrived, in order, and nothing that was not sent.
   */
  lemma {:induction false} CutStream(rs: seq<Request>, n: nat)
    requires (forall i :: 0 <= i < |rs| ==> Sendable(rs[i])) && n <= |Frames(rs)|
    ensures |ParseAll(Frames(rs)[..n])| == Arrived(rs, n) <= |rs|
    ensures forall i :: 0 <= i < Arrived(rs, n) ==> ParseAll(Frames(rs)[..n])[i] == Received(rs[i])
  {
    hide ParseOne, ParseAll, Frame;
    NothingParsed();
    if rs == [] {
    } else if n <= FRAME {
      CutFrame(rs[0], n);
      assert Frames(rs)[..n] == Frame(rs[0])[..n];
      assert Arrived(rs[1..], 0) == 0;
    } else {
      CutStream(rs[1..], n - FRAME);
      OneFrame(rs[0], Frames(rs[1..])[..n - FRAME]);
      ParseFrame(rs[0], []);
      assert Frames(rs)[..n] == Frame(rs[0]) + Frames(rs[1..])[..n - FRAME];
    }
  }

  /**
   Which requests arrive as they were meant: all but an open whose flags are not
   0 or whose bytes 1 to 4 of the name are not 0, and a read of a length other
   than 0.
   */
  lemma ArrivesIntactIff(r: Request)
    requires Sendable(r)
    ensures Received(r) == Meant(r) <==>
            && (r.Open? ==> r.flags == 0 && r.name[1..5] == Zeros(4))
            && (r.Read? ==> r.len == 0)
  {
    if r.Open? {
      var sent := Splice(r.name, 1, EncodeInt(r.flags));
      assert sent[1..5] == EncodeInt(r.flags);
      ZerosAreZero();
      DecodeEncodeInt(r.flags);
      EncodeDecode(Zeros(4));
      if r.flags == 0 && r.name[1..5] == Zeros(4) {
        assert EncodeInt(0) == Zeros(4);
        assert forall i :: 1 <= i < 5 ==> r.name[i] == r.name[1..5][i - 1];
        assert sent == r.name;
      }
    }
  }
}
