/**
 The locks of part one. Each operation is the sequence of its lock operations,
 for any number of loop rounds and scan lengths. All of them acquire in the same
 order, so any number of threads running any operations cannot deadlock.
 */
module LockOrder {
  import opened Options

  datatype Lock = HandleLock(h: int) | InodeLock(f: int) | BlockLock | TableLock | VolatileLock
  datatype Mode = Shared | Exclusive
  datatype Event = Acquire(lock: Lock, mode: Mode) | Release(lock: Lock)

  /** of_mutex before i_lock before db_mutex; it_mutex and vs_mutex are taken alone. */
  function Rank(l: Lock): nat {
    match l
    case HandleLock(_) => 0
    case InodeLock(_) => 1
    case BlockLock => 2
    case TableLock => 3
    case VolatileLock => 3
  }

  // ---------------------------------------------------------------------------
  // The lock operations of the code
  // ---------------------------------------------------------------------------

  /** n critical sections on one lock, one after the other. */
  function Sections(l: Lock, n: nat): seq<Event> {
    if n == 0 then [] else [Acquire(l, Exclusive), Release(l)] + Sections(l, n - 1)
  }

  function Section(l: Lock, m: Mode): seq<Event> {
    [Acquire(l, m), Release(l)]
  }

  /** inode_update: `probes` is the number of table slots tested by all its allocations together. */
  function UpdateLocks(h: int, f: int, probes: nat): seq<Event> {
    [Acquire(HandleLock(h), Exclusive), Acquire(InodeLock(f), Exclusive)] + Sections(BlockLock, probes)
    + [Release(InodeLock(f)), Release(HandleLock(h))]
  }

  /** One round of tfs_write: inode_update, the copy, the handle, i_size. */
  function WriteRoundLocks(h: int, f: int, probes: nat): seq<Event> {
    UpdateLocks(h, f, probes) + Section(InodeLock(f), Exclusive) + Section(HandleLock(h), Exclusive)
    + Section(InodeLock(f), Exclusive)
  }

  function WriteLocks(h: int, f: int, rounds: seq<nat>): seq<Event> {
    if rounds == [] then [] else WriteRoundLocks(h, f, rounds[0]) + WriteLocks(h, f, rounds[1..])
  }

  /** One round of tfs_read: the step, inode_update, the copy, the handle. */
  function ReadRoundLocks(h: int, f: int, probes: nat): seq<Event> {
    Section(HandleLock(h), Exclusive) + UpdateLocks(h, f, probes) + Section(InodeLock(f), Shared)
    + Section(HandleLock(h), Exclusive)
  }

  function ReadRoundsLocks(h: int, f: int, rounds: seq<nat>): seq<Event> {
    if rounds == [] then [] else ReadRoundLocks(h, f, rounds[0]) + ReadRoundsLocks(h, f, rounds[1..])
  }

  function ReadLocks(h: int, f: int, rounds: seq<nat>): seq<Event> {
    [Acquire(HandleLock(h), Exclusive), Acquire(InodeLock(f), Shared), Release(InodeLock(f)), Release(HandleLock(h))]
    + ReadRoundsLocks(h, f, rounds)
  }

  /** A last round of tfs_write in which inode_update yields NULL: the call returns at once. */
  function StuckWriteLocks(h: int, f: int, stuck: Option<nat>): seq<Event> {
    if stuck.None? then [] else UpdateLocks(h, f, stuck.value)
  }

  /** The same for tfs_read, which has taken the handle's lock for its step before. */
  function StuckReadLocks(h: int, f: int, stuck: Option<nat>): seq<Event> {
    if stuck.None? then [] else Section(HandleLock(h), Exclusive) + UpdateLocks(h, f, stuck.value)
  }

  /** inode_data_free: with i_size 0 the lock is released without having been taken. */
  function DataFreeLocks(f: int, size: nat, frees: nat): seq<Event> {
    (if size > 0 then [Acquire(InodeLock(f), Exclusive)] + Sections(BlockLock, frees) else []) + [Release(InodeLock(f))]
  }

  /** tfs_open on a bound path; `slots` handles are tested. */
  function OpenLocks(f: int, trunc: bool, append: bool, size: nat, frees: nat, slots: nat): seq<Event> {
    (if trunc then DataFreeLocks(f, size, frees) + Section(InodeLock(f), Exclusive) else [])
    + (if append then Section(InodeLock(f), Shared) else [])
    + Sections(VolatileLock, slots)
  }

  /** tfs_open that creates a file: `inodes` table entries are tested, then `slots` handles. */
  function CreateLocks(inodes: nat, slots: nat): seq<Event> {
    Sections(TableLock, inodes) + Sections(VolatileLock, slots)
  }

  /** tfs_open that finds the directory full: inode_delete runs inode_data_free on the new, empty inode. */
  function FailedCreateLocks(f: int, inodes: nat): seq<Event> {
    Sections(TableLock, inodes) + DataFreeLocks(f, 0, 0)
  }

  function CloseLocks(): seq<Event> {
    Section(VolatileLock, Exclusive)
  }

  /** tfs_copy_to_external_fs: open without flags, i_size, the read, and the close unless the copy failed. */
  function CopyLocks(h: int, f: int, slots: nat, rounds: seq<nat>, stuck: Option<nat>, closes: bool): seq<Event> {
    Sections(VolatileLock, slots) + Section(InodeLock(f), Shared) + ReadLocks(h, f, rounds) + StuckReadLocks(h, f, stuck)
    + (if closes then CloseLocks() else [])
  }

  /**
   The lock operations of one call, with the data-dependent numbers left open.
   `stuck` is a last round that fails in inode_update. A rejected call returns
   before its first lock: bad path, unknown name, bad handle.
   */
  datatype Call =
    | RejectedCall
    | WriteCall(h: int, f: int, rounds: seq<nat>, stuck: Option<nat>)
    | ReadCall(h: int, f: int, rounds: seq<nat>, stuck: Option<nat>)
    | CopyCall(h: int, f: int, slots: nat, rounds: seq<nat>, stuck: Option<nat>, closes: bool)
    | FailedTruncateCall(f: int, size: nat, frees: nat)
    | OpenCall(f: int, trunc: bool, append: bool, size: nat, frees: nat, slots: nat)
    | CreateCall(inodes: nat, slots: nat)
    | FailedCreateCall(f: int, inodes: nat)
    | CloseCall

  function Locks(c: Call): seq<Event> {
    match c
    case RejectedCall => []
    case WriteCall(h, f, rounds, stuck) => WriteLocks(h, f, rounds) + StuckWriteLocks(h, f, stuck)
    case ReadCall(h, f, rounds, stuck) => ReadLocks(h, f, rounds) + StuckReadLocks(h, f, stuck)
    case CopyCall(h, f, slots, rounds, stuck, closes) => CopyLocks(h, f, slots, rounds, stuck, closes)
    case FailedTruncateCall(f, size, frees) => DataFreeLocks(f, size, frees)
    case OpenCall(f, trunc, append, size, frees, slots) => OpenLocks(f, trunc, append, size, frees, slots)
    case CreateCall(inodes, slots) => CreateLocks(inodes, slots)
    case FailedCreateCall(f, inodes) => FailedCreateLocks(f, inodes)
    case CloseCall => CloseLocks()
  }

  function Program(calls: seq<Call>): seq<Event> {
    if calls == [] then [] else Locks(calls[0]) + Program(calls[1..])
  }

  // ---------------------------------------------------------------------------
  // Discipline
  // ---------------------------------------------------------------------------

  /** With `held` held: locks are taken above all held ones, only held ones are released, and none is left. */
  ghost predicate Disciplined(held: set<Lock>, events: seq<Event>)
    decreases |events|
  {
    if events == [] then held == {}
    else match events[0]
      case Acquire(l, _) => (forall k :: k in held ==> Rank(k) < Rank(l)) && Disciplined(held + {l}, events[1..])
      case Release(l) => l in held && Disciplined(held - {l}, events[1..])
  }

  lemma {:induction false} Sequence(held: set<Lock>, a: seq<Event>, b: seq<Event>)
    requires Disciplined(held, a) && Disciplined({}, b)
    ensures Disciplined(held, a + b)
    decreases |a|
  {
    if a == [] {
      assert a + b == b;
    } else {
      assert (a + b)[0] == a[0] && (a + b)[1..] == a[1..] + b;
      match a[0]
      case Acquire(l, _) => Sequence(held + {l}, a[1..], b);
      case Release(l) => Sequence(held - {l}, a[1..], b);
    }
  }

  lemma Step2(held: set<Lock>, l: Lock, m: Mode, rest: seq<Event>)
    requires l !in held && (forall k :: k in held ==> Rank(k) < Rank(l)) && Disciplined(held, rest)
    ensures Disciplined(held, [Acquire(l, m), Release(l)] + rest)
  {
    var events := [Acquire(l, m), Release(l)] + rest;
    assert events[1..] == [Release(l)] + rest && events[1..][1..] == rest;
    assert held + {l} - {l} == held;
  }

  /** Critical sections above the held locks can be put in front. */
  lemma {:induction false} SectionsFirst(held: set<Lock>, l: Lock, n: nat, rest: seq<Event>)
    requires l !in held && (forall k :: k in held ==> Rank(k) < Rank(l)) && Disciplined(held, rest)
    ensures Disciplined(held, Sections(l, n) + rest)
  {
    if n == 0 {
      assert Sections(l, n) + rest == rest;
    } else {
      SectionsFirst(held, l, n - 1, rest);
      Step2(held, l, Exclusive, Sections(l, n - 1) + rest);
      assert Sections(l, n) + rest == [Acquire(l, Exclusive), Release(l)] + (Sections(l, n - 1) + rest);
    }
  }

  lemma SectionIsDisciplined(l: Lock, m: Mode)
    ensures Disciplined({}, Section(l, m))
  {
    Step2({}, l, m, []);
    assert Section(l, m) == [Acquire(l, m), Release(l)] + [];
  }

  lemma SectionsAreDisciplined(l: Lock, n: nat)
    ensures Disciplined({}, Sections(l, n))
  {
    SectionsFirst({}, l, n, []);
    assert Sections(l, n) + [] == Sections(l, n);
  }

  lemma UpdateIsDisciplined(h: int, f: int, probes: nat)
    ensures Disciplined({}, UpdateLocks(h, f, probes))
  {
    var a, i := HandleLock(h), InodeLock(f);
    var tail := [Release(i), Release(a)];
    assert tail[1..] == [Release(a)] && tail[1..][1..] == [];
    assert {a, i} - {i} == {a} && {a} - {a} == {};
    assert Disciplined({a}, tail[1..]);
    assert Disciplined({a, i}, tail);
    SectionsFirst({a, i}, BlockLock, probes, tail);
    var body := Sections(BlockLock, probes) + tail;
    var whole := [Acquire(a, Exclusive), Acquire(i, Exclusive)] + body;
    assert whole[1..] == [Acquire(i, Exclusive)] + body && whole[1..][1..] == body;
    assert {} + {a} == {a} && {a} + {i} == {a, i};
    assert Disciplined({a}, whole[1..]);
    assert UpdateLocks(h, f, probes) == whole;
  }

  lemma {:induction false} WriteIsDisciplined(h: int, f: int, rounds: seq<nat>)
    ensures Disciplined({}, WriteLocks(h, f, rounds))
  {
    if rounds != [] {
      WriteIsDisciplined(h, f, rounds[1..]);
      var update := UpdateLocks(h, f, rounds[0]);
      UpdateIsDisciplined(h, f, rounds[0]);
      SectionIsDisciplined(InodeLock(f), Exclusive);
      SectionIsDisciplined(HandleLock(h), Exclusive);
      Sequence({}, update, Section(InodeLock(f), Exclusive));
      Sequence({}, update + Section(InodeLock(f), Exclusive), Section(HandleLock(h), Exclusive));
      Sequence({}, update + Section(InodeLock(f), Exclusive) + Section(HandleLock(h), Exclusive),
               Section(InodeLock(f), Exclusive));
      Sequence({}, WriteRoundLocks(h, f, rounds[0]), WriteLocks(h, f, rounds[1..]));
    }
  }

  lemma {:induction false} ReadRoundsAreDisciplined(h: int, f: int, rounds: seq<nat>)
    ensures Disciplined({}, ReadRoundsLocks(h, f, rounds))
  {
    if rounds != [] {
      ReadRoundsAreDisciplined(h, f, rounds[1..]);
      var first, update := Section(HandleLock(h), Exclusive), UpdateLocks(h, f, rounds[0]);
      UpdateIsDisciplined(h, f, rounds[0]);
      SectionIsDisciplined(InodeLock(f), Shared);
      SectionIsDisciplined(HandleLock(h), Exclusive);
      Sequence({}, first, update);
      Sequence({}, first + update, Section(InodeLock(f), Shared));
      Sequence({}, first + update + Section(InodeLock(f), Shared), Section(HandleLock(h), Exclusive));
      Sequence({}, ReadRoundLocks(h, f, rounds[0]), ReadRoundsLocks(h, f, rounds[1..]));
    }
  }

  lemma ReadIsDisciplined(h: int, f: int, rounds: seq<nat>)
    ensures Disciplined({}, ReadLocks(h, f, rounds))
  {
    var a, i := HandleLock(h), InodeLock(f);
    var head := [Acquire(a, Exclusive), Acquire(i, Shared), Release(i), Release(a)];
    assert head[1..] == [Acquire(i, Shared), Release(i), Release(a)];
    assert head[1..][1..] == [Release(i), Release(a)] && head[1..][1..][1..] == [Release(a)];
    assert {} + {a} == {a} && {a} + {i} - {i} == {a} && {a} - {a} == {};
    assert Disciplined({a}, [Release(a)]);
    assert Disciplined({a} + {i}, head[1..][1..]);
    assert Disciplined({a}, head[1..]);
    ReadRoundsAreDisciplined(h, f, rounds);
    Sequence({}, head, ReadRoundsLocks(h, f, rounds));
  }

  /** inode_data_free respects the discipline if and only if i_size is not 0. */
  lemma DataFreeDisciplinedIff(f: int, size: nat, frees: nat)
    ensures Disciplined({}, DataFreeLocks(f, size, frees)) <==> size > 0
  {
    var i := InodeLock(f);
    if size > 0 {
      assert [Release(i)][1..] == [] && {i} - {i} == {};
      assert Disciplined({i}, [Release(i)]);
      SectionsFirst({i}, BlockLock, frees, [Release(i)]);
      var body := Sections(BlockLock, frees) + [Release(i)];
      assert ([Acquire(i, Exclusive)] + body)[1..] == body && {} + {i} == {i};
      assert DataFreeLocks(f, size, frees) == [Acquire(i, Exclusive)] + body;
    } else {
      assert DataFreeLocks(f, size, frees) == [Release(i)];
    }
  }

  /** The calls that never run inode_data_free on an empty file. */
  predicate Matched(c: Call) {
    match c
    case OpenCall(_, trunc, _, size, _, _) => trunc ==> size > 0
    case FailedTruncateCall(_, size, _) => size > 0
    case FailedCreateCall(_, _) => false
    case _ => true
  }

  lemma OpenIsDisciplined(f: int, trunc: bool, append: bool, size: nat, frees: nat, slots: nat)
    requires trunc ==> size > 0
    ensures Disciplined({}, OpenLocks(f, trunc, append, size, frees, slots))
  {
    var i := InodeLock(f);
    SectionIsDisciplined(i, Exclusive);
    SectionIsDisciplined(i, Shared);
    SectionsAreDisciplined(VolatileLock, slots);
    var first := if trunc then DataFreeLocks(f, size, frees) + Section(i, Exclusive) else [];
    var second := if append then Section(i, Shared) else [];
    if trunc {
      DataFreeDisciplinedIff(f, size, frees);
      Sequence({}, DataFreeLocks(f, size, frees), Section(i, Exclusive));
    }
    assert Disciplined({}, first) && Disciplined({}, second);
    Sequence({}, first, second);
    Sequence({}, first + second, Sections(VolatileLock, slots));
  }

  /** A release of a lock that is not held cannot be made good by what follows. */
  lemma {:induction false} UnmatchedAfterSections(l: Lock, n: nat, i: Lock, rest: seq<Event>)
    requires i != l
    ensures !Disciplined({}, Sections(l, n) + ([Release(i)] + rest))
  {
    var tail := [Release(i)] + rest;
    if n == 0 {
      assert Sections(l, n) + tail == tail;
    } else {
      UnmatchedAfterSections(l, n - 1, i, rest);
      var after := Sections(l, n - 1) + tail;
      var whole := [Acquire(l, Exclusive), Release(l)] + after;
      assert Sections(l, n) + tail == whole;
      assert whole[1..] == [Release(l)] + after && whole[1..][1..] == after;
      assert {} + {l} - {l} == {};
    }
  }

  lemma UnmatchedFirst(i: Lock, rest: seq<Event>)
    ensures !Disciplined({}, [Release(i)] + rest)
  {
  }

  lemma TruncatedEmptyIsUnmatched(f: int, append: bool, frees: nat, slots: nat)
    ensures !Disciplined({}, OpenLocks(f, true, append, 0, frees, slots))
  {
    hide Disciplined, Sections;
    var rest := Section(InodeLock(f), Exclusive) + (if append then Section(InodeLock(f), Shared) else [])
                + Sections(VolatileLock, slots);
    assert OpenLocks(f, true, append, 0, frees, slots) == [Release(InodeLock(f))] + rest;
    UnmatchedFirst(InodeLock(f), rest);
  }

  lemma NothingIsDisciplined()
    ensures Disciplined({}, [])
  {
  }

  lemma StuckIsDisciplined(h: int, f: int, stuck: Option<nat>)
    ensures Disciplined({}, StuckWriteLocks(h, f, stuck)) && Disciplined({}, StuckReadLocks(h, f, stuck))
  {
    if stuck.Some? {
      hide Disciplined, UpdateLocks, Section;
      UpdateIsDisciplined(h, f, stuck.value);
      SectionIsDisciplined(HandleLock(h), Exclusive);
      Sequence({}, Section(HandleLock(h), Exclusive), UpdateLocks(h, f, stuck.value));
    }
  }

  lemma CopyIsDisciplined(h: int, f: int, slots: nat, rounds: seq<nat>, stuck: Option<nat>, closes: bool)
    ensures Disciplined({}, CopyLocks(h, f, slots, rounds, stuck, closes))
  {
    NothingIsDisciplined();
    hide Disciplined, Sections, Section, ReadLocks, StuckReadLocks, StuckWriteLocks;
    SectionsAreDisciplined(VolatileLock, slots);
    SectionIsDisciplined(InodeLock(f), Shared);
    SectionIsDisciplined(VolatileLock, Exclusive);
    ReadIsDisciplined(h, f, rounds);
    StuckIsDisciplined(h, f, stuck);
    var open := Sections(VolatileLock, slots);
    var size := Section(InodeLock(f), Shared);
    var close := if closes then CloseLocks() else [];
    Sequence({}, open, size);
    Sequence({}, open + size, ReadLocks(h, f, rounds));
    Sequence({}, open + size + ReadLocks(h, f, rounds), StuckReadLocks(h, f, stuck));
    Sequence({}, open + size + ReadLocks(h, f, rounds) + StuckReadLocks(h, f, stuck), close);
  }

  lemma CreateIsDisciplined(inodes: nat, slots: nat)
    ensures Disciplined({}, CreateLocks(inodes, slots))
  {
    hide Disciplined, Sections;
    SectionsAreDisciplined(TableLock, inodes);
    SectionsAreDisciplined(VolatileLock, slots);
    Sequence({}, Sections(TableLock, inodes), Sections(VolatileLock, slots));
  }

  lemma FailedCreateIsUnmatched(f: int, inodes: nat)
    ensures !Disciplined({}, FailedCreateLocks(f, inodes))
  {
    hide Disciplined, Sections;
    UnmatchedAfterSections(TableLock, inodes, InodeLock(f), []);
    assert FailedCreateLocks(f, inodes) == Sections(TableLock, inodes) + ([Release(InodeLock(f))] + []);
  }

  /**
   Every call acquires in rank order, releases only what it holds and ends with
   nothing held, if and only if it does not run inode_data_free on an empty file.
   */
  lemma CallDisciplinedIff(c: Call)
    ensures Disciplined({}, Locks(c)) <==> Matched(c)
  {
    hide Disciplined, WriteLocks, ReadLocks, StuckWriteLocks, StuckReadLocks, CopyLocks, OpenLocks, CreateLocks, DataFreeLocks,
         FailedCreateLocks;
    match c
    case RejectedCall => NothingIsDisciplined();
    case WriteCall(h, f, rounds, stuck) =>
      WriteIsDisciplined(h, f, rounds);
      StuckIsDisciplined(h, f, stuck);
      Sequence({}, WriteLocks(h, f, rounds), StuckWriteLocks(h, f, stuck));
    case ReadCall(h, f, rounds, stuck) =>
      ReadIsDisciplined(h, f, rounds);
      StuckIsDisciplined(h, f, stuck);
      Sequence({}, ReadLocks(h, f, rounds), StuckReadLocks(h, f, stuck));
    case CopyCall(h, f, slots, rounds, stuck, closes) => CopyIsDisciplined(h, f, slots, rounds, stuck, closes);
    case FailedTruncateCall(f, size, frees) => DataFreeDisciplinedIff(f, size, frees);
    case OpenCall(f, trunc, append, size, frees, slots) =>
      if trunc && size == 0 {
        TruncatedEmptyIsUnmatched(f, append, frees, slots);
      } else {
        OpenIsDisciplined(f, trunc, append, size, frees, slots);
      }
    case CreateCall(inodes, slots) => CreateIsDisciplined(inodes, slots);
    case FailedCreateCall(f, inodes) => FailedCreateIsUnmatched(f, inodes);
    case CloseCall => SectionIsDisciplined(VolatileLock, Exclusive);
  }

  lemma {:induction false} ProgramIsDisciplined(calls: seq<Call>)
    requires forall i :: 0 <= i < |calls| ==> Matched(calls[i])
    ensures Disciplined({}, Program(calls))
  {
    if calls != [] {
      CallDisciplinedIff(calls[0]);
      ProgramIsDisciplined(calls[1..]);
      Sequence({}, Locks(calls[0]), Program(calls[1..]));
    }
  }

  // ---------------------------------------------------------------------------
  // Threads
  // ---------------------------------------------------------------------------

  /** What a thread holds, and the lock operations it has yet to perform. */
  datatype Thread = Thread(held: map<Lock, Mode>, rest: seq<Event>)

  predicate Conflict(a: Mode, b: Mode) {
    a.Exclusive? || b.Exclusive?
  }

  /** Thread u holds lock l in a mode that excludes m. */
  predicate Excludes(s: seq<Thread>, u: int, l: Lock, m: Mode) {
    0 <= u < |s| && l in s[u].held && Conflict(s[u].held[l], m)
  }

  /** Thread t waits for a lock that thread u holds. */
  predicate WaitsFor(s: seq<Thread>, t: int, u: int) {
    && 0 <= t < |s| && s[t].rest != [] && s[t].rest[0].Acquire? && t != u
    && Excludes(s, u, s[t].rest[0].lock, s[t].rest[0].mode)
  }

  ghost predicate Enabled(s: seq<Thread>, t: int) {
    0 <= t < |s| && s[t].rest != [] && forall u :: 0 <= u < |s| ==> !WaitsFor(s, t, u)
  }

  /** Thread t performs its next lock operation. */
  function After(s: seq<Thread>, t: nat): seq<Thread>
    requires t < |s| && s[t].rest != []
  {
    var e := s[t].rest[0];
    var held := if e.Acquire? then s[t].held[e.lock := e.mode] else s[t].held - {e.lock};
    s[t := Thread(held, s[t].rest[1..])]
  }

  ghost predicate AllDisciplined(s: seq<Thread>) {
    forall t :: 0 <= t < |s| ==> Disciplined(s[t].held.Keys, s[t].rest)
  }

  lemma StepKeepsDiscipline(s: seq<Thread>, t: nat)
    requires AllDisciplined(s) && t < |s| && s[t].rest != []
    ensures AllDisciplined(After(s, t))
  {
    var e := s[t].rest[0];
    assert Disciplined(s[t].held.Keys, s[t].rest);
    if e.Acquire? {
      assert s[t].held[e.lock := e.mode].Keys == s[t].held.Keys + {e.lock};
    } else {
      assert (s[t].held - {e.lock}).Keys == s[t].held.Keys - {e.lock};
    }
  }

  /** The state after letting the listed threads move in turn; a thread that cannot move stays. */
  ghost function RunThreads(s: seq<Thread>, schedule: seq<nat>): seq<Thread>
    decreases |schedule|
  {
    if schedule == [] then s
    else RunThreads(if Enabled(s, schedule[0]) then After(s, schedule[0]) else s, schedule[1..])
  }

  lemma {:induction false} RunKeepsDiscipline(s: seq<Thread>, schedule: seq<nat>)
    requires AllDisciplined(s)
    ensures AllDisciplined(RunThreads(s, schedule))
    decreases |schedule|
  {
    if schedule != [] {
      if Enabled(s, schedule[0]) {
        StepKeepsDiscipline(s, schedule[0]);
        RunKeepsDiscipline(After(s, schedule[0]), schedule[1..]);
      } else {
        RunKeepsDiscipline(s, schedule[1..]);
      }
    }
  }

  /** Thread t waits for a member of d. */
  ghost predicate WaitsWithin(s: seq<Thread>, d: set<int>, t: int) {
    exists u :: u in d && WaitsFor(s, t, u)
  }

  /** A set of threads in which everyone waits for a member. */
  ghost predicate Stuck(s: seq<Thread>, d: set<int>) {
    (exists t :: t in d) && forall t :: t in d ==> WaitsWithin(s, d, t)
  }

  lemma SomeWaiter(s: seq<Thread>, d: set<int>, t: int) returns (u: int)
    requires Stuck(s, d) && t in d
    ensures u in d && WaitsFor(s, t, u)
  {
    assert WaitsWithin(s, d, t);
    u :| u in d && WaitsFor(s, t, u);
  }

  /** The thread waited for wants a lock of higher rank: no way back. */
  lemma {:induction false} NotInStuck(s: seq<Thread>, d: set<int>, t: int)
    requires AllDisciplined(s) && t in d && Stuck(s, d)
    ensures false
    decreases 3 - (if 0 <= t < |s| && s[t].rest != [] && s[t].rest[0].Acquire? then Rank(s[t].rest[0].lock) else 0)
  {
    hide Stuck, WaitsWithin;
    var u := SomeWaiter(s, d, t);
    var v := SomeWaiter(s, d, u);
    assert Disciplined(s[u].held.Keys, s[u].rest);
    assert s[t].rest[0].lock in s[u].held.Keys;
    NotInStuck(s, d, u);
  }

  /** As long as some thread has lock operations left, some thread can perform its next one. */
  lemma SomeoneMoves(s: seq<Thread>, t: int)
    requires AllDisciplined(s) && 0 <= t < |s| && s[t].rest != []
    ensures exists u :: Enabled(s, u)
  {
    if forall u :: !Enabled(s, u) {
      var d := set u | 0 <= u < |s| && s[u].rest != [];
      forall v | v in d
        ensures WaitsWithin(s, d, v)
      {
        assert !Enabled(s, v);
        var u :| 0 <= u < |s| && WaitsFor(s, v, u);
        assert Disciplined(s[u].held.Keys, s[u].rest);
        assert s[v].rest[0].lock in s[u].held.Keys;
      }
      assert t in d;
      NotInStuck(s, d, t);
    }
  }

  function StartThreads(programs: seq<seq<Call>>): (s: seq<Thread>)
    ensures |s| == |programs|
    ensures forall t :: 0 <= t < |s| ==> s[t] == Thread(map[], Program(programs[t]))
  {
    seq(|programs|, t requires 0 <= t < |programs| => Thread(map[], Program(programs[t])))
  }

  /**
   Deadlock freedom. For any number of threads, any sequence of calls in each
   and any schedule: no set of threads waits within itself, and while one thread
   has work left some thread can go on. The truncation of an empty file, with
   its unmatched release, is excluded.
   */
  lemma NoDeadlock(programs: seq<seq<Call>>, schedule: seq<nat>, d: set<int>)
    requires forall t, i :: 0 <= t < |programs| && 0 <= i < |programs[t]| ==> Matched(programs[t][i])
    ensures var s := RunThreads(StartThreads(programs), schedule);
            && !Stuck(s, d)
            && ((exists t :: 0 <= t < |s| && s[t].rest != []) ==> exists u :: Enabled(s, u))
  {
    var s0 := StartThreads(programs);
    forall t | 0 <= t < |s0|
      ensures Disciplined(s0[t].held.Keys, s0[t].rest)
    {
      ProgramIsDisciplined(programs[t]);
      assert s0[t].held.Keys == {};
    }
    RunKeepsDiscipline(s0, schedule);
    var s := RunThreads(s0, schedule);
    if Stuck(s, d) {
      var t :| t in d;
      NotInStuck(s, d, t);
    }
    if t :| 0 <= t < |s| && s[t].rest != [] {
      SomeoneMoves(s, t);
    }
  }

  // ---------------------------------------------------------------------------
  // What the locks exclude
  // ---------------------------------------------------------------------------

  /** A lock that two threads hold at once is held by both for reading. */
  ghost predicate Exclusion(s: seq<Thread>) {
    forall t, u, l ::
      0 <= t < |s| && 0 <= u < |s| && t != u && l in s[t].held && l in s[u].held ==>
        s[t].held[l] == Shared && s[u].held[l] == Shared
  }

  lemma StepKeepsExclusion(s: seq<Thread>, t: nat)
    requires Exclusion(s) && Enabled(s, t)
    ensures Exclusion(After(s, t))
  {
    var e := s[t].rest[0];
    if e.Acquire? {
      forall u | 0 <= u < |s| && u != t && e.lock in s[u].held
        ensures e.mode == Shared && s[u].held[e.lock] == Shared
      {
        assert !WaitsFor(s, t, u);
      }
    }
  }

  lemma {:induction false} RunKeepsExclusion(s: seq<Thread>, schedule: seq<nat>)
    requires Exclusion(s)
    ensures Exclusion(RunThreads(s, schedule))
    decreases |schedule|
  {
    hide Exclusion, Enabled;
    if schedule != [] {
      if Enabled(s, schedule[0]) {
        StepKeepsExclusion(s, schedule[0]);
        EnabledHasRest(s, schedule[0]);
        RunKeepsExclusion(After(s, schedule[0]), schedule[1..]);
      } else {
        RunKeepsExclusion(s, schedule[1..]);
      }
    }
  }

  lemma EnabledHasRest(s: seq<Thread>, t: int)
    requires Enabled(s, t)
    ensures 0 <= t < |s| && s[t].rest != []
  {
  }

  /**
   Mutual exclusion. For any threads, any calls, matched or not, and any
   schedule: a lock that two threads hold at the same time is held by both for
   reading only.
   */
  lemma MutualExclusion(programs: seq<seq<Call>>, schedule: seq<nat>, t: nat, u: nat, l: Lock)
    ensures var s := RunThreads(StartThreads(programs), schedule);
            t < |s| && u < |s| && t != u && l in s[t].held && l in s[u].held ==>
              s[t].held[l] == Shared && s[u].held[l] == Shared
  {
    assert Exclusion(StartThreads(programs));
    RunKeepsExclusion(StartThreads(programs), schedule);
    hide RunThreads;
  }

  /**
   Locks exclude no more than they must: a thread can take a lock to read if and
   only if no other thread has it to write, and to write if and only if no other
   thread has it; it can always release.
   */
  lemma EnabledIff(s: seq<Thread>, t: nat)
    requires t < |s| && s[t].rest != []
    ensures Enabled(s, t) <==>
              match s[t].rest[0]
              case Acquire(l, Shared) => forall u :: 0 <= u < |s| && u != t && l in s[u].held ==> s[u].held[l] == Shared
              case Acquire(l, Exclusive) => forall u :: 0 <= u < |s| && u != t ==> l !in s[u].held
              case Release(_) => true
  {
    var e := s[t].rest[0];
    if e.Acquire? {
      forall u | 0 <= u < |s| && u != t
        ensures WaitsFor(s, t, u) <==> e.lock in s[u].held && (e.mode == Exclusive || s[u].held[e.lock] == Exclusive)
      {
      }
      assert Enabled(s, t) <==> forall u :: 0 <= u < |s| && u != t ==> !WaitsFor(s, t, u);
    }
  }

  // ---------------------------------------------------------------------------
  // What each call locks
  // ---------------------------------------------------------------------------

  /** How often the events take lock l in mode m. */
  function Taken(events: seq<Event>, l: Lock, m: Mode): nat {
    if events == [] then 0
    else (if events[0] == Acquire(l, m) then 1 else 0) + Taken(events[1..], l, m)
  }

  lemma {:induction false} TakenConcat(a: seq<Event>, b: seq<Event>, l: Lock, m: Mode)
    ensures Taken(a + b, l, m) == Taken(a, l, m) + Taken(b, l, m)
  {
    if a == [] {
      assert a + b == b;
    } else {
      assert (a + b)[0] == a[0] && (a + b)[1..] == a[1..] + b;
      TakenConcat(a[1..], b, l, m);
    }
  }

  lemma TakenSection(k: Lock, n: Mode, l: Lock, m: Mode)
    ensures Taken(Section(k, n), l, m) == if k == l && n == m then 1 else 0
  {
    TakenPair(Acquire(k, n), Release(k), l, m);
  }

  lemma TakenPair(a: Event, b: Event, l: Lock, m: Mode)
    ensures Taken([a, b], l, m) == (if a == Acquire(l, m) then 1 else 0) + (if b == Acquire(l, m) then 1 else 0)
  {
    assert [a, b][1..] == [b] && [b][1..] == [];
    assert Taken([b], l, m) == if b == Acquire(l, m) then 1 else 0;
  }

  lemma {:induction false} TakenSections(k: Lock, n: nat, l: Lock, m: Mode)
    ensures Taken(Sections(k, n), l, m) == if k == l && m == Exclusive then n else 0
  {
    if n > 0 {
      TakenSections(k, n - 1, l, m);
      TakenPair(Acquire(k, Exclusive), Release(k), l, m);
      TakenConcat([Acquire(k, Exclusive), Release(k)], Sections(k, n - 1), l, m);
    }
  }

  /** How often a call takes a lock, by what it does with it. */
  function Uses(c: Call, l: Lock, m: Mode): nat {
    match c
    case RejectedCall => 0
    case WriteCall(h, f, rounds, stuck) =>
      // of_mutex in inode_update and for the position, i_lock in inode_update, for the copy and for i_size
      var n, k := |rounds|, if stuck.Some? then 1 else 0;
      if m == Shared then 0
      else if l == HandleLock(h) then 2 * n + k
      else if l == InodeLock(f) then 3 * n + k
      else if l == BlockLock then Total(rounds) + Last(stuck)
      else 0
    case ReadCall(h, f, rounds, stuck) => ReadUses(h, f, rounds, stuck, l, m)
    case CopyCall(h, f, slots, rounds, stuck, closes) =>
      ReadUses(h, f, rounds, stuck, l, m)
      + (if l == InodeLock(f) && m == Shared then 1
         else if l == VolatileLock && m == Exclusive then slots + (if closes then 1 else 0)
         else 0)
    case FailedTruncateCall(f, size, frees) => FreeUses(f, size, frees, l, m)
    case OpenCall(f, trunc, append, size, frees, slots) =>
      (if trunc then FreeUses(f, size, frees, l, m) + (if l == InodeLock(f) && m == Exclusive then 1 else 0) else 0)
      + (if append && l == InodeLock(f) && m == Shared then 1 else 0)
      + (if l == VolatileLock && m == Exclusive then slots else 0)
    case CreateCall(inodes, slots) =>
      if m == Shared then 0 else if l == TableLock then inodes else if l == VolatileLock then slots else 0
    case FailedCreateCall(f, inodes) => if l == TableLock && m == Exclusive then inodes else 0
    case CloseCall => if l == VolatileLock && m == Exclusive then 1 else 0
  }

  /** of_mutex for the step, in inode_update and for the position; i_lock in inode_update, and to read for the size and each copy. */
  function ReadUses(h: int, f: int, rounds: seq<nat>, stuck: Option<nat>, l: Lock, m: Mode): nat {
    var n, k := |rounds|, if stuck.Some? then 1 else 0;
    if m == Shared then (if l == InodeLock(f) then n + 1 else 0)
    else if l == HandleLock(h) then 3 * n + 2 * k + 1
    else if l == InodeLock(f) then n + k
    else if l == BlockLock then Total(rounds) + Last(stuck)
    else 0
  }

  function FreeUses(f: int, size: nat, frees: nat, l: Lock, m: Mode): nat {
    if size == 0 || m == Shared then 0 else if l == InodeLock(f) then 1 else if l == BlockLock then frees else 0
  }

  function Total(rounds: seq<nat>): nat {
    if rounds == [] then 0 else rounds[0] + Total(rounds[1..])
  }

  function Last(stuck: Option<nat>): nat {
    if stuck.Some? then stuck.value else 0
  }

  lemma TakenUpdate(h: int, f: int, probes: nat, l: Lock, m: Mode)
    ensures Taken(UpdateLocks(h, f, probes), l, m) ==
            if m == Shared then 0
            else if l == HandleLock(h) || l == InodeLock(f) then 1 else if l == BlockLock then probes else 0
  {
    var a, i := HandleLock(h), InodeLock(f);
    TakenPair(Acquire(a, Exclusive), Acquire(i, Exclusive), l, m);
    TakenSections(BlockLock, probes, l, m);
    TakenPair(Release(i), Release(a), l, m);
    hide Taken;
    var head := [Acquire(a, Exclusive), Acquire(i, Exclusive)];
    TakenConcat(head, Sections(BlockLock, probes), l, m);
    TakenConcat(head + Sections(BlockLock, probes), [Release(i), Release(a)], l, m);
  }

  lemma {:induction false} TakenWrite(h: int, f: int, rounds: seq<nat>, l: Lock, m: Mode)
    ensures Taken(WriteLocks(h, f, rounds), l, m) == Uses(WriteCall(h, f, rounds, None), l, m)
  {
    if rounds == [] {
    } else {
      TakenUpdate(h, f, rounds[0], l, m);
      TakenSection(InodeLock(f), Exclusive, l, m);
      TakenSection(HandleLock(h), Exclusive, l, m);
      TakenWrite(h, f, rounds[1..], l, m);
      hide Taken, UpdateLocks, Section;
      var update, i, a := UpdateLocks(h, f, rounds[0]), Section(InodeLock(f), Exclusive), Section(HandleLock(h), Exclusive);
      TakenConcat(update, i, l, m);
      TakenConcat(update + i, a, l, m);
      TakenConcat(update + i + a, i, l, m);
      TakenConcat(update + i + a + i, WriteLocks(h, f, rounds[1..]), l, m);
    }
  }

  lemma {:induction false} TakenReadRounds(h: int, f: int, rounds: seq<nat>, l: Lock, m: Mode)
    ensures Taken(ReadRoundsLocks(h, f, rounds), l, m) ==
            if m == Shared then (if l == InodeLock(f) then |rounds| else 0)
            else if l == HandleLock(h) then 3 * |rounds|
            else if l == InodeLock(f) then |rounds| else if l == BlockLock then Total(rounds) else 0
  {
    if rounds == [] {
    } else {
      TakenUpdate(h, f, rounds[0], l, m);
      TakenSection(InodeLock(f), Shared, l, m);
      TakenSection(HandleLock(h), Exclusive, l, m);
      TakenReadRounds(h, f, rounds[1..], l, m);
      hide Taken, UpdateLocks, Section;
      var update, i, a := UpdateLocks(h, f, rounds[0]), Section(InodeLock(f), Shared), Section(HandleLock(h), Exclusive);
      TakenConcat(a, update, l, m);
      TakenConcat(a + update, i, l, m);
      TakenConcat(a + update + i, a, l, m);
      TakenConcat(a + update + i + a, ReadRoundsLocks(h, f, rounds[1..]), l, m);
    }
  }

  lemma TakenRead(h: int, f: int, rounds: seq<nat>, stuck: Option<nat>, l: Lock, m: Mode)
    ensures Taken(ReadLocks(h, f, rounds) + StuckReadLocks(h, f, stuck), l, m) == ReadUses(h, f, rounds, stuck, l, m)
  {
    var a, i := HandleLock(h), InodeLock(f);
    var first, second := [Acquire(a, Exclusive), Acquire(i, Shared)], [Release(i), Release(a)];
    TakenPair(Acquire(a, Exclusive), Acquire(i, Shared), l, m);
    TakenPair(Release(i), Release(a), l, m);
    TakenReadRounds(h, f, rounds, l, m);
    TakenStuck(h, f, stuck, l, m);
    hide Taken, ReadRoundsLocks, StuckReadLocks, StuckWriteLocks;
    assert ReadLocks(h, f, rounds) == first + second + ReadRoundsLocks(h, f, rounds);
    TakenConcat(first, second, l, m);
    TakenConcat(first + second, ReadRoundsLocks(h, f, rounds), l, m);
    TakenConcat(ReadLocks(h, f, rounds), StuckReadLocks(h, f, stuck), l, m);
  }

  lemma TakenStuck(h: int, f: int, stuck: Option<nat>, l: Lock, m: Mode)
    ensures var k := if stuck.Some? then 1 else 0;
            && Taken(StuckWriteLocks(h, f, stuck), l, m) ==
                 (if m == Shared then 0 else if l == HandleLock(h) || l == InodeLock(f) then k
                  else if l == BlockLock then Last(stuck) else 0)
            && Taken(StuckReadLocks(h, f, stuck), l, m) ==
                 (if m == Shared then 0 else if l == HandleLock(h) then 2 * k else if l == InodeLock(f) then k
                  else if l == BlockLock then Last(stuck) else 0)
  {
    if stuck.Some? {
      TakenUpdate(h, f, stuck.value, l, m);
      TakenSection(HandleLock(h), Exclusive, l, m);
      hide Taken, UpdateLocks, Section;
      TakenConcat(Section(HandleLock(h), Exclusive), UpdateLocks(h, f, stuck.value), l, m);
    }
  }

  lemma TakenFree(f: int, size: nat, frees: nat, l: Lock, m: Mode)
    ensures Taken(DataFreeLocks(f, size, frees), l, m) == FreeUses(f, size, frees, l, m)
  {
    var i := InodeLock(f);
    assert Taken([Release(i)], l, m) == 0;
    if size > 0 {
      TakenSections(BlockLock, frees, l, m);
      assert Taken([Acquire(i, Exclusive)], l, m) == if l == i && m == Exclusive then 1 else 0;
      hide Taken, Sections;
      TakenConcat([Acquire(i, Exclusive)], Sections(BlockLock, frees), l, m);
      TakenConcat([Acquire(i, Exclusive)] + Sections(BlockLock, frees), [Release(i)], l, m);
    } else {
      assert DataFreeLocks(f, size, frees) == [Release(i)];
    }
  }

  lemma TakenOpen(f: int, trunc: bool, append: bool, size: nat, frees: nat, slots: nat, l: Lock, m: Mode)
    ensures Taken(OpenLocks(f, trunc, append, size, frees, slots), l, m) ==
            Uses(OpenCall(f, trunc, append, size, frees, slots), l, m)
  {
    var i := InodeLock(f);
    TakenFree(f, size, frees, l, m);
    TakenSection(i, Exclusive, l, m);
    TakenSection(i, Shared, l, m);
    TakenSections(VolatileLock, slots, l, m);
    assert Taken([], l, m) == 0;
    hide Taken, Sections, Section, DataFreeLocks, FreeUses;
    TakenConcat(DataFreeLocks(f, size, frees), Section(i, Exclusive), l, m);
    var first := if trunc then DataFreeLocks(f, size, frees) + Section(i, Exclusive) else [];
    var second := if append then Section(i, Shared) else [];
    TakenConcat(first, second, l, m);
    TakenConcat(first + second, Sections(VolatileLock, slots), l, m);
  }

  lemma TakenCopy(h: int, f: int, slots: nat, rounds: seq<nat>, stuck: Option<nat>, closes: bool, l: Lock, m: Mode)
    ensures Taken(CopyLocks(h, f, slots, rounds, stuck, closes), l, m) ==
            Uses(CopyCall(h, f, slots, rounds, stuck, closes), l, m)
  {
    TakenSections(VolatileLock, slots, l, m);
    TakenSection(InodeLock(f), Shared, l, m);
    TakenSection(VolatileLock, Exclusive, l, m);
    TakenRead(h, f, rounds, stuck, l, m);
    assert Taken([], l, m) == 0;
    hide Taken, Sections, Section, ReadLocks, StuckReadLocks, ReadUses;
    var front := Sections(VolatileLock, slots) + Section(InodeLock(f), Shared);
    var read, last := ReadLocks(h, f, rounds), StuckReadLocks(h, f, stuck);
    TakenConcat(Sections(VolatileLock, slots), Section(InodeLock(f), Shared), l, m);
    TakenConcat(read, last, l, m);
    TakenConcat(front, read, l, m);
    TakenConcat(front + read, last, l, m);
    TakenConcat(front + read + last, if closes then CloseLocks() else [], l, m);
  }

  /** Each call takes each lock, in each mode, as often as it has uses for it. */
  lemma CallTakes(c: Call, l: Lock, m: Mode)
    ensures Taken(Locks(c), l, m) == Uses(c, l, m)
  {
    match c
    case RejectedCall =>
    case WriteCall(h, f, rounds, stuck) =>
      TakenWrite(h, f, rounds, l, m);
      TakenStuck(h, f, stuck, l, m);
      hide Taken, WriteLocks, StuckWriteLocks, StuckReadLocks;
      TakenConcat(WriteLocks(h, f, rounds), StuckWriteLocks(h, f, stuck), l, m);
    case ReadCall(h, f, rounds, stuck) => TakenRead(h, f, rounds, stuck, l, m);
    case CopyCall(h, f, slots, rounds, stuck, closes) => TakenCopy(h, f, slots, rounds, stuck, closes, l, m);
    case FailedTruncateCall(f, size, frees) => TakenFree(f, size, frees, l, m);
    case OpenCall(f, trunc, append, size, frees, slots) => TakenOpen(f, trunc, append, size, frees, slots, l, m);
    case CreateCall(inodes, slots) =>
      TakenSections(TableLock, inodes, l, m);
      TakenSections(VolatileLock, slots, l, m);
      TakenConcat(Sections(TableLock, inodes), Sections(VolatileLock, slots), l, m);
    case FailedCreateCall(f, inodes) =>
      TakenSections(TableLock, inodes, l, m);
      TakenFree(f, 0, 0, l, m);
      TakenConcat(Sections(TableLock, inodes), DataFreeLocks(f, 0, 0), l, m);
    case CloseCall => TakenSection(VolatileLock, Exclusive, l, m);
  }
}
