/**
 The shutdown protocol of part two: tfs_destroy_after_all_closed waits on a
 condition variable until the last handle is closed, while any number of threads
 open and close files. Each step is one lock operation or one access to shared
 state, and all interleavings are considered.
 */
module Shutdown {
  import opened Memory
  import opened Options
  import opened Directory
  import opened StoreModel
  import T = TfsModel

  /** Who holds single_global_lock. */
  datatype Holder = Nobody | Worker(t: nat) | Destroyer

  /** Where a thread stands in tfs_open or tfs_close. */
  datatype Pc =
    | Idle
    | PassedTest        // tfs_open saw state != CLOSING and is about to lock
    | InOpen            // inside the critical section of tfs_open
    | WantClose(h: int)
    | InClose(h: int)   // about to remove the handle
    | Signalling        // about to test open_file_count and signal
    | Leaving           // about to unlock

  /** Where the thread in tfs_destroy_after_all_closed stands. */
  datatype DestroyerPc =
    | Start             // about to set state to CLOSING
    | WantLock
    | Testing           // holds the lock, about to test open_file_count
    | Waiting(signalled: bool)
    | Unlocking         // holds the lock again, or still
    | Ready             // about to call tfs_destroy
    | Destroyed

  datatype World = World(closing: bool, lock: Holder, handles: set<nat>, count: int, pcs: seq<Pc>, destroyer: DestroyerPc)

  /** What an idle thread does next; for an open inside the lock, the handle it gets, or -1. */
  datatype Choice = DoOpen | DoClose(h: int) | Got(h: int)

  /** Who moves. A spurious wakeup is allowed by IEEE Std 1003.1-2008, pthread_cond_wait. */
  datatype Move = Work(t: nat, c: Choice) | Destroy | Spurious

  // ---------------------------------------------------------------------------
  // Steps
  // ---------------------------------------------------------------------------

  function At(s: World, t: nat, pc: Pc): World
    requires t < |s.pcs|
  {
    s.(pcs := s.pcs[t := pc])
  }

  function WorkStep(s: World, t: nat, c: Choice): Option<World>
    requires t < |s.pcs|
  {
    match s.pcs[t]
    case Idle =>
      (match c
       case DoOpen => if s.closing then None else Some(At(s, t, PassedTest))
       case DoClose(h) => Some(At(s, t, WantClose(h)))
       case Got(_) => None)
    case PassedTest => if s.lock.Nobody? then Some(At(s, t, InOpen).(lock := Worker(t))) else None
    case InOpen =>
      if c.Got? && ValidHandle(c.h) && c.h !in s.handles then
        Some(At(s, t, Leaving).(handles := s.handles + {c.h}, count := s.count + 1))
      else Some(At(s, t, Leaving))
    case WantClose(h) => if s.lock.Nobody? then Some(At(s, t, InClose(h)).(lock := Worker(t))) else None
    case InClose(h) =>
      Some(if h in s.handles then At(s, t, Signalling).(handles := s.handles - {h}, count := s.count - 1)
           else At(s, t, Signalling))
    case Signalling =>
      Some(if s.count == 0 && s.destroyer.Waiting? then At(s, t, Leaving).(destroyer := Waiting(true))
           else At(s, t, Leaving))
    case Leaving => Some(At(s, t, Idle).(lock := Nobody))
  }

  function DestroyStep(s: World): Option<World> {
    match s.destroyer
    case Start => Some(s.(closing := true, destroyer := WantLock))
    case WantLock => if s.lock.Nobody? then Some(s.(lock := Destroyer, destroyer := Testing)) else None
    case Testing =>
      Some(if s.count != 0 then s.(lock := Nobody, destroyer := Waiting(false)) else s.(destroyer := Unlocking))
    case Waiting(signalled) =>
      if signalled && s.lock.Nobody? then Some(s.(lock := Destroyer, destroyer := Unlocking)) else None
    case Unlocking => Some(s.(lock := Nobody, destroyer := Ready))
    case Ready => Some(s.(destroyer := Destroyed))
    case Destroyed => None
  }

  function Next(s: World, m: Move): Option<World> {
    match m
    case Work(t, c) => if t < |s.pcs| then WorkStep(s, t, c) else None
    case Destroy => DestroyStep(s)
    case Spurious => if s.destroyer.Waiting? then Some(s.(destroyer := Waiting(true))) else None
  }

  /** A move that is not possible does nothing. */
  function Move1(s: World, m: Move): World {
    if Next(s, m).Some? then Next(s, m).value else s
  }

  function Run(s: World, moves: seq<Move>): World
    decreases |moves|
  {
    if moves == [] then s else Run(Move1(s, moves[0]), moves[1..])
  }

  // ---------------------------------------------------------------------------
  // What holds in every interleaving
  // ---------------------------------------------------------------------------

  predicate InSection(pc: Pc) {
    pc.InOpen? || pc.InClose? || pc.Signalling? || pc.Leaving?
  }

  predicate DestroyerHolds(d: DestroyerPc) {
    d.Testing? || d.Unlocking?
  }

  /** open_file_count is the number of open handles. */
  ghost predicate CountOk(s: World) {
    s.count == |s.handles| && (forall h :: h in s.handles ==> ValidHandle(h))
  }

  /** The lock is held by the one thread in its critical section. */
  ghost predicate LockOk(s: World) {
    && (forall t :: 0 <= t < |s.pcs| ==> (InSection(s.pcs[t]) <==> s.lock == Worker(t)))
    && (DestroyerHolds(s.destroyer) <==> s.lock == Destroyer)
    && (s.lock.Worker? ==> s.lock.t < |s.pcs|)
    && (s.closing <==> s.destroyer != Start)
  }

  ghost predicate Basic(s: World) {
    CountOk(s) && LockOk(s)
  }

  /** An unsignalled waiter has something to wait for: an open handle, or a closer about to signal. */
  ghost predicate WillWake(s: World) {
    s.destroyer == Waiting(false) ==>
      s.count > 0 || (s.lock.Worker? && s.lock.t < |s.pcs| && s.pcs[s.lock.t] == Signalling)
  }

  /** The open handles and their count move together. */
  lemma CountMoves(s: World, s': World, h: int)
    requires CountOk(s)
    requires || (s'.handles == s.handles && s'.count == s.count)
             || (h !in s.handles && ValidHandle(h) && s'.handles == s.handles + {h} && s'.count == s.count + 1)
             || (h in s.handles && s'.handles == s.handles - {h} && s'.count == s.count - 1)
    ensures CountOk(s')
  {
  }

  lemma WorkKeepsCount(s: World, t: nat, c: Choice)
    requires CountOk(s) && t < |s.pcs| && WorkStep(s, t, c).Some?
    ensures CountOk(WorkStep(s, t, c).value)
  {
    hide CountOk;
    CountMoves(s, WorkStep(s, t, c).value,
               match s.pcs[t] case InClose(h) => h case InOpen => (if c.Got? then c.h else 0) case _ => 0);
  }

  lemma WorkKeepsLock(s: World, t: nat, c: Choice)
    requires LockOk(s) && WillWake(s) && CountOk(s) && t < |s.pcs| && WorkStep(s, t, c).Some?
    ensures LockOk(WorkStep(s, t, c).value) && WillWake(WorkStep(s, t, c).value)
  {
    var s' := WorkStep(s, t, c).value;
    assert forall u :: 0 <= u < |s.pcs| && u != t ==> s'.pcs[u] == s.pcs[u];
  }

  lemma StepKeepsBasic(s: World, m: Move)
    requires Basic(s) && WillWake(s)
    ensures Basic(Move1(s, m)) && WillWake(Move1(s, m))
  {
    if m.Work? && Next(s, m).Some? {
      hide WorkStep, CountOk, LockOk, WillWake;
      WorkKeepsCount(s, m.t, m.c);
      WorkKeepsLock(s, m.t, m.c);
    }
  }

  lemma {:induction false} RunKeepsBasic(s: World, moves: seq<Move>)
    requires Basic(s) && WillWake(s)
    ensures Basic(Run(s, moves)) && WillWake(Run(s, moves))
    decreases |moves|
  {
    hide Basic, WillWake, Move1;
    if moves != [] {
      StepKeepsBasic(s, moves[0]);
      RunKeepsBasic(Move1(s, moves[0]), moves[1..]);
    }
  }

  /** Nobody is inside an operation; any number of files may be open. */
  ghost predicate Initial(s: World) {
    && !s.closing && s.lock == Nobody && s.destroyer == Start
    && s.count == |s.handles| && (forall h :: h in s.handles ==> ValidHandle(h))
    && (forall t :: 0 <= t < |s.pcs| ==> s.pcs[t] == Idle)
  }

  /**
   No lost wakeup, in every interleaving, spurious wakeups included: while the
   destroyer waits unsignalled, a file is open or the holder of the lock is a
   closer about to signal. So with the lock free, a waiter that is left
   unsignalled still has an open file to wait for.
   */
  lemma NoLostWakeup(s: World, moves: seq<Move>)
    requires Initial(s)
    ensures var s' := Run(s, moves);
            && WillWake(s') && s'.count == |s'.handles|
            && (s'.destroyer == Waiting(false) && s'.lock.Nobody? ==> s'.handles != {})
  {
    RunKeepsBasic(s, moves);
    hide Run;
  }

  /** And that closer's next step does release the waiter, wherever a run has led. */
  lemma LastCloseReleases(s: World, moves: seq<Move>, c: Choice)
    requires Initial(s)
    ensures var s' := Run(s, moves);
            s'.destroyer == Waiting(false) && s'.count == 0 ==>
              s'.lock.Worker? && Move1(s', Work(s'.lock.t, c)).destroyer == Waiting(true)
  {
    RunKeepsBasic(s, moves);
    hide Run;
  }

  // ---------------------------------------------------------------------------
  // Safety
  // ---------------------------------------------------------------------------

  /** Some thread passed the CLOSING test and has not opened its file yet. */
  predicate PendingOpen(s: World) {
    exists t | 0 <= t < |s.pcs| :: s.pcs[t] == PassedTest || s.pcs[t] == InOpen
  }

  /** No spurious wakeup, and no opener between its test and the lock when the destroyer gets the lock. */
  ghost predicate Orderly(s: World, moves: seq<Move>)
    decreases |moves|
  {
    moves != [] ==>
      && !moves[0].Spurious?
      && (s.destroyer == WantLock && Move1(s, moves[0]).destroyer == Testing ==> !PendingOpen(s))
      && Orderly(Move1(s, moves[0]), moves[1..])
  }

  /** From the destroyer's critical section on nothing can be opened, and the wait ends only with everything closed. */
  ghost predicate Settled(s: World) {
    && (s.destroyer != Start && s.destroyer != WantLock ==> !PendingOpen(s))
    && (s.destroyer == Waiting(true) || s.destroyer == Unlocking || s.destroyer == Ready || s.destroyer == Destroyed ==>
          s.count == 0)
  }

  lemma StepKeepsSettled(s: World, m: Move)
    requires Basic(s) && Settled(s) && !m.Spurious?
    requires s.destroyer == WantLock && Move1(s, m).destroyer == Testing ==> !PendingOpen(s)
    ensures Settled(Move1(s, m))
  {
    var s' := Move1(s, m);
    if m.Work? && m.t < |s.pcs| {
      assert forall u :: 0 <= u < |s.pcs| && u != m.t ==> s'.pcs[u] == s.pcs[u];
    }
  }

  lemma {:induction false} RunKeepsSettled(s: World, moves: seq<Move>)
    requires Basic(s) && WillWake(s) && Settled(s) && Orderly(s, moves)
    ensures Settled(Run(s, moves))
    decreases |moves|
  {
    hide Basic, WillWake, Settled, Move1, PendingOpen;
    if moves != [] {
      StepKeepsBasic(s, moves[0]);
      StepKeepsSettled(s, moves[0]);
      RunKeepsSettled(Move1(s, moves[0]), moves[1..]);
    }
  }

  /**
   Safety of shutdown. In every interleaving without spurious wakeups and
   without an opener caught between the CLOSING test and the lock, tfs_destroy
   is reached only with open_file_count 0, and no file is open from then on.
   */
  lemma DestroyOnlyWhenClosed(s: World, moves: seq<Move>)
    requires Initial(s) && Orderly(s, moves)
    ensures var s' := Run(s, moves);
            s'.destroyer == Ready || s'.destroyer == Destroyed ==> s'.count == 0 && s'.handles == {}
  {
    assert Basic(s) && WillWake(s) && Settled(s);
    RunKeepsBasic(s, moves);
    RunKeepsSettled(s, moves);
    hide Run, Orderly;
  }

  // ---------------------------------------------------------------------------
  // The two conditions are needed
  // ---------------------------------------------------------------------------

  lemma {:induction false} RunAppend(s: World, a: seq<Move>, b: seq<Move>)
    ensures Run(s, a + b) == Run(Run(s, a), b)
    decreases |a|
  {
    if a == [] {
      assert a + b == b;
    } else {
      assert (a + b)[0] == a[0] && (a + b)[1..] == a[1..] + b;
      RunAppend(Move1(s, a[0]), a[1..], b);
    }
  }

  lemma RunThree(s: World, a: Move, b: Move, c: Move)
    ensures Run(s, [a, b, c]) == Move1(Move1(Move1(s, a), b), c)
  {
    hide Move1;
    assert [a, b, c][1..] == [b, c] && [b, c][1..] == [c] && [c][1..] == [];
    var s2 := Move1(Move1(s, a), b);
    assert Run(s2, [c]) == Run(Move1(s2, c), []);
  }

  /** A spurious wakeup while a file is open destroys the file system under it: the wait is not in a loop. */
  lemma SpuriousWakeupDestroys(s: World)
    requires Basic(s) && s.destroyer.Waiting? && s.lock.Nobody? && s.handles != {}
    ensures var s' := Run(s, [Spurious] + [Destroy, Destroy, Destroy]);
            s'.destroyer == Destroyed && s'.handles == s.handles && s'.count > 0
  {
    RunAppend(s, [Spurious], [Destroy, Destroy, Destroy]);
    assert Run(s, [Spurious]) == Run(Move1(s, Spurious), []);
    RunThree(Move1(s, Spurious), Destroy, Destroy, Destroy);
  }

  /** From every start with an open file, seven moves of the destroyer alone end there. */
  lemma SpuriousRun(s: World)
    requires Initial(s) && s.handles != {}
    ensures var s' := Run(s, [Destroy, Destroy, Destroy] + ([Spurious] + [Destroy, Destroy, Destroy]));
            s'.destroyer == Destroyed && s'.handles == s.handles && s'.count > 0
  {
    RunThree(s, Destroy, Destroy, Destroy);
    var s1 := Run(s, [Destroy, Destroy, Destroy]);
    assert s1 == s.(closing := true, destroyer := Waiting(false));
    hide Run, Move1;
    RunAppend(s, [Destroy, Destroy, Destroy], [Spurious] + [Destroy, Destroy, Destroy]);
    SpuriousWakeupDestroys(s1);
  }

  /** The moves by which an idle thread closes one handle. */
  function CloseMoves(u: nat, h: int): seq<Move> {
    [Work(u, DoClose(h)), Work(u, DoOpen), Work(u, DoOpen)] + [Work(u, DoOpen), Work(u, DoOpen)]
  }

  /** From idle to the point where open_file_count is tested. */
  lemma CloseEnters(s: World, u: nat, h: int)
    requires u < |s.pcs| && s.pcs[u] == Idle && s.lock.Nobody? && h in s.handles
    ensures Run(s, [Work(u, DoClose(h)), Work(u, DoOpen), Work(u, DoOpen)]) ==
            s.(pcs := s.pcs[u := Signalling], lock := Worker(u), handles := s.handles - {h}, count := s.count - 1)
  {
    RunThree(s, Work(u, DoClose(h)), Work(u, DoOpen), Work(u, DoOpen));
    var s1 := At(s, u, WantClose(h));
    assert Move1(s, Work(u, DoClose(h))) == s1;
    var s2 := At(s1, u, InClose(h)).(lock := Worker(u));
    assert Move1(s1, Work(u, DoOpen)) == s2;
    assert s.pcs[u := WantClose(h)][u := InClose(h)][u := Signalling] == s.pcs[u := Signalling];
  }

  /** The signal and the unlock. */
  lemma CloseLeaves(s: World, u: nat)
    requires u < |s.pcs| && s.pcs[u] == Signalling && s.destroyer.Waiting?
    ensures Run(s, [Work(u, DoOpen), Work(u, DoOpen)]) ==
            s.(pcs := s.pcs[u := Idle], lock := Nobody, destroyer := if s.count == 0 then Waiting(true) else s.destroyer)
  {
    var m := Work(u, DoOpen);
    var s1 := Move1(s, m);
    assert [m, m][1..] == [m];
    assert Run(s1, [m]) == Run(Move1(s1, m), []);
    assert s.pcs[u := Leaving][u := Idle] == s.pcs[u := Idle];
  }

  /** Closing one handle while the destroyer waits. */
  lemma CloseOne(s: World, u: nat, h: int)
    requires Basic(s) && u < |s.pcs| && s.pcs[u] == Idle && s.lock.Nobody? && h in s.handles && s.destroyer.Waiting?
    ensures var s' := Run(s, CloseMoves(u, h));
            && Basic(s') && s'.handles == s.handles - {h} && s'.lock.Nobody? && s'.pcs == s.pcs
            && s'.destroyer == (if s'.handles == {} then Waiting(true) else s.destroyer)
  {
    hide Run, Move1;
    var m := Work(u, DoOpen);
    RunAppend(s, [Work(u, DoClose(h)), m, m], [m, m]);
    CloseEnters(s, u, h);
    var s1 := Run(s, [Work(u, DoClose(h)), m, m]);
    CloseLeaves(s1, u);
    assert s1.pcs[u := Idle] == s.pcs;
    assert |s.handles - {h}| == |s.handles| - 1;
    assert s1.count == 0 <==> s1.handles == {};
  }

  /** An idle thread closes everything that is open. */
  lemma {:induction false} CloseAll(s: World, u: nat) returns (moves: seq<Move>)
    requires Basic(s) && u < |s.pcs| && s.pcs[u] == Idle && s.lock.Nobody? && s.handles != {} && s.destroyer.Waiting?
    ensures forall m :: m in moves ==> !m.Spurious?
    ensures var s' := Run(s, moves);
            Basic(s') && s'.handles == {} && s'.lock.Nobody? && s'.pcs == s.pcs && s'.destroyer == Waiting(true)
    decreases |s.handles|
  {
    assert |s.handles| != 0;
    var h :| h in s.handles;
    CloseOne(s, u, h);
    var s1 := Run(s, CloseMoves(u, h));
    moves := CloseMoves(u, h);
    hide Run, Basic;
    if s1.handles != {} {
      assert |s.handles - {h}| == |s.handles| - 1;
      var rest := CloseAll(s1, u);
      RunAppend(s, moves, rest);
      moves := moves + rest;
    }
  }

  /** The destroyer's last three moves after the wait. */
  lemma FinishWait(s: World)
    requires s.destroyer == Waiting(true) && s.lock.Nobody?
    ensures var s' := Run(s, [Destroy, Destroy, Destroy]);
            s'.destroyer == Destroyed && s'.handles == s.handles && s'.count == s.count
  {
    RunThree(s, Destroy, Destroy, Destroy);
  }

  /** The moves by which a thread past the test opens handle 0. */
  function OpenMoves(t: nat): seq<Move> {
    [Work(t, DoOpen), Work(t, Got(0)), Work(t, DoOpen)]
  }

  lemma OpenLate(s: World, t: nat)
    requires t < |s.pcs| && s.pcs[t] == PassedTest && s.lock.Nobody? && s.handles == {}
    ensures Run(s, OpenMoves(t)) == s.(pcs := s.pcs[t := Idle], handles := {0}, count := s.count + 1)
  {
    RunThree(s, Work(t, DoOpen), Work(t, Got(0)), Work(t, DoOpen));
    var s1 := At(s, t, InOpen).(lock := Worker(t));
    assert Move1(s, Work(t, DoOpen)) == s1;
    var s2 := At(s1, t, Leaving).(handles := s.handles + {0}, count := s.count + 1);
    assert Move1(s1, Work(t, Got(0))) == s2;
    assert s.pcs[t := InOpen][t := Leaving][t := Idle] == s.pcs[t := Idle];
    assert s.handles + {0} == {0};
  }

  /** A file is open when the file system has been destroyed. */
  ghost predicate DestroyedUnderFile(s: World, moves: seq<Move>) {
    && (forall m :: m in moves ==> !m.Spurious?)
    && Run(s, moves).destroyer == Destroyed && Run(s, moves).count > 0
  }

  /** With an opener past the test, another thread can close everything and the opener then slips in. */
  lemma OpenerSlipsIn(s: World, u: nat, t: nat) returns (moves: seq<Move>)
    requires Basic(s) && s.destroyer == Testing && u < |s.pcs| && s.pcs[u] == Idle
    requires t < |s.pcs| && s.pcs[t] == PassedTest
    ensures DestroyedUnderFile(s, moves)
  {
    hide Run, Move1;
    if s.handles == {} {
      // destroy first, open afterwards
      var start := [Destroy, Destroy, Destroy];
      FinishTest(s);
      var s1 := Run(s, start);
      OpenLate(s1, t);
      RunAppend(s, start, OpenMoves(t));
      moves := start + OpenMoves(t);
    } else {
      // close everything, open between the signal and the wakeup
      StartWait(s);
      var s1 := Run(s, [Destroy]);
      var closing := CloseAll(s1, u);
      var s2 := Run(s1, closing);
      OpenLate(s2, t);
      FinishWait(Run(s2, OpenMoves(t)));
      RunAppend(s, [Destroy], closing);
      RunAppend(s, [Destroy] + closing, OpenMoves(t));
      RunAppend(s, [Destroy] + closing + OpenMoves(t), [Destroy, Destroy, Destroy]);
      moves := [Destroy] + closing + OpenMoves(t) + [Destroy, Destroy, Destroy];
    }
  }

  /** With nothing open the destroyer goes straight through. */
  lemma FinishTest(s: World)
    requires Basic(s) && s.destroyer == Testing && s.handles == {}
    ensures Run(s, [Destroy, Destroy, Destroy]) == s.(lock := Nobody, destroyer := Destroyed) && s.count == 0
  {
    RunThree(s, Destroy, Destroy, Destroy);
  }

  /** With a file open it waits. */
  lemma StartWait(s: World)
    requires Basic(s) && s.destroyer == Testing && s.handles != {}
    ensures Run(s, [Destroy]) == s.(lock := Nobody, destroyer := Waiting(false)) && Basic(Run(s, [Destroy]))
  {
    assert s.count != 0;
    assert Run(s, [Destroy]) == Run(Move1(s, Destroy), []);
  }

  lemma {:induction false} NoSpuriousIsOrderly(s: World, moves: seq<Move>)
    requires forall m :: m in moves ==> !m.Spurious?
    requires s.destroyer != Start && s.destroyer != WantLock
    ensures Orderly(s, moves)
    decreases |moves|
  {
    if moves != [] {
      NoSpuriousIsOrderly(Move1(s, moves[0]), moves[1..]);
    }
  }

  /**
   The condition on openers is exact. When the destroyer has just got the lock,
   and some other thread is idle, the file system can end up destroyed with a
   file open, without any spurious wakeup, if and only if a thread stands between
   the CLOSING test and the lock.
   */
  lemma PendingOpenDestroysIff(s: World, u: nat)
    requires Basic(s) && s.destroyer == Testing && u < |s.pcs| && s.pcs[u] == Idle
    ensures (exists moves :: DestroyedUnderFile(s, moves)) <==>
            exists t :: 0 <= t < |s.pcs| && s.pcs[t] == PassedTest
  {
    if t :| 0 <= t < |s.pcs| && s.pcs[t] == PassedTest {
      var moves := OpenerSlipsIn(s, u, t);
      assert DestroyedUnderFile(s, moves);
    }
    if moves :| DestroyedUnderFile(s, moves) {
      if forall t :: 0 <= t < |s.pcs| ==> s.pcs[t] != PassedTest {
        NoSpuriousIsOrderly(s, moves);
        assert Settled(s);
        RunKeepsSettled(s, moves);
        assert false;
      }
    }
  }

  /** Nothing is open, and nobody can open anything any more. */
  ghost predicate Closed(s: World) {
    s.count == 0 && !PendingOpen(s) && s.destroyer != Start && s.destroyer != WantLock
  }

  lemma StepKeepsClosed(s: World, m: Move)
    requires Basic(s) && Closed(s)
    ensures Closed(Move1(s, m))
  {
    var s' := Move1(s, m);
    if m.Work? && m.t < |s.pcs| {
      assert forall u :: 0 <= u < |s.pcs| && u != m.t ==> s'.pcs[u] == s.pcs[u];
    }
  }

  lemma {:induction false} RunKeepsClosed(s: World, moves: seq<Move>)
    requires Basic(s) && WillWake(s) && Closed(s)
    ensures Closed(Run(s, moves))
    decreases |moves|
  {
    hide Basic, WillWake, Closed, Move1;
    if moves != [] {
      StepKeepsBasic(s, moves[0]);
      StepKeepsClosed(s, moves[0]);
      RunKeepsClosed(Move1(s, moves[0]), moves[1..]);
    }
  }

  /** The file system has been destroyed with a file open, spurious wakeups allowed. */
  ghost predicate DestroyedOpen(s: World, moves: seq<Move>) {
    Run(s, moves).destroyer == Destroyed && Run(s, moves).count > 0
  }

  lemma OpenFileSuffices(s: World)
    requires Basic(s) && s.destroyer == Testing && s.handles != {}
    ensures DestroyedOpen(s, [Destroy] + ([Spurious] + [Destroy, Destroy, Destroy]))
  {
    hide Run, Move1;
    StartWait(s);
    RunAppend(s, [Destroy], [Spurious] + [Destroy, Destroy, Destroy]);
    SpuriousWakeupDestroys(Run(s, [Destroy]));
  }

  lemma LateOpenerSuffices(s: World, t: nat)
    requires Basic(s) && s.destroyer == Testing && s.handles == {} && t < |s.pcs| && s.pcs[t] == PassedTest
    ensures DestroyedOpen(s, [Destroy, Destroy, Destroy] + OpenMoves(t))
  {
    hide Run, Move1;
    FinishTest(s);
    OpenLate(Run(s, [Destroy, Destroy, Destroy]), t);
    RunAppend(s, [Destroy, Destroy, Destroy], OpenMoves(t));
  }

  /**
   When the missing loop and the late test matter. From the moment the destroyer
   has the lock, some run, with spurious wakeups where they like, destroys the
   file system with a file open if and only if a file is open then or a thread
   stands between the CLOSING test and the lock.
   */
  lemma DestroyedOpenIff(s: World)
    requires Basic(s) && s.destroyer == Testing
    ensures (exists moves :: DestroyedOpen(s, moves)) <==>
            s.handles != {} || exists t :: 0 <= t < |s.pcs| && s.pcs[t] == PassedTest
  {
    if s.handles != {} {
      OpenFileSuffices(s);
    } else if t :| 0 <= t < |s.pcs| && s.pcs[t] == PassedTest {
      LateOpenerSuffices(s, t);
    } else {
      assert Closed(s);
      forall moves
        ensures !DestroyedOpen(s, moves)
      {
        RunKeepsClosed(s, moves);
      }
    }
  }

  /**
   It happens from every start with two threads: one passes the CLOSING test, the
   destroyer takes the lock, and the file system ends up destroyed with a file
   open.
   */
  lemma LateOpenerRun(s: World, t: nat, u: nat) returns (moves: seq<Move>)
    requires Initial(s) && t < |s.pcs| && u < |s.pcs| && t != u
    ensures DestroyedUnderFile(s, moves)
  {
    var start := [Work(t, DoOpen), Destroy, Destroy];
    RunThree(s, Work(t, DoOpen), Destroy, Destroy);
    var s1 := Run(s, start);
    assert s1 == s.(closing := true, lock := Destroyer, destroyer := Testing, pcs := s.pcs[t := PassedTest]);
    hide Run, Move1;
    var rest := OpenerSlipsIn(s1, u, t);
    RunAppend(s, start, rest);
    moves := start + rest;
  }

  // ---------------------------------------------------------------------------
  // The steps inside the lock are those of the file system
  // ---------------------------------------------------------------------------

  /** The TAKEN handles of the file system's tables. */
  function TakenHandles(s: T.Tables): set<nat>
    requires T.Shaped(s)
  {
    set h | 0 <= h < MAX_OPEN_FILES && s.fileTs[h] == TAKEN
  }

  lemma AddHandleTakes(s: T.Tables, f: int, offset: nat)
    requires T.Shaped(s) && offset < SIZE_MOD
    ensures var (s', h) := T.AddHandle(s, f, offset);
            if h == -1 then s' == s
            else ValidHandle(h) && h !in TakenHandles(s)
                 && TakenHandles(s') == TakenHandles(s) + {h} && s'.openCount == s.openCount + 1
  {
  }

  /** Truncation and creation take no handle. */
  lemma NoHandleTaken(s: T.Tables, f: nat, path: cstring)
    requires T.Shaped(s) && f < INODE_TABLE_SIZE && path != []
    ensures var s1 := T.Truncate(s, f).0; s1.fileTs == s.fileTs && s1.openCount == s.openCount
    ensures var s1 := T.CreateNamed(s, path).0; s1.fileTs == s.fileTs && s1.openCount == s.openCount
  {
  }

  /** tfs_open, whatever its path and flags, takes one free handle and counts it, or takes none. */
  lemma OpenIsInOpenStep(s: T.Tables, path: cstring, flags: Flags)
    requires T.Shaped(s)
    ensures var (s', r) := T.Open(s, path, flags);
            if r.Done? then
              && ValidHandle(r.n) && r.n !in TakenHandles(s)
              && TakenHandles(s') == TakenHandles(s) + {r.n} && s'.openCount == s.openCount + 1
            else TakenHandles(s') == TakenHandles(s) && s'.openCount == s.openCount
  {
    hide T.AddHandle, T.Lookup, T.Truncate, T.CreateNamed;
    var f := T.Lookup(s, path);
    if f >= 0 && ValidInumber(f) {
      NoHandleTaken(s, f, [47]);
      var s1 := if flags.trunc then T.Truncate(s, f).0 else s;
      AddHandleTakes(s1, f, if flags.append then s1.inodes[f].size else 0);
    } else if f < 0 && flags.creat && path != [] {
      NoHandleTaken(s, 0, path);
      var (s1, g) := T.CreateNamed(s, path);
      if g != -1 {
        AddHandleTakes(s1, g, 0);
      }
    }
  }

  /** tfs_close gives back exactly its handle, or changes nothing. */
  lemma CloseIsInCloseStep(s: T.Tables, h: int)
    requires T.Shaped(s)
    ensures var s' := T.Close(s, h).0;
            if h in TakenHandles(s) then
              TakenHandles(s') == TakenHandles(s) - {h} && s'.openCount == s.openCount - 1
            else TakenHandles(s') == TakenHandles(s) && s'.openCount == s.openCount
  {
  }

  /** The protocol's world and the file system's tables agree on what is open. */
  ghost predicate SameOpen(s: T.Tables, world: World)
    requires T.Shaped(s)
  {
    world.handles == TakenHandles(s) && world.count == s.openCount
  }

  /**
   The protocol's step inside tfs_open is the file system's: with the handle that
   the file system returns, or -1, both go on agreeing.
   */
  lemma OpenStepAgrees(s: T.Tables, path: cstring, flags: Flags, world: World, t: nat)
    requires T.Shaped(s) && SameOpen(s, world) && t < |world.pcs| && world.pcs[t] == InOpen
    ensures var (s', r) := T.Open(s, path, flags);
            var world' := WorkStep(world, t, Got(if r.Done? then r.n else -1));
            && world'.Some? && SameOpen(s', world'.value)
            && world'.value.lock == world.lock && world'.value.destroyer == world.destroyer
            && world'.value.closing == world.closing && world'.value.pcs == world.pcs[t := Leaving]
  {
    hide T.Open;
    OpenIsInOpenStep(s, path, flags);
  }

  /** The same for tfs_close, of an open handle or any other number. */
  lemma CloseStepAgrees(s: T.Tables, h: int, world: World, t: nat, c: Choice)
    requires T.Shaped(s) && SameOpen(s, world) && t < |world.pcs| && world.pcs[t] == InClose(h)
    ensures var world' := WorkStep(world, t, c);
            && world'.Some? && SameOpen(T.Close(s, h).0, world'.value)
            && world'.value.lock == world.lock && world'.value.destroyer == world.destroyer
            && world'.value.closing == world.closing && world'.value.pcs == world.pcs[t := Signalling]
  {
    hide T.Close;
    CloseIsInCloseStep(s, h);
  }

  lemma RunFour(s: World, a: Move, b: Move, c: Move, d: Move)
    ensures Run(s, [a, b, c, d]) == Move1(Move1(Move1(Move1(s, a), b), c), d)
  {
    hide Move1;
    assert [a, b, c, d][1..] == [b, c, d];
    RunThree(Move1(s, a), b, c, d);
  }

  lemma RunFive(s: World, a: Move, b: Move, c: Move, d: Move, e: Move)
    ensures Run(s, [a, b, c, d, e]) == Move1(Move1(Move1(Move1(Move1(s, a), b), c), d), e)
  {
    hide Move1;
    assert [a, b, c, d, e][1..] == [b, c, d, e];
    RunFour(Move1(s, a), b, c, d, e);
  }

  /** World and tables agree, thread t is outside and nobody has the lock. */
  ghost predicate Outside(s: T.Tables, world: World, t: nat) {
    T.Shaped(s) && SameOpen(s, world) && t < |world.pcs| && world.pcs[t] == Idle && world.lock == Nobody
  }

  /** A whole tfs_open with nothing in between: refused while closing, else its effect and the lock free again. */
  lemma OpenCall(s: T.Tables, path: cstring, flags: Flags, world: World, t: nat)
    requires Outside(s, world, t)
    ensures var (s', r) := T.Open(s, path, flags);
            var got := Got(if r.Done? then r.n else -1);
            var world' := Run(world, [Work(t, DoOpen), Work(t, got), Work(t, got), Work(t, got)]);
            if world.closing then world' == world
            else Outside(s', world', t) && world' == world.(handles := TakenHandles(s'), count := s'.openCount)
  {
    hide T.Open, TakenHandles;
    var (s', r) := T.Open(s, path, flags);
    var got := Got(if r.Done? then r.n else -1);
    RunFour(world, Work(t, DoOpen), Work(t, got), Work(t, got), Work(t, got));
    if !world.closing {
      var w := At(world, t, InOpen).(lock := Worker(t));
      assert w == Move1(Move1(world, Work(t, DoOpen)), Work(t, got)) by {
        assert world.pcs[t := PassedTest][t := InOpen] == world.pcs[t := InOpen];
      }
      OpenStepAgrees(s, path, flags, w, t);
      assert world.pcs[t := InOpen][t := Leaving][t := Idle] == world.pcs;
    }
  }

  lemma ToClose(world: World, t: nat, h: int, c: Choice)
    requires t < |world.pcs| && world.pcs[t] == Idle && world.lock == Nobody
    ensures Move1(Move1(world, Work(t, DoClose(h))), Work(t, c)) ==
            world.(pcs := world.pcs[t := InClose(h)], lock := Worker(t))
  {
    assert world.pcs[t := WantClose(h)][t := InClose(h)] == world.pcs[t := InClose(h)];
  }

  lemma FromClose(world: World, t: nat, c: Choice)
    requires t < |world.pcs| && world.pcs[t] == Signalling
    ensures Move1(Move1(world, Work(t, c)), Work(t, c)) ==
            world.(pcs := world.pcs[t := Idle], lock := Nobody,
                   destroyer := if world.count == 0 && world.destroyer.Waiting? then Waiting(true) else world.destroyer)
  {
    assert world.pcs[t := Leaving][t := Idle] == world.pcs[t := Idle];
  }

  /** A whole tfs_close: its effect, of any number; the waiter is signalled exactly with no file open, the lock is free again. */
  lemma CloseCall(s: T.Tables, h: int, world: World, t: nat, c: Choice)
    requires Outside(s, world, t)
    ensures var s' := T.Close(s, h).0;
            var world' := Run(world, [Work(t, DoClose(h)), Work(t, c), Work(t, c), Work(t, c), Work(t, c)]);
            var waiting := world.destroyer.Waiting?;
            && Outside(s', world', t)
            && world' == world.(handles := TakenHandles(s'), count := s'.openCount,
                                destroyer := if s'.openCount == 0 && waiting then Waiting(true) else world.destroyer)
  {
    hide T.Close, TakenHandles, WorkStep, Run;
    RunFive(world, Work(t, DoClose(h)), Work(t, c), Work(t, c), Work(t, c), Work(t, c));
    ToClose(world, t, h, c);
    var w := world.(pcs := world.pcs[t := InClose(h)], lock := Worker(t));
    CloseStepAgrees(s, h, w, t, c);
    FromClose(Move1(w, Work(t, c)), t, c);
    assert world.pcs[t := InClose(h)][t := Signalling][t := Idle] == world.pcs;
  }
}
