/**
 Threads inside inode_update wait only for a thread inside the section they want,
 some thread can always go on, and every call comes to its end.
 */
module ConcurrentProgress {
  import opened StoreModel
  import opened ConcurrentUpdate
  import opened ConcurrentShape

  /** Thread t stands in front of a lock and thread u inside its section. */
  ghost predicate Waits(s: World, t: nat, u: nat)
    requires Sizes(s) && t < |s.pcs| && u < |s.pcs|
  {
    var pc, other := s.pcs[t], s.pcs[u];
    match pc
    case WantHandle(h) => HoldsHandle(other, h)
    case WantInode(h) => h < MAX_OPEN_FILES && HoldsInode(s, other, s.inumbers[h])
    case Scan(_, _, _, j) => j < DATA_BLOCKS && HoldsTable(other)
    case _ => false
  }

  /** A thread inside a section has its lock. */
  lemma InsideHolds(s: World, u: nat)
    requires Sizes(s) && AllPcsOk(s) && u < |s.pcs|
    ensures forall h :: 0 <= h < MAX_OPEN_FILES && HoldsHandle(s.pcs[u], h) ==> s.handleLock[h] == u
    ensures forall f :: 0 <= f < INODE_TABLE_SIZE && HoldsInode(s, s.pcs[u], f) ==> s.inodeLock[f] == u
    ensures HoldsTable(s.pcs[u]) ==> s.dbLock == u
  {
    assert PcOk(s, u, s.pcs[u]);
    hide SiteEmpty, TakenBelow, Emptied, AllPcsOk;
  }

  /** The lock the thread at pc wants next, as it is held now; NONE also when it wants no lock. */
  function Wanted(s: World, pc: Pc): int
    requires Sizes(s)
  {
    match pc
    case WantHandle(h) => if h < MAX_OPEN_FILES then s.handleLock[h] else NONE
    case WantInode(h) => if h < MAX_OPEN_FILES && ValidInumber(s.inumbers[h]) then s.inodeLock[s.inumbers[h]] else NONE
    case Scan(_, _, _, j) => if j < DATA_BLOCKS then s.dbLock else NONE
    case _ => NONE
  }

  lemma NextIff(s: World, o: seq<Holder>, t: nat, c: Choice)
    requires Inv(s, o) && t < |s.pcs| && !s.pcs[t].Idle?
    ensures Next(s, t, c).None? <==> s.pcs[t].Crashed? || Wanted(s, s.pcs[t]) != NONE
  {
    assert PcOk(s, t, s.pcs[t]);
    hide TakenBelow, Emptied, AllPcsOk, Holders;
  }

  /**
   A thread in inode_update is blocked if and only if it has crashed or another
   thread is inside the section of the very lock it wants next.
   */
  lemma BlockedIff(s: World, o: seq<Holder>, t: nat, c: Choice)
    requires Inv(s, o) && LocksHeld(s) && t < |s.pcs| && !s.pcs[t].Idle?
    ensures Next(s, t, c).None? <==> s.pcs[t].Crashed? || exists u :: 0 <= u < |s.pcs| && u != t && Waits(s, t, u)
  {
    NextIff(s, o, t, c);
    assert PcOk(s, t, s.pcs[t]);
    hide Next, SiteEmpty, TakenBelow, Emptied, PcOk, Holders;
    var l := Wanted(s, s.pcs[t]);
    if l != NONE {
      assert Waits(s, t, l);
    }
    if u :| 0 <= u < |s.pcs| && u != t && Waits(s, t, u) {
      InsideHolds(s, u);
    }
  }

  // ---------------------------------------------------------------------------
  // Somebody can go on
  // ---------------------------------------------------------------------------

  predicate Working(pc: Pc) {
    !pc.Idle? && !pc.Crashed?
  }

  ghost predicate SomeCrashed(s: World) {
    exists t :: 0 <= t < |s.pcs| && s.pcs[t].Crashed?
  }

  /** The lock order of the three sections: how many locks the thread may still take. */
  function Depth(pc: Pc): nat {
    if pc.WantHandle? then 2 else if pc.WantInode? then 1 else 0
  }

  /** From a thread at work along the locks to one that can move. */
  lemma {:induction false} SomeoneMoves(s: World, o: seq<Holder>, t: nat, c: Choice) returns (u: nat)
    requires Inv(s, o) && LocksHeld(s) && !SomeCrashed(s) && t < |s.pcs| && Working(s.pcs[t])
    ensures u < |s.pcs| && Working(s.pcs[u]) && Next(s, u, c).Some?
    decreases Depth(s.pcs[t]), if s.pcs[t].Scan? then 1 else 0
  {
    BlockedIff(s, o, t, c);
    hide Next, Inv, LocksHeld;
    if Next(s, t, c).Some? {
      u := t;
    } else {
      var v :| 0 <= v < |s.pcs| && v != t && Waits(s, t, v);
      u := SomeoneMoves(s, o, v, c);
    }
  }

  // ---------------------------------------------------------------------------
  // Every call ends
  // ---------------------------------------------------------------------------

  /** More than a scan of the table, the -1 pointers of a fresh index block and the store. */
  const ROUND: nat := 4000

  /** How many steps a thread has left at most once the result is stored. */
  function AfterStore(site: Site): nat {
    match site
    case DirectSite(i) => LoopSteps(0, i + 1)
    case IndexSite => LoopSteps(DIRECT_BLOCK_POINTERS, 0)
    case PointerSite(j) => LoopSteps(DIRECT_BLOCK_POINTERS, j + 1)
  }

  /** In front of pointer k of the direct ones, or, after those, of the index block. */
  function LoopSteps(done: nat, k: nat): nat {
    if done == 0 then ROUND * (if k < DIRECT_BLOCK_POINTERS then DIRECT_BLOCK_POINTERS - k else 0) + ROUND * 258 + 2
    else ROUND * (if k < MAX_BLOCK_POINTERS then MAX_BLOCK_POINTERS - k else 0) + 3
  }

  /** An upper bound for the steps of a thread until it is idle. */
  function StepsLeft(pc: Pc): nat {
    match pc
    case Idle => 0
    case WantHandle(_) => LoopSteps(0, 0) + 2
    case WantInode(_) => LoopSteps(0, 0) + 1
    case Direct(_, _, i) => LoopSteps(0, i)
    case Scan(_, _, site, j) => (if j < DATA_BLOCKS then 3 * (DATA_BLOCKS - j) else 0) + 300 + AfterStore(site)
    case Locked(_, _, site, j) => (if j < DATA_BLOCKS then 3 * (DATA_BLOCKS - j) else 0) + 299 + AfterStore(site)
    case Unlocking(_, _, site, j, _) => (if j < DATA_BLOCKS then 3 * (DATA_BLOCKS - j) else 0) + 298 + AfterStore(site)
    case Fill(_, _, _, k) => (if k < MAX_BLOCK_POINTERS then MAX_BLOCK_POINTERS - k else 0) + 2 + AfterStore(IndexSite)
    case Store(_, _, site, _) => 1 + AfterStore(site)
    case Index(_, _) => ROUND * 258 + 1
    case Pointers(_, _, j) => LoopSteps(DIRECT_BLOCK_POINTERS, j)
    case LeaveInode(_) => 2
    case LeaveHandle(_) => 1
    case Crashed(_) => 0
  }

  lemma ScanGoesDown(s: World, t: nat, c: Choice)
    requires Sizes(s) && t < |s.pcs| && PcOk(s, t, s.pcs[t]) && Next(s, t, c).Some?
    requires var pc := s.pcs[t]; pc.Scan? || pc.Locked? || pc.Unlocking? || pc.Fill?
    ensures |Next(s, t, c).value.pcs| == |s.pcs| && StepsLeft(Next(s, t, c).value.pcs[t]) < StepsLeft(s.pcs[t])
  {
    hide SiteEmpty, TakenBelow, Emptied, LoopSteps, StoreStep;
  }

  lemma LoopGoesDown(s: World, t: nat, c: Choice)
    requires Sizes(s) && t < |s.pcs| && Next(s, t, c).Some?
    requires var pc := s.pcs[t]; pc.Direct? || pc.Index? || pc.Pointers?
    ensures |Next(s, t, c).value.pcs| == |s.pcs| && StepsLeft(Next(s, t, c).value.pcs[t]) < StepsLeft(s.pcs[t])
  {
    hide StoreStep;
  }

  /** Every step brings its thread nearer to the end. */
  lemma StepsGoDown(s: World, t: nat, c: Choice)
    requires Sizes(s) && t < |s.pcs| && PcOk(s, t, s.pcs[t]) && Next(s, t, c).Some? && !s.pcs[t].Idle?
    ensures |Next(s, t, c).value.pcs| == |s.pcs| && StepsLeft(Next(s, t, c).value.pcs[t]) < StepsLeft(s.pcs[t])
  {
    hide PcOk;
    var pc := s.pcs[t];
    if pc.Scan? || pc.Locked? || pc.Unlocking? || pc.Fill? {
      ScanGoesDown(s, t, c);
    } else if pc.Direct? || pc.Index? || pc.Pointers? {
      LoopGoesDown(s, t, c);
    } else {
      hide LoopSteps;
    }
  }

  /** All threads together. */
  function Busy(pcs: seq<Pc>): nat {
    if pcs == [] then 0 else StepsLeft(pcs[0]) + Busy(pcs[1..])
  }

  lemma {:induction false} BusyUpdate(pcs: seq<Pc>, t: nat, pc: Pc)
    requires t < |pcs|
    ensures Busy(pcs[t := pc]) == Busy(pcs) - StepsLeft(pcs[t]) + StepsLeft(pc)
  {
    hide StepsLeft;
    if t > 0 {
      BusyUpdate(pcs[1..], t - 1, pc);
      assert pcs[t := pc][1..] == pcs[1..][t - 1 := pc];
    } else {
      assert pcs[t := pc][1..] == pcs[1..];
    }
  }

  /** The threads at work can always be run to the end: all idle, or one at the missing index block. */
  lemma {:induction false} PhaseCanEnd(s: World, o: seq<Holder>, c: Choice) returns (schedule: seq<Move>)
    requires Inv(s, o) && LocksHeld(s)
    ensures |schedule| <= Busy(s.pcs)
    ensures AllIdle(Run(s, schedule)) || SomeCrashed(Run(s, schedule))
    decreases Busy(s.pcs)
  {
    hide Holders, AllPcsOk, LocksHeld, Next, StepsLeft, Busy;
    if SomeCrashed(s) || AllIdle(s) {
      schedule := [];
    } else {
      var t: nat :| t < |s.pcs| && s.pcs[t] != Idle;
      var u := SomeoneMoves(s, o, t, c);
      var s1 := Next(s, u, c).value;
      var o1 := StepKeeps(s, o, u, c);
      StepKeepsLocks(s, u, c);
      NextFrame(s, u, c);
      OneStepLess(s, u, c);
      var rest := PhaseCanEnd(s1, o1, c);
      schedule := [Move(u, c)] + rest;
      assert schedule[1..] == rest;
    }
  }

  lemma OneStepLess(s: World, u: nat, c: Choice)
    requires Sizes(s) && AllPcsOk(s) && u < |s.pcs| && Next(s, u, c).Some? && !s.pcs[u].Idle?
    ensures Busy(Next(s, u, c).value.pcs) < Busy(s.pcs)
  {
    assert PcOk(s, u, s.pcs[u]);
    StepsGoDown(s, u, c);
    NextFrame(s, u, c);
    hide Next, StepsLeft, Busy, PcOk;
    var pcs := Next(s, u, c).value.pcs;
    BusyUpdate(s.pcs, u, pcs[u]);
    assert pcs == s.pcs[u := pcs[u]];
  }

  /**
   No deadlock and no endless call. From every state that any interleaving of
   updates reaches, the threads can be run until all are idle or one is at the
   dereference of a missing index block; each is through after a bounded number
   of its own steps, and is held up only by a thread inside the section it wants.
   */
  lemma ThreadsComeThrough(s: World, o: seq<Holder>, schedule: seq<Move>, c: Choice) returns (more: seq<Move>)
    requires Start(s, o) && Prefixes(s)
    ensures var e := Run(Run(s, schedule), more);
            AllIdle(e) || SomeCrashed(e)
    ensures |more| <= Busy(Run(s, schedule).pcs)
  {
    assert AllPcsOk(s) && LocksHeld(s) && Shaped(s);
    var o' := PhaseKeeps(s, o, schedule);
    hide Run, Prefixes, Grows, Unreached;
    more := PhaseCanEnd(Run(s, schedule), o', c);
  }
}
