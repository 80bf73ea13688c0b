/**
 What a phase of concurrent updates leaves behind: when all threads are idle
 again no lock is held, the slots are exact, and the pointers of each file are
 still a prefix, so that another phase can follow.
 */
module ConcurrentShape {
  import opened StoreModel
  import opened ConcurrentUpdate
  import O = StoreOwnership

  const DATA_SLOTS: nat := O.INDEX_SLOT

  // ---------------------------------------------------------------------------
  // Locks
  // ---------------------------------------------------------------------------

  predicate HoldsHandle(pc: Pc, h: int) {
    !pc.Idle? && !pc.WantHandle? && pc.h == h
  }

  predicate HoldsInode(s: World, pc: Pc, f: int)
    requires Sizes(s)
  {
    && !pc.Idle? && !pc.WantHandle? && !pc.WantInode? && !pc.LeaveHandle?
    && pc.h < MAX_OPEN_FILES && s.inumbers[pc.h] == f
  }

  predicate HoldsTable(pc: Pc) {
    pc.Locked? || pc.Unlocking?
  }

  /** Every lock that is held is held by a thread inside its section. */
  ghost predicate LocksHeld(s: World)
    requires Sizes(s)
  {
    && (forall h :: 0 <= h < MAX_OPEN_FILES && s.handleLock[h] != NONE ==>
          0 <= s.handleLock[h] < |s.pcs| && HoldsHandle(s.pcs[s.handleLock[h]], h))
    && (forall f :: 0 <= f < INODE_TABLE_SIZE && s.inodeLock[f] != NONE ==>
          0 <= s.inodeLock[f] < |s.pcs| && HoldsInode(s, s.pcs[s.inodeLock[f]], f))
    && (s.dbLock != NONE ==> 0 <= s.dbLock < |s.pcs| && HoldsTable(s.pcs[s.dbLock]))
  }

  /** A lock that is still held is held by another thread as before, or by t inside its section. */
  ghost predicate Passed(s: World, s': World, t: nat)
    requires Sizes(s) && Sizes(s') && t < |s'.pcs|
  {
    && (forall h :: 0 <= h < MAX_OPEN_FILES && s'.handleLock[h] != NONE ==>
          if s'.handleLock[h] == t then HoldsHandle(s'.pcs[t], h) else s'.handleLock[h] == s.handleLock[h])
    && (forall f :: 0 <= f < INODE_TABLE_SIZE && s'.inodeLock[f] != NONE ==>
          if s'.inodeLock[f] == t then HoldsInode(s', s'.pcs[t], f) else s'.inodeLock[f] == s.inodeLock[f])
    && (s'.dbLock != NONE ==> if s'.dbLock == t then HoldsTable(s'.pcs[t]) else s'.dbLock == s.dbLock)
  }

  lemma PassedKeepsLocks(s: World, s': World, t: nat)
    requires Sizes(s) && Sizes(s') && LocksHeld(s) && t < |s.pcs| == |s'.pcs| && s'.inumbers == s.inumbers
    requires (forall u :: 0 <= u < |s.pcs| && u != t ==> s'.pcs[u] == s.pcs[u]) && Passed(s, s', t)
    ensures LocksHeld(s')
  {
  }

  /** A step without locks that stays in its sections. */
  lemma SameLocksPassed(s: World, s': World, t: nat)
    requires Sizes(s) && Sizes(s') && LocksHeld(s) && t < |s.pcs| == |s'.pcs| && s'.inumbers == s.inumbers
    requires s'.handleLock == s.handleLock && s'.inodeLock == s.inodeLock && s'.dbLock == s.dbLock
    requires forall h :: 0 <= h < MAX_OPEN_FILES && HoldsHandle(s.pcs[t], h) ==> HoldsHandle(s'.pcs[t], h)
    requires forall f :: 0 <= f < INODE_TABLE_SIZE && HoldsInode(s, s.pcs[t], f) ==> HoldsInode(s', s'.pcs[t], f)
    requires HoldsTable(s.pcs[t]) ==> HoldsTable(s'.pcs[t])
    ensures Passed(s, s', t)
  {
  }

  lemma LockStepPasses(s: World, t: nat, c: Choice)
    requires Sizes(s) && LocksHeld(s) && t < |s.pcs| && PcOk(s, t, s.pcs[t]) && Next(s, t, c).Some?
    requires var pc := s.pcs[t];
             pc.WantHandle? || pc.WantInode? || pc.LeaveInode? || pc.LeaveHandle? || pc.Scan? || pc.Unlocking?
    ensures Sizes(Next(s, t, c).value) && Passed(s, Next(s, t, c).value, t)
  {
    hide SiteEmpty, TakenBelow, Emptied;
  }

  lemma StoreStepPasses(s: World, t: nat, c: Choice)
    requires Sizes(s) && LocksHeld(s) && t < |s.pcs| && PcOk(s, t, s.pcs[t]) && Next(s, t, c).Some? && s.pcs[t].Store?
    ensures Sizes(Next(s, t, c).value) && Passed(s, Next(s, t, c).value, t)
  {
    hide SiteEmpty, TakenBelow, Emptied, LocksHeld, Passed;
    SameLocksPassed(s, Next(s, t, c).value, t);
  }

  lemma LoopStepPasses(s: World, t: nat, c: Choice)
    requires Sizes(s) && LocksHeld(s) && t < |s.pcs| && PcOk(s, t, s.pcs[t]) && Next(s, t, c).Some?
    requires var pc := s.pcs[t];
             pc.Idle? || pc.Direct? || pc.Locked? || pc.Fill? || pc.Index? || pc.Pointers?
    ensures Sizes(Next(s, t, c).value) && Passed(s, Next(s, t, c).value, t)
  {
    hide SiteEmpty, TakenBelow, Emptied, LocksHeld, Passed, StoreStep;
    SameLocksPassed(s, Next(s, t, c).value, t);
  }

  lemma NextFrame(s: World, t: nat, c: Choice)
    requires Sizes(s) && t < |s.pcs| && Next(s, t, c).Some?
    ensures var s' := Next(s, t, c).value;
            && |s'.pcs| == |s.pcs| && s'.inumbers == s.inumbers
            && (forall u :: 0 <= u < |s.pcs| && u != t ==> s'.pcs[u] == s.pcs[u])
            && !s.pcs[t].Crashed?
  {
  }

  lemma StepKeepsLocks(s: World, t: nat, c: Choice)
    requires Sizes(s) && AllPcsOk(s) && LocksHeld(s) && t < |s.pcs| && Next(s, t, c).Some?
    ensures Sizes(Next(s, t, c).value) && LocksHeld(Next(s, t, c).value)
  {
    assert PcOk(s, t, s.pcs[t]);
    hide AllPcsOk, LocksHeld, Passed, PcOk, Next;
    var pc := s.pcs[t];
    NextFrame(s, t, c);
    if pc.WantHandle? || pc.WantInode? || pc.LeaveInode? || pc.LeaveHandle? || pc.Scan? || pc.Unlocking? {
      LockStepPasses(s, t, c);
    } else if pc.Store? {
      StoreStepPasses(s, t, c);
    } else {
      LoopStepPasses(s, t, c);
    }
    PassedKeepsLocks(s, Next(s, t, c).value, t);
  }

  // ---------------------------------------------------------------------------
  // Prefixes
  // ---------------------------------------------------------------------------

  ghost predicate AllTaken(s: World)
    requires Sizes(s)
  {
    forall b :: 0 <= b < DATA_BLOCKS ==> s.blocks[b] == TAKEN
  }

  /** The first n data slots of inode f are set. */
  ghost predicate LowerSet(s: World, f: int, n: int)
    requires Sizes(s) && ValidInumber(f)
  {
    forall i :: 0 <= i < n && i < DATA_SLOTS ==> SlotOf(s, f, i) != -1
  }

  /** The set data slots of each file are a prefix, and an index block comes after the direct ones. */
  ghost predicate Prefixes(s: World)
    requires Sizes(s)
  {
    && (forall f, i :: ValidInumber(f) && 0 <= i < DATA_SLOTS && SlotOf(s, f, i) != -1 ==> LowerSet(s, f, i))
    && (forall f :: ValidInumber(f) && SlotOf(s, f, DATA_SLOTS) != -1 ==> LowerSet(s, f, DIRECT_BLOCK_POINTERS))
  }

  /** How many slots come before the one that is filled. */
  function Before(site: Site): int {
    match site
    case DirectSite(i) => i
    case IndexSite => DIRECT_BLOCK_POINTERS
    case PointerSite(j) => DIRECT_BLOCK_POINTERS + j
  }

  /** How far a thread's loop has come, -1 outside the loops. */
  function Progress(pc: Pc): int {
    match pc
    case Direct(_, _, i) => i
    case Scan(_, _, site, _) => Before(site)
    case Locked(_, _, site, _) => Before(site)
    case Unlocking(_, _, site, _, _) => Before(site)
    case Fill(_, _, _, _) => DIRECT_BLOCK_POINTERS
    case Store(_, _, site, _) => Before(site)
    case Index(_, _) => DIRECT_BLOCK_POINTERS
    case Pointers(_, _, j) => DIRECT_BLOCK_POINTERS + j
    case _ => -1
  }

  /** The slots behind a loop are set, or the table is full; with a block in hand they are set. */
  ghost predicate Behind(s: World, pc: Pc)
    requires Sizes(s)
  {
    Progress(pc) != -1 ==>
      && pc.h < MAX_OPEN_FILES && ValidInumber(s.inumbers[pc.h])
      && (AllTaken(s) || LowerSet(s, s.inumbers[pc.h], Progress(pc)))
      && (Hand(pc) != -1 ==> LowerSet(s, s.inumbers[pc.h], Progress(pc)))
  }

  ghost predicate Shaped(s: World)
    requires Sizes(s)
  {
    Prefixes(s) && forall t :: 0 <= t < |s.pcs| ==> Behind(s, s.pcs[t])
  }

  /** What any step of t does to slots: at most one slot of its own inode is set. */
  lemma SlotChange(s: World, o: seq<Holder>, t: nat, c: Choice)
    requires Inv(s, o) && t < |s.pcs| && Next(s, t, c).Some?
    ensures var s' := Next(s, t, c).value;
            var pc := s.pcs[t];
            && Sizes(s') && s'.inumbers == s.inumbers
            && (forall b :: 0 <= b < DATA_BLOCKS && s.blocks[b] == TAKEN ==> s'.blocks[b] == TAKEN)
            && (pc.Store? ==> pc.h < MAX_OPEN_FILES && ValidInumber(s.inumbers[pc.h]))
            && (forall f, i :: ValidInumber(f) && 0 <= i <= DATA_SLOTS ==>
                  SlotOf(s', f, i) ==
                    if pc.Store? && f == s.inumbers[pc.h] && i == SiteSlot(pc.site) then pc.b else SlotOf(s, f, i))
  {
    var pc := s.pcs[t];
    var s' := Next(s, t, c).value;
    assert PcOk(s, t, pc);
    hide AllPcsOk, PcOk, SiteEmpty, TakenBelow, Emptied, HasBoth;
    if pc.Store? {
      StoreChanges(s, o, t, pc.h, pc.last, pc.site, pc.b);
    } else if pc.Fill? && pc.k < MAX_BLOCK_POINTERS {
      assert Hand(pc) == pc.blk && o[pc.blk] == InHand(t);
      forall f, i | ValidInumber(f) && 0 <= i <= DATA_SLOTS
        ensures SlotOf(s', f, i) == SlotOf(s, f, i)
      {
        assert SlotOf(s, f, DATA_SLOTS) == s.dataBlock[f];
      }
    } else {
      SameSlots(s, s');
    }
  }

  /** Set slots stay as they are, TAKEN blocks stay TAKEN. */
  ghost predicate Grows(s: World, s': World)
    requires Sizes(s) && Sizes(s')
  {
    && s'.inumbers == s.inumbers
    && (forall b :: 0 <= b < DATA_BLOCKS && s.blocks[b] == TAKEN ==> s'.blocks[b] == TAKEN)
    && (forall f, i :: ValidInumber(f) && 0 <= i <= DATA_SLOTS && SlotOf(s, f, i) != -1 ==>
          SlotOf(s', f, i) == SlotOf(s, f, i))
  }

  lemma StepGrows(s: World, o: seq<Holder>, t: nat, c: Choice)
    requires Inv(s, o) && t < |s.pcs| && Next(s, t, c).Some?
    ensures Sizes(Next(s, t, c).value) && Grows(s, Next(s, t, c).value)
  {
    SlotChange(s, o, t, c);
    assert PcOk(s, t, s.pcs[t]);
    hide Next, SlotOf, Holders, AllPcsOk, TakenBelow, Emptied;
  }

  lemma GrowsKeepsBehind(s: World, s': World, pc: Pc)
    requires Sizes(s) && Sizes(s') && Grows(s, s') && Behind(s, pc)
    ensures Behind(s', pc)
  {
    hide SlotOf;
  }

  /** The thread that stores a block, or moves past a slot, has everything behind it set. */
  lemma OwnBehind(s: World, o: seq<Holder>, t: nat, c: Choice)
    requires Inv(s, o) && t < |s.pcs| && Next(s, t, c).Some? && Behind(s, s.pcs[t])
    ensures Sizes(Next(s, t, c).value) && Behind(Next(s, t, c).value, Next(s, t, c).value.pcs[t])
  {
    var pc := s.pcs[t];
    assert PcOk(s, t, pc);
    StepGrows(s, o, t, c);
    GrowsKeepsBehind(s, Next(s, t, c).value, pc);
    hide Holders, AllPcsOk, Grows, Emptied;
    if pc.Store? {
      StoreBehind(s, o, t, c);
    } else {
      SlotChange(s, o, t, c);
      hide StoreStep;
      QuietBehind(s, t, c);
    }
  }

  lemma StoreBehind(s: World, o: seq<Holder>, t: nat, c: Choice)
    requires Inv(s, o) && t < |s.pcs| && Next(s, t, c).Some? && s.pcs[t].Store?
    requires Sizes(Next(s, t, c).value) && Behind(Next(s, t, c).value, s.pcs[t])
    ensures Behind(Next(s, t, c).value, Next(s, t, c).value.pcs[t])
  {
    SlotChange(s, o, t, c);
    assert PcOk(s, t, s.pcs[t]);
    hide SlotOf, Holders, AllPcsOk, Emptied;
  }

  lemma ScanBehind(s: World, t: nat, c: Choice)
    requires Sizes(s) && t < |s.pcs| && PcOk(s, t, s.pcs[t]) && Next(s, t, c).Some? && !s.pcs[t].Store?
    requires Behind(s, s.pcs[t])
    requires Sizes(Next(s, t, c).value) && Behind(Next(s, t, c).value, s.pcs[t])
    requires forall f, i :: ValidInumber(f) && 0 <= i <= DATA_SLOTS ==> SlotOf(Next(s, t, c).value, f, i) == SlotOf(s, f, i)
    requires var pc := s.pcs[t]; pc.Scan? || pc.Locked? || pc.Unlocking? || pc.Fill?
    ensures Behind(Next(s, t, c).value, Next(s, t, c).value.pcs[t])
  {
    hide Emptied, SiteEmpty, StoreStep;
  }

  lemma LoopBehind(s: World, t: nat, c: Choice)
    requires Sizes(s) && t < |s.pcs| && PcOk(s, t, s.pcs[t]) && Next(s, t, c).Some? && !s.pcs[t].Store?
    requires Behind(s, s.pcs[t])
    requires Sizes(Next(s, t, c).value) && Behind(Next(s, t, c).value, s.pcs[t])
    requires forall f, i :: ValidInumber(f) && 0 <= i <= DATA_SLOTS ==> SlotOf(Next(s, t, c).value, f, i) == SlotOf(s, f, i)
    requires var pc := s.pcs[t]; !(pc.Scan? || pc.Locked? || pc.Unlocking? || pc.Fill?)
    ensures Behind(Next(s, t, c).value, Next(s, t, c).value.pcs[t])
  {
    hide Emptied, SiteEmpty, StoreStep;
  }

  lemma QuietBehind(s: World, t: nat, c: Choice)
    requires Sizes(s) && t < |s.pcs| && PcOk(s, t, s.pcs[t]) && Next(s, t, c).Some? && !s.pcs[t].Store?
    requires Behind(s, s.pcs[t])
    requires Sizes(Next(s, t, c).value) && Behind(Next(s, t, c).value, s.pcs[t])
    requires forall f, i :: ValidInumber(f) && 0 <= i <= DATA_SLOTS ==> SlotOf(Next(s, t, c).value, f, i) == SlotOf(s, f, i)
    ensures Behind(Next(s, t, c).value, Next(s, t, c).value.pcs[t])
  {
    hide Next, Behind, PcOk, SlotOf;
    var pc := s.pcs[t];
    if pc.Scan? || pc.Locked? || pc.Unlocking? || pc.Fill? {
      ScanBehind(s, t, c);
    } else {
      LoopBehind(s, t, c);
    }
  }

  /** A block goes only into a slot behind which everything is set. */
  lemma StepKeepsPrefixes(s: World, o: seq<Holder>, t: nat, c: Choice)
    requires Inv(s, o) && t < |s.pcs| && Next(s, t, c).Some? && Prefixes(s) && Behind(s, s.pcs[t])
    ensures Sizes(Next(s, t, c).value) && Prefixes(Next(s, t, c).value)
  {
    StepGrows(s, o, t, c);
    SlotChange(s, o, t, c);
    assert PcOk(s, t, s.pcs[t]);
    var s' := Next(s, t, c).value;
    hide Next, SlotOf, Holders, AllPcsOk, Emptied, TakenBelow, AllTaken;
    forall f, i | ValidInumber(f) && 0 <= i < DATA_SLOTS && SlotOf(s', f, i) != -1
      ensures LowerSet(s', f, i)
    {
      if SlotOf(s, f, i) != -1 {
        assert LowerSet(s, f, i);
      }
    }
    forall f | ValidInumber(f) && SlotOf(s', f, DATA_SLOTS) != -1
      ensures LowerSet(s', f, DIRECT_BLOCK_POINTERS)
    {
      if SlotOf(s, f, DATA_SLOTS) != -1 {
        assert LowerSet(s, f, DIRECT_BLOCK_POINTERS);
      }
    }
  }

  lemma StepKeepsShape(s: World, o: seq<Holder>, t: nat, c: Choice)
    requires Inv(s, o) && Shaped(s) && t < |s.pcs| && Next(s, t, c).Some?
    ensures Sizes(Next(s, t, c).value) && Shaped(Next(s, t, c).value)
  {
    NextFrame(s, t, c);
    hide Inv, Prefixes, Behind, Next, Grows;
    var s' := Next(s, t, c).value;
    StepKeepsPrefixes(s, o, t, c);
    StepGrows(s, o, t, c);
    OwnBehind(s, o, t, c);
    forall u | 0 <= u < |s'.pcs|
      ensures Behind(s', s'.pcs[u])
    {
      if u != t {
        GrowsKeepsBehind(s, s', s.pcs[u]);
      }
    }
  }

  // ---------------------------------------------------------------------------
  // Whole phases
  // ---------------------------------------------------------------------------

  /** Inodes that no handle leads to are left alone. */
  ghost predicate Unreached(s: World, s': World)
    requires Sizes(s) && Sizes(s')
  {
    forall f, i :: ValidInumber(f) && 0 <= i <= DATA_SLOTS && f !in s.inumbers ==> SlotOf(s', f, i) == SlotOf(s, f, i)
  }

  lemma StepUnreached(s: World, o: seq<Holder>, t: nat, c: Choice)
    requires Inv(s, o) && t < |s.pcs| && Next(s, t, c).Some?
    ensures Sizes(Next(s, t, c).value) && Unreached(s, Next(s, t, c).value)
  {
    SlotChange(s, o, t, c);
    hide Next, SlotOf, Holders, AllPcsOk;
  }

  lemma NothingGrows(s: World)
    requires Sizes(s)
    ensures Grows(s, s) && Unreached(s, s)
  {
  }

  lemma GrowsTrans(s: World, s1: World, s2: World)
    requires Sizes(s) && Sizes(s1) && Sizes(s2)
    requires Grows(s, s1) && Grows(s1, s2) && Unreached(s, s1) && Unreached(s1, s2)
    ensures Grows(s, s2) && Unreached(s, s2)
  {
    hide SlotOf;
  }

  lemma {:induction false} PhaseKeeps(s: World, o: seq<Holder>, schedule: seq<Move>) returns (o': seq<Holder>)
    requires Inv(s, o) && LocksHeld(s) && Shaped(s)
    ensures var s' := Run(s, schedule);
            && Inv(s', o') && LocksHeld(s') && Shaped(s') && SameDirectory(o, o')
            && Grows(s, s') && Unreached(s, s')
    decreases |schedule|
  {
    hide Holders, AllPcsOk, Next, LocksHeld, Shaped, Grows, Unreached;
    if schedule == [] {
      o' := o;
      NothingGrows(s);
    } else {
      var m := schedule[0];
      if m.t < |s.pcs| && Next(s, m.t, m.c).Some? {
        var o1 := StepKeeps(s, o, m.t, m.c);
        StepKeepsLocks(s, m.t, m.c);
        StepKeepsShape(s, o, m.t, m.c);
        StepGrows(s, o, m.t, m.c);
        StepUnreached(s, o, m.t, m.c);
        var s1 := Next(s, m.t, m.c).value;
        o' := PhaseKeeps(s1, o1, schedule[1..]);
        GrowsTrans(s, s1, Run(s1, schedule[1..]));
      } else {
        o' := PhaseKeeps(s, o, schedule[1..]);
      }
    }
  }

  ghost predicate AllIdle(s: World) {
    forall t :: 0 <= t < |s.pcs| ==> s.pcs[t] == Idle
  }

  /**
   Phases compose. From a start with prefixes, once all threads are idle again
   no lock is held, every TAKEN block is in one slot or the root directory's,
   which has not changed, and the slots of each file are a prefix: the next
   phase can start.
   */
  lemma PhasesCompose(s: World, o: seq<Holder>, schedule: seq<Move>) returns (o': seq<Holder>)
    requires Start(s, o) && Prefixes(s) && AllIdle(Run(s, schedule))
    ensures var s' := Run(s, schedule);
            && Start(s', o') && Prefixes(s') && SameDirectory(o, o')
            && Grows(s, s') && Unreached(s, s')
  {
    assert AllPcsOk(s) && LocksHeld(s) && Shaped(s);
    o' := PhaseKeeps(s, o, schedule);
    hide Run, Prefixes, Grows, Unreached;
  }

  /**
   A thread leaves inode_update only when its work is done: at that step, in any
   interleaving, every block up to the one of its position, of the 266, is
   mapped, or every block is TAKEN.
   */
  lemma LeavesMapped(s: World, o: seq<Holder>, schedule: seq<Move>, t: nat, c: Choice)
    requires Start(s, o) && Prefixes(s)
    ensures var s' := Run(s, schedule);
            Sizes(s') && t < |s'.pcs| && (s'.pcs[t].Direct? || s'.pcs[t].Pointers?) && Next(s', t, c).Some?
              && Next(s', t, c).value.pcs[t].LeaveInode? ==>
              var pc := s'.pcs[t];
              && pc.h < MAX_OPEN_FILES && ValidInumber(s'.inumbers[pc.h])
              && (AllTaken(s') || forall i :: 0 <= i <= pc.last && i < DATA_SLOTS ==> SlotOf(s', s'.inumbers[pc.h], i) != -1)
  {
    assert AllPcsOk(s) && LocksHeld(s) && Shaped(s);
    var o' := PhaseKeeps(s, o, schedule);
    var s' := Run(s, schedule);
    hide Run, Prefixes, Grows, Unreached, Holders, AllPcsOk, LocksHeld, SlotOf;
    if t < |s'.pcs| {
      assert Behind(s', s'.pcs[t]);
    }
  }

  /** The first phase can start from every state a sequential run can reach. */
  lemma StoreHasPrefixes(s: State, w: O.Ledger, n: nat)
    requires O.Inv(s, w)
    ensures Prefixes(Enter(s, n))
  {
    var e := Enter(s, n);
    forall f, i | ValidInumber(f) && 0 <= i <= DATA_SLOTS
      ensures SlotOf(e, f, i) == if O.LiveFile(s, f) then O.Ptr(s, f, i) else -1
    {
    }
    hide Enter, SlotOf, O.Ptr, O.Owners, O.Root;
    forall f, i | ValidInumber(f) && 0 <= i < DATA_SLOTS && SlotOf(e, f, i) != -1
      ensures LowerSet(e, f, i)
    {
      assert i < w.count[f];
    }
  }
}
