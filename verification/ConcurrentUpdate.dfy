/**
 Any number of threads inside inode_update at once. Each step is one memory
 access or one lock operation of P1/fs/state.c, and steps of different threads
 interleave freely. Slots of the allocation table are tested and set one at a
 time, so a scan can overlap with other scans.
 */
module ConcurrentUpdate {
  import opened Memory
  import opened Options
  import opened StoreModel
  import O = StoreOwnership

  const INDEX_SLOT: nat := O.INDEX_SLOT
  const NONE: int := -1

  /** Where the result of data_block_alloc goes. */
  datatype Site = DirectSite(i: nat) | IndexSite | PointerSite(j: nat)

  /** Program counter of a thread; `last` is the of_boffset it read. */
  datatype Pc =
    | Idle
    | WantHandle(h: nat)
    | WantInode(h: nat)
    | Direct(h: nat, last: int, i: nat)
    | Scan(h: nat, last: int, site: Site, j: nat)
    | Locked(h: nat, last: int, site: Site, j: nat)
    | Unlocking(h: nat, last: int, site: Site, j: nat, got: bool)
    | Fill(h: nat, last: int, blk: nat, k: nat)
    | Store(h: nat, last: int, site: Site, b: int)
    | Index(h: nat, last: int)
    | Pointers(h: nat, last: int, j: nat)
    | LeaveInode(h: nat)
    | LeaveHandle(h: nat)
    | Crashed(h: nat)  // the index block is NULL and is dereferenced

  /** `pointers[b]` is block b read as 256 ints; a lock holds the number of its thread. */
  datatype World = World(
    blocks: seq<Allocation>, direct: seq<seq<int>>, dataBlock: seq<int>, pointers: seq<seq<int>>,
    inumbers: seq<int>, handleLock: seq<int>, inodeLock: seq<int>, dbLock: int, pcs: seq<Pc>)

  /** What the environment picks: the handle of the next call, and the of_boffset found there. */
  datatype Choice = Choice(h: nat, last: int)

  predicate Sizes(s: World) {
    && |s.blocks| == DATA_BLOCKS && |s.pointers| == DATA_BLOCKS
    && |s.direct| == |s.dataBlock| == |s.inodeLock| == INODE_TABLE_SIZE
    && |s.inumbers| == |s.handleLock| == MAX_OPEN_FILES
    && (forall f :: 0 <= f < INODE_TABLE_SIZE ==> |s.direct[f]| == DIRECT_BLOCK_POINTERS)
    && (forall b :: 0 <= b < DATA_BLOCKS ==> |s.pointers[b]| == MAX_BLOCK_POINTERS)
  }

  // ---------------------------------------------------------------------------
  // Steps
  // ---------------------------------------------------------------------------

  function To(s: World, t: nat, pc: Pc): World
    requires t < |s.pcs|
  {
    s.(pcs := s.pcs[t := pc])
  }

  /** Where control goes with the result b of data_block_alloc. */
  function AfterAlloc(h: nat, last: int, site: Site, b: int): Pc {
    if site.IndexSite? && b >= 0 then Fill(h, last, b, 0) else Store(h, last, site, b)
  }

  /** The store of the result into its slot. */
  function StoreStep(s: World, t: nat, h: nat, last: int, site: Site, b: int): Option<World>
    requires Sizes(s) && t < |s.pcs| && h < MAX_OPEN_FILES && ValidInumber(s.inumbers[h])
  {
    var f := s.inumbers[h];
    match site
    case DirectSite(i) =>
      if i >= DIRECT_BLOCK_POINTERS then None
      else Some(To(s.(direct := s.direct[f := s.direct[f][i := b]]), t, Direct(h, last, i + 1)))
    case IndexSite => Some(To(s.(dataBlock := s.dataBlock[f := b]), t, Pointers(h, last, 0)))
    case PointerSite(j) =>
      var blk := s.dataBlock[f];
      if !ValidBlock(blk) || j >= MAX_BLOCK_POINTERS then None
      else Some(To(s.(pointers := s.pointers[blk := s.pointers[blk][j := b]]), t, Pointers(h, last, j + 1)))
  }

  /** One step of thread t, None when it is blocked. */
  function Next(s: World, t: nat, c: Choice): (r: Option<World>)
    requires Sizes(s) && t < |s.pcs|
  {
    var pc := s.pcs[t];
    if pc.Idle? then (if c.h < MAX_OPEN_FILES then Some(To(s, t, WantHandle(c.h))) else None)
    else if pc.h >= MAX_OPEN_FILES then None
    else
      var h := pc.h;
      var f := s.inumbers[h];
      if pc.WantHandle? then
        if s.handleLock[h] != NONE then None
        else Some(To(s.(handleLock := s.handleLock[h := t]), t, if ValidInumber(f) then WantInode(h) else LeaveHandle(h)))
      else if pc.LeaveHandle? then Some(To(s.(handleLock := s.handleLock[h := NONE]), t, Idle))
      else if !ValidInumber(f) then None
      else match pc
        case WantInode(_) =>
          if s.inodeLock[f] != NONE then None
          else Some(To(s.(inodeLock := s.inodeLock[f := t]), t, Direct(h, c.last, 0)))
        case Direct(_, last, i) =>
          if i > last || i >= DIRECT_BLOCK_POINTERS then
            Some(To(s, t, if last >= DIRECT_BLOCK_POINTERS then Index(h, last) else LeaveInode(h)))
          else if s.direct[f][i] == -1 then Some(To(s, t, Scan(h, last, DirectSite(i), 0)))
          else Some(To(s, t, Direct(h, last, i + 1)))
        case Scan(_, last, site, j) =>
          if j >= DATA_BLOCKS then Some(To(s, t, AfterAlloc(h, last, site, -1)))
          else if s.dbLock != NONE then None
          else Some(To(s.(dbLock := t), t, Locked(h, last, site, j)))
        case Locked(_, last, site, j) =>
          if j >= DATA_BLOCKS then None
          else if s.blocks[j] == FREE then
            Some(To(s.(blocks := s.blocks[j := TAKEN]), t, Unlocking(h, last, site, j, true)))
          else Some(To(s, t, Unlocking(h, last, site, j, false)))
        case Unlocking(_, last, site, j, got) =>
          Some(To(s.(dbLock := NONE), t, if got then AfterAlloc(h, last, site, j) else Scan(h, last, site, j + 1)))
        case Fill(_, last, b, k) =>
          if b >= DATA_BLOCKS then None
          else if k >= MAX_BLOCK_POINTERS then Some(To(s, t, Store(h, last, IndexSite, b)))
          else Some(To(s.(pointers := s.pointers[b := s.pointers[b][k := -1]]), t, Fill(h, last, b, k + 1)))
        case Store(_, last, site, b) => StoreStep(s, t, h, last, site, b)
        case Index(_, last) =>
          Some(To(s, t, if s.dataBlock[f] == -1 then Scan(h, last, IndexSite, 0) else Pointers(h, last, 0)))
        case Pointers(_, last, j) =>
          var blk := s.dataBlock[f];
          if !ValidBlock(blk) then Some(To(s, t, Crashed(h)))
          else if j > last - DIRECT_BLOCK_POINTERS || j >= MAX_BLOCK_POINTERS then Some(To(s, t, LeaveInode(h)))
          else if s.pointers[blk][j] == -1 then Some(To(s, t, Scan(h, last, PointerSite(j), 0)))
          else Some(To(s, t, Pointers(h, last, j + 1)))
        case LeaveInode(_) => Some(To(s.(inodeLock := s.inodeLock[f := NONE]), t, LeaveHandle(h)))
        case Crashed(_) => None
  }

  // ---------------------------------------------------------------------------
  // The invariant
  // ---------------------------------------------------------------------------

  /** Who accounts for a TAKEN block: a thread that has just claimed it, a slot of a file, or the root directory. */
  datatype Holder = Unheld | InHand(t: int) | Stored(f: int, i: int) | Directory

  /** What slot i of inode f holds. */
  function SlotOf(s: World, f: int, i: int): int
    requires Sizes(s) && ValidInumber(f) && 0 <= i <= INDEX_SLOT
  {
    if i == INDEX_SLOT then s.dataBlock[f]
    else if i < DIRECT_BLOCK_POINTERS then s.direct[f][i]
    else if ValidBlock(s.dataBlock[f]) then s.pointers[s.dataBlock[f]][i - DIRECT_BLOCK_POINTERS]
    else -1
  }

  /** The slot number of a store site. */
  function SiteSlot(site: Site): int {
    match site
    case DirectSite(i) => i
    case IndexSite => INDEX_SLOT
    case PointerSite(j) => DIRECT_BLOCK_POINTERS + j
  }

  predicate SiteOk(site: Site) {
    match site
    case DirectSite(i) => i < DIRECT_BLOCK_POINTERS
    case IndexSite => true
    case PointerSite(j) => j < MAX_BLOCK_POINTERS
  }

  /** The block a thread has claimed and not yet stored, -1 if none. */
  function Hand(pc: Pc): int {
    match pc
    case Unlocking(_, _, _, j, got) => if got then j else -1
    case Fill(_, _, b, _) => b
    case Store(_, _, _, b) => b
    case _ => -1
  }

  /** Every TAKEN block has one holder; slots and hands agree with it. */
  ghost predicate Holders(s: World, o: seq<Holder>)
    requires Sizes(s)
  {
    && |o| == DATA_BLOCKS
    && (forall b :: 0 <= b < DATA_BLOCKS ==> (s.blocks[b] == TAKEN <==> !o[b].Unheld?))
    && (forall f, i :: ValidInumber(f) && 0 <= i <= INDEX_SLOT && SlotOf(s, f, i) != -1 ==>
          ValidBlock(SlotOf(s, f, i)) && o[SlotOf(s, f, i)] == Stored(f, i))
    && (forall t :: 0 <= t < |s.pcs| && Hand(s.pcs[t]) != -1 ==>
          ValidBlock(Hand(s.pcs[t])) && o[Hand(s.pcs[t])] == InHand(t))
    && (forall b :: 0 <= b < DATA_BLOCKS && o[b].Stored? ==>
          ValidInumber(o[b].f) && 0 <= o[b].i <= INDEX_SLOT && SlotOf(s, o[b].f, o[b].i) == b)
    && (forall b :: 0 <= b < DATA_BLOCKS && o[b].InHand? ==>
          0 <= o[b].t < |s.pcs| && Hand(s.pcs[o[b].t]) == b)
  }

  /** The thread has its handle's and its inode's lock. */
  predicate HasBoth(s: World, t: int, h: nat)
    requires Sizes(s)
  {
    && h < MAX_OPEN_FILES && ValidInumber(s.inumbers[h])
    && s.handleLock[h] == t && s.inodeLock[s.inumbers[h]] == t
  }

  /** The slot the thread is about to fill is still empty. */
  ghost predicate SiteEmpty(s: World, h: nat, site: Site)
    requires Sizes(s) && h < MAX_OPEN_FILES && ValidInumber(s.inumbers[h])
  {
    && SiteOk(site) && SlotOf(s, s.inumbers[h], SiteSlot(site)) == -1
    && (site.PointerSite? ==> ValidBlock(s.dataBlock[s.inumbers[h]]))
  }

  /** All blocks below n are TAKEN. */
  ghost predicate TakenBelow(s: World, n: nat)
    requires Sizes(s)
  {
    forall b :: 0 <= b < n && b < DATA_BLOCKS ==> s.blocks[b] == TAKEN
  }

  ghost predicate Emptied(s: World, b: int, k: nat)
    requires Sizes(s) && ValidBlock(b)
  {
    forall i :: 0 <= i < k && i < MAX_BLOCK_POINTERS ==> s.pointers[b][i] == -1
  }

  /** What holds of a thread at each point of the code. */
  ghost predicate PcOk(s: World, t: int, pc: Pc)
    requires Sizes(s)
  {
    match pc
    case Idle => true
    case WantHandle(h) => h < MAX_OPEN_FILES
    case WantInode(h) => h < MAX_OPEN_FILES && ValidInumber(s.inumbers[h]) && s.handleLock[h] == t
    case Direct(h, _, i) => HasBoth(s, t, h)
    case Scan(h, _, site, j) => HasBoth(s, t, h) && SiteEmpty(s, h, site) && TakenBelow(s, j)
    case Locked(h, _, site, j) =>
      HasBoth(s, t, h) && SiteEmpty(s, h, site) && TakenBelow(s, j) && s.dbLock == t && j < DATA_BLOCKS
    case Unlocking(h, _, site, j, got) =>
      HasBoth(s, t, h) && SiteEmpty(s, h, site) && TakenBelow(s, j + 1) && s.dbLock == t && j < DATA_BLOCKS
    case Fill(h, _, b, k) => HasBoth(s, t, h) && SiteEmpty(s, h, IndexSite) && b < DATA_BLOCKS && Emptied(s, b, k)
    case Store(h, _, site, b) =>
      && HasBoth(s, t, h) && SiteEmpty(s, h, site) && -1 <= b < DATA_BLOCKS
      && (b == -1 ==> TakenBelow(s, DATA_BLOCKS))
      && (site.IndexSite? && b != -1 ==> Emptied(s, b, MAX_BLOCK_POINTERS))
    case Index(h, _) => HasBoth(s, t, h)
    case Pointers(h, _, _) => HasBoth(s, t, h)
    case LeaveInode(h) => HasBoth(s, t, h)
    case LeaveHandle(h) => h < MAX_OPEN_FILES && s.handleLock[h] == t
    case Crashed(h) => HasBoth(s, t, h)
  }

  ghost predicate AllPcsOk(s: World)
    requires Sizes(s)
  {
    forall t :: 0 <= t < |s.pcs| ==> PcOk(s, t, s.pcs[t])
  }

  ghost predicate Inv(s: World, o: seq<Holder>) {
    Sizes(s) && Holders(s, o) && AllPcsOk(s)
  }

  // ---------------------------------------------------------------------------
  // Steps keep the invariant
  // ---------------------------------------------------------------------------

  /** Locks change hands only between thread t and nobody. */
  ghost predicate LocksOf(s: World, s': World, t: int)
    requires Sizes(s) && Sizes(s')
  {
    && (forall h :: 0 <= h < MAX_OPEN_FILES ==>
          s'.handleLock[h] == s.handleLock[h] || s.handleLock[h] == NONE || s.handleLock[h] == t)
    && (forall f :: 0 <= f < INODE_TABLE_SIZE ==>
          s'.inodeLock[f] == s.inodeLock[f] || s.inodeLock[f] == NONE || s.inodeLock[f] == t)
    && (s'.dbLock == s.dbLock || s.dbLock == NONE || s.dbLock == t)
  }

  /** What a step of thread t must respect so that every other thread stays where its code says. */
  ghost predicate Respects(s: World, o: seq<Holder>, s': World, t: int)
    requires Sizes(s) && Sizes(s') && |o| == DATA_BLOCKS
  {
    && LocksOf(s, s', t) && s'.inumbers == s.inumbers
    && |s'.pcs| == |s.pcs| && (forall u :: 0 <= u < |s.pcs| && u != t ==> s'.pcs[u] == s.pcs[u])
    && (forall b :: 0 <= b < DATA_BLOCKS && s.blocks[b] == TAKEN ==> s'.blocks[b] == TAKEN)
    && (forall f, i :: ValidInumber(f) && 0 <= i <= INDEX_SLOT && s.inodeLock[f] != t ==>
          SlotOf(s', f, i) == SlotOf(s, f, i))
    && (forall b :: 0 <= b < DATA_BLOCKS && o[b].InHand? && o[b].t != t ==> s'.pointers[b] == s.pointers[b])
  }

  lemma OthersStay(s: World, o: seq<Holder>, s': World, t: int)
    requires Inv(s, o) && Sizes(s') && Respects(s, o, s', t) && t >= 0
    ensures forall u :: 0 <= u < |s.pcs| && u != t ==> PcOk(s', u, s'.pcs[u])
  {
    forall u | 0 <= u < |s.pcs| && u != t
      ensures PcOk(s', u, s'.pcs[u])
    {
      OtherStays(s, o, s', t, u);
    }
  }

  lemma OtherStays(s: World, o: seq<Holder>, s': World, t: int, u: int)
    requires Inv(s, o) && Sizes(s') && Respects(s, o, s', t) && t >= 0
    requires 0 <= u < |s.pcs| && u != t
    ensures PcOk(s', u, s'.pcs[u])
  {
    assert PcOk(s, u, s.pcs[u]);
    match s.pcs[u] {
      case Fill(h, _, b, k) =>
        assert o[Hand(s.pcs[u])] == InHand(u);
        assert SlotOf(s', s.inumbers[h], INDEX_SLOT) == SlotOf(s, s.inumbers[h], INDEX_SLOT);
      case Store(h, _, site, b) =>
        SiteStays(s, o, s', t, u, h, site);
        if b != -1 {
          assert o[Hand(s.pcs[u])] == InHand(u);
        }
      case Scan(h, _, site, _) => SiteStays(s, o, s', t, u, h, site);
      case Locked(h, _, site, _) => SiteStays(s, o, s', t, u, h, site);
      case Unlocking(h, _, site, _, _) => SiteStays(s, o, s', t, u, h, site);
      case _ =>
    }
  }

  lemma SiteStays(s: World, o: seq<Holder>, s': World, t: int, u: int, h: nat, site: Site)
    requires Sizes(s) && Sizes(s') && |o| == DATA_BLOCKS && Respects(s, o, s', t)
    requires HasBoth(s, u, h) && u != t && SiteEmpty(s, h, site)
    ensures SiteEmpty(s', h, site)
  {
    var f := s.inumbers[h];
    assert SlotOf(s', f, SiteSlot(site)) == SlotOf(s, f, SiteSlot(site));
    assert SlotOf(s', f, INDEX_SLOT) == SlotOf(s, f, INDEX_SLOT);
  }

  /** A step that moves one program counter and perhaps a lock. */
  lemma QuietStep(s: World, o: seq<Holder>, s': World, t: nat)
    requires Inv(s, o) && t < |s.pcs| == |s'.pcs| && Sizes(s') && LocksOf(s, s', t)
    requires s' == s.(pcs := s.pcs[t := s'.pcs[t]], handleLock := s'.handleLock, inodeLock := s'.inodeLock,
                      dbLock := s'.dbLock)
    requires Hand(s'.pcs[t]) == Hand(s.pcs[t]) && PcOk(s', t, s'.pcs[t])
    ensures Inv(s', o)
  {
    assert forall f, i :: ValidInumber(f) && 0 <= i <= INDEX_SLOT ==> SlotOf(s', f, i) == SlotOf(s, f, i);
    OthersStay(s, o, s', t);
  }

  /** The test-and-set of data_block_alloc succeeds. */
  lemma ClaimStep(s: World, o: seq<Holder>, t: nat)
    requires Inv(s, o) && t < |s.pcs| && s.pcs[t].Locked? && s.pcs[t].j < DATA_BLOCKS && s.blocks[s.pcs[t].j] == FREE
    ensures var pc := s.pcs[t];
            var s' := To(s.(blocks := s.blocks[pc.j := TAKEN]), t, Unlocking(pc.h, pc.last, pc.site, pc.j, true));
            Inv(s', o[pc.j := InHand(t)])
  {
    var pc := s.pcs[t];
    var s' := To(s.(blocks := s.blocks[pc.j := TAKEN]), t, Unlocking(pc.h, pc.last, pc.site, pc.j, true));
    assert PcOk(s, t, pc);
    assert o[pc.j] == Unheld;
    assert forall f, i :: ValidInumber(f) && 0 <= i <= INDEX_SLOT ==> SlotOf(s', f, i) == SlotOf(s, f, i);
    OthersStay(s, o, s', t);
    assert PcOk(s', t, s'.pcs[t]);
  }

  /** One EMPTY pointer goes into a fresh index block. */
  lemma FillStep(s: World, o: seq<Holder>, t: nat)
    requires Inv(s, o) && t < |s.pcs| && s.pcs[t].Fill? && s.pcs[t].k < MAX_BLOCK_POINTERS && s.pcs[t].blk < DATA_BLOCKS
    ensures var pc := s.pcs[t];
            Inv(To(s.(pointers := s.pointers[pc.blk := s.pointers[pc.blk][pc.k := -1]]), t,
                   Fill(pc.h, pc.last, pc.blk, pc.k + 1)), o)
  {
    var pc := s.pcs[t];
    var s' := To(s.(pointers := s.pointers[pc.blk := s.pointers[pc.blk][pc.k := -1]]), t,
                 Fill(pc.h, pc.last, pc.blk, pc.k + 1));
    assert PcOk(s, t, pc);
    assert o[pc.blk] == InHand(t);
    forall f, i | ValidInumber(f) && 0 <= i <= INDEX_SLOT
      ensures SlotOf(s', f, i) == SlotOf(s, f, i)
    {
      assert SlotOf(s, f, INDEX_SLOT) == s.dataBlock[f];
    }
    OthersStay(s, o, s', t);
    assert PcOk(s', t, s'.pcs[t]);
  }

  /** What a store changes: one slot of the thread's own inode. */
  lemma StoreChanges(s: World, o: seq<Holder>, t: nat, h: nat, last: int, site: Site, b: int)
    requires Inv(s, o) && t < |s.pcs| && s.pcs[t] == Store(h, last, site, b)
    ensures h < MAX_OPEN_FILES && ValidInumber(s.inumbers[h]) && StoreStep(s, t, h, last, site, b).Some?
    ensures var s' := StoreStep(s, t, h, last, site, b).value;
            && Sizes(s') && Respects(s, o, s', t) && PcOk(s', t, s'.pcs[t]) && s'.blocks == s.blocks
            && Hand(s'.pcs[t]) == -1
            && (forall f, i :: ValidInumber(f) && 0 <= i <= INDEX_SLOT ==>
                  SlotOf(s', f, i) == if f == s.inumbers[h] && i == SiteSlot(site) then b else SlotOf(s, f, i))
  {
    assert PcOk(s, t, s.pcs[t]);
    var f := s.inumbers[h];
    var s' := StoreStep(s, t, h, last, site, b).value;
    forall g, i | ValidInumber(g) && 0 <= i <= INDEX_SLOT
      ensures SlotOf(s', g, i) == if g == f && i == SiteSlot(site) then b else SlotOf(s, g, i)
    {
      assert SlotOf(s, f, INDEX_SLOT) == s.dataBlock[f];
      assert SlotOf(s, g, INDEX_SLOT) == s.dataBlock[g];
    }
    if site.PointerSite? {
      assert SlotOf(s, f, INDEX_SLOT) == s.dataBlock[f];
      assert o[s.dataBlock[f]] == Stored(f, INDEX_SLOT);
    }
  }

  /** The root directory's block is no thread's business. */
  ghost predicate SameDirectory(o: seq<Holder>, o': seq<Holder>) {
    |o'| == |o| && forall b :: 0 <= b < |o| ==> (o[b] == Directory <==> o'[b] == Directory)
  }

  /** The store moves a block from a hand into a slot, or leaves a failed slot at -1. */
  lemma StoreKeeps(s: World, o: seq<Holder>, t: nat, h: nat, last: int, site: Site, b: int) returns (o': seq<Holder>)
    requires Inv(s, o) && t < |s.pcs| && s.pcs[t] == Store(h, last, site, b)
    requires h < MAX_OPEN_FILES && ValidInumber(s.inumbers[h]) && StoreStep(s, t, h, last, site, b).Some?
    ensures Inv(StoreStep(s, t, h, last, site, b).value, o') && SameDirectory(o, o')
  {
    StoreChanges(s, o, t, h, last, site, b);
    var s' := StoreStep(s, t, h, last, site, b).value;
    OthersStay(s, o, s', t);
    assert PcOk(s, t, s.pcs[t]);
    var f := s.inumbers[h];
    assert SlotOf(s, f, SiteSlot(site)) == -1;
    if b == -1 {
      o' := o;
    } else {
      assert Hand(s.pcs[t]) == b;
      o' := o[b := Stored(f, SiteSlot(site))];
    }
  }

  /** Every step of every thread keeps the invariant. */
  lemma StepKeeps(s: World, o: seq<Holder>, t: nat, c: Choice) returns (o': seq<Holder>)
    requires Inv(s, o) && t < |s.pcs| && Next(s, t, c).Some?
    ensures Inv(Next(s, t, c).value, o') && SameDirectory(o, o')
  {
    var s' := Next(s, t, c).value;
    var pc := s.pcs[t];
    assert PcOk(s, t, pc);
    if pc.Store? {
      o' := StoreKeeps(s, o, t, pc.h, pc.last, pc.site, pc.b);
    } else if pc.Fill? && pc.k < MAX_BLOCK_POINTERS {
      FillStep(s, o, t);
      o' := o;
    } else if pc.Locked? && s.blocks[pc.j] == FREE {
      ClaimStep(s, o, t);
      o' := o[pc.j := InHand(t)];
    } else {
      QuietNext(s, o, t, c);
      o' := o;
    }
  }

  /** The steps that neither claim nor store a block. */
  lemma QuietNext(s: World, o: seq<Holder>, t: nat, c: Choice)
    requires Inv(s, o) && t < |s.pcs| && Next(s, t, c).Some?
    requires !s.pcs[t].Store? && !(s.pcs[t].Fill? && s.pcs[t].k < MAX_BLOCK_POINTERS)
    requires s.pcs[t].Locked? ==> s.pcs[t].j < DATA_BLOCKS && s.blocks[s.pcs[t].j] != FREE
    ensures Inv(Next(s, t, c).value, o)
  {
    var pc := s.pcs[t];
    if pc.Idle? || pc.WantHandle? || pc.WantInode? || pc.LeaveInode? || pc.LeaveHandle? {
      LockNext(s, o, t, c);
    } else if pc.Scan? || pc.Locked? || pc.Unlocking? {
      ScanNext(s, o, t, c);
    } else {
      LoopNext(s, o, t, c);
    }
    QuietStep(s, o, Next(s, t, c).value, t);
  }

  /** Only one program counter, and perhaps a lock of thread t, moves. */
  ghost predicate Quiet(s: World, s': World, t: nat)
    requires Sizes(s) && t < |s.pcs|
  {
    && Sizes(s') && |s'.pcs| == |s.pcs| && LocksOf(s, s', t)
    && s' == s.(pcs := s.pcs[t := s'.pcs[t]], handleLock := s'.handleLock, inodeLock := s'.inodeLock, dbLock := s'.dbLock)
    && Hand(s'.pcs[t]) == Hand(s.pcs[t]) && PcOk(s', t, s'.pcs[t])
  }

  lemma LockNext(s: World, o: seq<Holder>, t: nat, c: Choice)
    requires Sizes(s) && AllPcsOk(s) && t < |s.pcs| && Next(s, t, c).Some?
    requires var pc := s.pcs[t];
             pc.Idle? || pc.WantHandle? || pc.WantInode? || pc.LeaveInode? || pc.LeaveHandle?
    ensures Quiet(s, Next(s, t, c).value, t)
  {
    assert PcOk(s, t, s.pcs[t]);
  }

  lemma ScanNext(s: World, o: seq<Holder>, t: nat, c: Choice)
    requires Sizes(s) && AllPcsOk(s) && t < |s.pcs| && Next(s, t, c).Some?
    requires s.pcs[t].Scan? || s.pcs[t].Locked? || s.pcs[t].Unlocking?
    requires s.pcs[t].Locked? ==> s.pcs[t].j < DATA_BLOCKS && s.blocks[s.pcs[t].j] != FREE
    ensures Quiet(s, Next(s, t, c).value, t)
  {
    assert PcOk(s, t, s.pcs[t]);
    var s' := Next(s, t, c).value;
    SameSlots(s, s');
  }

  lemma LoopNext(s: World, o: seq<Holder>, t: nat, c: Choice)
    requires Inv(s, o) && t < |s.pcs| && Next(s, t, c).Some?
    requires var pc := s.pcs[t];
             pc.Direct? || pc.Index? || pc.Pointers? || (pc.Fill? && pc.k >= MAX_BLOCK_POINTERS)
    ensures Quiet(s, Next(s, t, c).value, t)
  {
    assert PcOk(s, t, s.pcs[t]);
    var s' := Next(s, t, c).value;
    SameSlots(s, s');
  }

  lemma SameSlots(s: World, s': World)
    requires Sizes(s) && Sizes(s')
    requires s'.direct == s.direct && s'.dataBlock == s.dataBlock && s'.pointers == s.pointers
    ensures forall f, i :: ValidInumber(f) && 0 <= i <= INDEX_SLOT ==> SlotOf(s', f, i) == SlotOf(s, f, i)
  {
  }

  // ---------------------------------------------------------------------------
  // All interleavings
  // ---------------------------------------------------------------------------

  /** One entry of a schedule: which thread moves, and what the environment picks for it. */
  datatype Move = Move(t: nat, c: Choice)

  /** The state after a schedule; a move of a blocked or absent thread does nothing. */
  function Run(s: World, schedule: seq<Move>): World
    decreases |schedule|
  {
    if schedule == [] then s
    else
      var m := schedule[0];
      var s' := if Sizes(s) && m.t < |s.pcs| && Next(s, m.t, m.c).Some? then Next(s, m.t, m.c).value else s;
      Run(s', schedule[1..])
  }

  /** Nobody is inside inode_update and the slots of the files are exact. */
  ghost predicate Start(s: World, o: seq<Holder>) {
    && Sizes(s) && Holders(s, o) && s.dbLock == NONE
    && (forall t :: 0 <= t < |s.pcs| ==> s.pcs[t] == Idle)
    && (forall h :: 0 <= h < MAX_OPEN_FILES ==> s.handleLock[h] == NONE)
    && (forall f :: 0 <= f < INODE_TABLE_SIZE ==> s.inodeLock[f] == NONE)
  }

  lemma {:induction false} RunKeeps(s: World, o: seq<Holder>, schedule: seq<Move>) returns (o': seq<Holder>)
    requires Inv(s, o)
    ensures Inv(Run(s, schedule), o') && SameDirectory(o, o')
    decreases |schedule|
  {
    hide Holders, AllPcsOk, Next;
    if schedule == [] {
      o' := o;
    } else {
      var m := schedule[0];
      if m.t < |s.pcs| && Next(s, m.t, m.c).Some? {
        var o1 := StepKeeps(s, o, m.t, m.c);
        o' := RunKeeps(Next(s, m.t, m.c).value, o1, schedule[1..]);
      } else {
        o' := RunKeeps(s, o, schedule[1..]);
      }
    }
  }

  /** No block is in two slots, none in a slot and in a hand, none in two hands. */
  ghost predicate NoDoubleUse(s: World)
    requires Sizes(s)
  {
    && (forall f, i, g, j ::
          ValidInumber(f) && ValidInumber(g) && 0 <= i <= INDEX_SLOT && 0 <= j <= INDEX_SLOT
          && SlotOf(s, f, i) == SlotOf(s, g, j) && SlotOf(s, f, i) != -1 ==>
            f == g && i == j)
    && (forall t, f, i ::
          0 <= t < |s.pcs| && ValidInumber(f) && 0 <= i <= INDEX_SLOT && Hand(s.pcs[t]) != -1 ==>
            SlotOf(s, f, i) != Hand(s.pcs[t]))
    && (forall t, u :: 0 <= t < |s.pcs| && 0 <= u < |s.pcs| && t != u && Hand(s.pcs[t]) != -1 ==>
            Hand(s.pcs[u]) != Hand(s.pcs[t]))
  }

  /** A thread that got -1 from data_block_alloc finds every block TAKEN. */
  ghost predicate FailureMeansFull(s: World)
    requires Sizes(s)
  {
    forall t :: 0 <= t < |s.pcs| && s.pcs[t].Store? && s.pcs[t].b == -1 ==>
      forall b :: 0 <= b < DATA_BLOCKS ==> s.blocks[b] == TAKEN
  }

  /** Every TAKEN block is the root directory's, in a slot or in a hand. */
  ghost predicate NoneLost(s: World, o: seq<Holder>)
    requires Sizes(s) && |o| == DATA_BLOCKS
  {
    forall b :: 0 <= b < DATA_BLOCKS && s.blocks[b] == TAKEN && o[b] != Directory ==>
      || (exists f, i :: ValidInumber(f) && 0 <= i <= INDEX_SLOT && SlotOf(s, f, i) == b)
      || (exists t :: 0 <= t < |s.pcs| && Hand(s.pcs[t]) == b)
  }

  lemma InvIsSafe(s: World, o: seq<Holder>)
    requires Inv(s, o)
    ensures NoDoubleUse(s) && FailureMeansFull(s) && NoneLost(s, o)
  {
    forall t | 0 <= t < |s.pcs| && s.pcs[t].Store? && s.pcs[t].b == -1
      ensures forall b :: 0 <= b < DATA_BLOCKS ==> s.blocks[b] == TAKEN
    {
      assert PcOk(s, t, s.pcs[t]);
    }
    forall b | 0 <= b < DATA_BLOCKS && s.blocks[b] == TAKEN && o[b] != Directory
      ensures || (exists f, i :: ValidInumber(f) && 0 <= i <= INDEX_SLOT && SlotOf(s, f, i) == b)
              || (exists t :: 0 <= t < |s.pcs| && Hand(s.pcs[t]) == b)
    {
      if o[b].Stored? {
        assert SlotOf(s, o[b].f, o[b].i) == b;
      } else {
        assert Hand(s.pcs[o[b].t]) == b;
      }
    }
  }

  /**
   Concurrent allocation. Whatever the number of threads and however their
   steps interleave, data_block_alloc never hands one block to two threads, each
   block ends up in at most one pointer slot, no block is lost on the way, and a
   result of -1 means that every block is TAKEN.
   */
  lemma InterleavingsAreSafe(s: World, o: seq<Holder>, schedule: seq<Move>)
    requires Start(s, o)
    ensures Sizes(Run(s, schedule)) && NoDoubleUse(Run(s, schedule)) && FailureMeansFull(Run(s, schedule))
    ensures |o| == DATA_BLOCKS && NoneLost(Run(s, schedule), o)
  {
    assert AllPcsOk(s);
    var o' := RunKeeps(s, o, schedule);
    InvIsSafe(Run(s, schedule), o');
  }

  // ---------------------------------------------------------------------------
  // Starting from a state of the block store
  // ---------------------------------------------------------------------------

  /** The store's files with n idle threads; inodes that are no live file and closed handles play no part. */
  ghost function Enter(s: State, n: nat): (r: World)
    requires WellFormed(s)
    ensures Sizes(r)
  {
    World(
      s.blocks,
      seq(INODE_TABLE_SIZE, f requires 0 <= f < INODE_TABLE_SIZE =>
        if O.LiveFile(s, f) then s.inodes[f].direct else NoPointers()),
      seq(INODE_TABLE_SIZE, f requires 0 <= f < INODE_TABLE_SIZE =>
        if O.LiveFile(s, f) then s.inodes[f].dataBlock else -1),
      seq(DATA_BLOCKS, b requires 0 <= b < DATA_BLOCKS =>
        seq(MAX_BLOCK_POINTERS, j requires 0 <= j < MAX_BLOCK_POINTERS => ReadInt(s.data, PointerAt(b, j)))),
      seq(MAX_OPEN_FILES, h requires 0 <= h < MAX_OPEN_FILES =>
        if s.fileTs[h] == TAKEN && O.LiveFile(s, s.files[h].inumber) then s.files[h].inumber else -1),
      seq(MAX_OPEN_FILES, _ => NONE),
      seq(INODE_TABLE_SIZE, _ => NONE),
      NONE,
      seq(n, _ => Idle))
  }

  /** The holders a ledger stands for. */
  function HoldersOf(w: O.Ledger): (o: seq<Holder>)
    requires |w.owner| == DATA_BLOCKS
    ensures |o| == DATA_BLOCKS
  {
    seq<Holder>(DATA_BLOCKS, b requires 0 <= b < DATA_BLOCKS =>
      match w.owner[b]
      case Nobody => Unheld
      case Slot(f, i) => if f == ROOT_DIR_INUM then Directory else Stored(f, i))
  }

  /** Every state a sequential run can reach is a starting point for concurrent updates. */
  lemma StoreIsStart(s: State, w: O.Ledger, n: nat)
    requires O.Inv(s, w)
    ensures |w.owner| == DATA_BLOCKS && Start(Enter(s, n), HoldersOf(w))
  {
    var e := Enter(s, n);
    var o := HoldersOf(w);
    forall f, i | ValidInumber(f) && 0 <= i <= INDEX_SLOT
      ensures SlotOf(e, f, i) == if O.LiveFile(s, f) then O.Ptr(s, f, i) else -1
    {
    }
    forall b | 0 <= b < DATA_BLOCKS && o[b].Stored?
      ensures ValidInumber(o[b].f) && 0 <= o[b].i <= INDEX_SLOT && SlotOf(e, o[b].f, o[b].i) == b
    {
      assert O.Ptr(s, w.owner[b].inode, w.owner[b].index) == b;
      assert O.LiveFile(s, w.owner[b].inode);
    }
    assert Holders(e, o);
  }
}
