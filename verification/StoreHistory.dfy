/**
 Consequences over several calls: a history of appends is a concatenation, the
 cost of a file in blocks is need(k), truncation is exact only for files that
 are empty when their size is 0, and how often a write calls inode_update.
 */
module StoreHistory {
  import opened Memory
  import opened Directory
  import opened StoreModel
  import opened StoreOwnership
  import opened StoreUpdate
  import opened StoreWrite
  import opened StoreSplice
  import opened StoreRead
  import opened StoreOpen
  import F = FlatStore

  // ---------------------------------------------------------------------------
  // Appending
  // ---------------------------------------------------------------------------

  /** The state after writing the buffers one after the other through one handle. */
  function WriteAll(s: State, h: int, bufs: seq<seq<byte>>): (r: State)
    requires WellFormed(s)
    ensures WellFormed(r)
    decreases |bufs|
  {
    if bufs == [] then s else WriteAll(TfsWrite(s, h, bufs[0]).0, h, bufs[1..])
  }

  function Concat(bufs: seq<seq<byte>>): seq<byte> {
    if bufs == [] then [] else bufs[0] + Concat(bufs[1..])
  }

  /** The handle stands at the end of its file, and the file's bytes are mapped. */
  ghost predicate AtEnd(s: State, w: Ledger, h: nat)
    requires WellFormed(s) && h < MAX_OPEN_FILES && ValidInumber(s.files[h].inumber) && |w.count| == INODE_TABLE_SIZE
  {
    var f := s.files[h].inumber;
    Pos(s.files[h]) == s.inodes[f].size <= w.count[f] * BLOCK_SIZE
  }

  /** What is enough for two writes in a row is enough for the second after the first. */
  lemma NeededAfterWrite(s: State, w: Ledger, s1: State, w1: Ledger, h: nat, buf: seq<byte>, rest: nat)
    requires WellFormed(s) && Room(s, h, |buf| + rest) && Room(s, h, |buf|) && |w.count| == INODE_TABLE_SIZE
    requires WriteDone(s, w, s1, w1, h, buf)
    requires s.inodes[s.files[h].inumber].dataBlock == -1 ==> w.count[s.files[h].inumber] <= DIRECT_BLOCK_POINTERS
    requires FreeCount(s.blocks) >= Needed(s, w, h, |buf| + rest)
    ensures Needed(s, w, h, |buf|) <= Needed(s, w, h, |buf| + rest)
    ensures Room(s1, h, rest) && FreeCount(s1.blocks) >= Needed(s1, w1, h, rest)
    ensures Inv(s1, w1) && |w1.count| == INODE_TABLE_SIZE && s1.files[h].inumber == s.files[h].inumber
  {
    hide Inv, Written, FreeCount;
  }

  lemma NeededMonotone(s: State, w: Ledger, h: nat, n: nat, m: nat)
    requires WellFormed(s) && h < MAX_OPEN_FILES && ValidInumber(s.files[h].inumber) && |w.count| == INODE_TABLE_SIZE
    requires 0 <= Pos(s.files[h]) && n <= m
    ensures Needed(s, w, h, n) <= Needed(s, w, h, m)
  {
  }

  /** One append. */
  lemma AppendOne(s: State, w: Ledger, h: nat, buf: seq<byte>) returns (w': Ledger)
    requires WellFormed(s) && Inv(s, w) && |w.count| == INODE_TABLE_SIZE
    requires Room(s, h, |buf|) && AtEnd(s, w, h) && FreeCount(s.blocks) >= Needed(s, w, h, |buf|)
    ensures var s' := TfsWrite(s, h, buf).0;
            var f := s.files[h].inumber;
            && WriteDone(s, w, s', w', h, buf) && AtEnd(s', w', h)
            && s'.inodes[f].size == s.inodes[f].size + |buf| <= FILE_BYTES
            && Slice(s', f, 0, s'.inodes[f].size) == Slice(s, f, 0, s.inodes[f].size) + buf
  {
    hide Inv, FreeCount, WriteLoop, Needed, FileByte;
    w' := WriteLoopSplices(s, w, h, buf, |buf|);
    var s' := TfsWrite(s, h, buf).0;
    var f := s.files[h].inumber;
    var n := s.inodes[f].size;
    forall p | 0 <= p < n + |buf|
      ensures Slice(s', f, 0, n + |buf|)[p] == (Slice(s, f, 0, n) + buf)[p]
    {
    }
  }

  /**
   Append history. Writing any list of buffers through a handle that stands at
   the end of its file leaves the file equal to the old content followed by all
   the buffers, with i_size equal to the position, across the boundary between
   direct and indirect blocks.
   */
  lemma {:induction false} AppendHistory(s: State, w: Ledger, h: nat, bufs: seq<seq<byte>>) returns (w': Ledger)
    requires WellFormed(s) && Inv(s, w) && |w.count| == INODE_TABLE_SIZE
    requires Room(s, h, |Concat(bufs)|) && AtEnd(s, w, h)
    requires FreeCount(s.blocks) >= Needed(s, w, h, |Concat(bufs)|)
    ensures var s' := WriteAll(s, h, bufs);
            var f := s.files[h].inumber;
            && Inv(s', w') && s'.files[h].inumber == f && |w'.count| == INODE_TABLE_SIZE && AtEnd(s', w', h)
            && s'.inodes[f].size == s.inodes[f].size + |Concat(bufs)| <= FILE_BYTES
            && Slice(s', f, 0, s'.inodes[f].size) == Slice(s, f, 0, s.inodes[f].size) + Concat(bufs)
    decreases |bufs|
  {
    hide Inv, FreeCount, TfsWrite, Needed, Slice, WriteDone;
    var f := s.files[h].inumber;
    if bufs == [] {
      w' := w;
      assert Slice(s, f, 0, s.inodes[f].size) + [] == Slice(s, f, 0, s.inodes[f].size);
    } else {
      var buf := bufs[0];
      var rest := Concat(bufs[1..]);
      assert |Concat(bufs)| == |buf| + |rest|;
      LedgerFacts(s, w, f);
      NeededMonotone(s, w, h, |buf|, |buf| + |rest|);
      var w1 := AppendOne(s, w, h, buf);
      var s1 := TfsWrite(s, h, buf).0;
      NeededAfterWrite(s, w, s1, w1, h, buf, |rest|);
      w' := AppendHistory(s1, w1, h, bufs[1..]);
      var before := Slice(s, f, 0, s.inodes[f].size);
      assert before + (buf + rest) == (before + buf) + rest;
    }
  }

  // ---------------------------------------------------------------------------
  // need(k)
  // ---------------------------------------------------------------------------

  /** The index block is there exactly when there are more than ten data blocks. */
  ghost predicate Tight(s: State, w: Ledger, f: nat)
    requires WellFormed(s) && f < INODE_TABLE_SIZE && |w.count| == INODE_TABLE_SIZE
  {
    s.inodes[f].dataBlock != -1 <==> w.count[f] > DIRECT_BLOCK_POINTERS
  }

  /**
   Block accounting of a write: the free count falls by need(k') - need(k), and
   the index block stays tied to the eleventh block.
   */
  lemma WriteCosts(s: State, w: Ledger, h: nat, buf: seq<byte>) returns (w': Ledger)
    requires WellFormed(s) && Inv(s, w) && |w.count| == INODE_TABLE_SIZE && Room(s, h, |buf|)
    requires FreeCount(s.blocks) >= Needed(s, w, h, |buf|) && Tight(s, w, s.files[h].inumber)
    ensures var s' := TfsWrite(s, h, buf).0;
            var f := s.files[h].inumber;
            && Inv(s', w') && |w'.count| == INODE_TABLE_SIZE && Tight(s', w', f)
            && w'.count[f] == Max(w.count[f], BlocksFor(Pos(s.files[h]), |buf|))
            && FreeCount(s'.blocks) == FreeCount(s.blocks) - (F.Need(w'.count[f]) - F.Need(w.count[f]))
  {
    hide Inv, FreeCount, WriteLoop, Written;
    w' := WriteLoopSplices(s, w, h, buf, |buf|);
  }

  /** Block accounting of a truncation: the free count rises by need(k). */
  lemma TruncateGains(s: State, w: Ledger, f: nat, flags: Flags) returns (w': Ledger)
    requires WellFormed(s) && Inv(s, w) && LiveFile(s, f) && flags.trunc && |w.count| == INODE_TABLE_SIZE
    requires SizedAt(s, w, f) && Tight(s, w, f)
    ensures var s' := OpenExisting(s, f, flags).0;
            && Inv(s', w') && |w'.count| == INODE_TABLE_SIZE && w'.count[f] == 0 && Tight(s', w', f)
            && FreeCount(s'.blocks) == FreeCount(s.blocks) + F.Need(w.count[f])
  {
    hide Inv, FreeCount, OpenExisting, SameFile;
    w' := TruncateReleases(s, w, f, flags);
  }

  // ---------------------------------------------------------------------------
  // Truncation of files of size 0
  // ---------------------------------------------------------------------------

  lemma TakenHasSlot(s: State, w: Ledger, b: nat)
    requires Inv(s, w) && b < DATA_BLOCKS && s.blocks[b] == TAKEN
    ensures exists g, j :: Live(s, g) && 0 <= j <= INDEX_SLOT && Ptr(s, g, j) == b
  {
    assert Ptr(s, w.owner[b].inode, w.owner[b].index) == b;
  }

  /** A TAKEN block that no slot leads to fits no ledger. */
  lemma OrphanHasNoLedger(s: State, b: nat)
    requires WellFormed(s) && b < DATA_BLOCKS && s.blocks[b] == TAKEN
    requires forall g, j :: Live(s, g) && 0 <= j <= INDEX_SLOT ==> Ptr(s, g, j) != b
    ensures forall w :: !Inv(s, w)
  {
    forall w
      ensures !Inv(s, w)
    {
      if Inv(s, w) {
        TakenHasSlot(s, w, b);
      }
    }
  }

  /**
   Truncation keeps the blocks accounted for if and only if a file whose size is
   0 has no blocks: inode_data_free skips such a file and the pointers are then
   wiped.
   */
  lemma TruncateExactIff(s: State, w: Ledger, f: nat, flags: Flags)
    requires WellFormed(s) && Inv(s, w) && LiveFile(s, f) && flags.trunc && |w.count| == INODE_TABLE_SIZE
    ensures (exists w' :: Inv(OpenExisting(s, f, flags).0, w')) <==> SizedAt(s, w, f)
  {
    if SizedAt(s, w, f) {
      var w' := TruncateReleases(s, w, f, flags);
      assert Inv(OpenExisting(s, f, flags).0, w');
    } else {
      var s' := OpenExisting(s, f, flags).0;
      var i := if w.count[f] > 0 then 0 else INDEX_SLOT;
      var b := Ptr(s, f, i);
      assert w.owner[b] == Slot(f, i);
      assert s'.blocks[b] == TAKEN;
      forall g, j | Live(s', g) && 0 <= j <= INDEX_SLOT
        ensures Ptr(s', g, j) != b
      {
        if g != f {
          assert Ptr(s', g, j) == Ptr(s, g, j);
        }
      }
      OrphanHasNoLedger(s', b);
    }
  }

  // ---------------------------------------------------------------------------
  // Rounds
  // ---------------------------------------------------------------------------

  /** How often the loop of tfs_write calls inode_update. */
  function UpdateCalls(s: State, h: nat, buf: seq<byte>): nat
    requires WellFormed(s) && h < MAX_OPEN_FILES && ValidInumber(s.files[h].inumber)
    decreases |buf|
  {
    if |buf| == 0 then 0
    else
      var aux := WriteStep(|buf|, s.files[h].offset);
      var (s1, p) := InodeUpdate(s, h);
      1 + (if p.Address? then UpdateCalls(PutBytes(s1, h, p.at, buf[..aux]), h, buf[aux..]) else 0)
  }

  /** A successful write of n > 0 bytes calls inode_update once for each block it touches. */
  lemma {:induction false} CallsPerBlock(s: State, w: Ledger, h: nat, buf: seq<byte>)
    requires WellFormed(s) && Inv(s, w) && |w.count| == INODE_TABLE_SIZE && Room(s, h, |buf|) && buf != []
    requires FreeCount(s.blocks) >= Needed(s, w, h, |buf|)
    ensures var pos := Pos(s.files[h]);
            UpdateCalls(s, h, buf) == (pos + |buf| - 1) / BLOCK_SIZE - pos / BLOCK_SIZE + 1
    decreases |buf|
  {
    hide Inv, FreeCount, Missing, InodeUpdate, PutBytes, Needed, KeepsBlocks, FileBlock, Ptr;
    FirstRoundFits(s, w, h, |buf|);
    var w1 := FirstRound(s, w, h, buf);
    var (s1, p) := InodeUpdate(s, h);
    var aux := WriteStep(|buf|, s.files[h].offset);
    var s2 := PutBytes(s1, h, p.at, buf[..aux]);
    assert UpdateCalls(s, h, buf) == 1 + UpdateCalls(s2, h, buf[aux..]);
    RoundArithmetic(s.files[h].boffset, s.files[h].offset, |buf|, aux);
    if aux < |buf| {
      CallsPerBlock(s2, w1, h, buf[aux..]);
    }
  }

  /** The first round ends the write or takes it to the start of the next block. */
  lemma RoundArithmetic(i: nat, o: nat, n: nat, aux: nat)
    requires o < BLOCK_SIZE && 0 < aux <= n && o + aux <= BLOCK_SIZE && (aux == n || o + aux == BLOCK_SIZE)
    ensures var pos := i * BLOCK_SIZE + o;
            && pos / BLOCK_SIZE == i
            && (aux < n ==> (pos + aux) / BLOCK_SIZE == i + 1)
            && (aux == n ==> (pos + n - 1) / BLOCK_SIZE == i)
  {
  }
}
