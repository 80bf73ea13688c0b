/**
 How reads and writes end: the number a read returns, also where it is not the
 documented one, and what a write does that runs out of blocks.
 */
module StoreOutcome {
  import opened Memory
  import opened Directory
  import opened StoreModel
  import opened Numbering
  import opened StoreOwnership
  import opened StoreAllocation
  import opened StoreUpdate
  import opened StoreWrite
  import opened StoreSplice
  import opened StoreRead

  // ---------------------------------------------------------------------------
  // What a read returns
  // ---------------------------------------------------------------------------

  /** i_size - of_offset in size_t: the size less the part of the position inside its block. */
  function Ahead(s: State, h: nat): (n: nat)
    requires WellFormed(s) && h < MAX_OPEN_FILES && ValidInumber(s.files[h].inumber)
  {
    var size, offset := s.inodes[s.files[h].inumber].size, s.files[h].offset;
    if offset <= size then size - offset else SIZE_MOD + size - offset
  }

  /**
   A read that ends returns min(len, size - of_offset), which past block 0 is the
   rest of the file and all the blocks before the position's, and past i_size,
   in block 0, nearly 2^64 cut to len.
   */
  lemma ReadReturns(s: State, h: nat, dst: seq<byte>, len: nat)
    requires WellFormed(s) && h < MAX_OPEN_FILES && ValidInumber(s.files[h].inumber) && len <= |dst|
    requires 0 <= s.files[h].boffset
    ensures var r := TfsRead(s, h, dst, len).2;
            var size := s.inodes[s.files[h].inumber].size;
            r.Done? ==>
              && r.n == Min(len, Ahead(s, h))
              && (Pos(s.files[h]) <= size ==> r.n == Min(len, size - Pos(s.files[h]) + s.files[h].boffset * BLOCK_SIZE))
  {
    hide ReadLoop;
    var n := Min(len, Ahead(s, h));
    assert ReadLength(s, h, len) == n;
    ReadLoopOutcome(s, h, dst, 0, n, n);
  }

  /** The bytes of a read whose min(len, size - of_offset) bytes are mapped and copied inside fs_data. */
  lemma ReadReturnsBytes(s: State, w: Ledger, h: nat, dst: seq<byte>, len: nat)
    requires WellFormed(s) && Inv(s, w) && |w.count| == INODE_TABLE_SIZE && len <= |dst|
    requires h < MAX_OPEN_FILES && LiveFile(s, s.files[h].inumber) && Mapped(s, w, h, Min(len, Ahead(s, h)))
    ensures var n := Min(len, Ahead(s, h));
            var f := s.files[h].inumber;
            var (s', dst', r) := TfsRead(s, h, dst, len);
            if CopiesFit(s, f, Pos(s.files[h]), n) then
              && r == Done(n) && dst' == Splice(dst, 0, Slice(s, f, Pos(s.files[h]), n))
              && s' == s.(files := s.files[h := s'.files[h]]) && Pos(s'.files[h]) == Pos(s.files[h]) + n
            else r == Fault
  {
    hide Inv, ReadLoop, CopiesFit, Slice;
    var n := Min(len, Ahead(s, h));
    assert ReadLength(s, h, len) == n;
    ReadLoopSlices(s, w, h, dst, 0, n, n);
  }

  /** inode_update finds a place from which all of the rest can be copied. */
  lemma RoundFinds(s: State, w: Ledger, h: nat, n: nat, m: int) returns (w1: Ledger)
    requires WellFormed(s) && Inv(s, w) && h < MAX_OPEN_FILES && LiveFile(s, s.files[h].inumber)
    requires |w.count| == INODE_TABLE_SIZE && 0 <= s.files[h].boffset < FILE_BLOCKS
    requires FreeCount(s.blocks) >= Missing(s, w, s.files[h].inumber, s.files[h].boffset + 1) && Below(s.blocks, m)
    requires m >= DATA_BLOCKS - (FreeCount(s.blocks) - Missing(s, w, s.files[h].inumber, s.files[h].boffset + 1))
    requires (m - 1) * BLOCK_SIZE + s.files[h].offset + n <= DATA_SIZE
    ensures var (s1, p) := InodeUpdate(s, h);
            var f := s.files[h].inumber;
            && p.Address? && p.at + n <= DATA_SIZE && Inv(s1, w1) && |w1.count| == INODE_TABLE_SIZE
            && s1.files == s.files && LiveFile(s1, f) && Below(s1.blocks, m)
            && w1.count[f] == Max(w.count[f], s.files[h].boffset + 1)
            && (s1.inodes[f].dataBlock == -1 <==>
                  s.inodes[f].dataBlock == -1 && s.files[h].boffset + 1 <= DIRECT_BLOCK_POINTERS)
            && FreeCount(s1.blocks) == FreeCount(s.blocks) - Missing(s, w, f, s.files[h].boffset + 1)
  {
    hide Owners, Shapes, Root, InodeUpdate, FreeCount, Ptr, Extends, Missing, Below, LowestFirst;
    var f := s.files[h].inumber;
    w1 := InodeUpdateEffect(s, w, h);
    var s1 := InodeUpdate(s, h).0;
    UpdateLowest(s, h);
    StillBelow(s.blocks, s1.blocks, m);
    ReachedFacts(s, w, s1, w1, f);
    MappedIsTaken(s1, w1, f, s.files[h].boffset);
    TakenIsBelow(s1.blocks, m, Ptr(s1, f, s.files[h].boffset));
  }

  lemma TakenIsBelow(t: seq<Allocation>, m: int, b: int)
    requires Below(t, m) && 0 <= b < |t| && t[b] == TAKEN
    ensures b < m
  {
  }

  /** Blocks for the whole are blocks for the first round and for the rest. */
  lemma NeededRest(s: State, w: Ledger, s2: State, w2: Ledger, h: nat, n: nat)
    requires WellFormed(s) && WellFormed(s2) && h < MAX_OPEN_FILES && ValidInumber(s.files[h].inumber)
    requires |w.count| == |w2.count| == INODE_TABLE_SIZE && n > 0 && 0 <= s.files[h].boffset
    requires var f, b := s.files[h].inumber, s.files[h].boffset + 1;
             && s2.files[h].inumber == f && Pos(s2.files[h]) == Pos(s.files[h]) + ReadStep(n, s.files[h].offset)
             && w2.count[f] == Max(w.count[f], b)
             && (s2.inodes[f].dataBlock == -1 <==> s.inodes[f].dataBlock == -1 && b <= DIRECT_BLOCK_POINTERS)
    ensures var f, b := s.files[h].inumber, s.files[h].boffset + 1;
            Needed(s, w, h, n) == Missing(s, w, f, b) + Needed(s2, w2, h, n - ReadStep(n, s.files[h].offset))
  {
    var pos, aux := Pos(s.files[h]), ReadStep(n, s.files[h].offset);
    assert BlocksFor(pos, n) >= s.files[h].boffset + 1;
    assert aux < n ==> BlocksFor(pos + aux, n - aux) == BlocksFor(pos, n);
    assert aux == n ==> BlocksFor(pos, n) == s.files[h].boffset + 1;
  }

  /** What a round of a read that maps its block leaves for the rounds after it. */
  lemma RoundLeaves(s: State, w: Ledger, h: nat, n: nat, m: int) returns (w': Ledger)
    requires WellFormed(s) && Inv(s, w) && h < MAX_OPEN_FILES && LiveFile(s, s.files[h].inumber)
    requires |w.count| == INODE_TABLE_SIZE && n > 0 && 0 <= s.files[h].boffset && Pos(s.files[h]) + n <= FILE_BYTES
    requires FreeCount(s.blocks) >= Needed(s, w, h, n)
    requires Below(s.blocks, m) && m >= DATA_BLOCKS - (FreeCount(s.blocks) - Needed(s, w, h, n))
    requires (m - 1) * BLOCK_SIZE + s.files[h].offset + n <= DATA_SIZE
    ensures var (s1, p) := InodeUpdate(s, h);
            var aux := ReadStep(n, s.files[h].offset);
            var s2 := Advance(s1, h, aux);
            && p.Address? && p.at + n <= DATA_SIZE
            && Inv(s2, w') && |w'.count| == INODE_TABLE_SIZE && s2.files[h].inumber == s.files[h].inumber
            && LiveFile(s2, s2.files[h].inumber) && 0 <= s2.files[h].boffset
            && Pos(s2.files[h]) == Pos(s.files[h]) + aux
            && (aux < n ==> s2.files[h].offset == 0)
            && FreeCount(s2.blocks) - Needed(s2, w', h, n - aux) == FreeCount(s.blocks) - Needed(s, w, h, n)
            && FreeCount(s2.blocks) >= Needed(s2, w', h, n - aux) && Below(s2.blocks, m)
  {
    hide Inv, InodeUpdate, FreeCount, Ptr, Below, Missing;
    FirstRoundFits(s, w, h, n);
    w' := RoundFinds(s, w, h, n, m);
    var s1 := InodeUpdate(s, h).0;
    var aux := ReadStep(n, s.files[h].offset);
    AdvanceKeeps(s1, w', h, aux);
    NeededRest(s, w, Advance(s1, h, aux), w', h, n);
  }

  lemma MappedIsTaken(s: State, w: Ledger, f: int, i: nat)
    requires Inv(s, w) && LiveFile(s, f) && i < FILE_BLOCKS
    ensures ValidBlock(Ptr(s, f, i)) ==> s.blocks[Ptr(s, f, i)] == TAKEN
  {
  }

  lemma StillBelow(t: seq<Allocation>, t': seq<Allocation>, m: int)
    requires LowestFirst(t, t') && Below(t, m) && m >= |t| - FreeCount(t')
    ensures Below(t', m)
  {
  }

  /**
   A read that may map blocks ends with its count when enough blocks are free
   and the last block it may use leaves room for what it copies.
   */
  lemma {:induction false} ReadCompletes(s: State, w: Ledger, h: nat, dst: seq<byte>, at: nat, n: nat, total: nat, m: int)
    requires WellFormed(s) && Inv(s, w) && h < MAX_OPEN_FILES && LiveFile(s, s.files[h].inumber)
    requires |w.count| == INODE_TABLE_SIZE && at + n <= |dst|
    requires 0 <= s.files[h].boffset && Pos(s.files[h]) + n <= FILE_BYTES
    requires FreeCount(s.blocks) >= Needed(s, w, h, n)
    requires Below(s.blocks, m) && m >= DATA_BLOCKS - (FreeCount(s.blocks) - Needed(s, w, h, n))
    requires (m - 1) * BLOCK_SIZE + s.files[h].offset + n <= DATA_SIZE
    ensures ReadLoop(s, h, dst, at, n, total).2 == Done(total)
    decreases n
  {
    hide Inv, InodeUpdate, FreeCount, Needed, Advance, Below;
    if n > 0 {
      var w1 := RoundLeaves(s, w, h, n, m);
      var (s1, p) := InodeUpdate(s, h);
      var aux := ReadStep(n, s.files[h].offset);
      if aux < n {
        ReadCompletes(Advance(s1, h, aux), w1, h, Splice(dst, at, s1.data[p.at..p.at + n]), at + aux, n - aux, total, m);
      }
    }
  }

  // ---------------------------------------------------------------------------
  // A write that runs out of blocks
  // ---------------------------------------------------------------------------

  /** How many data blocks file f can have with the blocks that are free. */
  function Reachable(s: State, w: Ledger, f: nat): int
    requires WellFormed(s) && f < INODE_TABLE_SIZE && |w.count| == INODE_TABLE_SIZE
  {
    var all := w.count[f] + FreeCount(s.blocks);
    if s.inodes[f].dataBlock == -1 && all > DIRECT_BLOCK_POINTERS then all - 1 else all
  }

  /** How many bytes from position pos on lie in those blocks. */
  function BytesThatFit(pos: int, blocks: int): nat {
    if blocks * BLOCK_SIZE > pos then blocks * BLOCK_SIZE - pos else 0
  }

  /**
   The write leaves the arrays instead of returning -1: the block number -1 is
   added to an offset that is not 0, or there is no index block to look into.
   */
  predicate StopsOutside(s: State, w: Ledger, h: nat)
    requires WellFormed(s) && h < MAX_OPEN_FILES && ValidInumber(s.files[h].inumber) && |w.count| == INODE_TABLE_SIZE
  {
    var file := s.files[h];
    var blocks := Reachable(s, w, file.inumber);
    || (blocks <= file.boffset && file.offset != 0)
    || (s.inodes[file.inumber].dataBlock == -1 && blocks <= DIRECT_BLOCK_POINTERS
        && w.count[file.inumber] + FreeCount(s.blocks) <= DIRECT_BLOCK_POINTERS
        && (blocks == DIRECT_BLOCK_POINTERS || file.boffset >= DIRECT_BLOCK_POINTERS))
  }

  /** The same at the round that finds no block. */
  predicate StopsNow(s: State, w: Ledger, h: nat)
    requires WellFormed(s) && h < MAX_OPEN_FILES && ValidInumber(s.files[h].inumber) && |w.count| == INODE_TABLE_SIZE
  {
    var f := s.files[h].inumber;
    || s.files[h].offset != 0
    || (s.files[h].boffset >= DIRECT_BLOCK_POINTERS && s.inodes[f].dataBlock == -1
        && w.count[f] + FreeCount(s.blocks) <= DIRECT_BLOCK_POINTERS)
  }

  /** k bytes from an offset on end with the end of a block. */
  predicate EndsBlock(offset: nat, k: nat) {
    k == 0 || (offset + k) % BLOCK_SIZE == 0
  }

  /** A write whose first part ends a block is that part and then the rest. */
  lemma {:induction false} PartThenRest(s: State, h: nat, buf: seq<byte>, k: nat, total: nat)
    requires WellFormed(s) && h < MAX_OPEN_FILES && ValidInumber(s.files[h].inumber) && k <= |buf|
    requires EndsBlock(s.files[h].offset, k) && WriteLoop(s, h, buf[..k], total).1.Done?
    ensures var s1 := WriteLoop(s, h, buf[..k], total).0;
            s1.files[h].inumber == s.files[h].inumber && WriteLoop(s, h, buf, total) == WriteLoop(s1, h, buf[k..], total)
    decreases k
  {
    hide InodeUpdate, PutBytes;
    if k == 0 {
      assert buf[..0] == [] && buf[0..] == buf;
    } else {
      var aux := WriteStep(|buf|, s.files[h].offset);
      var (s1, p) := InodeUpdate(s, h);
      assert aux == WriteStep(k, s.files[h].offset) == BLOCK_SIZE - s.files[h].offset;
      assert buf[..k][..aux] == buf[..aux] && buf[..k][aux..] == buf[aux..][..k - aux] && buf[aux..][k - aux..] == buf[k..];
      var s2 := PutBytes(s1, h, p.at, buf[..aux]);
      PutMoves(s1, h, p.at, buf[..aux]);
      PartThenRest(s2, h, buf[aux..], k - aux, total);
    }
  }

  lemma PutMoves(s: State, h: nat, at: nat, chunk: seq<byte>)
    requires WellFormed(s) && h < MAX_OPEN_FILES && ValidInumber(s.files[h].inumber)
    requires at + |chunk| <= DATA_SIZE && s.files[h].offset + |chunk| == BLOCK_SIZE
    ensures PutBytes(s, h, at, chunk).files[h].offset == 0
  {
  }

  /** The blocks that fit are enough for the bytes that fit, and for no more. */
  lemma PartFits(s: State, w: Ledger, h: nat, n: nat)
    requires WellFormed(s) && h < MAX_OPEN_FILES && LiveFile(s, s.files[h].inumber) && |w.count| == INODE_TABLE_SIZE
    requires 0 <= s.files[h].boffset && Pos(s.files[h]) + n <= FILE_BYTES
    requires s.inodes[s.files[h].inumber].dataBlock == -1 ==> w.count[s.files[h].inumber] <= DIRECT_BLOCK_POINTERS
    requires FreeCount(s.blocks) < Needed(s, w, h, n)
    ensures var k := BytesThatFit(Pos(s.files[h]), Reachable(s, w, s.files[h].inumber));
            && k < n && FreeCount(s.blocks) >= Needed(s, w, h, k)
            && EndsBlock(s.files[h].offset, k)
            && (k > 0 ==> BlocksFor(Pos(s.files[h]), k) == Reachable(s, w, s.files[h].inumber))
  {
    hide FreeCount;
    var pos, f := Pos(s.files[h]), s.files[h].inumber;
    var blocks := Reachable(s, w, f);
    var t := BlocksFor(pos, n);
    assert t > blocks;
    assert pos + n > (t - 1) * BLOCK_SIZE >= blocks * BLOCK_SIZE;
  }

  /** After the bytes that fit, the next block is not to be had. */
  lemma NextIsMissing(s: State, w: Ledger, s1: State, w1: Ledger, h: nat, buf: seq<byte>, n: nat)
    requires WellFormed(s) && Room(s, h, |buf|) && |w.count| == INODE_TABLE_SIZE && Pos(s.files[h]) + n <= FILE_BYTES
    requires s.inodes[s.files[h].inumber].dataBlock == -1 ==> w.count[s.files[h].inumber] <= DIRECT_BLOCK_POINTERS
    requires |buf| == BytesThatFit(Pos(s.files[h]), Reachable(s, w, s.files[h].inumber)) < n
    requires buf != [] ==> BlocksFor(Pos(s.files[h]), |buf|) == Reachable(s, w, s.files[h].inumber)
    requires EndsBlock(s.files[h].offset, |buf|) && WriteDone(s, w, s1, w1, h, buf)
    ensures var f := s.files[h].inumber;
            && 0 <= s1.files[h].boffset < FILE_BLOCKS && LiveFile(s1, f) && s1.files[h].inumber == f
            && FreeCount(s1.blocks) < Missing(s1, w1, f, s1.files[h].boffset + 1)
            && (StopsOutside(s, w, h) <==> StopsNow(s1, w1, h))
  {
    hide Inv, FreeCount, Written;
  }

  /** s1 is what a completed write of the first k bytes leaves; then the write stops. */
  ghost predicate StopsAfter(s: State, w: Ledger, h: nat, buf: seq<byte>, k: nat, s1: State, w1: Ledger)
    requires WellFormed(s) && Inv(s, w) && Room(s, h, |buf|) && |w.count| == INODE_TABLE_SIZE && k <= |buf|
  {
    && Room(s, h, |buf[..k]|) && TfsWrite(s, h, buf[..k]) == (s1, Done(k)) && WriteDone(s, w, s1, w1, h, buf[..k])
    && TfsWrite(s, h, buf) == (InodeUpdate(s1, h).0, if StopsOutside(s, w, h) then Fault else Failed)
  }

  /**
   A write below 266 blocks that runs out of blocks. It is a completed write of
   the bytes that fit, up to the end of a block; the next inode_update takes what
   is left of the free blocks and the call returns -1, or leaves the arrays when
   the position was inside its first block or no index block could be had.
   */
  lemma WriteRunsOut(s: State, w: Ledger, h: nat, buf: seq<byte>) returns (s1: State, w1: Ledger)
    requires WellFormed(s) && Inv(s, w) && Room(s, h, |buf|) && |w.count| == INODE_TABLE_SIZE
    requires FreeCount(s.blocks) < Needed(s, w, h, |buf|)
    ensures var k := BytesThatFit(Pos(s.files[h]), Reachable(s, w, s.files[h].inumber));
            k < |buf| && StopsAfter(s, w, h, buf, k, s1, w1)
  {
    var k := BytesThatFit(Pos(s.files[h]), Reachable(s, w, s.files[h].inumber));
    LedgerFacts(s, w, s.files[h].inumber);
    PartFits(s, w, h, |buf|);
    hide Inv, FreeCount, Reachable, Needed, WriteDone, BytesThatFit, WriteLoop, StopsAfter, EndsBlock, BlocksFor;
    w1 := PartWritten(s, w, h, buf, k);
    s1 := WriteLoop(s, h, buf[..k], k).0;
    AfterPart(s, w, h, buf[..k], buf[k..], |buf|, s1, w1);
    StopsTogether(s, w, h, buf, k, s1, w1);
  }

  /** The write stops after the part that fits. */
  lemma AfterPart(s: State, w: Ledger, h: nat, part: seq<byte>, rest: seq<byte>, n: nat, s1: State, w1: Ledger)
    requires WellFormed(s) && Room(s, h, |part|) && |w.count| == INODE_TABLE_SIZE && rest != [] && |part| < n
    requires Pos(s.files[h]) + n <= FILE_BYTES
    requires s.inodes[s.files[h].inumber].dataBlock == -1 ==> w.count[s.files[h].inumber] <= DIRECT_BLOCK_POINTERS
    requires |part| == BytesThatFit(Pos(s.files[h]), Reachable(s, w, s.files[h].inumber))
    requires part != [] ==> BlocksFor(Pos(s.files[h]), |part|) == Reachable(s, w, s.files[h].inumber)
    requires EndsBlock(s.files[h].offset, |part|) && WriteDone(s, w, s1, w1, h, part)
    ensures WellFormed(s1) && s1.files[h].inumber == s.files[h].inumber
    ensures WriteLoop(s1, h, rest, n) == (InodeUpdate(s1, h).0, if StopsOutside(s, w, h) then Fault else Failed)
  {
    hide Inv, FreeCount, InodeUpdate, StopsOutside, Reachable, WriteDone, Missing, BytesThatFit, WriteLoop, StopsNow, BlocksFor,
         EndsBlock;
    NextIsMissing(s, w, s1, w1, h, part, n);
    DoneHasLedger(s, w, s1, w1, h, part);
    StuckOutcome(s1, w1, h, rest, n);
  }

  lemma StopsTogether(s: State, w: Ledger, h: nat, buf: seq<byte>, k: nat, s1: State, w1: Ledger)
    requires WellFormed(s) && Inv(s, w) && Room(s, h, |buf|) && |w.count| == INODE_TABLE_SIZE && k <= |buf|
    requires Room(s, h, |buf[..k]|) && WriteLoop(s, h, buf[..k], k) == (s1, Done(k)) && WriteDone(s, w, s1, w1, h, buf[..k])
    requires WriteLoop(s, h, buf, |buf|) == (InodeUpdate(s1, h).0, if StopsOutside(s, w, h) then Fault else Failed)
    ensures StopsAfter(s, w, h, buf, k, s1, w1)
  {
    hide Inv, WriteDone, WriteLoop, InodeUpdate, StopsOutside;
    assert |buf[..k]| == k;
  }

  lemma DoneHasLedger(s: State, w: Ledger, s1: State, w1: Ledger, h: nat, buf: seq<byte>)
    requires WellFormed(s) && Room(s, h, |buf|) && |w.count| == INODE_TABLE_SIZE && WriteDone(s, w, s1, w1, h, buf)
    ensures WellFormed(s1) && Inv(s1, w1) && |w1.count| == INODE_TABLE_SIZE
  {
    hide Inv, Written, FreeCount;
  }

  /** The part that fits is written, and the rest follows. */
  lemma PartWritten(s: State, w: Ledger, h: nat, buf: seq<byte>, k: nat) returns (w1: Ledger)
    requires WellFormed(s) && Inv(s, w) && Room(s, h, |buf|) && |w.count| == INODE_TABLE_SIZE && k <= |buf|
    requires FreeCount(s.blocks) >= Needed(s, w, h, k) && EndsBlock(s.files[h].offset, k)
    ensures Room(s, h, |buf[..k]|)
    ensures var s1 := WriteLoop(s, h, buf[..k], k).0;
            && WriteLoop(s, h, buf[..k], k).1 == Done(k) && WriteDone(s, w, s1, w1, h, buf[..k])
            && s1.files[h].inumber == s.files[h].inumber
            && WriteLoop(s, h, buf, |buf|) == WriteLoop(s1, h, buf[k..], |buf|)
  {
    hide Inv, FreeCount, Needed, WriteDone, WriteLoop;
    w1 := WriteLoopSplices(s, w, h, buf[..k], k);
    var w2 := WriteLoopSplices(s, w, h, buf[..k], |buf|);
    SameWhateverTotal(s, h, buf[..k], k, |buf|);
    PartThenRest(s, h, buf, k, |buf|);
  }

  /** What the number to be returned is plays no part in the loop. */
  lemma {:induction false} SameWhateverTotal(s: State, h: nat, buf: seq<byte>, k: nat, total: nat)
    requires WellFormed(s) && h < MAX_OPEN_FILES && ValidInumber(s.files[h].inumber)
    ensures WriteLoop(s, h, buf, k).0 == WriteLoop(s, h, buf, total).0
    decreases |buf|
  {
    hide InodeUpdate, PutBytes;
    if buf != [] {
      var aux := WriteStep(|buf|, s.files[h].offset);
      var (s1, p) := InodeUpdate(s, h);
      if p.Address? {
        SameWhateverTotal(PutBytes(s1, h, p.at, buf[..aux]), h, buf[aux..], k, total);
      }
    }
  }

  /** The round that finds no block. */
  lemma StuckOutcome(s: State, w: Ledger, h: nat, buf: seq<byte>, total: nat)
    requires WellFormed(s) && h < MAX_OPEN_FILES && LiveFile(s, s.files[h].inumber) && |w.count| == INODE_TABLE_SIZE
    requires Inv(s, w) && buf != [] && 0 <= s.files[h].boffset < FILE_BLOCKS
    requires FreeCount(s.blocks) < Missing(s, w, s.files[h].inumber, s.files[h].boffset + 1)
    ensures WriteLoop(s, h, buf, total) == (InodeUpdate(s, h).0, if StopsNow(s, w, h) then Fault else Failed)
  {
    hide Owners, Shapes, Root, InodeUpdate, FreeCount, Ptr, Extends, Missing;
    var w' := InodeUpdateEffect(s, w, h);
  }

  // ---------------------------------------------------------------------------
  // Early returns
  // ---------------------------------------------------------------------------

  /** A position that is NULL ends a write and a read with -1, one outside fs_data with an access there. */
  lemma NoPositionEnds(s: State, h: nat, buf: seq<byte>, dst: seq<byte>, at: nat, n: nat, total: nat)
    requires WellFormed(s) && h < MAX_OPEN_FILES && ValidInumber(s.files[h].inumber)
    requires buf != [] && n > 0 && at + n <= |dst|
    ensures var (s1, p) := InodeUpdate(s, h);
            && (p.Null? ==> WriteLoop(s, h, buf, total) == (s1, Failed) && ReadLoop(s, h, dst, at, n, total) == (s1, dst, Failed))
            && (p.Wild? ==> WriteLoop(s, h, buf, total) == (s1, Fault) && ReadLoop(s, h, dst, at, n, total) == (s1, dst, Fault))
  {
  }

  /** A number that is no handle, or a handle on a number that is no inode, is refused and nothing changes. */
  lemma BadHandlesRefused(s: State, h: int, buf: seq<byte>, dst: seq<byte>, len: nat)
    requires WellFormed(s) && len <= |dst|
    requires h < 0 || h >= 20 || s.files[h].inumber < 0 || s.files[h].inumber >= 50
    ensures TfsWrite(s, h, buf) == (s, Failed) && TfsRead(s, h, dst, len) == (s, dst, Failed)
    ensures h < 0 || h >= 20 || s.fileTs[h] == FREE ==> TfsClose(s, h) == (s, -1)
  {
  }

  /** Paths that are too short or have no leading slash, and unbound ones without TFS_O_CREAT, are refused. */
  lemma BadPathsRefused(s: State, path: cstring, flags: Flags)
    requires WellFormed(s)
    ensures |path| <= 1 || path[0] != 47 ==> TfsLookup(s, path) == -1 && TfsOpen(s, path, flags) == (s, -1)
    ensures TfsLookup(s, path) == -1 && !flags.creat ==> TfsOpen(s, path, flags) == (s, -1)
  {
  }

  /** Numbers that are no block, no inode or no live inode, and entries that cannot be, are refused. */
  lemma BadNumbersRefused(s: State, b: int, f: int, d: int, name: cstring)
    requires WellFormed(s)
    ensures b < 0 || b >= 1024 ==> DataBlockFree(s, b) == (s, false)
    ensures f < 0 || f >= 50 || s.inodeTs[f] == FREE ==> InodeDelete(s, f) == (s, false)
    ensures d < 0 || d >= 50 || f < 0 || f >= 50 || name == [] || s.inodes[d].kind == T_FILE ==>
              AddDirEntry(s, d, f, name) == (s, false)
    ensures d < 0 || d >= 50 || s.inodes[d].kind == T_FILE || s.inodes[d].dataBlock < 0 || s.inodes[d].dataBlock >= 1024 ==>
              FindInDir(s, d, name) == -1
  {
  }

  /** A directory that gets no block is not created: its inode is free again. */
  lemma DirectoryNeedsBlock(s: State)
    requires WellFormed(s) && FreeCount(s.blocks) == 0
    ensures var (s', f) := InodeCreate(s, T_DIRECTORY);
            f == -1 && s'.inodeTs == s.inodeTs && s'.blocks == s.blocks && s'.data == s.data
            && forall g :: 0 <= g < INODE_TABLE_SIZE && s.inodeTs[g] == TAKEN ==> s'.inodes[g] == s.inodes[g]
  {
    var g := FirstFree(s.inodeTs, 0);
    if g != -1 {
      var s1 := SetInode(s.(inodeTs := s.inodeTs[g := TAKEN]), g, s.inodes[g].(kind := T_DIRECTORY));
      AllocCounts(s1);
      assert s.inodeTs[g := TAKEN][g := FREE] == s.inodeTs;
    }
  }
  // ---------------------------------------------------------------------------
  // Numbers that are no blocks, positions that do not fit an int
  // ---------------------------------------------------------------------------

  /** What the freeing loops accept as a pointer: -1 is skipped, a block is freed. */
  predicate Freeable(b: int) {
    b == -1 || 0 <= b < 1024
  }

  lemma {:induction false} FreeDirectIff(s: State, f: nat, i: nat)
    requires WellFormed(s) && f < INODE_TABLE_SIZE && i <= DIRECT_BLOCK_POINTERS
    ensures var (s', ok) := FreeDirect(s, f, i);
            && s' == s.(blocks := s'.blocks)
            && (ok <==> forall j :: i <= j < DIRECT_BLOCK_POINTERS ==> Freeable(s.inodes[f].direct[j]))
    decreases DIRECT_BLOCK_POINTERS - i
  {
    if i < DIRECT_BLOCK_POINTERS {
      var b := s.inodes[f].direct[i];
      var s1 := if b == -1 then s else DataBlockFree(s, b).0;
      FreeDirectIff(s1, f, i + 1);
      assert Freeable(b) <==> b == -1 || DataBlockFree(s, b).1;
    }
  }

  lemma {:induction false} FreePointersIff(s: State, blk: nat, j: nat)
    requires WellFormed(s) && blk < DATA_BLOCKS && j <= MAX_BLOCK_POINTERS
    ensures FreePointers(s, blk, j).1 <==>
            forall k :: j <= k < MAX_BLOCK_POINTERS ==> Freeable(ReadInt(s.data, PointerAt(blk, k)))
    decreases MAX_BLOCK_POINTERS - j
  {
    if j < MAX_BLOCK_POINTERS {
      var b := ReadInt(s.data, PointerAt(blk, j));
      var s1 := if b == -1 then s else DataBlockFree(s, b).0;
      FreePointersIff(s1, blk, j + 1);
      assert Freeable(b) <==> b == -1 || DataBlockFree(s, b).1;
    }
  }

  /** Truncation succeeds, in any state, if and only if the file has size 0 or all it points to, on both levels, can be freed. */
  lemma DataFreeSucceedsIff(s: State, f: nat)
    requires WellFormed(s) && f < INODE_TABLE_SIZE
    ensures var ino := s.inodes[f];
            InodeDataFree(s, f).1 <==>
              || ino.size == 0
              || ((forall i :: 0 <= i < 10 ==> Freeable(ino.direct[i])) && Freeable(ino.dataBlock)
                  && (ino.dataBlock != -1 ==>
                        forall j :: 0 <= j < 256 ==> Freeable(ReadInt(s.data, PointerAt(ino.dataBlock, j)))))
  {
    FreeDirectIff(s, f, 0);
    var blk := s.inodes[f].dataBlock;
    if ValidBlock(blk) {
      FreePointersIff(FreeDirect(s, f, 0).0, blk, 0);
    }
  }

  /**
   A handle that starts at `offset`, as after TFS_O_APPEND on a file of that size:
   it stands there if and only if the number fits an int. From 2^31 to 2^32 the
   block of the position is not positive, and below 0 every access is outside the
   arrays.
   */
  lemma StartsThereIff(s: State, f: nat, offset: nat, buf: seq<byte>, dst: seq<byte>, len: nat)
    requires WellFormed(s) && FirstFree(s.fileTs, 0) != -1 && f < INODE_TABLE_SIZE && offset < SIZE_MOD
    requires buf != [] && len <= |dst|
    ensures var (s', h) := AddToOpenFileTable(s, f, offset);
            && 0 <= h < 20 && s'.files[h].inumber == f
            && (Pos(s'.files[h]) == offset <==> offset < 0x8000_0000)
            && (0x8000_0000 <= offset < 0x1_0000_0000 ==> s'.files[h].boffset == -((0x1_0000_0000 - offset) / 1024))
            && (s'.files[h].boffset < 0 ==>
                  && TfsWrite(s', h, buf) == (s', Fault)
                  && (ReadLength(s', h, len) > 0 ==> TfsRead(s', h, dst, len) == (s', dst, Fault)))
  {
  }
}
