/**
 tfs_write as a splice into the flat file, for every buffer: what it writes,
 what it leaves alone, how many blocks it uses up, and when it succeeds.
 */
module StoreSplice {
  import opened Memory
  import opened Directory
  import opened StoreModel
  import opened StoreOwnership
  import opened StoreUpdate
  import opened StoreWrite

  /** The root directory has the same inode and the same bytes. */
  ghost predicate SameRoot(s: State, s': State)
    requires WellFormed(s) && WellFormed(s')
  {
    && s'.inodes[ROOT_DIR_INUM] == s.inodes[ROOT_DIR_INUM]
    && (ValidBlock(s.inodes[ROOT_DIR_INUM].dataBlock) ==>
          BlockOf(s'.data, s.inodes[ROOT_DIR_INUM].dataBlock) == BlockOf(s.data, s.inodes[ROOT_DIR_INUM].dataBlock))
  }

  /** Every mapped byte of every live file other than f is the same, and so is the root directory. */
  ghost predicate KeepsOthers(s: State, w: Ledger, s': State, w': Ledger, f: int)
    requires WellFormed(s) && WellFormed(s') && |w.count| == |w'.count| == INODE_TABLE_SIZE && ValidInumber(f)
  {
    && SameRoot(s, s') && w'.bindings == w.bindings
    && w.count[f] <= w'.count[f] <= FILE_BLOCKS && w'.count == w.count[f := w'.count[f]]
    && (forall g, i :: LiveFile(s, g) && g != f && 0 <= i < w.count[g] <= FILE_BLOCKS ==>
          FileBlock(s', g, i) == FileBlock(s, g, i))
  }

  /** Bytes [pos, pos + |buf|) of file f are buf, its other mapped bytes are the old ones. */
  ghost predicate Written(s: State, w: Ledger, s': State, w': Ledger, f: int, pos: int, buf: seq<byte>)
    requires WellFormed(s) && WellFormed(s') && |w.count| == |w'.count| == INODE_TABLE_SIZE && ValidInumber(f)
  {
    && KeepsOthers(s, w, s', w', f)
    && 0 <= pos && (buf != [] ==> pos + |buf| <= w'.count[f] * BLOCK_SIZE)
    && (forall p :: pos <= p < pos + |buf| ==> FileByte(s', f, p) == buf[p - pos])
    && (forall p :: 0 <= p < w.count[f] * BLOCK_SIZE && !(pos <= p < pos + |buf|) ==>
          FileByte(s', f, p) == FileByte(s, f, p))
  }

  /** Byte p of a file is byte p % 1024 of its block p / 1024. */
  lemma ByteOfBlock(s: State, f: int, p: int, i: int, o: int)
    requires WellFormed(s) && ValidInumber(f) && 0 <= i < FILE_BLOCKS && 0 <= o < BLOCK_SIZE && p == i * BLOCK_SIZE + o
    ensures p / BLOCK_SIZE == i && p % BLOCK_SIZE == o
    ensures FileByte(s, f, p) == if FileBlock(s, f, i) == [] then 0 else FileBlock(s, f, i)[o]
  {
  }

  /** One round of the loop, seen in flat positions. */
  lemma RoundWrites(s: State, w: Ledger, s': State, w': Ledger, h: nat, chunk: seq<byte>)
    requires WellFormed(s) && h < MAX_OPEN_FILES && LiveFile(s, s.files[h].inumber)
    requires 0 <= s.files[h].boffset < FILE_BLOCKS && s.files[h].offset + |chunk| <= BLOCK_SIZE
    requires |w.count| == INODE_TABLE_SIZE && w.count[s.files[h].inumber] <= FILE_BLOCKS
    requires s.files[h].inumber != ROOT_DIR_INUM
    requires Round(s, w, s', w', h, chunk)
    ensures Written(s, w, s', w', s.files[h].inumber, Pos(s.files[h]), chunk)
  {
    hide Inv, Missing, FreeCount, FileBlock, FileByte;
    var f := s.files[h].inumber;
    var i := s.files[h].boffset;
    var o := s.files[h].offset;
    var pos := Pos(s.files[h]);
    forall p | pos <= p < pos + |chunk|
      ensures FileByte(s', f, p) == chunk[p - pos]
    {
      ByteOfBlock(s', f, p, i, o + (p - pos));
      assert FileBlock(s', f, i)[o..o + |chunk|][p - pos] == chunk[p - pos];
    }
    forall p | 0 <= p < w.count[f] * BLOCK_SIZE && !(pos <= p < pos + |chunk|)
      ensures FileByte(s', f, p) == FileByte(s, f, p)
    {
      var j, q := p / BLOCK_SIZE, p % BLOCK_SIZE;
      ByteOfBlock(s, f, p, j, q);
      ByteOfBlock(s', f, p, j, q);
      if j != i {
        assert FileBlock(s', f, j) == FileBlock(s, f, j);
      }
    }
  }

  lemma WrittenTrans(s: State, w: Ledger, s1: State, w1: Ledger, s2: State, w2: Ledger,
                     f: int, pos: int, buf: seq<byte>, n: nat)
    requires WellFormed(s) && WellFormed(s1) && WellFormed(s2) && ValidInumber(f) && n <= |buf|
    requires |w.count| == |w1.count| == |w2.count| == INODE_TABLE_SIZE && w.count[f] <= FILE_BLOCKS
    requires s1.inodeTs == s.inodeTs && forall g :: LiveFile(s, g) ==> LiveFile(s1, g)
    requires Written(s, w, s1, w1, f, pos, buf[..n]) && Written(s1, w1, s2, w2, f, pos + n, buf[n..])
    ensures Written(s, w, s2, w2, f, pos, buf)
  {
    hide FileByte, FileBlock;
    forall g, i | LiveFile(s, g) && g != f && 0 <= i < w.count[g] <= FILE_BLOCKS
      ensures FileBlock(s2, g, i) == FileBlock(s, g, i)
    {
      assert FileBlock(s1, g, i) == FileBlock(s, g, i);
    }
    forall p | pos <= p < pos + |buf|
      ensures FileByte(s2, f, p) == buf[p - pos]
    {
      if p < pos + n {
        assert FileByte(s1, f, p) == buf[..n][p - pos];
      } else {
        assert FileByte(s2, f, p) == buf[n..][p - (pos + n)];
      }
    }
    forall p | 0 <= p < w.count[f] * BLOCK_SIZE && !(pos <= p < pos + |buf|)
      ensures FileByte(s2, f, p) == FileByte(s, f, p)
    {
      assert FileByte(s1, f, p) == FileByte(s, f, p);
    }
  }

  // ---------------------------------------------------------------------------
  // The whole loop
  // ---------------------------------------------------------------------------

  /** Handle h is open on a live file, at a position that leaves room for n bytes. */
  ghost predicate Room(s: State, h: int, n: nat)
    requires WellFormed(s)
  {
    && ValidHandle(h) && LiveFile(s, s.files[h].inumber)
    && 0 <= s.files[h].boffset && Pos(s.files[h]) + n <= FILE_BYTES
    && s.inodes[s.files[h].inumber].size + n < SIZE_MOD
  }

  /** How many blocks a write of n bytes through handle h has to allocate. */
  function Needed(s: State, w: Ledger, h: nat, n: nat): nat
    requires WellFormed(s) && h < MAX_OPEN_FILES && ValidInumber(s.files[h].inumber) && |w.count| == INODE_TABLE_SIZE
  {
    Missing(s, w, s.files[h].inumber, BlocksFor(Pos(s.files[h]), n))
  }

  /** The blocks of a whole write are those of its first round and those of the rest. */
  lemma NeededSplit(s: State, w: Ledger, s': State, w': Ledger, h: nat, buf: seq<byte>)
    requires WellFormed(s) && h < MAX_OPEN_FILES && ValidInumber(s.files[h].inumber) && buf != []
    requires |w.count| == INODE_TABLE_SIZE && 0 <= s.files[h].boffset && Pos(s.files[h]) + |buf| <= FILE_BYTES
    requires var aux := WriteStep(|buf|, s.files[h].offset);
             s.files[h].boffset < FILE_BLOCKS && Round(s, w, s', w', h, buf[..aux])
    requires s.inodes[s.files[h].inumber].dataBlock == -1 ==> w.count[s.files[h].inumber] <= DIRECT_BLOCK_POINTERS
    ensures var aux := WriteStep(|buf|, s.files[h].offset);
            var f := s.files[h].inumber;
            var t := BlocksFor(Pos(s.files[h]), |buf|);
            && Needed(s, w, h, |buf|) == Missing(s, w, f, s.files[h].boffset + 1) + Needed(s', w', h, |buf| - aux)
            && (aux < |buf| ==> BlocksFor(Pos(s'.files[h]), |buf| - aux) == t)
            && s.files[h].boffset + 1 <= t <= FILE_BLOCKS
            && (aux == |buf| ==> t == s.files[h].boffset + 1)
  {
    hide Inv, KeepsBlocks, FileBlock;
  }

  /** Before a first round: enough for the whole write is enough for it. */
  lemma FirstRoundFits(s: State, w: Ledger, h: nat, n: nat)
    requires WellFormed(s) && h < MAX_OPEN_FILES && ValidInumber(s.files[h].inumber) && n > 0
    requires |w.count| == INODE_TABLE_SIZE && 0 <= s.files[h].boffset && Pos(s.files[h]) + n <= FILE_BYTES
    ensures s.files[h].boffset < FILE_BLOCKS
    ensures Missing(s, w, s.files[h].inumber, s.files[h].boffset + 1) <= Needed(s, w, h, n)
  {
  }

  /** What a completed write of buf through handle h does. */
  ghost predicate WriteDone(s: State, w: Ledger, s': State, w': Ledger, h: nat, buf: seq<byte>)
    requires WellFormed(s) && Room(s, h, |buf|) && |w.count| == INODE_TABLE_SIZE
  {
    var f := s.files[h].inumber;
    var pos := Pos(s.files[h]);
    && WellFormed(s') && Inv(s', w') && |w'.count| == INODE_TABLE_SIZE && OnlyFile(s, s', f, h)
    && Written(s, w, s', w', f, pos, buf)
    && Pos(s'.files[h]) == pos + |buf|
    && s'.inodes[f].size == s.inodes[f].size + |buf|
    && w'.count[f] == Max(w.count[f], BlocksFor(pos, |buf|))
    && FreeCount(s'.blocks) == FreeCount(s.blocks) - Needed(s, w, h, |buf|)
    && (s'.inodes[f].dataBlock == -1 <==>
          s.inodes[f].dataBlock == -1 && BlocksFor(pos, |buf|) <= DIRECT_BLOCK_POINTERS)
  }

  lemma LedgerFacts(s: State, w: Ledger, f: int)
    requires Inv(s, w) && LiveFile(s, f)
    ensures f != ROOT_DIR_INUM && |w.count| == INODE_TABLE_SIZE && w.count[f] <= FILE_BLOCKS
    ensures s.inodes[f].dataBlock == -1 ==> w.count[f] <= DIRECT_BLOCK_POINTERS
    ensures ValidBlock(s.inodes[ROOT_DIR_INUM].dataBlock)
  {
  }

  lemma NothingWritten(s: State, w: Ledger, h: nat)
    requires Inv(s, w) && Room(s, h, 0)
    ensures WriteDone(s, w, s, w, h, [])
  {
  }

  /** A round followed by the rest of the write is the write. */
  lemma DoneAfterRound(s: State, w: Ledger, s1: State, w1: Ledger, s': State, w': Ledger, h: nat, buf: seq<byte>)
    requires WellFormed(s) && Inv(s, w) && Room(s, h, |buf|) && buf != [] && s.files[h].boffset < FILE_BLOCKS
    requires |w.count| == INODE_TABLE_SIZE
    requires var aux := WriteStep(|buf|, s.files[h].offset);
             && Round(s, w, s1, w1, h, buf[..aux])
             && Room(s1, h, |buf| - aux) && WriteDone(s1, w1, s', w', h, buf[aux..])
    ensures WriteDone(s, w, s', w', h, buf)
  {
    hide Inv, KeepsBlocks, FileBlock, Written, FreeCount;
    var f := s.files[h].inumber;
    var aux := WriteStep(|buf|, s.files[h].offset);
    LedgerFacts(s, w, f);
    RoundWrites(s, w, s1, w1, h, buf[..aux]);
    NeededSplit(s, w, s1, w1, h, buf);
    WrittenTrans(s, w, s1, w1, s', w', f, Pos(s.files[h]), buf, aux);
  }

  lemma RoomAfterRound(s: State, w: Ledger, s1: State, w1: Ledger, h: nat, buf: seq<byte>)
    requires WellFormed(s) && Room(s, h, |buf|) && buf != [] && s.files[h].boffset < FILE_BLOCKS
    requires |w.count| == INODE_TABLE_SIZE
    requires Round(s, w, s1, w1, h, buf[..WriteStep(|buf|, s.files[h].offset)])
    ensures Room(s1, h, |buf| - WriteStep(|buf|, s.files[h].offset))
  {
    hide Inv, KeepsBlocks, FileBlock, FreeCount, Missing;
  }

  /** The first round of a write whose blocks are available, and what is left to do after it. */
  lemma FirstRound(s: State, w: Ledger, h: nat, buf: seq<byte>) returns (w1: Ledger)
    requires WellFormed(s) && Inv(s, w) && Room(s, h, |buf|) && |w.count| == INODE_TABLE_SIZE && buf != []
    requires FreeCount(s.blocks) >= Missing(s, w, s.files[h].inumber, s.files[h].boffset + 1)
    ensures s.files[h].boffset < FILE_BLOCKS && InodeUpdate(s, h).1.Address?
    ensures var aux := WriteStep(|buf|, s.files[h].offset);
            var s2 := PutBytes(InodeUpdate(s, h).0, h, InodeUpdate(s, h).1.at, buf[..aux]);
            && Round(s, w, s2, w1, h, buf[..aux])
            && WellFormed(s2) && Inv(s2, w1) && |w1.count| == INODE_TABLE_SIZE
            && Room(s2, h, |buf| - aux)
            && FreeCount(s2.blocks) - Needed(s2, w1, h, |buf| - aux)
                 == FreeCount(s.blocks) - Needed(s, w, h, |buf|)
  {
    hide Inv, KeepsBlocks, FileBlock, FreeCount, Missing, InodeUpdate, PutBytes;
    var aux := WriteStep(|buf|, s.files[h].offset);
    LedgerFacts(s, w, s.files[h].inumber);
    FirstRoundFits(s, w, h, |buf|);
    w1 := WriteRound(s, w, h, buf[..aux]);
    var s2 := PutBytes(InodeUpdate(s, h).0, h, InodeUpdate(s, h).1.at, buf[..aux]);
    NeededSplit(s, w, s2, w1, h, buf);
    RoomAfterRound(s, w, s2, w1, h, buf);
  }

  /**
   tfs_write refines a splice into the flat file. With enough free blocks and
   room below 266 blocks it returns the number of bytes, the bytes at the
   handle's position become the buffer, everything else that was mapped stays,
   and the free count falls by exactly the blocks that were missing.
   */
  lemma {:induction false} WriteLoopSplices(s: State, w: Ledger, h: nat, buf: seq<byte>, total: nat)
    returns (w': Ledger)
    requires WellFormed(s) && Inv(s, w) && Room(s, h, |buf|) && |w.count| == INODE_TABLE_SIZE
    requires FreeCount(s.blocks) >= Needed(s, w, h, |buf|)
    ensures WriteLoop(s, h, buf, total).1 == Done(total)
    ensures WriteDone(s, w, WriteLoop(s, h, buf, total).0, w', h, buf)
    decreases |buf|
  {
    hide Inv, FreeCount, Missing, InodeUpdate, Round, WriteDone, PutBytes, Needed;
    if buf == [] {
      NothingWritten(s, w, h);
      w' := w;
    } else {
      FirstRoundFits(s, w, h, |buf|);
      var w1 := FirstRound(s, w, h, buf);
      var (s1, p) := InodeUpdate(s, h);
      var aux := WriteStep(|buf|, s.files[h].offset);
      var s2 := PutBytes(s1, h, p.at, buf[..aux]);
      w' := WriteLoopSplices(s2, w1, h, buf[aux..], total);
      DoneAfterRound(s, w, s2, w1, WriteLoop(s2, h, buf[aux..], total).0, w', h, buf);
    }
  }

  // ---------------------------------------------------------------------------
  // When blocks run out
  // ---------------------------------------------------------------------------

  /** A file of size 0 has no blocks, so that truncation, which skips such files, loses none. */
  ghost predicate SizedAt(s: State, w: Ledger, f: int)
    requires WellFormed(s) && ValidInumber(f) && |w.count| == INODE_TABLE_SIZE
  {
    s.inodes[f].size == 0 ==> w.count[f] == 0 && s.inodes[f].dataBlock == -1
  }

  /** What every write within the 266 blocks does, completed or not. */
  ghost predicate WriteSound(s: State, w: Ledger, s': State, w': Ledger, h: nat)
    requires WellFormed(s) && h < MAX_OPEN_FILES && LiveFile(s, s.files[h].inumber) && |w.count| == INODE_TABLE_SIZE
  {
    var f := s.files[h].inumber;
    && WellFormed(s') && Inv(s', w') && |w'.count| == INODE_TABLE_SIZE
    && OnlyFile(s, s', f, h) && KeepsOthers(s, w, s', w', f) && Balanced(s, w, s', w', f)
    && s'.inodes[f].size >= s.inodes[f].size
  }

  /** The write stops here: inode_update could not map the block of the position. */
  lemma StuckRound(s: State, w: Ledger, h: nat, n: nat) returns (w': Ledger)
    requires WellFormed(s) && Inv(s, w) && Room(s, h, n) && |w.count| == INODE_TABLE_SIZE && n > 0
    requires FreeCount(s.blocks) < Missing(s, w, s.files[h].inumber, s.files[h].boffset + 1)
    ensures !InodeUpdate(s, h).1.Address?
    ensures WriteSound(s, w, InodeUpdate(s, h).0, w', h)
    ensures SizedAt(s, w, s.files[h].inumber) && Pos(s.files[h]) <= s.inodes[s.files[h].inumber].size ==>
              SizedAt(InodeUpdate(s, h).0, w', s.files[h].inumber)
  {
    hide Inv, InodeUpdate, Ptr, FreeCount, FileBlock;
    var f := s.files[h].inumber;
    w' := InodeUpdateEffect(s, w, h);
    var s1 := InodeUpdate(s, h).0;
    ReachedKeepsBlocks(s, w, s1, w', f);
    ReachedFacts(s, w, s1, w', f);
    LedgerFacts(s, w, f);
    LedgerFacts(s1, w', f);
    assert s1.files == s.files[h := s1.files[h]];
  }

  lemma KeepsOthersTrans(s: State, w: Ledger, s1: State, w1: Ledger, s2: State, w2: Ledger, f: int)
    requires WellFormed(s) && WellFormed(s1) && WellFormed(s2) && ValidInumber(f)
    requires |w.count| == |w1.count| == |w2.count| == INODE_TABLE_SIZE
    requires forall g :: LiveFile(s, g) ==> LiveFile(s1, g)
    requires KeepsOthers(s, w, s1, w1, f) && KeepsOthers(s1, w1, s2, w2, f)
    ensures KeepsOthers(s, w, s2, w2, f)
  {
    hide FileBlock;
    forall g, i | LiveFile(s, g) && g != f && 0 <= i < w.count[g] <= FILE_BLOCKS
      ensures FileBlock(s2, g, i) == FileBlock(s, g, i)
    {
      assert FileBlock(s1, g, i) == FileBlock(s, g, i);
    }
  }

  lemma SoundAfterRound(s: State, w: Ledger, s1: State, w1: Ledger, s': State, w': Ledger, h: nat, buf: seq<byte>)
    requires WellFormed(s) && Inv(s, w) && Room(s, h, |buf|) && buf != [] && s.files[h].boffset < FILE_BLOCKS
    requires |w.count| == INODE_TABLE_SIZE
    requires var aux := WriteStep(|buf|, s.files[h].offset);
             && Round(s, w, s1, w1, h, buf[..aux])
             && Room(s1, h, |buf| - aux) && WriteSound(s1, w1, s', w', h)
    ensures WriteSound(s, w, s', w', h)
    ensures SizedAt(s', w', s.files[h].inumber)
  {
    hide Inv, FreeCount, FileBlock, FileByte;
    var f := s.files[h].inumber;
    LedgerFacts(s, w, f);
    RoundWrites(s, w, s1, w1, h, buf[..WriteStep(|buf|, s.files[h].offset)]);
    KeepsOthersTrans(s, w, s1, w1, s', w', f);
  }

  lemma NothingWrittenSound(s: State, w: Ledger, h: nat)
    requires Inv(s, w) && Room(s, h, 0)
    ensures WriteSound(s, w, s, w, h)
  {
  }

  /**
   Every write within the 266 blocks, whether or not blocks run out: the ledger
   stays exact, nothing but this file and this handle changes, and without
   enough blocks the result is an error or a fault, never the byte count.
   */
  lemma {:induction false} WriteLoopSound(s: State, w: Ledger, h: nat, buf: seq<byte>, total: nat)
    returns (w': Ledger)
    requires WellFormed(s) && Inv(s, w) && Room(s, h, |buf|) && |w.count| == INODE_TABLE_SIZE
    ensures WriteSound(s, w, WriteLoop(s, h, buf, total).0, w', h)
    ensures FreeCount(s.blocks) < Needed(s, w, h, |buf|) ==> !WriteLoop(s, h, buf, total).1.Done?
    ensures SizedAt(s, w, s.files[h].inumber)
            && (Pos(s.files[h]) <= s.inodes[s.files[h].inumber].size || FreeCount(s.blocks) >= Needed(s, w, h, |buf|)) ==>
              SizedAt(WriteLoop(s, h, buf, total).0, w', s.files[h].inumber)
    decreases |buf|
  {
    hide Inv, FreeCount, Missing, InodeUpdate, Round, WriteSound, PutBytes, SizedAt;
    if buf == [] {
      NothingWrittenSound(s, w, h);
      NothingNeeded(s, w, h);
      w' := w;
    } else {
      FirstRoundFits(s, w, h, |buf|);
      if FreeCount(s.blocks) < Missing(s, w, s.files[h].inumber, s.files[h].boffset + 1) {
        w' := StuckRound(s, w, h, |buf|);
      } else {
        var w1 := FirstRound(s, w, h, buf);
        var (s1, p) := InodeUpdate(s, h);
        var aux := WriteStep(|buf|, s.files[h].offset);
        var s2 := PutBytes(s1, h, p.at, buf[..aux]);
        w' := WriteLoopSound(s2, w1, h, buf[aux..], total);
        SoundAfterRound(s, w, s2, w1, WriteLoop(s2, h, buf[aux..], total).0, w', h, buf);
      }
    }
  }

  lemma NothingNeeded(s: State, w: Ledger, h: nat)
    requires WellFormed(s) && Room(s, h, 0) && |w.count| == INODE_TABLE_SIZE
    ensures Needed(s, w, h, 0) == 0
  {
  }

  /** Within the 266 blocks a write returns its byte count if and only if enough blocks are free. */
  lemma WriteSucceedsIff(s: State, w: Ledger, h: nat, buf: seq<byte>)
    requires Inv(s, w) && Room(s, h, |buf|)
    ensures TfsWrite(s, h, buf).1 == Done(|buf|) <==> FreeCount(s.blocks) >= Needed(s, w, h, |buf|)
  {
    if FreeCount(s.blocks) >= Needed(s, w, h, |buf|) {
      var w' := WriteLoopSplices(s, w, h, buf, |buf|);
    } else {
      var w' := WriteLoopSound(s, w, h, buf, |buf|);
    }
  }

  /** The write returned its byte count and spliced the buffer into the flat file, with an exact ledger. */
  ghost predicate SplicesIn(s: State, w: Ledger, h: nat, buf: seq<byte>, w': Ledger)
    requires WellFormed(s) && h < MAX_OPEN_FILES && ValidInumber(s.files[h].inumber) && |w.count| == INODE_TABLE_SIZE
  {
    var (s', r) := TfsWrite(s, h, buf);
    && r == Done(|buf|) && Inv(s', w')
    && Written(s, w, s', w', s.files[h].inumber, Pos(s.files[h]), buf)
  }

  /**
   Exactly when tfs_write refines the splice: the bytes fit into 266 blocks and
   the missing blocks are free. The code checks neither.
   */
  lemma WriteRefinesIff(s: State, w: Ledger, h: nat, buf: seq<byte>)
    requires Inv(s, w) && h < MAX_OPEN_FILES && LiveFile(s, s.files[h].inumber) && 0 <= s.files[h].boffset
    requires buf != [] && s.inodes[s.files[h].inumber].size + |buf| < SIZE_MOD
    ensures (exists w' :: SplicesIn(s, w, h, buf, w')) <==>
            Pos(s.files[h]) + |buf| <= FILE_BYTES && FreeCount(s.blocks) >= Needed(s, w, h, |buf|)
  {
    if w' :| SplicesIn(s, w, h, buf, w') {
      WriteSucceedsIff(s, w, h, buf);
    }
    if Pos(s.files[h]) + |buf| <= FILE_BYTES && FreeCount(s.blocks) >= Needed(s, w, h, |buf|) {
      var w' := WriteLoopSplices(s, w, h, buf, |buf|);
      assert SplicesIn(s, w, h, buf, w');
    }
  }
}
