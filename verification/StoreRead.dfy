/**
 tfs_read against the flat view of a file: which slice it returns, although
 every round copies all the remaining bytes, and when it leaves fs_data.
 */
module StoreRead {
  import opened Memory
  import opened Directory
  import opened StoreModel
  import opened StoreOwnership
  import opened StoreAllocation
  import opened StoreUpdate
  import opened StoreWrite
  import opened StoreSplice

  // ---------------------------------------------------------------------------
  // Positions that are already mapped
  // ---------------------------------------------------------------------------

  lemma {:induction false} FillDirectNothing(s: State, f: nat, i: nat, last: int)
    requires WellFormed(s) && f < INODE_TABLE_SIZE
    requires forall j :: i <= j <= last && j < DIRECT_BLOCK_POINTERS ==> s.inodes[f].direct[j] != -1
    ensures FillDirect(s, f, i, last) == s
    decreases DIRECT_BLOCK_POINTERS - i
  {
    if i <= last && i < DIRECT_BLOCK_POINTERS {
      FillDirectNothing(s, f, i + 1, last);
    }
  }

  lemma {:induction false} FillPointersNothing(s: State, blk: nat, j: nat, last: int)
    requires WellFormed(s) && blk < DATA_BLOCKS
    requires forall i :: j <= i <= last && i < MAX_BLOCK_POINTERS ==> ReadInt(s.data, PointerAt(blk, i)) != -1
    ensures FillPointers(s, blk, j, last) == s
    decreases MAX_BLOCK_POINTERS - j
  {
    if j <= last && j < MAX_BLOCK_POINTERS {
      assert ReadInt(s.data, PointerAt(blk, j)) != -1;
      FillPointersNothing(s, blk, j + 1, last);
    }
  }

  /** A mapped position: every pointer up to it is set. */
  lemma MappedPointers(s: State, w: Ledger, f: nat, i: int)
    requires Inv(s, w) && LiveFile(s, f) && |w.count| == INODE_TABLE_SIZE && 0 <= i < w.count[f]
    ensures i < FILE_BLOCKS && ValidBlock(Ptr(s, f, i))
    ensures forall j :: 0 <= j <= i && j < DIRECT_BLOCK_POINTERS ==> s.inodes[f].direct[j] != -1
    ensures i >= DIRECT_BLOCK_POINTERS ==>
              && ValidBlock(s.inodes[f].dataBlock)
              && forall j :: 0 <= j <= i - DIRECT_BLOCK_POINTERS && j < MAX_BLOCK_POINTERS ==>
                   ReadInt(s.data, PointerAt(s.inodes[f].dataBlock, j)) != -1
  {
    forall j | 0 <= j <= i && j < DIRECT_BLOCK_POINTERS
      ensures s.inodes[f].direct[j] != -1
    {
      assert Ptr(s, f, j) != -1;
    }
    if i >= DIRECT_BLOCK_POINTERS {
      IndexBlockOwner(s, w, f);
      forall j | 0 <= j <= i - DIRECT_BLOCK_POINTERS && j < MAX_BLOCK_POINTERS
        ensures ReadInt(s.data, PointerAt(s.inodes[f].dataBlock, j)) != -1
      {
        assert Ptr(s, f, j + DIRECT_BLOCK_POINTERS) != -1;
      }
    }
    assert Ptr(s, f, i) != -1;
  }

  /** inode_update on a mapped position changes nothing. */
  lemma MappedUpdate(s: State, w: Ledger, h: nat)
    requires Inv(s, w) && h < MAX_OPEN_FILES && LiveFile(s, s.files[h].inumber)
    requires 0 <= s.files[h].boffset < w.count[s.files[h].inumber]
    ensures var f := s.files[h].inumber;
            var i := s.files[h].boffset;
            && ValidBlock(Ptr(s, f, i))
            && InodeUpdate(s, h) == (s, Address(Ptr(s, f, i) * BLOCK_SIZE + s.files[h].offset))
  {
    hide Owners, Shapes, Root, FillDirect, FillPointers;
    var f := s.files[h].inumber;
    var i := s.files[h].boffset;
    LedgerFacts(s, w, f);
    MappedPointers(s, w, f, i);
    FillDirectNothing(s, f, 0, i);
    if i >= DIRECT_BLOCK_POINTERS {
      FillPointersNothing(s, s.inodes[f].dataBlock, 0, i - DIRECT_BLOCK_POINTERS);
    }
  }

  // ---------------------------------------------------------------------------
  // The loop of tfs_read
  // ---------------------------------------------------------------------------

  /** n bytes of file f from byte pos on. */
  function Slice(s: State, f: int, pos: int, n: nat): (r: seq<byte>)
    requires WellFormed(s) && ValidInumber(f) && 0 <= pos && pos + n <= FILE_BYTES
    ensures |r| == n
    ensures forall i :: 0 <= i < n ==> r[i] == FileByte(s, f, pos + i)
  {
    seq<byte>(n, i requires 0 <= i < n => FileByte(s, f, pos + i))
  }

  /**
   No round copies past the end of fs_data. The round at block i starts inside
   that block and copies everything up to byte pos + n of the file.
   */
  ghost predicate CopiesFit(s: State, f: int, pos: int, n: nat)
    requires WellFormed(s) && ValidInumber(f) && 0 <= pos && pos + n <= FILE_BYTES
  {
    n > 0 ==> forall i :: 0 <= i < FILE_BLOCKS && pos / BLOCK_SIZE <= i && i * BLOCK_SIZE < pos + n ==>
      (Ptr(s, f, i) - i) * BLOCK_SIZE + pos + n <= DATA_SIZE
  }

  /** Moving a handle changes no file. */
  lemma AdvanceKeeps(s: State, w: Ledger, h: nat, aux: nat)
    requires Inv(s, w) && h < MAX_OPEN_FILES && LiveFile(s, s.files[h].inumber)
    requires s.files[h].offset + aux <= BLOCK_SIZE
    ensures var s' := Advance(s, h, aux);
            && Inv(s', w) && s' == s.(files := s.files[h := s'.files[h]])
            && s'.files[h].inumber == s.files[h].inumber && Pos(s'.files[h]) == Pos(s.files[h]) + aux
            && s'.files[h].boffset >= s.files[h].boffset
            && (forall g, i :: ValidInumber(g) && 0 <= i <= INDEX_SLOT ==> Ptr(s', g, i) == Ptr(s, g, i))
  {
    var s' := Advance(s, h, aux);
    assert forall g, i :: ValidInumber(g) && 0 <= i <= INDEX_SLOT ==> Ptr(s', g, i) == Ptr(s, g, i);
  }

  lemma SliceSame(s: State, s': State, f: int, pos: int, n: nat)
    requires WellFormed(s) && WellFormed(s') && ValidInumber(f) && 0 <= pos && pos + n <= FILE_BYTES
    requires s'.data == s.data
    requires forall i :: 0 <= i <= INDEX_SLOT ==> Ptr(s', f, i) == Ptr(s, f, i)
    ensures Slice(s', f, pos, n) == Slice(s, f, pos, n)
    ensures CopiesFit(s', f, pos, n) <==> CopiesFit(s, f, pos, n)
  {
    forall p | pos <= p < pos + n
      ensures FileByte(s', f, p) == FileByte(s, f, p)
    {
      assert FileBlock(s', f, p / BLOCK_SIZE) == FileBlock(s, f, p / BLOCK_SIZE);
    }
    assert forall i :: 0 <= i < n ==> Slice(s', f, pos, n)[i] == Slice(s, f, pos, n)[i];
  }

  /** The copies of a read fit if its first one does and the rest fit. */
  lemma CopiesFitSplit(s: State, f: int, pos: int, n: nat, aux: nat)
    requires WellFormed(s) && ValidInumber(f) && 0 <= pos && pos + n <= FILE_BYTES
    requires 0 < aux <= n && pos % BLOCK_SIZE + aux <= BLOCK_SIZE
    requires aux == n || pos % BLOCK_SIZE + aux == BLOCK_SIZE
    ensures CopiesFit(s, f, pos, n) <==>
            Ptr(s, f, pos / BLOCK_SIZE) * BLOCK_SIZE + pos % BLOCK_SIZE + n <= DATA_SIZE
            && CopiesFit(s, f, pos + aux, n - aux)
  {
    hide Ptr;
    var i := pos / BLOCK_SIZE;
    assert 0 <= i < FILE_BLOCKS;
    if aux < n {
      assert (pos + aux) / BLOCK_SIZE == i + 1;
    }
    if CopiesFit(s, f, pos, n) {
      assert (Ptr(s, f, i) - i) * BLOCK_SIZE + pos + n <= DATA_SIZE;
    }
    if Ptr(s, f, i) * BLOCK_SIZE + pos % BLOCK_SIZE + n <= DATA_SIZE && CopiesFit(s, f, pos + aux, n - aux) {
      forall j | 0 <= j < FILE_BLOCKS && i <= j && j * BLOCK_SIZE < pos + n
        ensures (Ptr(s, f, j) - j) * BLOCK_SIZE + pos + n <= DATA_SIZE
      {
      }
    }
  }

  /** The bytes a round copies up to the end of its block are the file's. */
  lemma CopiedChunk(s: State, f: int, pos: int, n: nat, aux: nat)
    requires WellFormed(s) && ValidInumber(f) && 0 <= pos && pos + aux <= FILE_BYTES && 0 < aux <= n
    requires pos % BLOCK_SIZE + aux <= BLOCK_SIZE && ValidBlock(Ptr(s, f, pos / BLOCK_SIZE))
    requires Ptr(s, f, pos / BLOCK_SIZE) * BLOCK_SIZE + pos % BLOCK_SIZE + n <= DATA_SIZE
    ensures var from := Ptr(s, f, pos / BLOCK_SIZE) * BLOCK_SIZE + pos % BLOCK_SIZE;
            s.data[from..from + n][..aux] == Slice(s, f, pos, aux)
  {
    var b := Ptr(s, f, pos / BLOCK_SIZE);
    var from := b * BLOCK_SIZE + pos % BLOCK_SIZE;
    forall k | 0 <= k < aux
      ensures s.data[from..from + n][..aux][k] == Slice(s, f, pos, aux)[k]
    {
      assert (pos + k) / BLOCK_SIZE == pos / BLOCK_SIZE && (pos + k) % BLOCK_SIZE == pos % BLOCK_SIZE + k;
      assert BlockOf(s.data, b)[pos % BLOCK_SIZE + k] == s.data[from + k];
    }
  }

  /** Later rounds overwrite the wrong tail of an earlier copy. */
  lemma Assemble(dst: seq<byte>, at: nat, copied: seq<byte>, chunk: seq<byte>, rest: seq<byte>, dst': seq<byte>)
    requires at + |copied| <= |dst| == |dst'| && |chunk| + |rest| == |copied| && copied[..|chunk|] == chunk
    requires dst' == Splice(Splice(dst, at, copied), at + |chunk|, rest)
    ensures dst' == Splice(dst, at, chunk + rest)
  {
    assert forall k :: 0 <= k < |chunk| ==> copied[k] == copied[..|chunk|][k];
  }

  /** Handle h is open on a live file, and the n bytes at its position are mapped. */
  ghost predicate Mapped(s: State, w: Ledger, h: nat, n: nat)
    requires WellFormed(s) && |w.count| == INODE_TABLE_SIZE
  {
    && h < MAX_OPEN_FILES && LiveFile(s, s.files[h].inumber)
    && 0 <= s.files[h].boffset && Pos(s.files[h]) + n <= FILE_BYTES
    && w.count[s.files[h].inumber] <= FILE_BLOCKS
    && (n > 0 ==> Pos(s.files[h]) + n <= w.count[s.files[h].inumber] * BLOCK_SIZE)
  }

  /** How a read of n mapped bytes into dst from index at on ends. */
  ghost predicate ReadEnds(s: State, w: Ledger, h: nat, dst: seq<byte>, at: nat, n: nat, total: nat,
                           s': State, dst': seq<byte>, r: Outcome)
    requires WellFormed(s) && |w.count| == INODE_TABLE_SIZE && Mapped(s, w, h, n) && at + n <= |dst|
  {
    var f := s.files[h].inumber;
    var pos := Pos(s.files[h]);
    if CopiesFit(s, f, pos, n) then
      && r == Done(total) && dst' == Splice(dst, at, Slice(s, f, pos, n))
      && |s'.files| == MAX_OPEN_FILES && s' == s.(files := s.files[h := s'.files[h]])
      && Pos(s'.files[h]) == pos + n && s'.files[h].inumber == f
    else r == Fault
  }

  /** One round of the loop on a mapped position. */
  lemma ReadRound(s: State, w: Ledger, h: nat, dst: seq<byte>, at: nat, n: nat, total: nat)
    requires WellFormed(s) && Inv(s, w) && |w.count| == INODE_TABLE_SIZE && Mapped(s, w, h, n)
    requires n > 0 && at + n <= |dst|
    ensures var f := s.files[h].inumber;
            var pos := Pos(s.files[h]);
            var aux := ReadStep(n, s.files[h].offset);
            var s1 := Advance(s, h, aux);
            && pos / BLOCK_SIZE == s.files[h].boffset < FILE_BLOCKS && pos % BLOCK_SIZE == s.files[h].offset
            && ValidBlock(Ptr(s, f, pos / BLOCK_SIZE))
            && Inv(s1, w) && Mapped(s1, w, h, n - aux)
            && var from := Ptr(s, f, pos / BLOCK_SIZE) * BLOCK_SIZE + pos % BLOCK_SIZE;
            ReadLoop(s, h, dst, at, n, total) ==
              if from + n > DATA_SIZE then (s, dst, Fault)
              else ReadLoop(s1, h, Splice(dst, at, s.data[from..from + n]), at + aux, n - aux, total)
  {
    hide Inv, InodeUpdate, Ptr, Advance;
    MappedUpdate(s, w, h);
    AdvanceKeeps(s, w, h, ReadStep(n, s.files[h].offset));
  }

  /** A round and the rest of a read whose copies all fit. */
  lemma FitAfterRound(s: State, w: Ledger, h: nat, dst: seq<byte>, at: nat, n: nat, s': State, dst': seq<byte>)
    requires WellFormed(s) && Inv(s, w) && |w.count| == INODE_TABLE_SIZE && Mapped(s, w, h, n)
    requires n > 0 && at + n <= |dst| == |dst'|
    requires ValidBlock(Ptr(s, s.files[h].inumber, s.files[h].boffset))
    requires var f := s.files[h].inumber;
             var aux := ReadStep(n, s.files[h].offset);
             var s1 := Advance(s, h, aux);
             var pos := Pos(s.files[h]);
             var from := Ptr(s, f, s.files[h].boffset) * BLOCK_SIZE + s.files[h].offset;
             && from + n <= DATA_SIZE && |s'.files| == MAX_OPEN_FILES && s1.files[h].inumber == f
             && dst' == Splice(Splice(dst, at, s.data[from..from + n]), at + aux, Slice(s, f, pos + aux, n - aux))
             && s1 == s.(files := s.files[h := s1.files[h]]) && s' == s1.(files := s1.files[h := s'.files[h]])
    ensures dst' == Splice(dst, at, Slice(s, s.files[h].inumber, Pos(s.files[h]), n))
    ensures s' == s.(files := s.files[h := s'.files[h]])
  {
    hide Inv, Ptr, Slice, Advance, FileByte;
    var f := s.files[h].inumber;
    var pos := Pos(s.files[h]);
    var aux := ReadStep(n, s.files[h].offset);
    var from := Ptr(s, f, s.files[h].boffset) * BLOCK_SIZE + s.files[h].offset;
    assert pos / BLOCK_SIZE == s.files[h].boffset && pos % BLOCK_SIZE == s.files[h].offset;
    CopiedChunk(s, f, pos, n, aux);
    SliceSplit(s, f, pos, n, aux);
    Assemble(dst, at, s.data[from..from + n], Slice(s, f, pos, aux), Slice(s, f, pos + aux, n - aux), dst');
  }

  /** A round whose copy fits, followed by the rest of the read, is the read. */
  lemma EndsAfterRound(s: State, w: Ledger, h: nat, dst: seq<byte>, at: nat, n: nat, total: nat,
                       s': State, dst': seq<byte>, r: Outcome)
    requires WellFormed(s) && Inv(s, w) && |w.count| == INODE_TABLE_SIZE && Mapped(s, w, h, n)
    requires n > 0 && at + n <= |dst| == |dst'|
    requires ValidBlock(Ptr(s, s.files[h].inumber, s.files[h].boffset))
    requires var aux := ReadStep(n, s.files[h].offset);
             var s1 := Advance(s, h, aux);
             var from := Ptr(s, s.files[h].inumber, s.files[h].boffset) * BLOCK_SIZE + s.files[h].offset;
             && from + n <= DATA_SIZE && Mapped(s1, w, h, n - aux)
             && ReadEnds(s1, w, h, Splice(dst, at, s.data[from..from + n]), at + aux, n - aux, total, s', dst', r)
    ensures ReadEnds(s, w, h, dst, at, n, total, s', dst', r)
  {
    hide Inv, Ptr, CopiesFit, Slice, Advance, FileByte;
    var f := s.files[h].inumber;
    var pos := Pos(s.files[h]);
    var aux := ReadStep(n, s.files[h].offset);
    var s1 := Advance(s, h, aux);
    var from := Ptr(s, f, s.files[h].boffset) * BLOCK_SIZE + s.files[h].offset;
    assert pos / BLOCK_SIZE == s.files[h].boffset && pos % BLOCK_SIZE == s.files[h].offset;
    AdvanceKeeps(s, w, h, aux);
    CopiesFitSplit(s, f, pos, n, aux);
    SliceSame(s, s1, f, pos + aux, n - aux);
    if CopiesFit(s, f, pos, n) {
      FitAfterRound(s, w, h, dst, at, n, s', dst');
    }
  }

  /**
   A read of mapped bytes. If every copy stays inside fs_data it returns the
   slice of the flat file at the handle's position and leaves the rest of the
   caller's buffer and all of the file system but this handle alone; otherwise
   it faults.
   */
  lemma {:induction false} ReadLoopSlices(s: State, w: Ledger, h: nat, dst: seq<byte>, at: nat, n: nat, total: nat)
    requires WellFormed(s) && Inv(s, w) && |w.count| == INODE_TABLE_SIZE && Mapped(s, w, h, n) && at + n <= |dst|
    ensures var (s', dst', r) := ReadLoop(s, h, dst, at, n, total);
            ReadEnds(s, w, h, dst, at, n, total, s', dst', r)
    decreases n
  {
    if n == 0 {
      NothingToCopy(s, s.files[h].inumber, Pos(s.files[h]));
      assert s.files[h := s.files[h]] == s.files;
      assert Splice(dst, at, []) == dst;
    } else {
      ReadTail(s, w, h, dst, at, n, total);
    }
  }

  /** The rounds of a read that is not empty. */
  lemma {:induction false} ReadTail(s: State, w: Ledger, h: nat, dst: seq<byte>, at: nat, n: nat, total: nat)
    requires WellFormed(s) && Inv(s, w) && |w.count| == INODE_TABLE_SIZE && Mapped(s, w, h, n) && at + n <= |dst|
    requires n > 0
    ensures var (s', dst', r) := ReadLoop(s, h, dst, at, n, total);
            ReadEnds(s, w, h, dst, at, n, total, s', dst', r)
    decreases n, 0
  {
    hide Inv, Ptr, CopiesFit, Slice, Advance, ReadLoop, FileByte;
    var f := s.files[h].inumber;
    var pos := Pos(s.files[h]);
    var aux := ReadStep(n, s.files[h].offset);
    ReadRound(s, w, h, dst, at, n, total);
    var from := Ptr(s, f, pos / BLOCK_SIZE) * BLOCK_SIZE + pos % BLOCK_SIZE;
    if from + n <= DATA_SIZE {
      var s1 := Advance(s, h, aux);
      var dst1 := Splice(dst, at, s.data[from..from + n]);
      ReadLoopSlices(s1, w, h, dst1, at + aux, n - aux, total);
      var (s', dst', r) := ReadLoop(s1, h, dst1, at + aux, n - aux, total);
      EndsAfterRound(s, w, h, dst, at, n, total, s', dst', r);
    } else {
      CopiesFitSplit(s, f, pos, n, aux);
    }
  }

  lemma NothingToCopy(s: State, f: int, pos: int)
    requires WellFormed(s) && ValidInumber(f) && 0 <= pos <= FILE_BYTES
    ensures CopiesFit(s, f, pos, 0) && Slice(s, f, pos, 0) == []
  {
  }

  lemma SliceSplit(s: State, f: int, pos: int, n: nat, aux: nat)
    requires WellFormed(s) && ValidInumber(f) && 0 <= pos && pos + n <= FILE_BYTES && aux <= n
    ensures Slice(s, f, pos, n) == Slice(s, f, pos, aux) + Slice(s, f, pos + aux, n - aux)
  {
    hide FileByte, WellFormed, Slice;
    var whole, first, second := Slice(s, f, pos, n), Slice(s, f, pos, aux), Slice(s, f, pos + aux, n - aux);
    forall k | 0 <= k < n
      ensures whole[k] == (first + second)[k]
    {
      if k >= aux {
        assert second[k - aux] == FileByte(s, f, pos + aux + (k - aux));
      }
    }
  }

  // ---------------------------------------------------------------------------
  // tfs_read
  // ---------------------------------------------------------------------------

  /** The documented length: what is left of the file, at most len. */
  function Remaining(s: State, h: nat, len: nat): (n: nat)
    requires WellFormed(s) && h < MAX_OPEN_FILES && ValidInumber(s.files[h].inumber)
  {
    var left := s.inodes[s.files[h].inumber].size - Pos(s.files[h]);
    if left <= 0 then 0 else if left < len then left else len
  }

  /** When the code's length is the documented one. Past i_size, where truncation can leave a handle, hardly ever. */
  predicate LengthRight(s: State, h: nat, len: nat)
    requires WellFormed(s) && h < MAX_OPEN_FILES && ValidInumber(s.files[h].inumber)
  {
    var file := s.files[h];
    var size := s.inodes[file.inumber].size;
    len == 0 || (if Pos(file) <= size then file.boffset == 0 || len <= size - Pos(file) else size == file.offset)
  }

  /** The code computes the documented length exactly under that condition, at every position. */
  lemma ReadLengthExact(s: State, h: nat, len: nat)
    requires WellFormed(s) && h < MAX_OPEN_FILES && ValidInumber(s.files[h].inumber) && 0 <= s.files[h].boffset
    ensures ReadLength(s, h, len) == Remaining(s, h, len) <==> LengthRight(s, h, len)
  {
  }

  lemma {:induction false} ReadLoopOutcome(s: State, h: nat, dst: seq<byte>, at: nat, n: nat, total: nat)
    requires WellFormed(s) && h < MAX_OPEN_FILES && at + n <= |dst|
    ensures var r := ReadLoop(s, h, dst, at, n, total).2;
            r.Done? ==> r.n == total
    decreases n
  {
    hide InodeUpdate, Advance;
    if n > 0 {
      var aux := ReadStep(n, s.files[h].offset);
      var (s1, p) := InodeUpdate(s, h);
      if p.Address? && p.at + n <= DATA_SIZE {
        ReadLoopOutcome(Advance(s1, h, aux), h, Splice(dst, at, s1.data[p.at..p.at + n]), at + aux, n - aux, total);
      }
    }
  }

  /** The read returned the documented bytes of the flat file and changed nothing but the handle. */
  ghost predicate SlicesOut(s: State, h: nat, dst: seq<byte>, len: nat)
    requires WellFormed(s) && h < MAX_OPEN_FILES && ValidInumber(s.files[h].inumber) && len <= |dst|
    requires 0 <= s.files[h].boffset
  {
    var n := Remaining(s, h, len);
    var pos := Pos(s.files[h]);
    var (s', dst', r) := TfsRead(s, h, dst, len);
    && r == Done(n)
    && (if n == 0 then dst' == dst
        else pos + n <= FILE_BYTES && dst' == Splice(dst, 0, Slice(s, s.files[h].inumber, pos, n)))
    && s' == s.(files := s.files[h := s'.files[h]]) && Pos(s'.files[h]) == pos + n
  }

  /** A read that reaches an unmapped byte either fails or takes blocks. */
  lemma {:induction false} UnmappedRead(s: State, w: Ledger, h: nat, dst: seq<byte>, at: nat, n: nat, total: nat)
    requires WellFormed(s) && Inv(s, w) && h < MAX_OPEN_FILES && LiveFile(s, s.files[h].inumber)
    requires |w.count| == INODE_TABLE_SIZE && at + n <= |dst| && n > 0
    requires 0 <= s.files[h].boffset && w.count[s.files[h].inumber] * BLOCK_SIZE < Pos(s.files[h]) + n <= FILE_BYTES
    ensures var (s', _, r) := ReadLoop(s, h, dst, at, n, total);
            r.Done? ==> FreeCount(s'.blocks) < FreeCount(s.blocks)
    decreases n
  {
    hide Inv, FreeCount, InodeUpdate, Ptr, Advance;
    if s.files[h].boffset < w.count[s.files[h].inumber] {
      var aux := ReadStep(n, s.files[h].offset);
      MappedUpdate(s, w, h);
      AdvanceKeeps(s, w, h, aux);
      var from := InodeUpdate(s, h).1.at;
      if from + n <= DATA_SIZE {
        UnmappedRead(Advance(s, h, aux), w, h, Splice(dst, at, s.data[from..from + n]), at + aux, n - aux, total);
      }
    } else {
      UnmappedRound(s, w, h, dst, at, n, total);
    }
  }

  /** The round at the first unmapped block. */
  lemma UnmappedRound(s: State, w: Ledger, h: nat, dst: seq<byte>, at: nat, n: nat, total: nat)
    requires WellFormed(s) && Inv(s, w) && h < MAX_OPEN_FILES && LiveFile(s, s.files[h].inumber)
    requires |w.count| == INODE_TABLE_SIZE && at + n <= |dst| && n > 0
    requires w.count[s.files[h].inumber] <= s.files[h].boffset < FILE_BLOCKS
    ensures var (s', _, r) := ReadLoop(s, h, dst, at, n, total);
            r.Done? ==> FreeCount(s'.blocks) < FreeCount(s.blocks)
  {
    hide Inv, FreeCount, InodeUpdate, Ptr, LowestFirst;
    var aux := ReadStep(n, s.files[h].offset);
    var (s1, p) := InodeUpdate(s, h);
    UpdateTakes(s, w, h);
    if p.Address? && p.at + n <= DATA_SIZE {
      var s2 := Advance(s1, h, aux);
      var dst1 := Splice(dst, at, s1.data[p.at..p.at + n]);
      ReadLowest(s2, h, dst1, at + aux, n - aux, total);
      NoMoreFree(s2.blocks, ReadLoop(s2, h, dst1, at + aux, n - aux, total).0.blocks);
    }
  }

  /** inode_update at an unmapped position takes blocks or finds no address. */
  lemma UpdateTakes(s: State, w: Ledger, h: nat)
    requires Inv(s, w) && h < MAX_OPEN_FILES && LiveFile(s, s.files[h].inumber) && |w.count| == INODE_TABLE_SIZE
    requires w.count[s.files[h].inumber] <= s.files[h].boffset < FILE_BLOCKS
    ensures InodeUpdate(s, h).1.Address? ==> FreeCount(InodeUpdate(s, h).0.blocks) < FreeCount(s.blocks)
  {
    hide Owners, Shapes, Root, InodeUpdate, FreeCount, Ptr, Extends;
    var w' := InodeUpdateEffect(s, w, h);
  }

  lemma NoMoreFree(t: seq<Allocation>, t': seq<Allocation>)
    requires LowestFirst(t, t')
    ensures FreeCount(t') <= FreeCount(t)
  {
  }

  /**
   Exactly when tfs_read refines the slice of the flat file, at every position:
   the length must come out right, the bytes must be mapped, and no copy may run
   past fs_data.
   */
  lemma ReadRefinesIff(s: State, w: Ledger, h: nat, dst: seq<byte>, len: nat)
    requires Inv(s, w) && h < MAX_OPEN_FILES && LiveFile(s, s.files[h].inumber) && len <= |dst|
    requires 0 <= s.files[h].boffset && |w.count| == INODE_TABLE_SIZE
    ensures var f := s.files[h].inumber;
            var n := Remaining(s, h, len);
            var pos := Pos(s.files[h]);
            SlicesOut(s, h, dst, len) <==>
              && LengthRight(s, h, len)
              && (n > 0 ==> pos + n <= w.count[f] * BLOCK_SIZE <= FILE_BYTES && CopiesFit(s, f, pos, n))
  {
    hide Owners, Shapes, ReadLoop, CopiesFit, Slice, FreeCount;
    var f := s.files[h].inumber;
    LedgerFacts(s, w, f);
    var n := ReadLength(s, h, len);
    ReadLengthExact(s, h, len);
    ReadLoopOutcome(s, h, dst, 0, n, n);
    if n == Remaining(s, h, len) {
      if n == 0 {
        NothingRead(s, h, dst);
      } else if Pos(s.files[h]) + n <= w.count[f] * BLOCK_SIZE {
        ReadLoopSlices(s, w, h, dst, 0, n, n);
      } else if Pos(s.files[h]) + n <= FILE_BYTES {
        UnmappedRead(s, w, h, dst, 0, n, n);
      }
    }
  }

  lemma NothingRead(s: State, h: nat, dst: seq<byte>)
    requires WellFormed(s) && h < MAX_OPEN_FILES
    ensures ReadLoop(s, h, dst, 0, 0, 0) == (s, dst, Done(0)) && s.files[h := s.files[h]] == s.files
  {
  }

  // ---------------------------------------------------------------------------
  // Reads that are not covered: they may allocate
  // ---------------------------------------------------------------------------

  /** What every read below the 266 blocks does, completed or not. */
  ghost predicate ReadSound(s: State, w: Ledger, s': State, w': Ledger, h: nat)
    requires WellFormed(s) && h < MAX_OPEN_FILES && LiveFile(s, s.files[h].inumber) && |w.count| == INODE_TABLE_SIZE
  {
    var f := s.files[h].inumber;
    && WellFormed(s') && Inv(s', w') && |w'.count| == INODE_TABLE_SIZE
    && OnlyFile(s, s', f, h) && KeepsOthers(s, w, s', w', f) && KeepsBlocks(s, w, s', f, -1)
    && Balanced(s, w, s', w', f)
    && s'.inodes[f].size == s.inodes[f].size
  }

  lemma ReadStepSound(s: State, w: Ledger, h: nat) returns (w': Ledger)
    requires WellFormed(s) && Inv(s, w) && h < MAX_OPEN_FILES && LiveFile(s, s.files[h].inumber)
    requires |w.count| == INODE_TABLE_SIZE && 0 <= s.files[h].boffset < FILE_BLOCKS
    ensures ReadSound(s, w, InodeUpdate(s, h).0, w', h)
    ensures InodeUpdate(s, h).0.files == s.files
  {
    hide Inv, InodeUpdate, Ptr, FreeCount, FileBlock;
    var f := s.files[h].inumber;
    w' := InodeUpdateEffect(s, w, h);
    var s1 := InodeUpdate(s, h).0;
    ReachedKeepsBlocks(s, w, s1, w', f);
    ReachedFacts(s, w, s1, w', f);
    LedgerFacts(s1, w', f);
    assert s1.files == s.files[h := s1.files[h]];
  }

  lemma ReadSoundTrans(s: State, w: Ledger, s1: State, w1: Ledger, s2: State, w2: Ledger, h: nat)
    requires WellFormed(s) && h < MAX_OPEN_FILES && LiveFile(s, s.files[h].inumber) && |w.count| == INODE_TABLE_SIZE
    requires |w1.count| == INODE_TABLE_SIZE && WellFormed(s1)
    requires forall g :: LiveFile(s, g) ==> LiveFile(s1, g) && w.count[g] <= w1.count[g] <= FILE_BLOCKS
    requires ReadSound(s, w, s1, w1, h) && ReadSound(s1, w1, s2, w2, h)
    ensures ReadSound(s, w, s2, w2, h)
  {
    hide Inv, FileBlock;
    var f := s.files[h].inumber;
    KeepsOthersTrans(s, w, s1, w1, s2, w2, f);
    KeepsBlocksTrans(s, w, s1, w1, s2, f, -1);
  }

  lemma CountsBounded(s: State, w: Ledger, s1: State, w1: Ledger, h: nat)
    requires WellFormed(s) && h < MAX_OPEN_FILES && LiveFile(s, s.files[h].inumber) && |w.count| == INODE_TABLE_SIZE
    requires Inv(s, w) && ReadSound(s, w, s1, w1, h)
    ensures forall g :: LiveFile(s, g) ==> LiveFile(s1, g) && w.count[g] <= w1.count[g] <= FILE_BLOCKS
  {
    hide FileBlock, Holds;
  }

  lemma AdvanceSound(s: State, w: Ledger, h: nat, aux: nat)
    requires WellFormed(s) && Inv(s, w) && h < MAX_OPEN_FILES && LiveFile(s, s.files[h].inumber)
    requires |w.count| == INODE_TABLE_SIZE && s.files[h].offset + aux <= BLOCK_SIZE
    ensures ReadSound(s, w, Advance(s, h, aux), w, h)
  {
    AdvanceKeeps(s, w, h, aux);
    var s' := Advance(s, h, aux);
    assert s.inodes[s.files[h].inumber := s.inodes[s.files[h].inumber]] == s.inodes;
    forall g, i | LiveFile(s, g) && 0 <= i < w.count[g] <= FILE_BLOCKS
      ensures FileBlock(s', g, i) == FileBlock(s, g, i)
    {
      assert Ptr(s', g, i) == Ptr(s, g, i);
    }
  }

  /** A read may map blocks that were missing; it changes no mapped byte and no size. */
  lemma {:induction false} ReadLoopSound(s: State, w: Ledger, h: nat, dst: seq<byte>, at: nat, n: nat, total: nat)
    returns (w': Ledger)
    requires WellFormed(s) && Inv(s, w) && h < MAX_OPEN_FILES && LiveFile(s, s.files[h].inumber)
    requires |w.count| == INODE_TABLE_SIZE && at + n <= |dst|
    requires 0 <= s.files[h].boffset && Pos(s.files[h]) + n <= FILE_BYTES
    ensures ReadSound(s, w, ReadLoop(s, h, dst, at, n, total).0, w', h)
    decreases n
  {
    hide Inv, InodeUpdate, Advance, ReadSound;
    if n == 0 {
      ReadNothing(s, w, h);
      w' := w;
    } else {
      var w1 := ReadStepSound(s, w, h);
      var (s1, p) := InodeUpdate(s, h);
      ReadSoundFacts(s, w, s1, w1, h);
      if p.Address? && p.at + n <= DATA_SIZE {
        var aux := ReadStep(n, s.files[h].offset);
        var s2 := Advance(s1, h, aux);
        AdvanceKeeps(s1, w1, h, aux);
        AdvanceSound(s1, w1, h, aux);
        CountsBounded(s, w, s1, w1, h);
        ReadSoundTrans(s, w, s1, w1, s2, w1, h);
        ReadSoundFacts(s, w, s2, w1, h);
        var dst1 := Splice(dst, at, s1.data[p.at..p.at + n]);
        w' := ReadLoopSound(s2, w1, h, dst1, at + aux, n - aux, total);
        CountsBounded(s, w, s2, w1, h);
        ReadSoundTrans(s, w, s2, w1, ReadLoop(s2, h, dst1, at + aux, n - aux, total).0, w', h);
      } else {
        w' := w1;
      }
    }
  }

  lemma ReadNothing(s: State, w: Ledger, h: nat)
    requires Inv(s, w) && h < MAX_OPEN_FILES && LiveFile(s, s.files[h].inumber)
    ensures ReadSound(s, w, s, w, h)
  {
  }

  lemma ReadSoundFacts(s: State, w: Ledger, s1: State, w1: Ledger, h: nat)
    requires WellFormed(s) && h < MAX_OPEN_FILES && LiveFile(s, s.files[h].inumber) && |w.count| == INODE_TABLE_SIZE
    requires ReadSound(s, w, s1, w1, h)
    ensures WellFormed(s1) && Inv(s1, w1) && |w1.count| == INODE_TABLE_SIZE
    ensures s1.files[h].inumber == s.files[h].inumber && LiveFile(s1, s1.files[h].inumber)
  {
    hide FileBlock, Inv;
  }
}
