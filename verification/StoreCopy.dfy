/**
 The copy to an external file: it hands over the whole flat file and leaves the
 block store as it was.
 */
module StoreCopy {
  import opened Memory
  import opened Directory
  import opened Options
  import opened StoreModel
  import opened StoreOwnership
  import opened StoreWrite
  import opened StoreSplice
  import opened StoreRead
  import opened StoreRuns

  /** Opening an existing file with no flags only takes the first free handle, at position 0. */
  lemma PlainOpen(s: State, w: Ledger, path: cstring)
    requires RunInv(s, w) && ValidPathname(path) && TfsLookup(s, path) >= 0
    ensures var (s1, h) := TfsOpen(s, path, Flags(false, false, false));
            if FirstFree(s.fileTs, 0) == -1 then h == -1 && s1 == s
            else
              && h == FirstFree(s.fileTs, 0) && RunInv(s1, w)
              && s1.fileTs == s.fileTs[h := TAKEN]
              && s1 == s.(files := s.files[h := OpenFile(TfsLookup(s, path), 0, 0)], fileTs := s1.fileTs)
  {
    hide Inv, FreeCount, TfsLookup, AllSized, Accounted;
    LookupFindsLive(s, w, path);
    var f := TfsLookup(s, path);
    AddHandleKeeps(s, w, f, 0);
  }

  /** The copied bytes are the file's, in full. */
  ghost predicate CopiesAll(s: State, path: cstring, dest: External)
    requires WellFormed(s) && ValidInumber(TfsLookup(s, path))
    requires s.inodes[TfsLookup(s, path)].size <= FILE_BYTES
  {
    var f := TfsLookup(s, path);
    var (s', r, received) := CopyOut(s, path, dest);
    && r == Done(0) && received == Some(Slice(s, f, 0, s.inodes[f].size))
    && s' == s.(files := s'.files)
  }

  /**
   Copying out a bound file whose size is covered by its mapped blocks succeeds,
   with exactly its bytes and no trace in the store, if and only if a handle is
   free, the destination can be opened and has room for the file, and no copy
   runs past fs_data.
   */
  lemma CopyOutIff(s: State, w: Ledger, path: cstring, dest: External)
    requires RunInv(s, w) && ValidPathname(path) && ValidInumber(TfsLookup(s, path))
    requires s.inodes[TfsLookup(s, path)].size <= w.count[TfsLookup(s, path)] * BLOCK_SIZE <= FILE_BYTES
    ensures CopiesAll(s, path, dest) <==>
            && FirstFree(s.fileTs, 0) != -1 && dest.Writable? && s.inodes[TfsLookup(s, path)].size <= dest.room
            && CopiesFit(s, TfsLookup(s, path), 0, s.inodes[TfsLookup(s, path)].size)
  {
    hide Inv, FreeCount, TfsLookup, TfsOpen, TfsRead, AllSized, Accounted, CopiesFit, Slice, FileByte;
    var f := TfsLookup(s, path);
    var size := s.inodes[f].size;
    LookupFindsLive(s, w, path);
    PlainOpen(s, w, path);
    var (s1, h) := TfsOpen(s, path, Flags(false, false, false));
    if h != -1 {
      CopyRead(s, w, s1, h, f);
      var (s2, bytes, r) := TfsRead(s1, h, seq<byte>(size, _ => 0), size);
      if CopiesFit(s, f, 0, size) {
        assert s2.fileTs == s.fileTs[h := TAKEN];
        assert s.fileTs[h := TAKEN][h := FREE] == s.fileTs;
      }
    }
  }

  /** The read of the copy, through a fresh handle. */
  lemma CopyRead(s: State, w: Ledger, s1: State, h: nat, f: nat)
    requires RunInv(s, w) && RunInv(s1, w) && LiveFile(s, f) && h < MAX_OPEN_FILES
    requires s1 == s.(files := s.files[h := OpenFile(f, 0, 0)], fileTs := s1.fileTs)
    requires s.inodes[f].size <= w.count[f] * BLOCK_SIZE <= FILE_BYTES
    ensures var size := s.inodes[f].size;
            var (s2, bytes, r) := TfsRead(s1, h, seq<byte>(size, _ => 0), size);
            if CopiesFit(s, f, 0, size) then
              && r == Done(size) && bytes == Slice(s, f, 0, size)
              && s2 == s1.(files := s2.files)
            else r == Fault
  {
    hide FreeCount, AllSized, Accounted, ReadLoop, CopiesFit, Slice, Owners, Shapes, Holds, FileByte;
    var size := s.inodes[f].size;
    var dst := seq<byte>(size, _ => 0);
    LedgerFacts(s, w, f);
    ReadLoopSlices(s1, w, h, dst, 0, size, size);
    assert forall i :: 0 <= i <= INDEX_SLOT ==> Ptr(s1, f, i) == Ptr(s, f, i);
    SliceSame(s, s1, f, 0, size);
    assert Splice(dst, 0, Slice(s1, f, 0, size)) == Slice(s1, f, 0, size);
  }

  /** A path that is not bound, or no free handle: -1, no destination touched, nothing changed. */
  lemma CopyOutRefused(s: State, w: Ledger, path: cstring, dest: External)
    requires RunInv(s, w) && (!ValidPathname(path) || TfsLookup(s, path) == -1 || forall h :: 0 <= h < 20 ==> s.fileTs[h] == TAKEN)
    ensures CopyOut(s, path, dest) == (s, Failed, None)
  {
    hide Inv, FreeCount, AllSized, Accounted, OpenHandles;
    if ValidPathname(path) && TfsLookup(s, path) != -1 {
      LookupFindsLive(s, w, path);
      PlainOpen(s, w, path);
    }
  }

  /**
   The copy of a covered file that cannot be completed. Past the end of fs_data
   it faults; to a destination that does not open, or has too little room, it
   returns -1, leaves what fits there, and leaves its handle open.
   */
  lemma CopyOutFails(s: State, w: Ledger, path: cstring, dest: External)
    requires RunInv(s, w) && ValidPathname(path) && ValidInumber(TfsLookup(s, path)) && FirstFree(s.fileTs, 0) != -1
    requires s.inodes[TfsLookup(s, path)].size <= w.count[TfsLookup(s, path)] * BLOCK_SIZE <= FILE_BYTES
    ensures var f := TfsLookup(s, path);
            var size := s.inodes[f].size;
            var (s', r, received) := CopyOut(s, path, dest);
            if !CopiesFit(s, f, 0, size) then r == Fault && received == None
            else if dest.Unopenable? || dest.room < size then
              && r == Failed && received == (if dest.Unopenable? then None else Some(Slice(s, f, 0, size)[..dest.room]))
              && s' == s.(files := s'.files, fileTs := s.fileTs[FirstFree(s.fileTs, 0) := TAKEN])
            else r == Done(0) && received == Some(Slice(s, f, 0, size))
  {
    hide Inv, FreeCount, TfsLookup, TfsOpen, TfsRead, AllSized, Accounted, CopiesFit, Slice, FileByte;
    LookupFindsLive(s, w, path);
    PlainOpen(s, w, path);
    var (s1, h) := TfsOpen(s, path, Flags(false, false, false));
    CopyRead(s, w, s1, h, TfsLookup(s, path));
  }

  lemma {:induction false} ReadKeepsOpen(s: State, h: nat, dst: seq<byte>, at: nat, n: nat, total: nat)
    requires WellFormed(s) && h < MAX_OPEN_FILES && at + n <= |dst|
    ensures ReadLoop(s, h, dst, at, n, total).0.fileTs == s.fileTs
    decreases n
  {
    hide InodeUpdate;
    if n > 0 {
      var aux := ReadStep(n, s.files[h].offset);
      var (s1, p) := InodeUpdate(s, h);
      if p.Address? && p.at + n <= DATA_SIZE {
        ReadKeepsOpen(Advance(s1, h, aux), h, Splice(dst, at, s1.data[p.at..p.at + n]), at + aux, n - aux, total);
      }
    }
  }

  /** A copy never claims too much: from any state, 0 means that i_size bytes went into a destination with room for them. */
  lemma CompleteCopy(s: State, path: cstring, dest: External)
    requires WellFormed(s) && CopyOut(s, path, dest).1.Done?
    ensures var f := TfsLookup(s, path);
            var (s', r, received) := CopyOut(s, path, dest);
            && r == Done(0) && ValidInumber(f) && dest.Writable? && received.Some?
            && |received.value| == s.inodes[f].size <= dest.room
            && s'.fileTs == s.fileTs
  {
    hide ReadLoop;
    var (s1, h) := TfsOpen(s, path, Flags(false, false, false));
    var f := TfsLookup(s, path);
    var size := s.inodes[f].size;
    assert s1.inodes == s.inodes && s1.files[h].inumber == f;
    var n := ReadLength(s1, h, size);
    ReadKeepsOpen(s1, h, seq<byte>(size, _ => 0), 0, n, n);
    assert s.fileTs[h := TAKEN][h := FREE] == s.fileTs;
  }
}
