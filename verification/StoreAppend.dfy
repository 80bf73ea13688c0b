/**
 Opening for appending. A new file, a truncated one and one opened with
 TFS_O_APPEND have their handle at the end, and whatever is then written through
 it is the old content followed by all the buffers.
 */
module StoreAppend {
  import opened Memory
  import opened Directory
  import opened StoreModel
  import opened StoreOwnership
  import opened StoreWrite
  import opened StoreSplice
  import opened StoreRead
  import opened StoreOpen
  import opened StoreRuns
  import opened StoreHistory

  /** The open empties or creates its file. */
  predicate StartsEmpty(s: State, path: cstring, flags: Flags)
    requires WellFormed(s)
  {
    TfsLookup(s, path) < 0 || flags.trunc
  }

  /** The open starts at the end: the file is empty, or it is covered by blocks and opened to append. */
  ghost predicate OpensAtEnd(s: State, w: Ledger, path: cstring, flags: Flags)
    requires WellFormed(s) && |w.count| == INODE_TABLE_SIZE
  {
    var f := TfsLookup(s, path);
    || StartsEmpty(s, path, flags)
    || (flags.append && ValidInumber(f) && s.inodes[f].size <= INT_MAX && s.inodes[f].size <= w.count[f] * BLOCK_SIZE)
  }

  /** The content that the writes are appended to. */
  function Before(s: State, path: cstring, flags: Flags): seq<byte>
    requires WellFormed(s)
  {
    var f := TfsLookup(s, path);
    if StartsEmpty(s, path, flags) || !ValidInumber(f) || s.inodes[f].size > FILE_BYTES then []
    else Slice(s, f, 0, s.inodes[f].size)
  }

  /** A handle that was just added stands where it was told to, on a file as it was. */
  lemma AddedAtEnd(s: State, w: Ledger, f: nat)
    requires RunInv(s, w) && LiveFile(s, f)
    requires s.inodes[f].size <= INT_MAX && s.inodes[f].size <= w.count[f] * BLOCK_SIZE <= FILE_BYTES
    ensures var (s', h) := AddToOpenFileTable(s, f, s.inodes[f].size);
            h >= 0 ==>
              && ValidHandle(h) && RunInv(s', w) && s'.files[h].inumber == f && AtEnd(s', w, h) && LiveFile(s', f)
              && s'.inodes == s.inodes && Slice(s', f, 0, s.inodes[f].size) == Slice(s, f, 0, s.inodes[f].size)
  {
    hide Inv, FreeCount, Slice, Accounted, AllSized, OpenHandles;
    var s' := AddToOpenFileTable(s, f, s.inodes[f].size).0;
    AddHandleKeeps(s, w, f, s.inodes[f].size);
    SliceSame(s, s', f, 0, s.inodes[f].size);
  }

  /** The three ways to open at the end. */
  lemma OpenStandsAtEnd(s: State, w: Ledger, path: cstring, flags: Flags) returns (w': Ledger)
    requires RunInv(s, w) && ValidPathname(path) && OpensAtEnd(s, w, path, flags) && TfsOpen(s, path, flags).1 >= 0
    ensures var (s', h) := TfsOpen(s, path, flags);
            var before := Before(s, path, flags);
            && ValidHandle(h) && RunInv(s', w') && LiveFile(s', s'.files[h].inumber) && AtEnd(s', w', h)
            && s'.inodes[s'.files[h].inumber].size == |before| <= FILE_BYTES
            && Slice(s', s'.files[h].inumber, 0, |before|) == before
  {
    hide Inv, FreeCount, Slice, Accounted, AllSized, OpenHandles, TfsLookup, OpenExisting, OpenNew, AddToOpenFileTable,
         SameFile;
    LookupFindsLive(s, w, path);
    var f := TfsLookup(s, path);
    if f >= 0 {
      LedgerFacts(s, w, f);
      w' := TruncateKeeps(s, w, f, flags);
      AddedAtEnd(OpenExisting(s, f, flags).0, w', f);
    } else {
      w' := CreateKeeps(s, w, path);
      AddedAtEnd(OpenNew(s, path).0, w', OpenNew(s, path).1);
    }
  }

  /**
   Open, then write. After any list of buffers that fits into 266 blocks and
   the free blocks, the file is the content it was opened with followed by all
   of them, i_size is its length, and the handle stands at its end.
   */
  lemma OpenThenAppend(s: State, w: Ledger, path: cstring, flags: Flags, bufs: seq<seq<byte>>) returns (w': Ledger)
    requires RunInv(s, w) && ValidPathname(path) && OpensAtEnd(s, w, path, flags) && TfsOpen(s, path, flags).1 >= 0
    requires |Before(s, path, flags)| + |Concat(bufs)| <= FILE_BYTES
    requires var (s1, h) := TfsOpen(s, path, flags);
             ValidHandle(h) && ValidInumber(s1.files[h].inumber) ==> Enough(s1, h, |Concat(bufs)|)
    ensures var (s1, h) := TfsOpen(s, path, flags);
            var after := Before(s, path, flags) + Concat(bufs);
            ValidHandle(h)
            && var s' := WriteAll(s1, h, bufs);
               var f := s1.files[h].inumber;
            && ValidInumber(f) && Inv(s', w') && s'.files[h].inumber == f
            && s'.inodes[f].size == |after| == Pos(s'.files[h])
            && Slice(s', f, 0, |after|) == after
  {
    hide Inv, FreeCount, Slice, Accounted, AllSized, OpenHandles, TfsOpen, WriteAll, CountFrom, OpensAtEnd, Before;
    var w1 := OpenStandsAtEnd(s, w, path, flags);
    var (s1, h) := TfsOpen(s, path, flags);
    var f := s1.files[h].inumber;
    LedgerFacts(s1, w1, f);
    CountIsLedgers(s1, w1, f, 0);
    w' := AppendHistory(s1, w1, h, bufs);
  }
}
