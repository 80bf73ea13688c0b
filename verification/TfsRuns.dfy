/**
 Reads, writes and opens of part two against the abstract file system, and whole
 runs: from tfs_init, any guarded sequence of calls gives the results of the
 abstract file system.
 */
module TfsRuns {
  import opened Memory
  import opened Directory
  import opened StoreModel
  import opened Numbering
  import opened TfsInvariant
  import opened TfsRefinement
  import O = StoreOwnership
  import T = TfsModel
  import A = AbstractFs

  // ---------------------------------------------------------------------------
  // Data
  // ---------------------------------------------------------------------------

  /** The handle is open. */
  predicate IsOpen(s: T.Tables, h: int)
    requires T.Shaped(s)
  {
    ValidHandle(h) && s.fileTs[h] == TAKEN
  }

  /** An open handle, abstractly: its file and its offset, which may be past the end. */
  lemma OpenHandle(s: T.Tables, w: Book, h: int)
    requires Inv(s, w) && IsOpen(s, h)
    ensures var f := s.files[h].inumber;
            && AliveFile(s, f) && s.inodes[f].size <= BLOCK_SIZE
            && |w.at| == INODE_TABLE_SIZE && 0 <= w.at[f] < |w.names| && |w.owner| == DATA_BLOCKS
            && Abs(s, w).handles[h] == A.Handle(w.names[w.at[f]].name, s.files[h].offset)
            && w.names[w.at[f]].name in Abs(s, w).files
            && Abs(s, w).files[w.names[w.at[f]].name] == Content(s, f)
            && (A.OpenAt(Abs(s, w), h) <==> s.files[h].offset <= s.inodes[f].size) && |Content(s, f)| == s.inodes[f].size
            && (s.inodes[f].size > 0 ==>
                  && ValidBlock(s.inodes[f].dataBlock)
                  && w.owner[s.inodes[f].dataBlock] == f
                  && Content(s, f) == O.BlockOf(s.data, s.inodes[f].dataBlock)[..s.inodes[f].size])
  {
    hide CountTaken, Holds, FilesOf;
    var f := s.files[h].inumber;
    FilesOfValue(s, w.names, w.at[f]);
    if s.inodes[f].size > 0 {
      assert Uses(s, f);
    }
  }

  lemma SliceOfBlock(data: seq<byte>, b: nat, size: nat, offset: nat, n: nat)
    requires |data| == DATA_SIZE && b < DATA_BLOCKS && offset + n <= size <= BLOCK_SIZE
    ensures data[b * BLOCK_SIZE + offset..b * BLOCK_SIZE + offset + n] == O.BlockOf(data, b)[..size][offset..offset + n]
  {
    var from := b * BLOCK_SIZE + offset;
    var copied := data[from..from + n];
    var slice := O.BlockOf(data, b)[..size][offset..offset + n];
    forall k | 0 <= k < n
      ensures copied[k] == slice[k]
    {
      assert O.BlockOf(data, b)[offset + k] == data[b * BLOCK_SIZE + (offset + k)];
    }
  }

  /** Moving one handle changes one entry of the abstract handle map. */
  lemma HandleMoves(s: T.Tables, w: Book, s': T.Tables, w': Book, h: int)
    requires Inv(s, w) && Inv(s', w') && IsOpen(s, h) && w'.names == w.names && w'.at == w.at
    requires s'.fileTs == s.fileTs && s'.files == s.files[h := s'.files[h]] && s'.files[h].inumber == s.files[h].inumber
    ensures Abs(s', w').handles == Abs(s, w).handles[h := Abs(s, w).handles[h].(offset := s'.files[h].offset)]
  {
    hide BlocksOk, RootOk, CountTaken, FilesOf;
  }

  /** What tfs_read does on an open handle. */
  lemma ReadIsSlice(s: T.Tables, w: Book, h: nat, dst: seq<byte>, len: nat)
    requires Inv(s, w) && IsOpen(s, h) && len <= |dst| && A.OpenAt(Abs(s, w), h)
    ensures var f := s.files[h].inumber;
            var offset := s.files[h].offset;
            && ValidInumber(f) && offset <= |Content(s, f)|
            && var n := Min(len, |Content(s, f)| - offset);
            && 0 <= n <= len
            && T.Read(s, h, dst, len) ==
                 (s.(files := s.files[h := T.TFile(f, offset + n)]),
                  Splice(dst, 0, Content(s, f)[offset..offset + n]), Done(n))
  {
    hide BlocksOk, RootOk, CountTaken, NamesOk, O.BlockOf;
    OpenHandle(s, w, h);
    var f := s.files[h].inumber;
    var offset := s.files[h].offset;
    var n := T.ReadLength(s.inodes[f].size, offset, len);
    if n == 0 {
      assert s.files[h := T.TFile(f, offset)] == s.files;
      assert Splice(dst, 0, []) == dst;
    } else {
      SliceOfBlock(s.data, s.inodes[f].dataBlock, s.inodes[f].size, offset, n);
    }
  }

  /** tfs_read returns the bytes at the offset, as many as are left, and moves the handle. */
  lemma ReadRefines(s: T.Tables, w: Book, h: int, dst: seq<byte>, len: nat)
    requires Inv(s, w) && IsOpen(s, h) && len <= |dst| && A.OpenAt(Abs(s, w), h)
    ensures var (s', dst', r) := T.Read(s, h, dst, len);
            var (a', bytes, r') := A.Read(Abs(s, w), h, len);
            && Inv(s', w) && Abs(s', w) == a' && r == r'
            && |bytes| <= |dst| && dst' == Splice(dst, 0, bytes)
  {
    hide BlocksOk, RootOk, CountTaken, FilesOf, Content, HandlesOf, T.Read;
    OpenHandle(s, w, h);
    ReadIsSlice(s, w, h, dst, len);
    var s' := T.Read(s, h, dst, len).0;
    HandleTableKeeps(s, w, s');
    HandleMoves(s, w, s', w, h);
  }

  /** The state after n > 0 bytes have gone into block b of file f through handle h. */
  function Put(s: T.Tables, f: nat, h: nat, b: nat, chunk: seq<byte>): (r: T.Tables)
    requires T.Shaped(s) && f < INODE_TABLE_SIZE && h < MAX_OPEN_FILES && b < DATA_BLOCKS
    requires s.files[h].offset + |chunk| <= BLOCK_SIZE && s.inodes[f].size <= BLOCK_SIZE
    ensures T.Shaped(r)
  {
    var end := s.files[h].offset + |chunk|;
    s.(blocks := s.blocks[b := TAKEN],
       inodes := s.inodes[f := T.TInode(s.inodes[f].kind, if end > s.inodes[f].size then end else s.inodes[f].size, b)],
       data := Splice(s.data, b * BLOCK_SIZE + s.files[h].offset, chunk),
       files := s.files[h := T.TFile(f, end)])
  }

  /** The block that a write of one byte or more uses: the file's, or a new one. */
  lemma BlockToWrite(s: T.Tables, w: Book, h: nat) returns (b: nat)
    requires Inv(s, w) && IsOpen(s, h)
    ensures var f := s.files[h].inumber;
            && AliveFile(s, f) && s.inodes[f].size <= BLOCK_SIZE && |w.owner| == DATA_BLOCKS && b < DATA_BLOCKS
            && (if s.inodes[f].size > 0 then b == s.inodes[f].dataBlock && w.owner[b] == f else w.owner[b] == -1)
            && T.EnsureBlock(s, f) ==
                 s.(blocks := s.blocks[b := TAKEN], inodes := s.inodes[f := s.inodes[f].(dataBlock := b)])
  {
    hide NamesOk, RootOk, CountTaken;
    OpenHandle(s, w, h);
    AllocationsSucceed(s, w);
    var f := s.files[h].inumber;
    if s.inodes[f].size > 0 {
      b := s.inodes[f].dataBlock;
      assert Uses(s, f);
      assert s.blocks[b := TAKEN] == s.blocks;
      assert s.inodes[f := s.inodes[f]] == s.inodes;
    } else {
      b := FirstFree(s.blocks, 0);
    }
  }

  /** tfs_write on an open handle up to byte 1024 ends in such a state; data_block_alloc does not fail. */
  lemma WriteIsPut(s: T.Tables, w: Book, h: nat, buf: seq<byte>) returns (b: nat)
    requires Inv(s, w) && IsOpen(s, h) && |buf| + s.files[h].offset < SIZE_MOD && s.files[h].offset <= BLOCK_SIZE
    ensures var f := s.files[h].inumber;
            var n := Min(|buf|, BLOCK_SIZE - s.files[h].offset);
            && AliveFile(s, f) && s.inodes[f].size <= BLOCK_SIZE && |w.owner| == DATA_BLOCKS && 0 <= n
            && b < DATA_BLOCKS
            && (if s.inodes[f].size > 0 then b == s.inodes[f].dataBlock && w.owner[b] == f else w.owner[b] == -1)
            && T.Write(s, h, buf) == (if n == 0 then s else Put(s, f, h, b, buf[..n]), Done(n))
  {
    b := BlockToWrite(s, w, h);
    hide BlocksOk, NamesOk, RootOk, CountTaken, T.EnsureBlock;
    var f := s.files[h].inumber;
    var ino := s.inodes[f].(dataBlock := b);
    assert forall end :: s.inodes[f := ino][f := ino.(size := end)] == s.inodes[f := ino.(size := end)];
  }

  /** A copy inside block b changes no other block. */
  lemma PutOtherBlocks(s: T.Tables, f: nat, h: nat, b: nat, chunk: seq<byte>, c: nat)
    requires T.Shaped(s) && f < INODE_TABLE_SIZE && h < MAX_OPEN_FILES && b < DATA_BLOCKS && c < DATA_BLOCKS && c != b
    requires s.files[h].offset + |chunk| <= BLOCK_SIZE && s.inodes[f].size <= BLOCK_SIZE
    ensures O.BlockOf(Put(s, f, h, b, chunk).data, c) == O.BlockOf(s.data, c)
  {
    O.SpliceOtherBlock(s.data, b * BLOCK_SIZE + s.files[h].offset, chunk, b, c);
  }

  /** The content of the written file. */
  lemma PutContent(s: T.Tables, w: Book, h: nat, b: nat, chunk: seq<byte>)
    requires Inv(s, w) && IsOpen(s, h) && b < DATA_BLOCKS && chunk != [] && A.OpenAt(Abs(s, w), h)
    requires s.files[h].offset + |chunk| <= BLOCK_SIZE
    requires AliveFile(s, s.files[h].inumber) && s.inodes[s.files[h].inumber].size <= BLOCK_SIZE
    requires s.inodes[s.files[h].inumber].size > 0 ==> b == s.inodes[s.files[h].inumber].dataBlock
    ensures var f := s.files[h].inumber;
            && s.files[h].offset <= |Content(s, f)|
            && Content(Put(s, f, h, b, chunk), f) == A.Overwrite(Content(s, f), s.files[h].offset, chunk)
  {
    hide BlocksOk, NamesOk, RootOk, CountTaken, FilesOf, HandlesOf, Abs, A.OpenAt;
    OpenHandle(s, w, h);
    var f := s.files[h].inumber;
    var offset := s.files[h].offset;
    var s' := Put(s, f, h, b, chunk);
    assert O.BlockOf(s'.data, b) == Splice(O.BlockOf(s.data, b), offset, chunk);
    OverwriteBlock(O.BlockOf(s.data, b), s.inodes[f].size, offset, chunk);
    assert Content(s, f) == O.BlockOf(s.data, b)[..s.inodes[f].size];
  }

  lemma OverwriteBlock(blk: seq<byte>, size: nat, offset: nat, chunk: seq<byte>)
    requires |blk| == BLOCK_SIZE && offset <= size <= BLOCK_SIZE && offset + |chunk| <= BLOCK_SIZE
    ensures var end := offset + |chunk|;
            Splice(blk, offset, chunk)[..if end > size then end else size] == A.Overwrite(blk[..size], offset, chunk)
  {
  }

  /** The tables stay consistent, with block b now certainly f's. */
  lemma PutKeepsBook(s: T.Tables, w: Book, h: nat, b: nat, chunk: seq<byte>)
    requires Inv(s, w) && IsOpen(s, h) && b < DATA_BLOCKS && |w.owner| == DATA_BLOCKS && chunk != []
    requires s.files[h].offset + |chunk| <= BLOCK_SIZE
    requires AliveFile(s, s.files[h].inumber) && s.inodes[s.files[h].inumber].size <= BLOCK_SIZE
    requires if s.inodes[s.files[h].inumber].size > 0 then
               b == s.inodes[s.files[h].inumber].dataBlock && w.owner[b] == s.files[h].inumber
             else w.owner[b] == -1
    ensures Inv(Put(s, s.files[h].inumber, h, b, chunk), w.(owner := w.owner[b := s.files[h].inumber]))
  {
    hide CountTaken, Holds;
    var f := s.files[h].inumber;
    var s' := Put(s, f, h, b, chunk);
    var w' := w.(owner := w.owner[b := f]);
    assert forall g :: Alive(s', g) <==> Alive(s, g);
    assert forall g :: Uses(s', g) <==> Uses(s, g) || g == f;
    assert BlocksOk(s', w');
    assert NamesOk(s', w');
    assert FilesOk(s');
    assert Uses(s, ROOT_DIR_INUM);
    var r := s.inodes[ROOT_DIR_INUM].dataBlock;
    PutOtherBlocks(s, f, h, b, chunk, r);
    forall p | r * BLOCK_SIZE <= p < (r + 1) * BLOCK_SIZE
      ensures s.data[p] == s'.data[p]
    {
      assert s.data[p] == O.BlockOf(s.data, r)[p - r * BLOCK_SIZE];
      assert s'.data[p] == O.BlockOf(s'.data, r)[p - r * BLOCK_SIZE];
    }
    HoldsFrame(s.data, s'.data, r * BLOCK_SIZE, w.names);
  }

  /** No other file sees the write. */
  lemma PutKeepsContents(s: T.Tables, w: Book, h: nat, b: nat, chunk: seq<byte>)
    requires Inv(s, w) && IsOpen(s, h) && b < DATA_BLOCKS && |w.owner| == DATA_BLOCKS
    requires s.files[h].offset + |chunk| <= BLOCK_SIZE
    requires AliveFile(s, s.files[h].inumber) && s.inodes[s.files[h].inumber].size <= BLOCK_SIZE
    requires w.owner[b] == s.files[h].inumber || w.owner[b] == -1
    ensures forall g :: AliveFile(s, g) && g != s.files[h].inumber ==>
              Content(Put(s, s.files[h].inumber, h, b, chunk), g) == Content(s, g)
  {
    hide CountTaken, Holds, Content;
    var f := s.files[h].inumber;
    var s' := Put(s, f, h, b, chunk);
    forall g | AliveFile(s, g) && g != f
      ensures Content(s', g) == Content(s, g)
    {
      if s.inodes[g].size > 0 {
        assert Uses(s, g);
        PutOtherBlocks(s, f, h, b, chunk, s.inodes[g].dataBlock);
      }
      ContentFrame(s, s', g);
    }
  }

  /**
   tfs_write splices into the file at the offset, at most up to 1024 bytes, and
   returns how many bytes went in. The length must not overflow when added to
   the offset.
   */
  lemma WriteRefines(s: T.Tables, w: Book, h: int, buf: seq<byte>) returns (w': Book)
    requires Inv(s, w) && IsOpen(s, h) && |buf| + s.files[h].offset < SIZE_MOD && A.OpenAt(Abs(s, w), h)
    ensures var (s', r) := T.Write(s, h, buf);
            Inv(s', w') && (Abs(s', w'), r) == A.Write(Abs(s, w), h, buf)
  {
    hide BlocksOk, RootOk, CountTaken, FilesOf, HandlesOf, Content, T.Write, A.Write, Put;
    OpenHandle(s, w, h);
    WriteClipped(Abs(s, w), h, buf);
    var b := WriteIsPut(s, w, h, buf);
    var n := Min(|buf|, BLOCK_SIZE - s.files[h].offset);
    if n == 0 {
      w' := w;
      NothingPut(s, w, h, buf);
    } else {
      w' := w.(owner := w.owner[b := s.files[h].inumber]);
      SomePut(s, w, h, b, buf[..n]);
    }
  }

  /** A write of chunk that fits. */
  lemma SomePut(s: T.Tables, w: Book, h: nat, b: nat, chunk: seq<byte>)
    requires Inv(s, w) && IsOpen(s, h) && b < DATA_BLOCKS && |w.owner| == DATA_BLOCKS && chunk != []
    requires s.files[h].offset + |chunk| <= BLOCK_SIZE
    requires AliveFile(s, s.files[h].inumber) && s.inodes[s.files[h].inumber].size <= BLOCK_SIZE
    requires if s.inodes[s.files[h].inumber].size > 0 then
               b == s.inodes[s.files[h].inumber].dataBlock && w.owner[b] == s.files[h].inumber
             else w.owner[b] == -1
    requires A.OpenAt(Abs(s, w), h)
    ensures var s' := Put(s, s.files[h].inumber, h, b, chunk);
            var w' := w.(owner := w.owner[b := s.files[h].inumber]);
            Inv(s', w') && Abs(s', w') == A.Write(Abs(s, w), h, chunk).0
  {
    hide BlocksOk, RootOk, CountTaken, FilesOf, Content, HandlesOf;
    var f := s.files[h].inumber;
    var s' := Put(s, f, h, b, chunk);
    var w' := w.(owner := w.owner[b := f]);
    OpenHandle(s, w, h);
    PutContent(s, w, h, b, chunk);
    PutKeepsBook(s, w, h, b, chunk);
    PutKeepsContents(s, w, h, b, chunk);
    ContentChange(s, w, s', w', f);
    assert chunk[..|chunk|] == chunk;
    HandleMoves(s, w, s', w', h);
  }

  /** The abstract write of what fits. */
  lemma WriteClipped(a: A.Fs, h: int, buf: seq<byte>)
    requires A.OpenAt(a, h)
    ensures var n := Min(|buf|, BLOCK_SIZE - a.handles[h].offset);
            0 <= n <= |buf| && A.Write(a, h, buf) == (A.Write(a, h, buf[..n]).0, Done(n))
  {
    var n := Min(|buf|, BLOCK_SIZE - a.handles[h].offset);
    assert buf[..n][..n] == buf[..n];
  }

  lemma NothingPut(s: T.Tables, w: Book, h: int, buf: seq<byte>)
    requires Inv(s, w) && IsOpen(s, h) && A.OpenAt(Abs(s, w), h)
    requires Min(|buf|, BLOCK_SIZE - s.files[h].offset) == 0
    ensures A.Write(Abs(s, w), h, buf) == (Abs(s, w), Done(0))
  {
    hide BlocksOk, RootOk, CountTaken, FilesOf;
    OpenHandle(s, w, h);
    var a := Abs(s, w);
    var name := a.handles[h].name;
    var offset := a.handles[h].offset;
    assert A.Overwrite(a.files[name], offset, []) == a.files[name];
    assert a.files[name := a.files[name]] == a.files;
    assert a.handles[h := a.handles[h]] == a.handles;
  }

  // ---------------------------------------------------------------------------
  // tfs_open
  // ---------------------------------------------------------------------------

  lemma ContentSize(s: T.Tables, w: Book, f: int)
    requires Inv(s, w) && AliveFile(s, f)
    ensures |Content(s, f)| == s.inodes[f].size < SIZE_MOD
  {
    hide CountTaken, Holds;
    if s.inodes[f].size > 0 {
      assert Uses(s, f);
    }
  }

  /** Opening a bound name. */
  lemma OpenBound(s: T.Tables, w: Book, path: cstring, flags: Flags) returns (w': Book)
    requires Inv(s, w) && ValidPathname(path) && NameOf(path) in Abs(s, w).files
    ensures var (s', r) := T.Open(s, path, flags);
            Inv(s', w') && (Abs(s', w'), r) == A.Open(Abs(s, w), path, flags)
  {
    hide BlocksOk, RootOk, NamesOk, CountTaken, FilesOf, HandlesOf, Content, T.Lookup, T.Truncate, T.AddHandle, Abs, A.AddHandle;
    LookupRefines(s, w, path);
    var f := T.Lookup(s, path);
    var name := NameOf(path);
    var s1 := s;
    w' := w;
    if flags.trunc {
      w' := TruncateRefines(s, w, f);
      s1 := T.Truncate(s, f).0;
    } else {
      ContentSize(s, w, f);
    }
    var a := Abs(s, w);
    var content := if flags.trunc then [] else a.files[name];
    AbsTruncated(s, w, s1, w', name, content);
    AddHandleRefines(s1, w', f, if flags.append then s1.inodes[f].size else 0);
  }

  lemma AbsTruncated(s: T.Tables, w: Book, s1: T.Tables, w1: Book, name: cstring, content: seq<byte>)
    requires Inv(s, w) && Inv(s1, w1) && name in Abs(s, w).files
    requires if s1 == s && w1 == w && Abs(s, w).files[name] == content then true else
               Abs(s1, w1).files == Abs(s, w).files[name := content] && Abs(s1, w1).handles == Abs(s, w).handles
    ensures Abs(s1, w1) == Abs(s, w).(files := Abs(s, w).files[name := content])
  {
    hide BlocksOk, RootOk, CountTaken, FilesOf, HandlesOf;
    assert s1 == s && w1 == w && Abs(s, w).files[name] == content ==>
        Abs(s, w).files[name := content] == Abs(s, w).files;
  }

  /** Opening a name that is not bound. */
  lemma OpenUnbound(s: T.Tables, w: Book, path: cstring, flags: Flags) returns (w': Book)
    requires Inv(s, w) && ValidPathname(path) && |NameOf(path)| < MAX_FILE_NAME && NameOf(path) !in Abs(s, w).files
    ensures var (s', r) := T.Open(s, path, flags);
            Inv(s', w') && (Abs(s', w'), r) == A.Open(Abs(s, w), path, flags)
  {
    hide BlocksOk, RootOk, NamesOk, CountTaken, FilesOf, HandlesOf, Content, T.Lookup, T.CreateNamed, T.AddHandle, Abs, A.AddHandle;
    LookupRefines(s, w, path);
    DirectoryFits(s, w);
    w' := w;
    if flags.creat {
      w' := CreateRefines(s, w, path);
      var (s1, f) := T.CreateNamed(s, path);
      if f != -1 {
        AddHandleRefines(s1, w', f, 0);
      }
    }
  }

  // ---------------------------------------------------------------------------
  // Runs
  // ---------------------------------------------------------------------------

  datatype Op =
    | Open(path: cstring, flags: Flags)
    | Close(h: int)
    | Write(h: int, buf: seq<byte>)
    | Read(h: int, dst: seq<byte>, len: nat)

  /** What the caller gets back: the return value, and for a read its buffer. */
  datatype Reply = Reply(outcome: Outcome, buffer: seq<byte>)

  function Step(s: T.Tables, op: Op): (r: (T.Tables, Reply))
    requires T.Shaped(s)
    ensures T.Shaped(r.0)
  {
    match op
    case Open(path, flags) => var (s', r) := T.Open(s, path, flags); (s', Reply(r, []))
    case Close(h) => var (s', r) := T.Close(s, h); (s', Reply(r, []))
    case Write(h, buf) => var (s', r) := T.Write(s, h, buf); (s', Reply(r, []))
    case Read(h, dst, len) =>
      if len > |dst| then (s, Reply(Failed, dst))
      else var (s', dst', r) := T.Read(s, h, dst, len); (s', Reply(r, dst'))
  }

  /** The same call on the abstract file system. A handle number outside the table is an error. */
  function AbsStep(a: A.Fs, op: Op): (A.Fs, Reply)
    requires Guard(a, op)
  {
    match op
    case Open(path, flags) => var (a', r) := A.Open(a, path, flags); (a', Reply(r, []))
    case Close(h) => var (a', r) := A.Close(a, h); (a', Reply(r, []))
    case Write(h, buf) =>
      if !ValidHandle(h) then (a, Reply(Failed, []))
      else var (a', r) := A.Write(a, h, buf); (a', Reply(r, []))
    case Read(h, dst, len) =>
      if !ValidHandle(h) then (a, Reply(Failed, dst))
      else var (a', bytes, r) := A.Read(a, h, len); (a', Reply(r, Splice(dst, 0, bytes)))
  }

  /**
   What callers must respect, in terms of the abstract file system only: names of
   1 to 39 bytes; data through open handles that stand within their file; and
   write lengths that do not overflow. Truncation is free.
   */
  predicate Guard(a: A.Fs, op: Op) {
    match op
    case Open(path, flags) => ValidPathname(path) && |NameOf(path)| < MAX_FILE_NAME
    case Close(_) => true
    case Write(h, buf) => ValidHandle(h) ==> A.OpenAt(a, h) && |buf| + a.handles[h].offset < SIZE_MOD
    case Read(h, dst, len) => len <= |dst| && (ValidHandle(h) ==> A.OpenAt(a, h))
  }

  lemma OpenRefines(s: T.Tables, w: Book, path: cstring, flags: Flags) returns (w': Book)
    requires Inv(s, w) && Guard(Abs(s, w), Open(path, flags))
    ensures var (s', r) := T.Open(s, path, flags);
            Inv(s', w') && (Abs(s', w'), r) == A.Open(Abs(s, w), path, flags)
  {
    hide BlocksOk, RootOk, CountTaken, FilesOf, Content, T.Open, A.Open, T.Lookup;
    if NameOf(path) in Abs(s, w).files {
      w' := OpenBound(s, w, path, flags);
    } else {
      w' := OpenUnbound(s, w, path, flags);
    }
  }

  lemma InvalidHandle(s: T.Tables, w: Book, h: int)
    requires Inv(s, w)
    ensures h in Abs(s, w).handles <==> IsOpen(s, h)
    ensures IsOpen(s, h) ==> Abs(s, w).handles[h].offset == s.files[h].offset
    ensures !ValidHandle(h) ==> !A.OpenAt(Abs(s, w), h)
  {
    hide BlocksOk, RootOk, CountTaken, FilesOf, Content;
  }

  /** One guarded call: same reply, matching states. */
  lemma StepRefines(s: T.Tables, w: Book, op: Op) returns (w': Book)
    requires T.Shaped(s) && NamesOk(s, w) && FilesOk(s)
    requires Inv(s, w) && Guard(Abs(s, w), op)
    ensures var (s', r) := Step(s, op);
            Inv(s', w') && (Abs(s', w'), r) == AbsStep(Abs(s, w), op)
  {
    hide BlocksOk, RootOk, NamesOk, FilesOk, CountTaken, Abs, T.Open, T.Close, A.Open, A.Close, A.Write, A.Read;
    match op
    case Open(path, flags) => w' := OpenRefines(s, w, path, flags);
    case Close(h) => CloseRefines(s, w, h); w' := w;
    case Write(h, buf) =>
      InvalidHandle(s, w, h);
      if ValidHandle(h) {
        w' := WriteRefines(s, w, h, buf);
      } else {
        w' := w;
      }
    case Read(h, dst, len) =>
      InvalidHandle(s, w, h);
      if ValidHandle(h) {
        ReadRefines(s, w, h, dst, len);
      }
      w' := w;
  }

  function Run(s: T.Tables, ops: seq<Op>): (r: (T.Tables, seq<Reply>))
    requires T.Shaped(s)
    ensures T.Shaped(r.0)
    decreases |ops|
  {
    if ops == [] then (s, [])
    else
      var (s1, first) := Step(s, ops[0]);
      var (s2, rest) := Run(s1, ops[1..]);
      (s2, [first] + rest)
  }

  function AbsRun(a: A.Fs, ops: seq<Op>): (A.Fs, seq<Reply>)
    requires Guarded(a, ops)
    decreases |ops|
  {
    if ops == [] then (a, [])
    else
      var (a1, first) := AbsStep(a, ops[0]);
      var (a2, rest) := AbsRun(a1, ops[1..]);
      (a2, [first] + rest)
  }

  predicate Guarded(a: A.Fs, ops: seq<Op>)
    decreases |ops|
  {
    ops != [] ==> Guard(a, ops[0]) && Guarded(AbsStep(a, ops[0]).0, ops[1..])
  }

  lemma {:induction false} RunRefines(s: T.Tables, w: Book, ops: seq<Op>) returns (w': Book)
    requires T.Shaped(s) && NamesOk(s, w) && FilesOk(s)
    requires Inv(s, w) && Guarded(Abs(s, w), ops)
    ensures var (s', replies) := Run(s, ops);
            Inv(s', w') && (Abs(s', w'), replies) == AbsRun(Abs(s, w), ops)
    decreases |ops|
  {
    hide BlocksOk, RootOk, CountTaken, Abs, Step, AbsStep, Guard;
    if ops == [] {
      w' := w;
    } else {
      var w1 := StepRefines(s, w, ops[0]);
      w' := RunRefines(Step(s, ops[0]).0, w1, ops[1..]);
    }
  }

  /** The book of a fresh file system. */
  function InitialBook(): (w: Book)
    ensures |w.owner| == DATA_BLOCKS && |w.at| == INODE_TABLE_SIZE
  {
    Book(seq<int>(DATA_BLOCKS, b => if b == 0 then ROOT_DIR_INUM else -1), [], seq<int>(INODE_TABLE_SIZE, _ => -1))
  }

  lemma InitRefines(s: T.Tables)
    requires T.Shaped(s)
    ensures T.Init(s).1 == 0 && Inv(T.Init(s).0, InitialBook())
    ensures Abs(T.Init(s).0, InitialBook()) == A.Fs(map[], map[])
  {
    hide Count, ClearEntries;
    var s' := T.Init(s).0;
    var free := seq(INODE_TABLE_SIZE, _ => FREE);
    var blocks := seq(DATA_BLOCKS, _ => FREE);
    assert FirstFree(free, 0) == 0 && FirstFree(blocks, 0) == 0;
    assert s'.inodeTs == free[0 := TAKEN] && s'.blocks == blocks[0 := TAKEN];
    assert s'.fileTs == seq(MAX_OPEN_FILES, _ => FREE);
    assert s'.inodes[0] == T.TInode(T_DIRECTORY, BLOCK_SIZE, 0) && s'.data == ClearEntries(s.data, 0, 0);
    ClearedIsEmpty(s.data, 0);
    CountUniform(s'.fileTs, FREE, TAKEN);
    assert BlocksOk(s', InitialBook());
  }

  /**
   Whole-run refinement. After tfs_init, every guarded sequence of calls returns
   to its callers exactly what the abstract file system returns, and the tables
   stand for the abstract state: writes splice, reads return exact bytes,
   truncation empties whoever has the file open, and no call fails for lack of
   space.
   */
  lemma RunsRefine(s: T.Tables, ops: seq<Op>) returns (w: Book)
    requires T.Shaped(s) && Guarded(A.Fs(map[], map[]), ops)
    ensures var (s', replies) := Run(T.Init(s).0, ops);
            && Inv(s', w)
            && (Abs(s', w), replies) == AbsRun(A.Fs(map[], map[]), ops)
            && CountTaken(s'.inodeTs) <= 24 && CountTaken(s'.blocks) <= 24
            && s'.openCount == |Abs(s', w).handles|
  {
    hide BlocksOk, RootOk, CountTaken, Abs, T.Init, Run, AbsRun, Guarded;
    InitRefines(s);
    w := RunRefines(T.Init(s).0, InitialBook(), ops);
    var s' := Run(T.Init(s).0, ops).0;
    FewTaken(s', w);
    HandleCount(s', w);
  }

  lemma {:induction false} TakenSet(t: seq<Allocation>)
    ensures |set h | 0 <= h < |t| && t[h] == TAKEN| == CountTaken(t)
  {
    var all := set h | 0 <= h < |t| && t[h] == TAKEN;
    if t == [] {
      assert all == {};
    } else {
      var n := |t| - 1;
      TakenSet(t[..n]);
      var rest := set h | 0 <= h < |t[..n]| && t[..n][h] == TAKEN;
      assert forall h :: h in all <==> h in rest || (h == n && t[n] == TAKEN);
      assert all == if t[n] == TAKEN then rest + {n} else rest;
    }
  }

  /** open_file_count is the number of open handles. */
  lemma HandleCount(s: T.Tables, w: Book)
    requires Inv(s, w)
    ensures s.openCount == |Abs(s, w).handles|
  {
    hide BlocksOk, RootOk, FilesOf, CountTaken;
    TakenSet(s.fileTs);
    var hs := Abs(s, w).handles;
    assert hs.Keys == set h | 0 <= h < |s.fileTs| && s.fileTs[h] == TAKEN;
    assert |hs| == |hs.Keys|;
  }

  // ---------------------------------------------------------------------------
  // Handles within their files
  // ---------------------------------------------------------------------------

  /** Every handle stands within its file, and every file within one block. */
  ghost predicate AllWithin(a: A.Fs) {
    && (forall h :: h in a.handles ==> A.OpenAt(a, h))
    && (forall name :: name in a.files ==> |a.files[name]| <= BLOCK_SIZE)
  }

  /** Any open handle will do for data, but truncation waits until no open handle of the file is past 0. */
  ghost predicate Gentle(a: A.Fs, op: Op) {
    match op
    case Open(path, flags) =>
      && ValidPathname(path) && |NameOf(path)| < MAX_FILE_NAME
      && (flags.trunc ==>
            forall h :: h in a.handles && a.handles[h].name == NameOf(path) ==> a.handles[h].offset == 0)
    case Close(_) => true
    case Write(h, buf) => ValidHandle(h) ==> h in a.handles && |buf| + a.handles[h].offset < SIZE_MOD
    case Read(h, dst, len) => len <= |dst| && (ValidHandle(h) ==> h in a.handles)
  }

  ghost predicate AllGentle(a: A.Fs, ops: seq<Op>)
    decreases |ops|
  {
    ops != [] ==>
      Gentle(a, ops[0]) && (Guard(a, ops[0]) ==> AllGentle(AbsStep(a, ops[0]).0, ops[1..]))
  }

  lemma GentleStep(a: A.Fs, op: Op)
    requires AllWithin(a) && Gentle(a, op)
    ensures Guard(a, op) && AllWithin(AbsStep(a, op).0)
  {
    hide LowestFree;
    match op
    case Open(path, flags) =>
    case Close(h) =>
    case Write(h, buf) =>
      if ValidHandle(h) {
        assert A.OpenAt(a, h);
      }
    case Read(h, dst, len) =>
      if ValidHandle(h) {
        assert A.OpenAt(a, h);
      }
  }

  lemma {:induction false} GentleRun(a: A.Fs, ops: seq<Op>)
    requires AllWithin(a) && AllGentle(a, ops)
    ensures Guarded(a, ops) && AllWithin(AbsRun(a, ops).0)
    decreases |ops|
  {
    hide AllWithin, Gentle, Guard, AbsStep;
    if ops != [] {
      GentleStep(a, ops[0]);
      GentleRun(AbsStep(a, ops[0]).0, ops[1..]);
    }
  }

  /**
   With truncation only when no open handle of the file is past 0, data calls
   through any open handle are guarded, and offset <= size <= 1024 always.
   */
  lemma RunsStayWithin(s: T.Tables, ops: seq<Op>) returns (w: Book)
    requires T.Shaped(s) && AllGentle(A.Fs(map[], map[]), ops)
    ensures Guarded(A.Fs(map[], map[]), ops)
    ensures var s' := Run(T.Init(s).0, ops).0;
            Inv(s', w) && HandlesIn(s') && Abs(s', w) == AbsRun(A.Fs(map[], map[]), ops).0
  {
    assert AllWithin(A.Fs(map[], map[]));
    hide AllWithin, AllGentle, Guarded, Run, AbsRun, T.Init, BlocksOk, RootOk, CountTaken, Abs;
    GentleRun(A.Fs(map[], map[]), ops);
    w := RunsRefine(s, ops);
    WithinTables(Run(T.Init(s).0, ops).0, w);
  }

  lemma WithinTables(s: T.Tables, w: Book)
    requires Inv(s, w) && AllWithin(Abs(s, w))
    ensures HandlesIn(s)
  {
    hide BlocksOk, RootOk, CountTaken, FilesOf, Content;
    forall h | 0 <= h < MAX_OPEN_FILES && s.fileTs[h] == TAKEN && ValidInumber(s.files[h].inumber)
      ensures s.files[h].offset <= s.inodes[s.files[h].inumber].size
    {
      OpenHandle(s, w, h);
      assert h in Abs(s, w).handles;
    }
  }
}
