/**
 When i_size is the length of a file. tfs_write adds every byte it writes, so
 the size is right as long as each write starts at i_size, and one overwrite
 spoils it until the file is emptied.
 */
module StoreSize {
  import opened Memory
  import opened Directory
  import opened StoreModel
  import opened Numbering
  import opened StoreOwnership
  import opened StoreWrite
  import opened StoreSplice
  import opened StoreRuns
  import opened StoreRefinement
  import F = FlatStore

  /** After one write the size is the end of the file exactly when the write started at the old size. */
  lemma SizeRightIff(s: State, w: Ledger, h: nat, buf: seq<byte>)
    requires WellFormed(s) && Inv(s, w) && |w.count| == INODE_TABLE_SIZE && Room(s, h, |buf|) && buf != []
    requires FreeCount(s.blocks) >= Needed(s, w, h, |buf|)
    ensures var f := s.files[h].inumber;
            TfsWrite(s, h, buf).0.inodes[f].size == Max(s.inodes[f].size, Pos(s.files[h]) + |buf|) <==>
            Pos(s.files[h]) == s.inodes[f].size
  {
    hide Inv, FreeCount, WriteLoop, Needed, Written;
    var w' := WriteLoopSplices(s, w, h, buf, |buf|);
  }

  /**
   The last byte written says less. A byte overwritten and then an append at
   i_size end at i_size again, with a byte in between that was never written.
   */
  lemma AppendHidesOverwrite()
    ensures var file := F.WriteFile(F.WriteFile(F.WriteFile(F.EMPTY_FILE, 0, [1]), 0, [2]), 2, [3]);
            && file.size == 3 && 1 !in file.bytes
            && (forall p :: p in file.bytes ==> p < 3) && 2 in file.bytes
  {
    assert F.Within(2, 2, 1);
  }

  // ---------------------------------------------------------------------------
  // Over runs
  // ---------------------------------------------------------------------------

  /** Exactly the bytes below i_size have been written. */
  ghost predicate Dense(file: F.File) {
    forall p :: p in file.bytes <==> 0 <= p < file.size
  }

  /** The call writes to file f. */
  ghost predicate WritesTo(a: F.Flat, op: Op, f: int)
    requires Allowed(a, op)
  {
    op.Write? && ValidHandle(op.h) && op.buf != [] && a.handles[op.h].file == f
  }

  /** The call empties file f. */
  ghost predicate Empties(a: F.Flat, op: Op, f: int) {
    op.Open? && ValidPathname(op.path) && op.flags.trunc && f in a.files && Lookup(a.names, NameOf(op.path)) == f
  }

  /** Every write to f since it was last empty started at i_size; `ok` says so of the calls before. */
  ghost predicate Appended(a: F.Flat, ops: seq<Op>, f: int, ok: bool)
    requires AllAllowed(a, ops)
    decreases |ops|
  {
    if ops == [] then ok
    else Appended(FlatStep(a, ops[0]).0, ops[1..], f, AppendedNow(a, ops[0], f, ok))
  }

  ghost predicate AppendedNow(a: F.Flat, op: Op, f: int, ok: bool)
    requires Allowed(a, op)
  {
    if Empties(a, op, f) then true
    else ok && (WritesTo(a, op, f) ==> a.handles[op.h].pos == a.files[f].size)
  }

  /** No write to f starts past i_size. Only truncation leaves a handle there. */
  ghost predicate NonePast(a: F.Flat, ops: seq<Op>, f: int)
    requires AllAllowed(a, ops)
    decreases |ops|
  {
    ops != [] ==>
      && (WritesTo(a, ops[0], f) ==> a.handles[ops[0].h].pos <= a.files[f].size)
      && NonePast(FlatStep(a, ops[0]).0, ops[1..], f)
  }

  /** Fewer bytes than the size are there once a write has gone over old ones. */
  ghost predicate Counted(file: F.File, ok: bool) {
    && (forall p :: p in file.bytes ==> 0 <= p < file.size)
    && |file.bytes| <= file.size
    && (if ok then Dense(file) else |file.bytes| < file.size)
  }

  ghost predicate CountedAt(a: F.Flat, f: int, ok: bool) {
    if f in a.files then Counted(a.files[f], ok) else ok
  }

  /** The last byte of a put comes last. */
  lemma PutLast(bytes: map<nat, byte>, pos: nat, src: seq<byte>)
    requires src != []
    ensures var n := |src| - 1;
            F.Put(bytes, pos, src) == F.Put(bytes, pos, src[..n])[pos + n := src[n]]
  {
    var n := |src| - 1;
    var whole, first := F.Put(bytes, pos, src), F.Put(bytes, pos, src[..n]);
    assert forall p :: F.Within(p, pos, |src|) <==> F.Within(p, pos, n) || p == pos + n;
    assert whole.Keys == first[pos + n := src[n]].Keys;
  }

  /** One more byte is one more key, or an old one. */
  lemma OneMore(bytes: map<nat, byte>, p: nat, b: byte)
    ensures |bytes[p := b]| == |bytes| + if p in bytes then 0 else 1
  {
  }

  ghost predicate Covers(bytes: map<nat, byte>, pos: nat, n: nat) {
    exists p :: F.Within(p, pos, n) && p in bytes
  }

  lemma CoversSplit(bytes: map<nat, byte>, pos: nat, n: nat)
    ensures Covers(bytes, pos, n + 1) <==> Covers(bytes, pos, n) || pos + n in bytes
  {
    if pos + n in bytes {
      assert F.Within(pos + n, pos, n + 1);
    }
    if p :| F.Within(p, pos, n) && p in bytes {
      assert F.Within(p, pos, n + 1);
    }
    if p :| F.Within(p, pos, n + 1) && p in bytes && p != pos + n {
      assert F.Within(p, pos, n);
    }
  }

  /** From the count without the last byte to the count with it. */
  lemma CountStep(bytes: map<nat, byte>, pos: nat, n: nat, first: map<nat, byte>, b: byte)
    requires |first| <= |bytes| + n && (Covers(bytes, pos, n) ==> |first| < |bytes| + n)
    requires pos + n in bytes ==> pos + n in first
    ensures |first[pos + n := b]| <= |bytes| + n + 1
    ensures Covers(bytes, pos, n + 1) ==> |first[pos + n := b]| < |bytes| + n + 1
  {
    hide Covers;
    OneMore(first, pos + n, b);
    CoversSplit(bytes, pos, n);
  }

  lemma PutNothing(bytes: map<nat, byte>, pos: nat)
    ensures F.Put(bytes, pos, []) == bytes && !Covers(bytes, pos, 0)
  {
  }

  lemma PutKeeps(bytes: map<nat, byte>, pos: nat, src: seq<byte>, p: nat)
    ensures p in bytes ==> p in F.Put(bytes, pos, src)
  {
  }

  /** A put adds at most its length, and less if it goes over an old byte. */
  lemma {:induction false} PutCount(bytes: map<nat, byte>, pos: nat, src: seq<byte>)
    ensures |F.Put(bytes, pos, src)| <= |bytes| + |src|
    ensures Covers(bytes, pos, |src|) ==> |F.Put(bytes, pos, src)| < |bytes| + |src|
  {
    hide Covers, F.Put;
    if src == [] {
      PutNothing(bytes, pos);
    } else {
      var n := |src| - 1;
      PutCount(bytes, pos, src[..n]);
      PutLast(bytes, pos, src);
      PutKeeps(bytes, pos, src[..n], pos + n);
      CountStep(bytes, pos, n, F.Put(bytes, pos, src[..n]), src[n]);
    }
  }

  /** The keys 0 to n - 1 are n keys. */
  lemma {:induction false} DenseCount(bytes: map<nat, byte>, n: nat)
    requires forall p :: p in bytes <==> 0 <= p < n
    ensures |bytes| == n
  {
    if n == 0 {
      assert |bytes| != 0 ==> exists p :: p in bytes;
    } else {
      var rest := bytes - {n - 1};
      DenseCount(rest, n - 1);
      assert bytes == rest[n - 1 := bytes[n - 1]];
    }
  }

  /** One write to a counted file. */
  lemma WriteCounts(file: F.File, pos: nat, buf: seq<byte>, ok: bool)
    requires Counted(file, ok) && pos <= file.size && buf != []
    ensures Counted(F.WriteFile(file, pos, buf), ok && pos == file.size)
  {
    var after := F.WriteFile(file, pos, buf);
    PutCount(file.bytes, pos, buf);
    if ok {
      if pos == file.size {
        assert Dense(after);
        DenseCount(after.bytes, after.size);
      } else {
        assert pos in file.bytes && F.Within(pos, pos, |buf|);
        assert Covers(file.bytes, pos, |buf|);
      }
    }
  }

  lemma StepCounts(a: F.Flat, op: Op, f: int, ok: bool)
    requires Allowed(a, op) && CountedAt(a, f, ok)
    requires WritesTo(a, op, f) ==> a.handles[op.h].pos <= a.files[f].size
    ensures CountedAt(FlatStep(a, op).0, f, AppendedNow(a, op, f, ok))
  {
    hide Counted, F.WriteFile;
    EmptyCounts();
    match op
    case Open(path, flags) => OpenCounts(a, path, flags, f, ok);
    case Close(h) =>
    case Write(h, buf) =>
      if ValidHandle(h) && a.handles[h].file == f {
        if buf == [] {
          NoWriteCounts(a.files[f], a.handles[h].pos);
        } else {
          WriteCounts(a.files[f], a.handles[h].pos, buf, ok);
        }
      }
    case Read(h, dst, len) =>
  }

  /** Handles play no part. */
  lemma AddHandleCounts(a: F.Flat, g: int, pos: nat, f: int, ok: bool)
    ensures CountedAt(F.AddHandle(a, g, pos).0, f, ok) == CountedAt(a, f, ok)
  {
  }

  lemma OpenCounts(a: F.Flat, path: cstring, flags: Flags, f: int, ok: bool)
    requires CountedAt(a, f, ok) && Allowed(a, Open(path, flags))
    ensures CountedAt(F.Open(a, path, flags).0, f, AppendedNow(a, Open(path, flags), f, ok))
  {
    hide Counted, F.AddHandle;
    EmptyCounts();
    if ValidPathname(path) {
      var l := Lookup(a.names, NameOf(path));
      if l in a.files {
        var file := if flags.trunc then F.EMPTY_FILE else a.files[l];
        var a1 := a.(files := a.files[l := file], free := a.free + F.Need(a.files[l].blocks) - F.Need(file.blocks));
        AddHandleCounts(a1, l, if flags.append then file.size else 0, f, AppendedNow(a, Open(path, flags), f, ok));
      } else {
        var g := LowestFree(a.files, 1, INODE_TABLE_SIZE);
        AddHandleCounts(a.(names := a.names + [Binding(Clip(NameOf(path)), g)], files := a.files[g := F.EMPTY_FILE]),
                        g, 0, f, ok);
      }
    }
  }

  lemma EmptyCounts()
    ensures Counted(F.EMPTY_FILE, true)
  {
  }

  lemma NoWriteCounts(file: F.File, pos: nat)
    ensures F.WriteFile(file, pos, []) == file
  {
    assert F.Put(file.bytes, pos, []) == file.bytes;
  }

  lemma {:induction false} RunCounts(a: F.Flat, ops: seq<Op>, f: int, ok: bool)
    requires AllAllowed(a, ops) && NonePast(a, ops, f) && CountedAt(a, f, ok)
    ensures CountedAt(FlatRun(a, ops).0, f, Appended(a, ops, f, ok))
    decreases |ops|
  {
    hide Allowed, FlatStep, CountedAt, AppendedNow, WritesTo;
    if ops != [] {
      StepCounts(a, ops[0], f, ok);
      RunCounts(FlatStep(a, ops[0]).0, ops[1..], f, AppendedNow(a, ops[0], f, ok));
    }
  }

  /**
   The size over whole runs. For every file no write to which starts past
   i_size: exactly the bytes below i_size have been written if and only if every
   write since the file was last empty started at i_size.
   */
  lemma SizeIsLengthIff(s: State, ops: seq<Op>, f: int)
    requires WellFormed(s) && AllAllowed(INITIAL, ops) && AllInside(TfsInit(s).0, ops) && NonePast(INITIAL, ops, f)
    requires f in FlatRun(INITIAL, ops).0.files
    ensures var file := FlatRun(INITIAL, ops).0.files[f];
            && LiveFile(Run(TfsInit(s).0, ops), f) && Run(TfsInit(s).0, ops).inodes[f].size == file.size
            && (Dense(file) <==> Appended(INITIAL, ops, f, true))
  {
    hide Allowed, FlatStep, TfsInit, Run, FlatRun, Appended, NonePast, AllAllowed, AllInside;
    var w := RunsRefineFlat(s, ops);
    AgreedFile(Run(TfsInit(s).0, ops), w, FlatRun(INITIAL, ops).0, f);
    RunCounts(INITIAL, ops, f, true);
    var file := FlatRun(INITIAL, ops).0.files[f];
    if Dense(file) {
      DenseCount(file.bytes, file.size);
    }
  }
}
