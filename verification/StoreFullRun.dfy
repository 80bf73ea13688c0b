/**
 A run that uses up the blocks: three files of 266 blocks leave 222 free, and a
 fourth write of that length returns -1.
 */
module StoreFullRun {
  import opened Directory
  import opened StoreModel
  import opened Numbering
  import opened StoreOwnership
  import opened StoreWrite
  import opened StoreSplice
  import opened StoreOutcome
  import opened StoreHistory
  import opened StoreRuns
  import opened StoreRefinement
  import opened StoreExamples
  import F = FlatStore

  /** "/a", "/b" and so on. */
  function PathOf(k: nat): cstring
    requires k < 26
  {
    [47, 97 + k]
  }

  function Names(k: nat): (r: seq<Binding>)
    requires k <= 26
    ensures |r| == k && forall i :: 0 <= i < k ==> r[i] == Binding([97 + i], i + 1)
  {
    seq(k, i requires 0 <= i < k => Binding([97 + i], i + 1))
  }

  function Files(k: nat): (r: map<int, F.File>)
    ensures forall f :: f in r <==> 1 <= f <= k
  {
    if k == 0 then map[] else Files(k - 1)[k := ZeroFile(FILE_BYTES)]
  }

  function Handles(k: nat): (r: map<int, F.Handle>)
    ensures forall h :: h in r <==> 0 <= h < k
  {
    if k == 0 then map[] else Handles(k - 1)[k - 1 := F.Handle(k, FILE_BYTES)]
  }

  /** k files of 266 blocks, each with its handle at the end. */
  function Full(k: nat): F.Flat
    requires k <= 26
  {
    F.Flat(Names(k), Files(k), Handles(k), DATA_BLOCKS - 1 - 267 * k, 1 + 267 * k)
  }

  /** The same with one more file, empty and open. */
  function Next(k: nat): F.Flat
    requires k < 26
  {
    var a := Full(k);
    a.(names := Names(k + 1), files := a.files[k + 1 := F.EMPTY_FILE], handles := a.handles[k := F.Handle(k + 1, 0)])
  }

  lemma {:induction false} LowestFreeIs<T>(used: map<int, T>, i: nat, n: nat, k: nat)
    requires i <= k < n && k !in used && forall j :: i <= j < k ==> j in used
    ensures LowestFree(used, i, n) == k
    decreases k - i
  {
    if i < k {
      LowestFreeIs(used, i + 1, n, k);
    }
  }

  lemma {:induction false} NotBound(names: seq<Binding>, name: cstring, i: nat)
    requires i <= |names| && forall j :: 0 <= j < |names| ==> names[j].name != name
    ensures LookupFrom(names, name, i) == -1
    decreases |names| - i
  {
    if i < |names| {
      NotBound(names, name, i + 1);
    }
  }

  /** The next letter is a new name. */
  lemma NextName(k: nat)
    requires k < 20
    ensures ValidPathname(PathOf(k)) && NameOf(PathOf(k)) == [97 + k] == Clip([97 + k])
    ensures Lookup(Names(k), [97 + k]) == -1 && Names(k) + [Binding([97 + k], k + 1)] == Names(k + 1)
  {
    forall j | 0 <= j < k
      ensures Names(k)[j].name != [97 + k]
    {
      assert Names(k)[j].name[0] == 97 + j;
    }
    NotBound(Names(k), [97 + k], 0);
  }

  lemma FlatOpenNext(k: nat)
    requires k < 20
    ensures F.Open(Full(k), PathOf(k), CREAT).0 == Next(k)
  {
    NextName(k);
    LowestFreeIs(Files(k), 1, INODE_TABLE_SIZE, k + 1);
    LowestFreeIs(Handles(k), 0, MAX_OPEN_FILES, k);
    assert -1 !in Files(k);
    hide LowestFree, Files, Handles, Names, Lookup, PathOf, ZeroFile;
  }

  lemma OpenNext(s: State, w: Ledger, k: nat) returns (w': Ledger)
    requires k < 20 && Agrees(s, w, Full(k))
    ensures Agrees(Step(s, Open(PathOf(k), CREAT)), w', Next(k))
  {
    FlatOpenNext(k);
    hide Agrees, F.Open, Full, Next, Step;
    w' := StepAgrees(s, w, Full(k), Open(PathOf(k), CREAT));
  }

  lemma FlatFillNext(k: nat)
    requires k < 3
    ensures Allowed(Next(k), Write(k, Zeros(FILE_BYTES))) && F.Write(Next(k), k, Zeros(FILE_BYTES)).0 == Full(k + 1)
  {
    ZeroFileFacts(FILE_BYTES);
    var a := Next(k);
    assert a.handles[k] == F.Handle(k + 1, 0) && a.files[k + 1] == F.EMPTY_FILE;
    hide F.WriteFile;
    assert a.files[k + 1 := ZeroFile(FILE_BYTES)] == Full(k + 1).files;
    assert a.handles[k := F.Handle(k + 1, FILE_BYTES)] == Full(k + 1).handles;
  }

  lemma WriteNext(s: State, w: Ledger, k: nat) returns (w': Ledger)
    requires k < 3 && Agrees(s, w, Next(k))
    ensures Agrees(Step(s, Write(k, Zeros(FILE_BYTES))), w', Full(k + 1))
  {
    FlatFillNext(k);
    hide Agrees, F.Write, Full, Next, Step, Allowed, Zeros;
    w' := StepAgrees(s, w, Next(k), Write(k, Zeros(FILE_BYTES)));
  }

  /** The calls that fill one more file. */
  function FillOne(k: nat): seq<Op>
    requires k < 26
  {
    [Open(PathOf(k), CREAT), Write(k, Zeros(FILE_BYTES))]
  }

  lemma FillNext(s: State, w: Ledger, k: nat) returns (w': Ledger)
    requires k < 3 && Agrees(s, w, Full(k))
    ensures Agrees(Run(s, FillOne(k)), w', Full(k + 1))
  {
    hide Full, Next, Step, Zeros, Run, FilesAgree, HandlesAgree, Inv, AllSized, OpenHandles, Accounted, FreeCount;
    var w1 := OpenNext(s, w, k);
    RunTwo(s, Open(PathOf(k), CREAT), Write(k, Zeros(FILE_BYTES)));
    w' := WriteNext(Step(s, Open(PathOf(k), CREAT)), w1, k);
  }

  /** The calls that fill the first k files. */
  function FillOps(k: nat): seq<Op>
    requires k <= 26
  {
    if k == 0 then [] else FillOps(k - 1) + FillOne(k - 1)
  }

  lemma NoneFull()
    ensures Full(0) == INITIAL
  {
  }

  lemma {:induction false} FillAll(s: State, k: nat) returns (w: Ledger)
    requires WellFormed(s) && k <= 3
    ensures Agrees(Run(TfsInit(s).0, FillOps(k)), w, Full(k))
  {
    hide Agrees, TfsInit, Full, Step, FillOne;
    if k == 0 {
      NoneFull();
      InitAgrees(s);
      w := InitialLedger();
    } else {
      hide Run;
      var w1 := FillAll(s, k - 1);
      w := FillNext(Run(TfsInit(s).0, FillOps(k - 1)), w1, k - 1);
      RunAppend(TfsInit(s).0, FillOps(k - 1), FillOne(k - 1));
    }
  }

  /** What the tables show of the new file. */
  lemma NewSeen(s: State, w: Ledger, k: nat)
    requires k < 20 && Agrees(s, w, Next(k))
    ensures WellFormed(s) && |w.count| == INODE_TABLE_SIZE && Inv(s, w) && s.files[k].inumber == k + 1 && LiveFile(s, k + 1)
    ensures s.inodes[k + 1].size == 0 && w.count[k + 1] == 0 && Tight(s, w, k + 1) && Pos(s.files[k]) == 0
    ensures FreeCount(s.blocks) == DATA_BLOCKS - 1 - 267 * k && s.files[k].boffset >= 0
    ensures Needed(s, w, k, FILE_BYTES) == 267
  {
    hide Inv, FreeCount, FileByte, Needed;
    NeededIsNeed(s, w, k, FILE_BYTES);
    assert k + 1 in Next(k).files && k in Next(k).handles;
  }

  lemma TooFewBlocks(s: State, w: Ledger)
    requires Agrees(s, w, Next(3))
    ensures WellFormed(s) && s.files[3].inumber == 4 && LiveFile(s, 4) && FreeCount(s.blocks) == 222
    ensures TfsWrite(s, 3, Zeros(FILE_BYTES)).1 == Failed
  {
    NewSeen(s, w, 3);
    hide Agrees, Next, Zeros, Inv, FreeCount, TfsWrite, Needed, WriteDone;
    var s1, w1 := WriteRunsOut(s, w, 3, Zeros(FILE_BYTES));
    assert Reachable(s, w, 4) == 221;
  }

  /** A fourth file of 266 blocks does not fit, although tfs_open succeeds. */
  lemma BlocksRunOut(s: State)
    requires WellFormed(s)
    ensures var s' := Run(Run(TfsInit(s).0, FillOps(3)), [Open(PathOf(3), CREAT)]);
            && s'.files[3].inumber == 4 && LiveFile(s', 4) && FreeCount(s'.blocks) == 222
            && TfsWrite(s', 3, Zeros(FILE_BYTES)).1 == Failed
  {
    var w3 := FillAll(s, 3);
    hide Agrees, TfsInit, Run, Full, Next, FillOps, Zeros, Step, FreeCount, TfsWrite;
    var s3 := Run(TfsInit(s).0, FillOps(3));
    var w := OpenNext(s3, w3, 3);
    RunOne(s3, Open(PathOf(3), CREAT));
    TooFewBlocks(Step(s3, Open(PathOf(3), CREAT)), w);
  }

  lemma RunOne(s: State, op: Op)
    requires WellFormed(s)
    ensures Run(s, [op]) == Step(s, op)
  {
    hide Step;
    assert Run(Step(s, op), []) == Step(s, op);
  }
}
