/**
 Runs from tfs_init in which part two does not do what it promises: one for each
 condition that the theorems name.
 */
module TfsExamples {
  import opened Directory
  import opened StoreModel
  import opened TfsInvariant
  import opened TfsRefinement
  import opened TfsRuns
  import opened TfsNames
  import T = TfsModel
  import A = AbstractFs

  /** The abstract file system after creating "/a" first. */
  lemma FirstFile()
    ensures var path: cstring := [47, 97];
            && NameOf(path) == [97]
            && A.Open(A.Fs(map[], map[]), path, Flags(true, false, false)).0.files == map[[97] := []]
  {
  }

  /** Creating "/a" and then "xa" on a fresh file system binds "a" twice. */
  lemma MissingSlashBindsTwice(s: T.Tables)
    requires T.Shaped(s)
    ensures var creat := Flags(true, false, false);
            var s1 := T.Open(T.Init(s).0, [47, 97], creat).0;
            forall w :: !Inv(T.Open(s1, [120, 97], creat).0, w)
  {
    hide BlocksOk, RootOk, CountTaken, Distinct, Abs, A.Open, T.Init, T.Open, T.Find;
    var creat := Flags(true, false, false);
    var first: cstring := [47, 97];
    var second: cstring := [120, 97];
    InitRefines(s);
    FirstFile();
    var w1 := OpenRefines(T.Init(s).0, InitialBook(), first, creat);
    assert NameOf(second) == [97] == Clip([97]);
    OpenKeepsNamesIff(T.Open(T.Init(s).0, first, creat).0, w1, second, creat);
  }

  /** "/a" with one byte, written through handle 0. */
  function OneByte(s: T.Tables): (r: T.Tables)
    requires T.Shaped(s)
    ensures T.Shaped(r)
  {
    T.Write(T.Open(T.Init(s).0, [47, 97], Flags(true, false, false)).0, 0, [7]).0
  }

  function OneByteAbs(): A.Fs {
    A.Fs(map[[97] := [7]], map[0 := A.Handle([97], 1)])
  }

  lemma OneByteFs()
    ensures var path: cstring := [47, 97];
            var a := A.Open(A.Fs(map[], map[]), path, Flags(true, false, false)).0;
            && A.OpenAt(a, 0) && a.handles[0].offset == 0
            && A.Write(a, 0, [7]).0 == OneByteAbs()
  {
    FirstFile();
    var path: cstring := [47, 97];
    var a := A.Open(A.Fs(map[], map[]), path, Flags(true, false, false)).0;
    assert a.handles == map[0 := A.Handle([97], 0)];
    assert A.Overwrite([], 0, [7]) == [7];
    assert [7][..1] == [7];
  }

  lemma OneByteRefines(s: T.Tables) returns (w: Book)
    requires T.Shaped(s)
    ensures Inv(OneByte(s), w) && Abs(OneByte(s), w) == OneByteAbs()
  {
    hide BlocksOk, RootOk, CountTaken, Distinct, Abs, A.Open, A.Write, T.Init, T.Open, T.Write;
    var path: cstring := [47, 97];
    FirstFile();
    OneByteFs();
    InitRefines(s);
    var w1 := OpenRefines(T.Init(s).0, InitialBook(), path, Flags(true, false, false));
    var s1 := T.Open(T.Init(s).0, path, Flags(true, false, false)).0;
    InvalidHandle(s1, w1, 0);
    w := WriteRefines(s1, w1, 0, [7]);
  }

  /** The file of that byte and its handle. */
  lemma OneByteTables(s: T.Tables, w: Book)
    requires Inv(s, w) && Abs(s, w) == OneByteAbs()
    ensures var f := T.Lookup(s, [47, 97]);
            && ValidInumber(f) && s.fileTs[0] == TAKEN && s.files[0] == T.TFile(f, 1)
            && s.inodes[f].size == 1 && ValidBlock(s.inodes[f].dataBlock)
  {
    hide RootOk, CountTaken, FilesOf, Content, T.Find;
    var path: cstring := [47, 97];
    FirstFile();
    LookupRefines(s, w, path);
    OpenHandle(s, w, 0);
    var f := T.Lookup(s, path);
    var g := s.files[0].inumber;
    assert w.names[w.at[f]].name == w.names[w.at[g]].name == [97];
    assert w.at[f] == w.at[g];
    assert |Content(s, g)| == 1;
  }

  /** An open that empties file f, bound to "/a". */
  lemma EmptiedByOpen(s: T.Tables, f: nat)
    requires T.Shaped(s) && f < INODE_TABLE_SIZE && T.Lookup(s, [47, 97]) == f
    requires s.fileTs[0] == TAKEN && s.inodes[f].size == 1 && ValidBlock(s.inodes[f].dataBlock)
    ensures var s' := T.Open(s, [47, 97], Flags(false, true, false)).0;
            s'.fileTs[0] == TAKEN && s'.files[0] == s.files[0] && s'.inodes[f] == s.inodes[f].(size := 0)
  {
    hide T.Lookup;
  }

  /** A handle past the end, and a read of a byte that is not there. */
  lemma PastTheEnd(s: T.Tables, f: nat)
    requires T.Shaped(s) && f < INODE_TABLE_SIZE && s.fileTs[0] == TAKEN && s.files[0] == T.TFile(f, 1)
    requires s.inodes[f].size == 0 && ValidBlock(s.inodes[f].dataBlock)
    ensures !HandlesIn(s) && T.Read(s, 0, [0], 1).2 == Done(1)
  {
    assert !(s.files[0].offset <= s.inodes[f].size);
  }

  /** The file of handle 0 is empty, the handle stands past its end, and reading a byte through it returns 1. */
  ghost predicate ReadsNoFile(s: T.Tables) {
    && T.Shaped(s) && ValidInumber(s.files[0].inumber) && s.inodes[s.files[0].inumber].size == 0
    && !HandlesIn(s) && T.Read(s, 0, [0], 1).2 == Done(1)
  }

  /** Emptying "/a" while handle 0 stands at 1: the tables stay consistent, the handle does not stay in its file. */
  lemma TruncateUnderHandle(s: T.Tables) returns (w: Book)
    requires T.Shaped(s)
    ensures var s' := T.Open(OneByte(s), [47, 97], Flags(false, true, false)).0;
            Inv(s', w) && ReadsNoFile(s')
  {
    var path: cstring := [47, 97];
    assert ValidPathname(path) && NameOf(path) == [97];
    var w1 := OneByteRefines(s);
    hide BlocksOk, NamesOk, RootOk, FilesOk, CountTaken, Abs, OneByte, T.Lookup, T.Open, T.Read, HandlesIn;
    OneByteTables(OneByte(s), w1);
    var f := T.Lookup(OneByte(s), path);
    EmptiedByOpen(OneByte(s), f);
    w := OpenRefines(OneByte(s), w1, path, Flags(false, true, false));
    PastTheEnd(T.Open(OneByte(s), path, Flags(false, true, false)).0, f);
  }
}
