/**
 The file system of part two refines the abstract one: every operation inside
 the lock does to names, contents and handles what AbstractFs says, with the
 same result, and keeps the tables consistent.
 */
module TfsRefinement {
  import opened Memory
  import opened Directory
  import opened StoreModel
  import opened Numbering
  import O = StoreOwnership
  import opened TfsInvariant
  import T = TfsModel
  import A = AbstractFs

  /** The bytes of a file. */
  function Content(s: T.Tables, f: int): (r: seq<byte>)
    requires T.Shaped(s) && ValidInumber(f)
  {
    var ino := s.inodes[f];
    if 0 < ino.size <= BLOCK_SIZE && ValidBlock(ino.dataBlock) then O.BlockOf(s.data, ino.dataBlock)[..ino.size] else []
  }

  /** The files bound by a list of directory entries. */
  function FilesOf(s: T.Tables, names: seq<Binding>): (r: map<cstring, seq<byte>>)
    requires T.Shaped(s) && forall i :: 0 <= i < |names| ==> ValidInumber(names[i].inumber)
  {
    if names == [] then map[]
    else
      var n := |names| - 1;
      FilesOf(s, names[..n])[names[n].name := Content(s, names[n].inumber)]
  }

  function HandlesOf(s: T.Tables, w: Book): (r: map<int, A.Handle>)
    requires T.Shaped(s) && NamesOk(s, w) && FilesOk(s)
    ensures forall h :: h in r <==> 0 <= h < MAX_OPEN_FILES && s.fileTs[h] == TAKEN
    ensures forall h :: h in r ==> r[h] == A.Handle(w.names[w.at[s.files[h].inumber]].name, s.files[h].offset)
  {
    map h | 0 <= h < MAX_OPEN_FILES && s.fileTs[h] == TAKEN ::
      A.Handle(w.names[w.at[s.files[h].inumber]].name, s.files[h].offset)
  }

  /** The abstract file system a consistent state stands for. */
  function Abs(s: T.Tables, w: Book): A.Fs
    requires T.Shaped(s) && NamesOk(s, w) && FilesOk(s)
  {
    A.Fs(FilesOf(s, w.names), HandlesOf(s, w))
  }

  // ---------------------------------------------------------------------------
  // The map of files
  // ---------------------------------------------------------------------------

  ghost predicate Numbers(names: seq<Binding>) {
    forall i :: 0 <= i < |names| ==> ValidInumber(names[i].inumber)
  }

  /** The bound names are the keys. */
  lemma {:induction false} FilesOfKeys(s: T.Tables, names: seq<Binding>, x: cstring)
    requires T.Shaped(s) && Numbers(names)
    ensures x in FilesOf(s, names) <==> exists i :: 0 <= i < |names| && names[i].name == x
  {
    hide Content;
    if names != [] {
      var n := |names| - 1;
      assert names == names[..n] + [names[n]];
      FilesOfKeys(s, names[..n], x);
      if exists i :: 0 <= i < n && names[..n][i].name == x {
        var i :| 0 <= i < n && names[..n][i].name == x;
        assert names[i].name == x;
      }
      if exists i :: 0 <= i < |names| && names[i].name == x {
        var i :| 0 <= i < |names| && names[i].name == x;
        assert i < n ==> names[..n][i].name == x;
      }
    }
  }

  /** Each binding's file is found under its name. */
  lemma {:induction false} FilesOfValue(s: T.Tables, names: seq<Binding>, i: nat)
    requires T.Shaped(s) && Numbers(names) && Distinct(names) && i < |names|
    ensures names[i].name in FilesOf(s, names) && FilesOf(s, names)[names[i].name] == Content(s, names[i].inumber)
  {
    hide Content;
    var n := |names| - 1;
    if i < n {
      assert Distinct(names[..n]);
      FilesOfValue(s, names[..n], i);
      assert names[i].name != names[n].name;
    }
  }

  lemma {:induction false} FilesOfSize(s: T.Tables, names: seq<Binding>)
    requires T.Shaped(s) && Numbers(names) && Distinct(names)
    ensures |FilesOf(s, names)| == |names|
  {
    hide Content;
    if names != [] {
      var n := |names| - 1;
      assert Distinct(names[..n]);
      FilesOfSize(s, names[..n]);
      FilesOfKeys(s, names[..n], names[n].name);
      assert names[n].name !in FilesOf(s, names[..n]);
    }
  }

  /** The map is determined by the contents of the bound files. */
  lemma {:induction false} FilesOfSame(s: T.Tables, s': T.Tables, names: seq<Binding>)
    requires T.Shaped(s) && T.Shaped(s') && Numbers(names)
    requires forall i :: 0 <= i < |names| ==> Content(s', names[i].inumber) == Content(s, names[i].inumber)
    ensures FilesOf(s', names) == FilesOf(s, names)
  {
    if names != [] {
      assert forall i :: 0 <= i < |names| - 1 ==> names[..|names| - 1][i] == names[i];
      FilesOfSame(s, s', names[..|names| - 1]);
    }
  }

  /** Changing the content of one bound file changes one entry of the map. */
  lemma {:induction false} FilesOfUpdate(s: T.Tables, s': T.Tables, names: seq<Binding>, k: nat)
    requires T.Shaped(s) && T.Shaped(s') && Numbers(names) && Distinct(names) && k < |names|
    requires forall i :: 0 <= i < |names| && i != k ==> Content(s', names[i].inumber) == Content(s, names[i].inumber)
    ensures FilesOf(s', names) == FilesOf(s, names)[names[k].name := Content(s', names[k].inumber)]
  {
    var n := |names| - 1;
    assert forall i :: 0 <= i < n ==> names[..n][i] == names[i];
    if k == n {
      FilesOfSame(s, s', names[..n]);
    } else {
      FilesOfUpdate(s, s', names[..n], k);
      assert names[k].name != names[n].name;
    }
  }

  /** The first binding of a name is its only one. */
  lemma {:induction false} LookupDistinct(names: seq<Binding>, i: nat, k: nat)
    requires Distinct(names) && i <= k < |names|
    ensures LookupFrom(names, names[k].name, i) == names[k].inumber
    decreases k - i
  {
    if i < k {
      LookupDistinct(names, i + 1, k);
    }
  }

  /** tfs_lookup, against the abstract map: a bound name leads to its live file, any other to -1. */
  lemma LookupRefines(s: T.Tables, w: Book, path: cstring)
    requires Inv(s, w) && ValidPathname(path)
    ensures var f := T.Lookup(s, path);
            if NameOf(path) in Abs(s, w).files then
              && AliveFile(s, f) && w.names[w.at[f]].name == NameOf(path)
              && Abs(s, w).files[NameOf(path)] == Content(s, f)
            else f == -1
    ensures |Abs(s, w).files| == |w.names|
  {
    hide BlocksOk, FilesOk, FilesOf;
    var name := NameOf(path);
    FilesOfSize(s, w.names);
    FilesOfKeys(s, w.names, name);
    FindInDirectory(s.data, s.inodes[ROOT_DIR_INUM].dataBlock * BLOCK_SIZE, w.names, name);
    LookupFromSpec(w.names, name, 0);
    if name in FilesOf(s, w.names) {
      var k :| 0 <= k < |w.names| && w.names[k].name == name;
      LookupDistinct(w.names, 0, k);
      FilesOfValue(s, w.names, k);
    }
  }

  // ---------------------------------------------------------------------------
  // The handle table
  // ---------------------------------------------------------------------------

  /** States that differ in the handle table only. */
  lemma HandleTableKeeps(s: T.Tables, w: Book, s': T.Tables)
    requires Inv(s, w) && T.Shaped(s')
    requires s' == s.(files := s'.files, fileTs := s'.fileTs, openCount := s'.openCount)
    requires s'.openCount == CountTaken(s'.fileTs)
    requires forall h :: 0 <= h < MAX_OPEN_FILES && s'.fileTs[h] == TAKEN ==> AliveFile(s, s'.files[h].inumber)
    ensures Inv(s', w) && Abs(s', w).files == Abs(s, w).files
  {
    assert forall f :: Alive(s', f) <==> Alive(s, f);
    assert forall f :: Uses(s', f) <==> Uses(s, f);
    assert NamesOk(s', w);
    assert FilesOk(s');
    FilesOfSame(s, s', w.names);
  }

  lemma AddHandleRefines(s: T.Tables, w: Book, f: nat, offset: nat)
    requires Inv(s, w) && AliveFile(s, f) && offset < SIZE_MOD
    ensures var (s', h) := T.AddHandle(s, f, offset);
            && Inv(s', w)
            && (Abs(s', w), T.HandleOutcome(h)) == A.AddHandle(Abs(s, w), w.names[w.at[f]].name, offset)
  {
    hide BlocksOk, RootOk, FilesOf, Count;
    var (s', h) := T.AddHandle(s, f, offset);
    LowestFreeSame(s.fileTs, HandlesOf(s, w), 0);
    if h != -1 {
      CountUpdate(s.fileTs, h, TAKEN, TAKEN);
      HandleTableKeeps(s, w, s');
      assert HandlesOf(s', w) == HandlesOf(s, w)[h := A.Handle(w.names[w.at[f]].name, offset)];
    }
  }

  lemma CloseRefines(s: T.Tables, w: Book, h: int)
    requires Inv(s, w)
    ensures var (s', r) := T.Close(s, h);
            && Inv(s', w)
            && (Abs(s', w), r) == A.Close(Abs(s, w), h)
  {
    hide BlocksOk, RootOk, FilesOf, Count;
    var s' := T.Close(s, h).0;
    if ValidHandle(h) && s.fileTs[h] == TAKEN {
      CountUpdate(s.fileTs, h, FREE, TAKEN);
      HandleTableKeeps(s, w, s');
      assert HandlesOf(s', w) == HandlesOf(s, w) - {h};
    }
  }

  // ---------------------------------------------------------------------------
  // Truncation
  // ---------------------------------------------------------------------------

  /** No open handle of file f is past 0. */
  ghost predicate AllAtStart(s: T.Tables, f: int)
    requires T.Shaped(s)
  {
    forall h :: 0 <= h < MAX_OPEN_FILES && s.fileTs[h] == TAKEN && s.files[h].inumber == f ==> s.files[h].offset == 0
  }

  /** Only file f's content differs; names and handles are the same. */
  lemma ContentChange(s: T.Tables, w: Book, s': T.Tables, w': Book, f: int)
    requires Inv(s, w) && Inv(s', w') && AliveFile(s, f)
    requires w'.names == w.names && w'.at == w.at
    requires forall g :: AliveFile(s, g) && g != f ==> Content(s', g) == Content(s, g)
    ensures Abs(s', w').files == Abs(s, w).files[w.names[w.at[f]].name := Content(s', f)]
  {
    hide BlocksOk, RootOk, FilesOk, Content, FilesOf;
    forall i | 0 <= i < |w.names| && i != w.at[f]
      ensures Content(s', w.names[i].inumber) == Content(s, w.names[i].inumber)
    {
      assert AliveFile(s, w.names[i].inumber) && w.at[w.names[i].inumber] == i;
    }
    FilesOfUpdate(s, s', w.names, w.at[f]);
  }

  /** The content of another file needs its inode and its block only. */
  lemma ContentFrame(s: T.Tables, s': T.Tables, g: int)
    requires T.Shaped(s) && T.Shaped(s') && ValidInumber(g)
    requires s'.inodes[g] == s.inodes[g]
    requires s.inodes[g].size > 0 && ValidBlock(s.inodes[g].dataBlock) ==>
               O.BlockOf(s'.data, s.inodes[g].dataBlock) == O.BlockOf(s.data, s.inodes[g].dataBlock)
    ensures Content(s', g) == Content(s, g)
  {
  }

  lemma TruncateKeepsBook(s: T.Tables, w: Book, f: nat)
    requires Inv(s, w) && AliveFile(s, f) && s.inodes[f].size > 0
    ensures ValidBlock(s.inodes[f].dataBlock) && |w.owner| == DATA_BLOCKS
    ensures T.Truncate(s, f).1 && Inv(T.Truncate(s, f).0, w.(owner := w.owner[s.inodes[f].dataBlock := -1]))
  {
    hide CountTaken, Holds;
    assert Uses(s, f);
    var b := s.inodes[f].dataBlock;
    var s' := T.Truncate(s, f).0;
    var w' := w.(owner := w.owner[b := -1]);
    assert forall g :: Alive(s', g) <==> Alive(s, g);
    assert forall g :: Uses(s', g) <==> Uses(s, g) && g != f;
    assert forall c :: 0 <= c < DATA_BLOCKS && c != b ==> w.owner[c] != f;
    assert BlocksOk(s', w');
    assert NamesOk(s', w');
    assert FilesOk(s');
  }

  /** Truncating a file, wherever its handles stand, empties it and changes nothing else. */
  lemma TruncateRefines(s: T.Tables, w: Book, f: nat) returns (w': Book)
    requires Inv(s, w) && AliveFile(s, f)
    ensures var (s', ok) := T.Truncate(s, f);
            && ok && Inv(s', w') && w'.names == w.names && w'.at == w.at && s'.inodes[f].size == 0
            && AliveFile(s', f)
            && Abs(s', w').files == Abs(s, w).files[w.names[w.at[f]].name := []]
            && Abs(s', w').handles == Abs(s, w).handles
  {
    var s' := T.Truncate(s, f).0;
    if s.inodes[f].size == 0 {
      w' := w;
      FilesOfValue(s, w.names, w.at[f]);
    } else {
      TruncateKeepsBook(s, w, f);
      w' := w.(owner := w.owner[s.inodes[f].dataBlock := -1]);
      hide Content, FilesOf, Holds, CountTaken;
      forall g | AliveFile(s, g) && g != f
        ensures Content(s', g) == Content(s, g)
      {
        ContentFrame(s, s', g);
      }
      EmptyContent(s', f);
      ContentChange(s, w, s', w', f);
    }
  }

  lemma EmptyContent(s: T.Tables, f: int)
    requires T.Shaped(s) && ValidInumber(f) && s.inodes[f].size == 0
    ensures Content(s, f) == []
  {
  }

  /**
   Truncation keeps the handles within their files if and only if no open handle
   of the file is past 0: otherwise such a handle stays behind the new end. The
   tables stay consistent either way.
   */
  lemma TruncateKeepsHandlesIff(s: T.Tables, w: Book, f: nat) returns (w': Book)
    requires Inv(s, w) && AliveFile(s, f) && HandlesIn(s)
    ensures Inv(T.Truncate(s, f).0, w')
    ensures HandlesIn(T.Truncate(s, f).0) <==> AllAtStart(s, f)
  {
    w' := TruncateRefines(s, w, f);
    hide BlocksOk, NamesOk, RootOk, FilesOk, CountTaken, Abs;
    TruncatedHandles(s, f, T.Truncate(s, f).0);
  }

  lemma TruncatedHandles(s: T.Tables, f: nat, s': T.Tables)
    requires T.Shaped(s) && T.Shaped(s') && f < INODE_TABLE_SIZE && HandlesIn(s) && s'.inodes[f].size == 0
    requires s'.fileTs == s.fileTs && s'.files == s.files && s'.inodes == s.inodes[f := s'.inodes[f]]
    ensures HandlesIn(s') <==> AllAtStart(s, f)
  {
    if !AllAtStart(s, f) {
      var h :| 0 <= h < MAX_OPEN_FILES && s.fileTs[h] == TAKEN && s.files[h].inumber == f && s.files[h].offset > 0;
      assert !(s'.files[h].offset <= s'.inodes[f].size);
    }
  }

  /**
   The length of a read is what is left of the file, at most len, if and only if
   the offset is not past i_size or nothing was asked for. Past it, the
   subtraction wraps and the read runs on.
   */
  lemma ReadLengthIff(size: nat, offset: nat, len: nat)
    requires size < SIZE_MOD && offset < SIZE_MOD
    ensures T.ReadLength(size, offset, len) == (if offset >= size then 0 else Min(len, size - offset)) <==>
            offset <= size || len == 0
  {
  }

  // ---------------------------------------------------------------------------
  // Creation
  // ---------------------------------------------------------------------------

  /** The tables after inode_create, but for the name. */
  ghost predicate FreshInode(s: T.Tables, s1: T.Tables, f: int)
    requires T.Shaped(s)
  {
    && ValidInumber(f) && f != ROOT_DIR_INUM && !Alive(s, f)
    && s1 == s.(inodeTs := s.inodeTs[f := TAKEN], inodes := s.inodes[f := T.TInode(T_FILE, 0, -1)])
  }

  lemma CreateFresh(s: T.Tables, w: Book)
    requires Inv(s, w)
    ensures FreshInode(s, T.Create(s, T_FILE).0, T.Create(s, T_FILE).1)
  {
    hide BlocksOk, NamesOk, Holds, CountTaken;
    AllocationsSucceed(s, w);
    var f := FirstFree(s.inodeTs, 0);
    assert Alive(s, ROOT_DIR_INUM);
    assert s.inodes[f := s.inodes[f].(kind := T_FILE)][f := T.TInode(T_FILE, 0, -1)] == s.inodes[f := T.TInode(T_FILE, 0, -1)];
  }

  /** The book with one more file. */
  function Named(w: Book, f: nat, name: cstring): Book
    requires f < |w.at|
  {
    w.(names := w.names + [Binding(name, f)], at := w.at[f := |w.names|])
  }

  /** The entry of a fresh inode goes into the root directory's block. */
  lemma BindEntry(s: T.Tables, w: Book, s1: T.Tables, f: nat, name: cstring)
    requires Inv(s, w) && FreshInode(s, s1, f) && name != [] && |name| < MAX_FILE_NAME && |w.names| < MAX_DIR_ENTRIES
    ensures T.Shaped(s1) && ValidBlock(s.inodes[ROOT_DIR_INUM].dataBlock)
    ensures var (s2, ok) := T.AddEntry(s1, ROOT_DIR_INUM, f, name);
            var base := s.inodes[ROOT_DIR_INUM].dataBlock * BLOCK_SIZE;
            && ok && s2 == s1.(data := FillEntry(s.data, base, |w.names|, f, name))
            && Holds(s2.data, base, w.names + [Binding(name, f)])
  {
    hide CountTaken, BlocksOk, NamesOk, FilesOk;
    var base := s.inodes[ROOT_DIR_INUM].dataBlock * BLOCK_SIZE;
    EmptyEntryIsEnd(s.data, base, w.names);
    AddBinding(s.data, base, w.names, f, name);
  }

  /** No file's content is in the root directory's block. */
  lemma BindKeepsContents(s: T.Tables, w: Book, s1: T.Tables, f: nat, name: cstring)
    requires Inv(s, w) && FreshInode(s, s1, f) && name != [] && |name| < MAX_FILE_NAME && |w.names| < MAX_DIR_ENTRIES
    requires T.Shaped(s1)
    ensures forall g :: AliveFile(s, g) ==> Content(T.AddEntry(s1, ROOT_DIR_INUM, f, name).0, g) == Content(s, g)
  {
    hide CountTaken, Holds, FillEntry, T.AddEntry, Content;
    BindEntry(s, w, s1, f, name);
    var s2 := T.AddEntry(s1, ROOT_DIR_INUM, f, name).0;
    forall g | AliveFile(s, g)
      ensures Content(s2, g) == Content(s, g)
    {
      if s.inodes[g].size > 0 {
        assert Uses(s, g) && Uses(s, ROOT_DIR_INUM);
        O.EntryInBlock(s.data, s.inodes[ROOT_DIR_INUM].dataBlock, |w.names|, f, name, s.inodes[g].dataBlock);
      }
      ContentFrame(s, s2, g);
    }
  }

  /** A fresh inode, bound to a new name. */
  lemma BindKeepsBook(s: T.Tables, w: Book, s1: T.Tables, f: nat, name: cstring)
    requires Inv(s, w) && FreshInode(s, s1, f) && name != [] && |name| < MAX_FILE_NAME && |w.names| < MAX_DIR_ENTRIES
    requires forall i :: 0 <= i < |w.names| ==> w.names[i].name != name
    requires |w.at| == INODE_TABLE_SIZE
    ensures T.Shaped(s1)
    ensures var (s2, ok) := T.AddEntry(s1, ROOT_DIR_INUM, f, name);
            && ok && Inv(s2, Named(w, f, name)) && AliveFile(s2, f) && s2 == s1.(data := s2.data)
            && (forall g :: AliveFile(s, g) ==> Content(s2, g) == Content(s, g))
  {
    hide CountTaken, Holds, FillEntry, T.AddEntry, Content, NamesOk;
    BindEntry(s, w, s1, f, name);
    var s2 := T.AddEntry(s1, ROOT_DIR_INUM, f, name).0;
    var w' := Named(w, f, name);
    BindNames(s, w, s2, f, name);
    BindKeepsContents(s, w, s1, f, name);
    assert forall g :: Alive(s2, g) <==> Alive(s, g) || g == f;
    assert forall g :: Uses(s2, g) <==> Uses(s, g);
    assert BlocksOk(s2, w');
    assert FilesOk(s2);
  }

  lemma BindNames(s: T.Tables, w: Book, s2: T.Tables, f: nat, name: cstring)
    requires T.Shaped(s) && T.Shaped(s2) && NamesOk(s, w) && f < INODE_TABLE_SIZE && f != ROOT_DIR_INUM
    requires s2.inodeTs == s.inodeTs[f := TAKEN] && !Alive(s, f)
    requires forall i :: 0 <= i < |w.names| ==> w.names[i].name != name
    ensures |w.at| == INODE_TABLE_SIZE && NamesOk(s2, Named(w, f, name))
  {
    var w' := Named(w, f, name);
    forall g | AliveFile(s2, g)
      ensures 0 <= w'.at[g] < |w'.names| && w'.names[w'.at[g]].inumber == g
    {
      if g != f {
        assert AliveFile(s, g);
      }
    }
  }

  /** The inode of a failed create is given back. */
  lemma UndoKeepsBook(s: T.Tables, w: Book, s1: T.Tables, f: nat)
    requires Inv(s, w) && FreshInode(s, s1, f)
    ensures T.Shaped(s1)
    ensures var s' := T.Delete(s1, f).0;
            && Inv(s', w) && s' == s.(inodes := s.inodes[f := s'.inodes[f]])
            && Abs(s', w) == Abs(s, w)
  {
    hide CountTaken, Holds, FilesOf;
    var s' := T.Delete(s1, f).0;
    assert s'.inodeTs == s.inodeTs;
    assert forall g :: Alive(s', g) <==> Alive(s, g);
    assert forall g :: Uses(s', g) <==> Uses(s, g);
    assert BlocksOk(s', w);
    forall i | 0 <= i < |w.names|
      ensures Content(s', w.names[i].inumber) == Content(s, w.names[i].inumber)
    {
      assert AliveFile(s, w.names[i].inumber);
    }
    FilesOfSame(s, s', w.names);
    assert HandlesOf(s', w) == HandlesOf(s, w);
  }

  /**
   A new name. With room in the directory the abstract file system gains an
   empty file; with a full one the create fails and rolls back, leaving blocks,
   directory, handles, live inodes and every file as they were.
   */
  lemma CreateRefines(s: T.Tables, w: Book, path: cstring) returns (w': Book)
    requires Inv(s, w) && ValidPathname(path) && |NameOf(path)| < MAX_FILE_NAME
    requires NameOf(path) !in Abs(s, w).files
    ensures var (s', f) := T.CreateNamed(s, path);
            && Inv(s', w')
            && if |Abs(s, w).files| == MAX_DIR_ENTRIES then
                 && f == -1 && w' == w && Abs(s', w) == Abs(s, w)
                 && ValidInumber(FirstFree(s.inodeTs, 0))
                 && s' == s.(inodes := s.inodes[FirstFree(s.inodeTs, 0) := s'.inodes[FirstFree(s.inodeTs, 0)]])
               else
                 && AliveFile(s', f) && s'.inodes[f].size == 0
                 && w'.names[w'.at[f]].name == NameOf(path)
                 && Abs(s', w') == Abs(s, w).(files := Abs(s, w).files[NameOf(path) := []])
  {
    hide BlocksOk, FilesOk, Holds, CountTaken, FilesOf, Content, HandlesOf, T.AddEntry, T.Delete, T.Create;
    var name := NameOf(path);
    var (s1, f) := T.Create(s, T_FILE);
    CreateFresh(s, w);
    CreateNumber(s);
    FilesOfSize(s, w.names);
    DirectoryFits(s, w);
    if |w.names| == MAX_DIR_ENTRIES {
      FullDirectory(s, w, s1, f, name);
      UndoKeepsBook(s, w, s1, f);
      w' := w;
    } else {
      UnboundName(s, w, name);
      AtSize(s, w);
      BindKeepsBook(s, w, s1, f, name);
      w' := Named(w, f, name);
      BoundAbs(s, w, s1, T.AddEntry(s1, ROOT_DIR_INUM, f, name).0, f, name);
    }
  }

  lemma CreateNumber(s: T.Tables)
    requires T.Shaped(s)
    ensures T.Create(s, T_FILE).1 == FirstFree(s.inodeTs, 0)
  {
  }

  lemma DirectoryFits(s: T.Tables, w: Book)
    requires Inv(s, w)
    ensures |w.names| <= MAX_DIR_ENTRIES
  {
  }

  lemma AtSize(s: T.Tables, w: Book)
    requires Inv(s, w)
    ensures |w.at| == INODE_TABLE_SIZE
  {
  }

  lemma FullDirectory(s: T.Tables, w: Book, s1: T.Tables, f: nat, name: cstring)
    requires Inv(s, w) && FreshInode(s, s1, f) && |w.names| == MAX_DIR_ENTRIES
    ensures T.Shaped(s1) && T.AddEntry(s1, ROOT_DIR_INUM, f, name) == (s1, false)
  {
    EmptyEntryIsEnd(s.data, s.inodes[ROOT_DIR_INUM].dataBlock * BLOCK_SIZE, w.names);
  }

  lemma UnboundName(s: T.Tables, w: Book, name: cstring)
    requires Inv(s, w) && name !in Abs(s, w).files
    ensures forall i :: 0 <= i < |w.names| ==> w.names[i].name != name
  {
    hide FilesOf;
    FilesOfKeys(s, w.names, name);
  }

  /** The abstract view of a bound fresh inode. */
  lemma BoundAbs(s: T.Tables, w: Book, s1: T.Tables, s2: T.Tables, f: nat, name: cstring)
    requires Inv(s, w) && FreshInode(s, s1, f) && T.Shaped(s2) && s2 == s1.(data := s2.data)
    requires |w.at| == INODE_TABLE_SIZE && Inv(s2, Named(w, f, name))
    requires forall g :: AliveFile(s, g) ==> Content(s2, g) == Content(s, g)
    ensures Abs(s2, Named(w, f, name)) == Abs(s, w).(files := Abs(s, w).files[name := []])
    ensures s2.inodes[f].size == 0
  {
    hide BlocksOk, RootOk, CountTaken, Content;
    var w' := Named(w, f, name);
    assert w'.names[..|w.names|] == w.names;
    FilesOfSame(s, s2, w.names);
    EmptyContent(s2, f);
    forall h | 0 <= h < MAX_OPEN_FILES && s.fileTs[h] == TAKEN
      ensures w'.names[w'.at[s2.files[h].inumber]].name == w.names[w.at[s.files[h].inumber]].name
    {
      assert AliveFile(s, s.files[h].inumber);
    }
    assert HandlesOf(s2, w') == HandlesOf(s, w);
  }
}
