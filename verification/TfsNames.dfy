/**
 When names stay unique in part two. tfs_open does not check the path again
 before it creates a file, and add_dir_entry clips names: a path without a
 leading slash, or with a long name, can bind a name a second time.
 */
module TfsNames {
  import opened Directory
  import opened StoreModel
  import opened TfsInvariant
  import opened TfsRefinement
  import T = TfsModel
  import A = AbstractFs

  /** What is stored of a name is what is stored of its clipped form. */
  lemma ClippedEntry(s: T.Tables, d: int, f: int, name: cstring)
    requires T.Shaped(s)
    ensures T.AddEntry(s, d, f, name) == T.AddEntry(s, d, f, Clip(name))
  {
    assert StoredName(name) == StoredName(Clip(name));
  }

  /** Tables whose directory has a name twice have no book. */
  lemma TwiceHasNoBook(s: T.Tables, base: nat, names: seq<Binding>, i: nat)
    requires T.Shaped(s) && base == s.inodes[ROOT_DIR_INUM].dataBlock * BLOCK_SIZE
    requires Holds(s.data, base, names) && i < |names| - 1 && names[i].name == names[|names| - 1].name
    ensures forall w :: !Inv(s, w)
  {
    assert !Distinct(names) by {
      assert names[i].name == names[|names| - 1].name;
    }
    forall w
      ensures !Inv(s, w)
    {
      if Inv(s, w) {
        RootHolds(s, w);
        HoldsUnique(s.data, base, names, w.names);
      }
    }
  }

  lemma RootHolds(s: T.Tables, w: Book)
    requires Inv(s, w)
    ensures s.inodes[ROOT_DIR_INUM].dataBlock >= 0
    ensures Holds(s.data, s.inodes[ROOT_DIR_INUM].dataBlock * BLOCK_SIZE, w.names) && Distinct(w.names)
  {
  }

  /** The name that a creation under this path binds is new, or nothing is bound at all. */
  ghost predicate BindsNewName(a: A.Fs, path: cstring)
    requires path != []
  {
    NameOf(path) == [] || |a.files| == MAX_DIR_ENTRIES || Clip(NameOf(path)) !in a.files
  }

  /** A creation that binds a new name, or none, leaves consistent tables. */
  lemma CreateKeepsNames(s: T.Tables, w: Book, path: cstring) returns (w': Book)
    requires Inv(s, w) && path != [] && BindsNewName(Abs(s, w), path)
    ensures var (s', f) := T.CreateNamed(s, path);
            Inv(s', w') && (f == -1 || AliveFile(s', f))
  {
    hide BlocksOk, FilesOk, Holds, CountTaken, FilesOf, Content, HandlesOf, T.AddEntry, T.Delete, T.Create;
    var name := NameOf(path);
    var (s1, f) := T.Create(s, T_FILE);
    CreateFresh(s, w);
    FilesOfSize(s, w.names);
    DirectoryFits(s, w);
    ClippedEntry(s1, ROOT_DIR_INUM, f, name);
    if name == [] || |w.names| == MAX_DIR_ENTRIES {
      if name == [] {
        NoEntryForEmptyName(s1, f);
      } else {
        FullDirectory(s, w, s1, f, name);
      }
      UndoKeepsBook(s, w, s1, f);
      w' := w;
    } else {
      UnboundName(s, w, Clip(name));
      AtSize(s, w);
      BindKeepsBook(s, w, s1, f, Clip(name));
      w' := Named(w, f, Clip(name));
    }
  }

  lemma NoEntryForEmptyName(s: T.Tables, f: int)
    requires T.Shaped(s)
    ensures T.AddEntry(s, ROOT_DIR_INUM, f, []) == (s, false)
  {
  }

  /** A creation under a bound name binds it a second time. */
  lemma CreateBindsTwice(s: T.Tables, w: Book, path: cstring)
    requires Inv(s, w) && path != [] && !BindsNewName(Abs(s, w), path)
    ensures var (s', f) := T.CreateNamed(s, path);
            var base := s.inodes[ROOT_DIR_INUM].dataBlock * BLOCK_SIZE;
            && f != -1 && base >= 0 && s'.inodes[ROOT_DIR_INUM] == s.inodes[ROOT_DIR_INUM]
            && Holds(s'.data, base, w.names + [Binding(Clip(NameOf(path)), f)])
            && exists i :: 0 <= i < |w.names| && w.names[i].name == Clip(NameOf(path))
  {
    hide BlocksOk, FilesOk, Holds, CountTaken, FilesOf, Content, HandlesOf, T.AddEntry, T.Delete, T.Create;
    var name := NameOf(path);
    var (s1, f) := T.Create(s, T_FILE);
    CreateFresh(s, w);
    FilesOfSize(s, w.names);
    DirectoryFits(s, w);
    ClippedEntry(s1, ROOT_DIR_INUM, f, name);
    BindEntry(s, w, s1, f, Clip(name));
    FilesOfKeys(s, w.names, Clip(name));
  }

  /**
   Names stay unique exactly when the created name is new. An open that finds
   nothing and creates keeps the tables consistent if and only if the clipped
   name it binds is not bound yet, or it binds nothing.
   */
  lemma OpenKeepsNamesIff(s: T.Tables, w: Book, path: cstring, flags: Flags)
    requires Inv(s, w) && path != [] && flags.creat && T.Lookup(s, path) == -1
    ensures (exists w' :: Inv(T.Open(s, path, flags).0, w')) <==> BindsNewName(Abs(s, w), path)
  {
    hide BlocksOk, RootOk, CountTaken, Distinct, Abs, T.CreateNamed, T.AddHandle, T.Lookup, BindsNewName;
    var (s1, f) := T.CreateNamed(s, path);
    var s' := T.Open(s, path, flags).0;
    if BindsNewName(Abs(s, w), path) {
      var w' := CreateKeepsNames(s, w, path);
      if f != -1 {
        AddHandleRefines(s1, w', f, 0);
      }
      assert Inv(s', w');
    } else {
      CreateBindsTwice(s, w, path);
      HandleTableOnly(s1, f);
      var i :| 0 <= i < |w.names| && w.names[i].name == Clip(NameOf(path));
      TwiceHasNoBook(s', s.inodes[ROOT_DIR_INUM].dataBlock * BLOCK_SIZE, w.names + [Binding(Clip(NameOf(path)), f)], i);
    }
  }

  lemma HandleTableOnly(s: T.Tables, f: int)
    requires T.Shaped(s)
    ensures T.AddHandle(s, f, 0).0.inodes == s.inodes && T.AddHandle(s, f, 0).0.data == s.data
  {
  }

  /** With a leading slash and fewer than 40 characters, a name that is not found is new. */
  lemma ValidPathsBindNewNames(s: T.Tables, w: Book, path: cstring)
    requires Inv(s, w) && ValidPathname(path) && |NameOf(path)| < MAX_FILE_NAME && T.Lookup(s, path) == -1
    ensures BindsNewName(Abs(s, w), path)
  {
    hide BlocksOk, RootOk, CountTaken, Abs, T.Lookup;
    LookupRefines(s, w, path);
  }

  /**
   A path that is too short or has no leading slash is not found; without
   TFS_O_CREAT opening it fails and changes nothing.
   */
  lemma InvalidPathFails(s: T.Tables, path: cstring, flags: Flags)
    requires T.Shaped(s) && (|path| <= 1 || path[0] != 47)
    ensures T.Lookup(s, path) == -1
    ensures !flags.creat ==> T.Open(s, path, flags) == (s, Failed)
  {
  }
}
