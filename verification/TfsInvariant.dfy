/**
 What holds of the tables of part two in every reachable state: TAKEN blocks are
 in bijection with the inodes that use one, live files with directory entries,
 and open_file_count is the number of TAKEN handles.
 */
module TfsInvariant {
  import opened Directory
  import opened StoreModel
  import opened Numbering
  import T = TfsModel

  /** Inode of each TAKEN block, bindings in directory order, directory position of each live file. */
  datatype Book = Book(owner: seq<int>, names: seq<Binding>, at: seq<int>)

  predicate Alive(s: T.Tables, f: int)
    requires T.Shaped(s)
  {
    ValidInumber(f) && s.inodeTs[f] == TAKEN
  }

  predicate AliveFile(s: T.Tables, f: int)
    requires T.Shaped(s)
  {
    Alive(s, f) && f != ROOT_DIR_INUM
  }

  /** The inode has a data block. */
  predicate Uses(s: T.Tables, f: int)
    requires T.Shaped(s)
  {
    Alive(s, f) && (f == ROOT_DIR_INUM || s.inodes[f].size > 0)
  }

  ghost predicate BlocksOk(s: T.Tables, w: Book)
    requires T.Shaped(s)
  {
    && |w.owner| == DATA_BLOCKS
    && (forall b :: 0 <= b < DATA_BLOCKS ==> (s.blocks[b] == TAKEN <==> w.owner[b] != -1))
    && (forall b :: 0 <= b < DATA_BLOCKS && w.owner[b] != -1 ==>
          Uses(s, w.owner[b]) && s.inodes[w.owner[b]].dataBlock == b)
    && (forall f :: Uses(s, f) ==> ValidBlock(s.inodes[f].dataBlock) && w.owner[s.inodes[f].dataBlock] == f)
  }

  ghost predicate Distinct(names: seq<Binding>) {
    forall i, j :: 0 <= i < j < |names| ==> names[i].name != names[j].name
  }

  ghost predicate NamesOk(s: T.Tables, w: Book)
    requires T.Shaped(s)
  {
    && |w.at| == INODE_TABLE_SIZE && Distinct(w.names)
    && (forall i :: 0 <= i < |w.names| ==>
          AliveFile(s, w.names[i].inumber) && w.at[w.names[i].inumber] == i)
    && (forall f :: AliveFile(s, f) ==> 0 <= w.at[f] < |w.names| && w.names[w.at[f]].inumber == f)
  }

  ghost predicate RootOk(s: T.Tables, w: Book)
    requires T.Shaped(s)
  {
    && Alive(s, ROOT_DIR_INUM) && s.inodes[ROOT_DIR_INUM].kind == T_DIRECTORY
    && ValidBlock(s.inodes[ROOT_DIR_INUM].dataBlock)
    && Holds(s.data, s.inodes[ROOT_DIR_INUM].dataBlock * BLOCK_SIZE, w.names)
  }

  ghost predicate FilesOk(s: T.Tables)
    requires T.Shaped(s)
  {
    && (forall f :: AliveFile(s, f) ==> s.inodes[f].kind == T_FILE && s.inodes[f].size <= BLOCK_SIZE)
    && (forall h :: 0 <= h < MAX_OPEN_FILES && s.fileTs[h] == TAKEN ==>
          AliveFile(s, s.files[h].inumber))
  }

  /** Every open handle stands within its file. Truncation through another handle can end that, and nothing else. */
  ghost predicate HandlesIn(s: T.Tables)
    requires T.Shaped(s)
  {
    forall h :: 0 <= h < MAX_OPEN_FILES && s.fileTs[h] == TAKEN && ValidInumber(s.files[h].inumber) ==>
      s.files[h].offset <= s.inodes[s.files[h].inumber].size
  }

  function CountTaken(t: seq<Allocation>): nat {
    Count(t, TAKEN)
  }

  ghost predicate Inv(s: T.Tables, w: Book) {
    && T.Shaped(s) && BlocksOk(s, w) && NamesOk(s, w) && RootOk(s, w) && FilesOk(s)
    && s.openCount == CountTaken(s.fileTs)
  }

  // ---------------------------------------------------------------------------
  // The tables never fill up
  // ---------------------------------------------------------------------------

  /** The labels of the TAKEN slots. */
  function Labels(t: seq<Allocation>, g: seq<nat>): (r: set<nat>)
    requires |t| == |g|
    ensures forall x :: x in r ==> exists i :: 0 <= i < |t| && t[i] == TAKEN && g[i] == x
  {
    if t == [] then {}
    else
      var n := |t| - 1;
      var rest := Labels(t[..n], g[..n]);
      assert forall x :: x in rest ==> exists i :: 0 <= i < n && t[i] == TAKEN && g[i] == x by {
        forall x | x in rest
          ensures exists i :: 0 <= i < n && t[i] == TAKEN && g[i] == x
        {
          var i :| 0 <= i < n && t[..n][i] == TAKEN && g[..n][i] == x;
          assert t[i] == TAKEN && g[i] == x;
        }
      }
      if t[n] == TAKEN then rest + {g[n]} else rest
  }

  ghost predicate Injective(t: seq<Allocation>, g: seq<nat>)
    requires |t| == |g|
  {
    forall i, j :: 0 <= i < j < |t| && t[i] == TAKEN && t[j] == TAKEN ==> g[i] != g[j]
  }

  lemma {:induction false} LabelsCount(t: seq<Allocation>, g: seq<nat>)
    requires |t| == |g| && Injective(t, g)
    ensures |Labels(t, g)| == CountTaken(t)
  {
    if t != [] {
      var n := |t| - 1;
      assert Injective(t[..n], g[..n]);
      LabelsCount(t[..n], g[..n]);
      if t[n] == TAKEN {
        assert forall i :: 0 <= i < n && t[..n][i] == TAKEN ==> g[..n][i] != g[n];
        assert g[n] !in Labels(t[..n], g[..n]);
      }
    }
  }

  lemma {:induction false} SetBelow(x: set<nat>, k: nat)
    requires forall i :: i in x ==> i < k
    ensures |x| <= k
  {
    if |x| != 0 {
      var i :| i in x;
      assert i < k;
      SetBelow(x - {k - 1}, k - 1);
    }
  }

  /** Pigeonhole: distinct labels below k on the TAKEN slots mean at most k of them. */
  lemma Pigeonhole(t: seq<Allocation>, g: seq<nat>, k: nat)
    requires |t| == |g| && Injective(t, g)
    requires forall i :: 0 <= i < |t| && t[i] == TAKEN ==> g[i] < k
    ensures CountTaken(t) <= k
  {
    LabelsCount(t, g);
    SetBelow(Labels(t, g), k);
  }

  /** A different number for each live inode: 0 for the root, 1 + its directory position for a file. */
  function InodeLabel(w: Book, f: int): nat
    requires 0 <= f < |w.at|
  {
    if f == ROOT_DIR_INUM || w.at[f] < 0 then 0 else w.at[f] + 1
  }

  /**
   Space never runs out: there are at most 24 live inodes and at most 24 TAKEN
   blocks, one more each than the directory has entries.
   */
  lemma FewTaken(s: T.Tables, w: Book)
    requires Inv(s, w)
    ensures CountTaken(s.inodeTs) <= |w.names| + 1 <= MAX_DIR_ENTRIES + 1
    ensures CountTaken(s.blocks) <= |w.names| + 1
  {
    var g := seq(INODE_TABLE_SIZE, f requires 0 <= f < INODE_TABLE_SIZE => InodeLabel(w, f));
    forall f | 0 <= f < INODE_TABLE_SIZE && s.inodeTs[f] == TAKEN
      ensures g[f] < |w.names| + 1
    {
      assert Alive(s, f);
    }
    forall f, k | 0 <= f < k < INODE_TABLE_SIZE && s.inodeTs[f] == TAKEN && s.inodeTs[k] == TAKEN
      ensures g[f] != g[k]
    {
      assert AliveFile(s, k);
      if f != ROOT_DIR_INUM {
        assert AliveFile(s, f);
      }
    }
    Pigeonhole(s.inodeTs, g, |w.names| + 1);
    var e := seq(DATA_BLOCKS, b requires 0 <= b < DATA_BLOCKS =>
      if s.blocks[b] == TAKEN && 0 <= w.owner[b] < INODE_TABLE_SIZE then InodeLabel(w, w.owner[b]) else 0);
    forall b | 0 <= b < DATA_BLOCKS && s.blocks[b] == TAKEN
      ensures ValidInumber(w.owner[b]) && e[b] == g[w.owner[b]] && s.inodeTs[w.owner[b]] == TAKEN
      ensures e[b] < |w.names| + 1
    {
      assert Uses(s, w.owner[b]);
    }
    forall b, c | 0 <= b < c < DATA_BLOCKS && s.blocks[b] == TAKEN && s.blocks[c] == TAKEN
      ensures e[b] != e[c]
    {
      assert s.inodes[w.owner[b]].dataBlock == b && s.inodes[w.owner[c]].dataBlock == c;
      assert w.owner[b] != w.owner[c];
    }
    Pigeonhole(s.blocks, e, |w.names| + 1);
  }

  /** So inode_create and data_block_alloc always find a free entry. */
  lemma AllocationsSucceed(s: T.Tables, w: Book)
    requires Inv(s, w)
    ensures FirstFree(s.inodeTs, 0) != -1 && FirstFree(s.blocks, 0) != -1
  {
    FewTaken(s, w);
    if FirstFree(s.inodeTs, 0) == -1 {
      CountUniform(s.inodeTs, TAKEN, TAKEN);
    }
    if FirstFree(s.blocks, 0) == -1 {
      CountUniform(s.blocks, TAKEN, TAKEN);
    }
  }
}
