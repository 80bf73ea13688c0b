/**
 Part two in the source's own form: static arrays and a counter, updated in place
 by the bodies that run under the global lock. Every method is proved to compute
 the function of the same name in TfsModel.
 */
module TfsImpl {
  import opened Memory
  import opened Directory
  import opened ArrayOps
  import M = StoreModel
  import T = TfsModel

  class Tfs {
    const inodeTable: array<T.TInode>
    const freeInodes: array<M.Allocation>
    const fsData: array<byte>
    const freeBlocks: array<M.Allocation>
    const openFiles: array<T.TFile>
    const freeOpenFiles: array<M.Allocation>
    var openFileCount: int

    ghost function Snapshot(): T.Tables
      reads this, inodeTable, freeInodes, fsData, freeBlocks, openFiles, freeOpenFiles
    {
      T.Tables(inodeTable[..], freeInodes[..], fsData[..], freeBlocks[..], openFiles[..], freeOpenFiles[..], openFileCount)
    }

    ghost predicate Valid()
      reads this, inodeTable, freeInodes, fsData, freeBlocks, openFiles, freeOpenFiles
    {
      && freeInodes != freeBlocks && freeInodes != freeOpenFiles && freeBlocks != freeOpenFiles
      && T.Shaped(Snapshot())
    }

    constructor ()
      ensures Valid()
      ensures fresh(inodeTable) && fresh(freeInodes) && fresh(fsData)
      ensures fresh(freeBlocks) && fresh(openFiles) && fresh(freeOpenFiles)
    {
      inodeTable := new T.TInode[M.INODE_TABLE_SIZE](_ => T.TInode(M.T_FILE, 0, 0));
      freeInodes := new M.Allocation[M.INODE_TABLE_SIZE](_ => M.FREE);
      fsData := new byte[M.DATA_SIZE](_ => 0);
      freeBlocks := new M.Allocation[M.DATA_BLOCKS](_ => M.FREE);
      openFiles := new T.TFile[M.MAX_OPEN_FILES](_ => T.TFile(0, 0));
      freeOpenFiles := new M.Allocation[M.MAX_OPEN_FILES](_ => M.FREE);
      openFileCount := 0;
    }

    // -------------------------------------------------------------------------
    // state.c
    // -------------------------------------------------------------------------

    method BlockAlloc() returns (b: int)
      requires Valid()
      modifies freeBlocks
      ensures Valid() && (Snapshot(), b) == T.BlockAlloc(old(Snapshot()))
    {
      b := TakeFirst(freeBlocks);
    }

    method BlockFree(b: int) returns (ok: bool)
      requires Valid()
      modifies freeBlocks
      ensures Valid() && (Snapshot(), ok) == T.BlockFree(old(Snapshot()), b)
    {
      if !M.ValidBlock(b) {
        return false;
      }
      freeBlocks[b] := M.FREE;
      return true;
    }

    method Create(kind: M.NodeType) returns (f: int)
      requires Valid()
      modifies inodeTable, freeInodes, fsData, freeBlocks
      ensures Valid() && (Snapshot(), f) == T.Create(old(Snapshot()), kind)
    {
      ghost var s0 := Snapshot();
      f := TakeFirst(freeInodes);
      if f == -1 {
        return;
      }
      inodeTable[f] := inodeTable[f].(kind := kind);
      if kind == M.T_DIRECTORY {
        assert Snapshot() == T.PutInode(s0.(inodeTs := s0.inodeTs[f := M.TAKEN]), f, s0.inodes[f].(kind := kind));
        var b := BlockAlloc();
        if b == -1 {
          freeInodes[f] := M.FREE;
          return -1;
        }
        inodeTable[f] := inodeTable[f].(size := BLOCK_SIZE, dataBlock := b);
        ClearDirectory(fsData, b * BLOCK_SIZE);
      } else {
        inodeTable[f] := inodeTable[f].(size := 0, dataBlock := -1);
      }
    }

    method Delete(f: int) returns (ok: bool)
      requires Valid()
      modifies freeInodes, freeBlocks
      ensures Valid() && (Snapshot(), ok) == T.Delete(old(Snapshot()), f)
    {
      if !M.ValidInumber(f) || freeInodes[f] == M.FREE {
        return false;
      }
      freeInodes[f] := M.FREE;
      if inodeTable[f].size > 0 {
        ok := BlockFree(inodeTable[f].dataBlock);
        return ok;
      }
      return true;
    }

    method Find(d: int, name: cstring) returns (r: int)
      requires Valid()
      ensures r == T.Find(Snapshot(), d, name)
    {
      if !M.ValidInumber(d) || inodeTable[d].kind != M.T_DIRECTORY || !M.ValidBlock(inodeTable[d].dataBlock) {
        return -1;
      }
      r := SearchDirectory(fsData, inodeTable[d].dataBlock * BLOCK_SIZE, name);
    }

    method AddEntry(d: int, f: int, name: cstring) returns (ok: bool)
      requires Valid()
      modifies fsData
      ensures Valid() && (Snapshot(), ok) == T.AddEntry(old(Snapshot()), d, f, name)
    {
      hide FillEntry, EmptyEntry;
      if !M.ValidInumber(d) || !M.ValidInumber(f) {
        return false;
      }
      if inodeTable[d].kind != M.T_DIRECTORY || |name| == 0 || !M.ValidBlock(inodeTable[d].dataBlock) {
        return false;
      }
      var base := inodeTable[d].dataBlock * BLOCK_SIZE;
      var i := FirstEmpty(fsData, base);
      if i == MAX_DIR_ENTRIES {
        return false;
      }
      SetEntry(fsData, base, i, f, name);
      return true;
    }

    method AddHandle(f: int, offset: nat) returns (h: int)
      requires Valid() && offset < SIZE_MOD
      modifies this`openFileCount, openFiles, freeOpenFiles
      ensures Valid() && (Snapshot(), h) == T.AddHandle(old(Snapshot()), f, offset)
    {
      h := TakeFirst(freeOpenFiles);
      if h == -1 {
        return;
      }
      openFiles[h] := T.TFile(f, offset);
      openFileCount := openFileCount + 1;
    }

    method RemoveHandle(h: int) returns (ok: bool)
      requires Valid()
      modifies this`openFileCount, freeOpenFiles
      ensures Valid() && (Snapshot(), ok) == T.RemoveHandle(old(Snapshot()), h)
    {
      if !M.ValidHandle(h) || freeOpenFiles[h] != M.TAKEN {
        return false;
      }
      freeOpenFiles[h] := M.FREE;
      openFileCount := openFileCount - 1;
      return true;
    }

    // -------------------------------------------------------------------------
    // operations.c, inside the lock
    // -------------------------------------------------------------------------

    method Lookup(path: cstring) returns (r: int)
      requires Valid()
      ensures r == T.Lookup(Snapshot(), path)
    {
      if !M.ValidPathname(path) {
        return -1;
      }
      r := Find(M.ROOT_DIR_INUM, M.NameOf(path));
    }

    method Truncate(f: nat) returns (ok: bool)
      requires Valid() && f < M.INODE_TABLE_SIZE
      modifies inodeTable, freeBlocks
      ensures Valid() && (Snapshot(), ok) == T.Truncate(old(Snapshot()), f)
    {
      if inodeTable[f].size > 0 {
        ok := BlockFree(inodeTable[f].dataBlock);
        if !ok {
          return false;
        }
        inodeTable[f] := inodeTable[f].(size := 0);
      }
      return true;
    }

    method CreateNamed(path: cstring) returns (f: int)
      requires Valid() && |path| > 0
      modifies inodeTable, freeInodes, fsData, freeBlocks
      ensures Valid() && (Snapshot(), f) == T.CreateNamed(old(Snapshot()), path)
    {
      hide T.Create, T.AddEntry, T.Delete;
      f := Create(M.T_FILE);
      if f == -1 {
        return;
      }
      var ok := AddEntry(M.ROOT_DIR_INUM, f, M.NameOf(path));
      if !ok {
        ok := Delete(f);
        return -1;
      }
    }

    method Open(path: cstring, flags: M.Flags) returns (r: M.Outcome)
      requires Valid()
      modifies this`openFileCount, inodeTable, freeInodes, fsData, freeBlocks, openFiles, freeOpenFiles
      ensures Valid() && (Snapshot(), r) == T.Open(old(Snapshot()), path, flags)
    {
      hide T.Lookup, T.Truncate, T.CreateNamed, T.AddHandle;
      var f := Lookup(path);
      var offset := 0;
      if f >= 0 {
        if !M.ValidInumber(f) {
          return M.Failed;
        }
        if flags.trunc {
          var ok := Truncate(f);
          if !ok {
            return M.Failed;
          }
        }
        if flags.append {
          offset := inodeTable[f].size;
        }
      } else if flags.creat {
        if |path| == 0 {
          return M.Fault;
        }
        f := CreateNamed(path);
        if f == -1 {
          return M.Failed;
        }
      } else {
        return M.Failed;
      }
      var h := AddHandle(f, offset);
      return T.HandleOutcome(h);
    }

    /** `signals` tells that the condition variable is signalled: no file is open afterwards. */
    method Close(h: int) returns (r: M.Outcome, signals: bool)
      requires Valid()
      modifies this`openFileCount, freeOpenFiles
      ensures Valid() && (Snapshot(), r) == T.Close(old(Snapshot()), h) && (signals <==> openFileCount == 0)
    {
      var ok := RemoveHandle(h);
      return if ok then M.Done(0) else M.Failed, openFileCount == 0;
    }

    /** A new block for an empty file. */
    method EnsureBlock(f: nat)
      requires Valid() && f < M.INODE_TABLE_SIZE
      modifies inodeTable, freeBlocks
      ensures Valid() && Snapshot() == T.EnsureBlock(old(Snapshot()), f)
    {
      if inodeTable[f].size == 0 {
        var b := BlockAlloc();
        inodeTable[f] := inodeTable[f].(dataBlock := b);
      }
    }

    method Write(h: int, buffer: seq<byte>) returns (r: M.Outcome)
      requires Valid()
      modifies inodeTable, fsData, freeBlocks, openFiles
      ensures Valid() && (Snapshot(), r) == T.Write(old(Snapshot()), h, buffer)
    {
      hide T.EnsureBlock, T.WriteLength;
      if !M.ValidHandle(h) || !M.ValidInumber(openFiles[h].inumber) {
        return M.Failed;
      }
      var f := openFiles[h].inumber;
      var toWrite := T.WriteLength(|buffer|, openFiles[h].offset);
      if toWrite > 0 {
        EnsureBlock(f);
        var b := inodeTable[f].dataBlock;
        if !M.ValidBlock(b) {
          return M.Failed;
        }
        if toWrite > |buffer| || b * BLOCK_SIZE + openFiles[h].offset + toWrite > M.DATA_SIZE {
          return M.Fault;
        }
        Memcpy(fsData, b * BLOCK_SIZE + openFiles[h].offset, buffer[..toWrite]);
        openFiles[h] := T.TFile(f, Wrap(openFiles[h].offset + toWrite));
        if openFiles[h].offset > inodeTable[f].size {
          inodeTable[f] := inodeTable[f].(size := openFiles[h].offset);
        }
      }
      return M.Done(toWrite);
    }

    method Read(h: int, buffer: array<byte>, len: nat) returns (r: M.Outcome)
      requires Valid() && len <= buffer.Length && buffer != fsData
      modifies openFiles, buffer
      ensures Valid() && (Snapshot(), buffer[..], r) == T.Read(old(Snapshot()), h, old(buffer[..]), len)
    {
      if !M.ValidHandle(h) || !M.ValidInumber(openFiles[h].inumber) {
        return M.Failed;
      }
      var f := openFiles[h].inumber;
      var toRead := Wrap(inodeTable[f].size - openFiles[h].offset);
      if toRead > len {
        toRead := len;
      }
      if toRead > 0 {
        var b := inodeTable[f].dataBlock;
        if !M.ValidBlock(b) {
          return M.Failed;
        }
        var from := b * BLOCK_SIZE + openFiles[h].offset;
        if from + toRead > M.DATA_SIZE {
          return M.Fault;
        }
        assert fsData[..][from..from + toRead] == fsData[from..from + toRead];
        Memcpy(buffer, 0, fsData[from..from + toRead]);
        openFiles[h] := T.TFile(f, Wrap(openFiles[h].offset + toRead));
      }
      return M.Done(toRead);
    }

    method Init() returns (r: int)
      requires Valid()
      modifies this`openFileCount, inodeTable, freeInodes, fsData, freeBlocks, freeOpenFiles
      ensures Valid() && (Snapshot(), r) == T.Init(old(Snapshot()))
    {
      hide T.Create;
      ClearTable(freeInodes);
      ClearTable(freeBlocks);
      ClearTable(freeOpenFiles);
      openFileCount := 0;
      var root := Create(M.T_DIRECTORY);
      return if root != M.ROOT_DIR_INUM then -1 else 0;
    }
  }
}
