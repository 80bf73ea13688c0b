/**
 The block store in the source's own form: static arrays updated in place by
 scan and fill loops. Every method is proved to compute the function of the same
 name in StoreModel on a snapshot of the arrays.
 */
module BlockStoreImpl {
  import opened Memory
  import opened Options
  import opened Directory
  import opened ArrayOps
  import M = StoreModel
  import H = StoreHistory

  class BlockStore {
    const inodeTable: array<M.Inode>
    const freeInodes: array<M.Allocation>
    const fsData: array<byte>
    const freeBlocks: array<M.Allocation>
    const openFiles: array<M.OpenFile>
    const freeOpenFiles: array<M.Allocation>

    ghost function Snapshot(): M.State
      reads this, inodeTable, freeInodes, fsData, freeBlocks, openFiles, freeOpenFiles
    {
      M.State(inodeTable[..], freeInodes[..], fsData[..], freeBlocks[..], openFiles[..], freeOpenFiles[..])
    }

    ghost predicate Valid()
      reads this, inodeTable, freeInodes, fsData, freeBlocks, openFiles, freeOpenFiles
    {
      && freeInodes != freeBlocks && freeInodes != freeOpenFiles && freeBlocks != freeOpenFiles
      && M.WellFormed(Snapshot())
    }

    /** Zeroed tables, as the C runtime provides them. */
    constructor ()
      ensures Valid()
      ensures fresh(inodeTable) && fresh(freeInodes) && fresh(fsData)
      ensures fresh(freeBlocks) && fresh(openFiles) && fresh(freeOpenFiles)
    {
      inodeTable := new M.Inode[M.INODE_TABLE_SIZE](_ => M.Inode(M.T_FILE, 0, 0, seq(M.DIRECT_BLOCK_POINTERS, _ => 0)));
      freeInodes := new M.Allocation[M.INODE_TABLE_SIZE](_ => M.FREE);
      fsData := new byte[M.DATA_SIZE](_ => 0);
      freeBlocks := new M.Allocation[M.DATA_BLOCKS](_ => M.FREE);
      openFiles := new M.OpenFile[M.MAX_OPEN_FILES](_ => M.OpenFile(0, 0, 0));
      freeOpenFiles := new M.Allocation[M.MAX_OPEN_FILES](_ => M.FREE);
    }

    // -------------------------------------------------------------------------
    // state.c: data blocks
    // -------------------------------------------------------------------------

    method DataBlockAlloc() returns (b: int)
      requires Valid()
      modifies freeBlocks
      ensures Valid() && (Snapshot(), b) == M.DataBlockAlloc(old(Snapshot()))
    {
      b := TakeFirst(freeBlocks);
    }

    method DataBlockFree(b: int) returns (ok: bool)
      requires Valid()
      modifies freeBlocks
      ensures Valid() && (Snapshot(), ok) == M.DataBlockFree(old(Snapshot()), b)
    {
      if !M.ValidBlock(b) {
        return false;
      }
      freeBlocks[b] := M.FREE;
      return true;
    }

    method PointerBlockAlloc() returns (b: int)
      requires Valid()
      modifies freeBlocks, fsData
      ensures Valid() && (Snapshot(), b) == M.PointerBlockAlloc(old(Snapshot()))
    {
      b := DataBlockAlloc();
      if b == -1 {
        return;
      }
      ghost var s1 := Snapshot();
      AllOnesIsMinusOne();
      var j := 0;
      while j < M.MAX_BLOCK_POINTERS
        invariant 0 <= j <= M.MAX_BLOCK_POINTERS && Valid()
        invariant Snapshot() == s1.(data := fsData[..])
        invariant forall p :: b * BLOCK_SIZE <= p < b * BLOCK_SIZE + 4 * j ==> fsData[p] == 255
        invariant forall p :: 0 <= p < M.DATA_SIZE && !(b * BLOCK_SIZE <= p < b * BLOCK_SIZE + 4 * j) ==>
                    fsData[p] == old(fsData[p])
      {
        label L:
        StoreInt(fsData, M.PointerAt(b, j), EMPTY);
        assert forall p :: 0 <= p < M.DATA_SIZE ==>
            fsData[p] == WriteInt(old@L(fsData[..]), M.PointerAt(b, j), EMPTY)[p];
        j := j + 1;
      }
      assert fsData[..] == Splice(old(fsData[..]), b * BLOCK_SIZE, M.EmptyPointers());
    }

    // -------------------------------------------------------------------------
    // state.c: inodes
    // -------------------------------------------------------------------------

    method InodeCreate(kind: M.NodeType) returns (f: int)
      requires Valid()
      modifies inodeTable, freeInodes, fsData, freeBlocks
      ensures Valid() && (Snapshot(), f) == M.InodeCreate(old(Snapshot()), kind)
    {
      ghost var s0 := Snapshot();
      f := TakeFirst(freeInodes);
      if f == -1 {
        return;
      }
      inodeTable[f] := inodeTable[f].(kind := kind);
      if kind == M.T_DIRECTORY {
        ghost var s1 := Snapshot();
        assert s1 == M.SetInode(s0.(inodeTs := s0.inodeTs[f := M.TAKEN]), f, s0.inodes[f].(kind := kind));
        var b := DataBlockAlloc();
        if b == -1 {
          freeInodes[f] := M.FREE;
          return -1;
        }
        inodeTable[f] := inodeTable[f].(size := BLOCK_SIZE, dataBlock := b, direct := M.NoPointers());
        ClearDirectory(fsData, b * BLOCK_SIZE);
      } else {
        inodeTable[f] := inodeTable[f].(size := 0, dataBlock := -1, direct := M.NoPointers());
      }
    }

    /** The loop of inode_data_free over the direct pointers. */
    method FreeDirect(f: nat) returns (ok: bool)
      requires Valid() && f < M.INODE_TABLE_SIZE
      modifies freeBlocks
      ensures Valid() && (Snapshot(), ok) == M.FreeDirect(old(Snapshot()), f, 0)
    {
      hide M.DataBlockFree;
      ghost var s0 := Snapshot();
      var i := 0;
      while i < M.DIRECT_BLOCK_POINTERS
        invariant 0 <= i <= M.DIRECT_BLOCK_POINTERS && Valid()
        invariant M.FreeDirect(Snapshot(), f, i) == M.FreeDirect(s0, f, 0)
      {
        if inodeTable[f].direct[i] != -1 {
          ok := DataBlockFree(inodeTable[f].direct[i]);
          if !ok {
            return false;
          }
        }
        i := i + 1;
      }
      return true;
    }

    /** The loop of inode_data_free over the index block. */
    method FreePointers(blk: nat) returns (ok: bool)
      requires Valid() && blk < M.DATA_BLOCKS
      modifies freeBlocks
      ensures Valid() && (Snapshot(), ok) == M.FreePointers(old(Snapshot()), blk, 0)
    {
      hide M.DataBlockFree, ReadInt;
      ghost var s0 := Snapshot();
      var j := 0;
      while j < M.MAX_BLOCK_POINTERS
        invariant 0 <= j <= M.MAX_BLOCK_POINTERS && Valid()
        invariant M.FreePointers(Snapshot(), blk, j) == M.FreePointers(s0, blk, 0)
      {
        var b := LoadInt(fsData, M.PointerAt(blk, j));
        if b != -1 {
          ok := DataBlockFree(b);
          if !ok {
            return false;
          }
        }
        j := j + 1;
      }
      return true;
    }

    method InodeDataFree(f: nat) returns (ok: bool)
      requires Valid() && f < M.INODE_TABLE_SIZE
      modifies freeBlocks
      ensures Valid() && (Snapshot(), ok) == M.InodeDataFree(old(Snapshot()), f)
    {
      hide M.DataBlockFree, M.FreeDirect, M.FreePointers;
      if inodeTable[f].size > 0 {
        ok := FreeDirect(f);
        if !ok {
          return false;
        }
        var blk := inodeTable[f].dataBlock;
        if blk != -1 {
          if !M.ValidBlock(blk) {
            return false;
          }
          ok := FreePointers(blk);
          if !ok {
            return false;
          }
          ok := DataBlockFree(blk);
          return ok;
        }
      }
      return true;
    }

    method InodeMetadataReset(f: nat)
      requires Valid() && f < M.INODE_TABLE_SIZE
      modifies inodeTable
      ensures Valid() && Snapshot() == M.InodeMetadataReset(old(Snapshot()), f)
    {
      inodeTable[f] := inodeTable[f].(size := 0, dataBlock := -1, direct := M.NoPointers());
    }

    method InodeDelete(f: int) returns (ok: bool)
      requires Valid()
      modifies freeInodes, freeBlocks
      ensures Valid() && (Snapshot(), ok) == M.InodeDelete(old(Snapshot()), f)
    {
      if !M.ValidInumber(f) || freeInodes[f] == M.FREE {
        return false;
      }
      freeInodes[f] := M.FREE;
      assert Snapshot() == old(Snapshot()).(inodeTs := old(Snapshot()).inodeTs[f := M.FREE]);
      ok := InodeDataFree(f);
    }

    /** One round of the loop of inode_update over the direct pointers. */
    method FillDirectPointer(f: nat, i: nat)
      requires Valid() && f < M.INODE_TABLE_SIZE && i < M.DIRECT_BLOCK_POINTERS
      modifies inodeTable, freeBlocks
      ensures Valid()
      ensures var s := old(Snapshot());
              if s.inodes[f].direct[i] == -1 then
                Snapshot() == M.SetDirect(M.DataBlockAlloc(s).0, f, i, M.DataBlockAlloc(s).1)
              else Snapshot() == s
    {
      if inodeTable[f].direct[i] == -1 {
        var b := DataBlockAlloc();
        inodeTable[f] := inodeTable[f].(direct := inodeTable[f].direct[i := b]);
      }
    }

    /** That loop. */
    method FillDirect(f: nat, last: int)
      requires Valid() && f < M.INODE_TABLE_SIZE
      modifies inodeTable, freeBlocks
      ensures Valid() && Snapshot() == M.FillDirect(old(Snapshot()), f, 0, last)
    {
      hide M.DataBlockAlloc, M.SetDirect;
      ghost var s0 := Snapshot();
      var i := 0;
      while i <= last && i < M.DIRECT_BLOCK_POINTERS
        invariant 0 <= i <= M.DIRECT_BLOCK_POINTERS && Valid()
        invariant M.FillDirect(Snapshot(), f, i, last) == M.FillDirect(s0, f, 0, last)
      {
        FillDirectPointer(f, i);
        i := i + 1;
      }
    }

    /** The step of inode_update that allocates a missing index block. */
    method EnsureIndexBlock(f: nat)
      requires Valid() && f < M.INODE_TABLE_SIZE
      modifies inodeTable, fsData, freeBlocks
      ensures Valid() && Snapshot() == M.EnsureIndexBlock(old(Snapshot()), f)
    {
      hide M.PointerBlockAlloc;
      if inodeTable[f].dataBlock == -1 {
        var b := PointerBlockAlloc();
        inodeTable[f] := inodeTable[f].(dataBlock := b);
      }
    }

    method InodeUpdate(h: nat) returns (p: M.Position)
      requires Valid() && h < M.MAX_OPEN_FILES
      modifies inodeTable, fsData, freeBlocks
      ensures Valid() && (Snapshot(), p) == M.InodeUpdate(old(Snapshot()), h)
    {
      hide M.FillDirect, M.EnsureIndexBlock, M.FillPointers;
      var file := openFiles[h];
      if !M.ValidInumber(file.inumber) {
        return M.Null;
      }
      var f := file.inumber;
      FillDirect(f, file.boffset);
      if file.boffset >= M.DIRECT_BLOCK_POINTERS {
        EnsureIndexBlock(f);
        p := PointerPart(f, file);
      } else if file.boffset < 0 {
        p := M.Wild;
      } else {
        p := M.Locate(inodeTable[f].direct[file.boffset], file.offset);
      }
    }

    /** One round of the loop over the index block: a missing pointer gets a new block. */
    method FillPointer(blk: nat, j: nat)
      requires Valid() && blk < M.DATA_BLOCKS && j < M.MAX_BLOCK_POINTERS
      modifies fsData, freeBlocks
      ensures Valid()
      ensures var s := old(Snapshot());
              if ReadInt(s.data, M.PointerAt(blk, j)) == -1 then
                Snapshot() == M.SetPointer(M.DataBlockAlloc(s).0, blk, j, M.DataBlockAlloc(s).1)
              else Snapshot() == s
    {
      var v := LoadInt(fsData, M.PointerAt(blk, j));
      if v == -1 {
        var b := DataBlockAlloc();
        StoreInt(fsData, M.PointerAt(blk, j), b);
      }
    }

    /** The loop of inode_update over the index block. */
    method FillPointers(blk: nat, last: int)
      requires Valid() && blk < M.DATA_BLOCKS
      modifies fsData, freeBlocks
      ensures Valid() && Snapshot() == M.FillPointers(old(Snapshot()), blk, 0, last)
    {
      hide M.DataBlockAlloc, M.SetPointer, ReadInt;
      ghost var s0 := Snapshot();
      var j := 0;
      while j <= last && j < M.MAX_BLOCK_POINTERS
        invariant 0 <= j <= M.MAX_BLOCK_POINTERS && Valid()
        invariant M.FillPointers(Snapshot(), blk, j, last) == M.FillPointers(s0, blk, 0, last)
      {
        FillPointer(blk, j);
        j := j + 1;
      }
    }

    /** The part of inode_update that works on the index block. */
    method PointerPart(f: nat, file: M.OpenFile) returns (p: M.Position)
      requires Valid() && f < M.INODE_TABLE_SIZE && file.boffset >= M.DIRECT_BLOCK_POINTERS
      modifies fsData, freeBlocks
      ensures Valid()
      ensures var s2 := old(Snapshot());
              var blk := s2.inodes[f].dataBlock;
              var j := file.boffset - M.DIRECT_BLOCK_POINTERS;
              if !M.ValidBlock(blk) then Snapshot() == s2 && p == M.Wild
              else
                && Snapshot() == M.FillPointers(s2, blk, 0, j)
                && p == if M.PointerAt(blk, j) + 4 > M.DATA_SIZE then M.Wild
                        else M.Locate(ReadInt(Snapshot().data, M.PointerAt(blk, j)), file.offset)
    {
      var blk := inodeTable[f].dataBlock;
      var last := file.boffset - M.DIRECT_BLOCK_POINTERS;
      if !M.ValidBlock(blk) {
        return M.Wild;
      }
      FillPointers(blk, last);
      if M.PointerAt(blk, last) + 4 > M.DATA_SIZE {
        return M.Wild;
      }
      var v := LoadInt(fsData, M.PointerAt(blk, last));
      return M.Locate(v, file.offset);
    }

    // -------------------------------------------------------------------------
    // state.c: directory and open file table
    // -------------------------------------------------------------------------

    method FindInDir(d: int, name: cstring) returns (r: int)
      requires Valid()
      ensures r == M.FindInDir(Snapshot(), d, name)
    {
      if !M.ValidInumber(d) || inodeTable[d].kind != M.T_DIRECTORY {
        return -1;
      }
      if !M.ValidBlock(inodeTable[d].dataBlock) {
        return -1;
      }
      r := SearchDirectory(fsData, inodeTable[d].dataBlock * BLOCK_SIZE, name);
    }

    method AddDirEntry(d: int, f: int, name: cstring) returns (ok: bool)
      requires Valid()
      modifies fsData
      ensures Valid() && (Snapshot(), ok) == M.AddDirEntry(old(Snapshot()), d, f, name)
    {
      hide FillEntry, EmptyEntry;
      if !M.ValidInumber(d) || !M.ValidInumber(f) {
        return false;
      }
      if inodeTable[d].kind != M.T_DIRECTORY || |name| == 0 || !M.ValidBlock(inodeTable[d].dataBlock) {
        return false;
      }
      var base := inodeTable[d].dataBlock * BLOCK_SIZE;
      var i := FirstEmpty(fsData, base);
      if i == MAX_DIR_ENTRIES {
        return false;
      }
      SetEntry(fsData, base, i, f, name);
      return true;
    }

    method AddToOpenFileTable(f: int, offset: nat) returns (h: int)
      requires Valid()
      modifies openFiles, freeOpenFiles
      ensures Valid() && (Snapshot(), h) == M.AddToOpenFileTable(old(Snapshot()), f, offset)
    {
      h := TakeFirst(freeOpenFiles);
      if h == -1 {
        return;
      }
      var blockAux := CastToInt(offset);
      blockAux := TruncDiv(blockAux, BLOCK_SIZE);
      openFiles[h] := M.OpenFile(f, offset % BLOCK_SIZE, blockAux);
    }

    method RemoveFromOpenFileTable(h: int) returns (ok: bool)
      requires Valid()
      modifies freeOpenFiles
      ensures Valid() && (Snapshot(), ok) == M.RemoveFromOpenFileTable(old(Snapshot()), h)
    {
      if !M.ValidHandle(h) || freeOpenFiles[h] != M.TAKEN {
        return false;
      }
      freeOpenFiles[h] := M.FREE;
      return true;
    }

    // -------------------------------------------------------------------------
    // operations.c
    // -------------------------------------------------------------------------

    method TfsLookup(path: cstring) returns (r: int)
      requires Valid()
      ensures r == M.TfsLookup(Snapshot(), path)
    {
      if !M.ValidPathname(path) {
        return -1;
      }
      r := FindInDir(M.ROOT_DIR_INUM, M.NameOf(path));
    }

    /** The branch of tfs_open for a bound path. */
    method OpenExisting(f: nat, flags: M.Flags) returns (ok: bool)
      requires Valid() && f < M.INODE_TABLE_SIZE
      modifies inodeTable, freeBlocks
      ensures Valid() && (Snapshot(), ok) == M.OpenExisting(old(Snapshot()), f, flags)
    {
      if flags.trunc {
        ok := InodeDataFree(f);
        if !ok {
          return false;
        }
        InodeMetadataReset(f);
      }
      return true;
    }

    /** The branch of tfs_open that creates a file. */
    method OpenNew(path: cstring) returns (f: int)
      requires Valid() && M.ValidPathname(path)
      modifies inodeTable, freeInodes, fsData, freeBlocks
      ensures Valid() && (Snapshot(), f) == M.OpenNew(old(Snapshot()), path)
    {
      f := InodeCreate(M.T_FILE);
      if f == -1 {
        return;
      }
      var ok := AddDirEntry(M.ROOT_DIR_INUM, f, M.NameOf(path));
      if !ok {
        ok := InodeDelete(f);
        return -1;
      }
    }

    method TfsOpen(path: cstring, flags: M.Flags) returns (h: int)
      requires Valid()
      modifies inodeTable, freeInodes, fsData, freeBlocks, openFiles, freeOpenFiles
      ensures Valid() && (Snapshot(), h) == M.TfsOpen(old(Snapshot()), path, flags)
    {
      hide M.FindInDir, M.OpenExisting, M.OpenNew, M.AddToOpenFileTable;
      if !M.ValidPathname(path) {
        return -1;
      }
      var f := TfsLookup(path);
      var offset := 0;
      if f >= 0 {
        if !M.ValidInumber(f) {
          return -1;
        }
        var ok := OpenExisting(f, flags);
        if !ok {
          return -1;
        }
        if flags.append {
          offset := inodeTable[f].size;
        }
      } else if flags.creat {
        f := OpenNew(path);
        if f == -1 {
          return -1;
        }
      } else {
        return -1;
      }
      h := AddToOpenFileTable(f, offset);
    }

    method TfsClose(h: int) returns (r: int)
      requires Valid()
      modifies freeOpenFiles
      ensures Valid() && (Snapshot(), r) == M.TfsClose(old(Snapshot()), h)
    {
      var ok := RemoveFromOpenFileTable(h);
      return if ok then 0 else -1;
    }

    /** The handle moves on by aux bytes. */
    method Advance(h: nat, aux: nat)
      requires Valid() && h < M.MAX_OPEN_FILES && openFiles[h].offset + aux <= BLOCK_SIZE
      modifies openFiles
      ensures Valid() && Snapshot() == M.Advance(old(Snapshot()), h, aux)
    {
      var offset := openFiles[h].offset + aux;
      if offset >= BLOCK_SIZE {
        openFiles[h] := openFiles[h].(offset := offset - BLOCK_SIZE, boffset := openFiles[h].boffset + 1);
      } else {
        openFiles[h] := openFiles[h].(offset := offset);
      }
    }

    /** The copy of one round of tfs_write, and the updates after it. */
    method PutBytes(h: nat, at: nat, chunk: seq<byte>)
      requires Valid() && h < M.MAX_OPEN_FILES && M.ValidInumber(openFiles[h].inumber)
      requires at + |chunk| <= M.DATA_SIZE && openFiles[h].offset + |chunk| <= BLOCK_SIZE
      modifies inodeTable, fsData, openFiles
      ensures Valid() && Snapshot() == M.PutBytes(old(Snapshot()), h, at, chunk)
    {
      var f := openFiles[h].inumber;
      Memcpy(fsData, at, chunk);
      Advance(h, |chunk|);
      inodeTable[f] := inodeTable[f].(size := Wrap(inodeTable[f].size + |chunk|));
    }

    /** tfs_write; `calls` counts the calls of inode_update. */
    method TfsWrite(h: int, buffer: seq<byte>) returns (r: M.Outcome, ghost calls: nat)
      requires Valid()
      modifies inodeTable, fsData, freeBlocks, openFiles
      ensures Valid() && (Snapshot(), r) == M.TfsWrite(old(Snapshot()), h, buffer)
      ensures M.ValidHandle(h) && M.ValidInumber(old(openFiles[h].inumber)) ==>
                calls == H.UpdateCalls(old(Snapshot()), h, buffer)
    {
      hide M.InodeUpdate, M.PutBytes;
      calls := 0;
      if !M.ValidHandle(h) || !M.ValidInumber(openFiles[h].inumber) {
        return M.Failed, 0;
      }
      ghost var s0 := Snapshot();
      var rest := buffer;
      while |rest| > 0
        invariant Valid() && M.ValidInumber(openFiles[h].inumber)
        invariant M.WriteLoop(Snapshot(), h, rest, |buffer|) == M.WriteLoop(s0, h, buffer, |buffer|)
        invariant calls + H.UpdateCalls(Snapshot(), h, rest) == H.UpdateCalls(s0, h, buffer)
        decreases |rest|
      {
        var aux := M.WriteStep(|rest|, openFiles[h].offset);
        var p := InodeUpdate(h);
        calls := calls + 1;
        match p
        case Null => return M.Failed, calls;
        case Wild => return M.Fault, calls;
        case Address(at) =>
          PutBytes(h, at, rest[..aux]);
          rest := rest[aux..];
      }
      return M.Done(|buffer|), calls;
    }

    /** The copy of one round of tfs_read: all the remaining bytes, while the handle moves by aux. */
    method CopyBytes(h: nat, buffer: array<byte>, at: nat, from: nat, toRead: nat, aux: nat)
      requires Valid() && h < M.MAX_OPEN_FILES && openFiles[h].offset + aux <= BLOCK_SIZE && buffer != fsData
      requires at + toRead <= buffer.Length && from + toRead <= M.DATA_SIZE
      modifies openFiles, buffer
      ensures Valid() && Snapshot() == M.Advance(old(Snapshot()), h, aux)
      ensures buffer[..] == Splice(old(buffer[..]), at, old(Snapshot()).data[from..from + toRead])
    {
      assert fsData[..][from..from + toRead] == fsData[from..from + toRead];
      Memcpy(buffer, at, fsData[from..from + toRead]);
      Advance(h, aux);
    }

    /** The loop of tfs_read. */
    method ReadRounds(h: nat, buffer: array<byte>, total: nat) returns (r: M.Outcome)
      requires Valid() && h < M.MAX_OPEN_FILES && total <= buffer.Length && buffer != fsData
      modifies inodeTable, fsData, freeBlocks, openFiles, buffer
      ensures Valid() && (Snapshot(), buffer[..], r) == M.ReadLoop(old(Snapshot()), h, old(buffer[..]), 0, total, total)
    {
      hide M.InodeUpdate, M.Advance, Splice;
      ghost var s0 := Snapshot();
      ghost var dst0 := buffer[..];
      var toRead := total;
      var at := 0;
      while toRead > 0
        invariant Valid() && 0 <= toRead && 0 <= at && at + toRead <= buffer.Length
        invariant M.ReadLoop(Snapshot(), h, buffer[..], at, toRead, total) == M.ReadLoop(s0, h, dst0, 0, total, total)
        decreases toRead
      {
        var aux := M.ReadStep(toRead, openFiles[h].offset);
        var p := InodeUpdate(h);
        match p
        case Null => return M.Failed;
        case Wild => return M.Fault;
        case Address(from) =>
          if from + toRead > M.DATA_SIZE {
            return M.Fault;
          }
          CopyBytes(h, buffer, at, from, toRead, aux);
          at := at + aux;
          toRead := toRead - aux;
      }
      return M.Done(total);
    }

    method TfsRead(h: int, buffer: array<byte>, len: nat) returns (r: M.Outcome)
      requires Valid() && len <= buffer.Length && buffer != fsData
      modifies inodeTable, fsData, freeBlocks, openFiles, buffer
      ensures Valid() && (Snapshot(), buffer[..], r) == M.TfsRead(old(Snapshot()), h, old(buffer[..]), len)
    {
      hide M.ReadLoop;
      if !M.ValidHandle(h) || !M.ValidInumber(openFiles[h].inumber) {
        return M.Failed;
      }
      var toRead := Wrap(inodeTable[openFiles[h].inumber].size - openFiles[h].offset);
      if toRead > len {
        toRead := len;
      }
      r := ReadRounds(h, buffer, toRead);
    }

    /** tfs_copy_to_external_fs; `received` is what the destination holds afterwards. */
    method CopyOut(path: cstring, dest: M.External) returns (r: M.Outcome, received: Option<seq<byte>>)
      requires Valid()
      modifies inodeTable, freeInodes, fsData, freeBlocks, openFiles, freeOpenFiles
      ensures Valid() && (Snapshot(), r, received) == M.CopyOut(old(Snapshot()), path, dest)
    {
      hide M.TfsOpen, M.TfsRead, M.TfsClose;
      var h := TfsOpen(path, M.Flags(false, false, false));
      if !M.ValidHandle(h) || !M.ValidInumber(openFiles[h].inumber) {
        return M.Failed, None;
      }
      var size := inodeTable[openFiles[h].inumber].size;
      var buffer := new byte[size](_ => 0);
      assert buffer[..] == seq<byte>(size, _ => 0);
      r := TfsRead(h, buffer, size);
      if r.Fault? {
        return M.Fault, None;
      }
      if r != M.Done(size) || dest.Unopenable? {
        return M.Failed, None;
      }
      var written := M.Received(buffer[..], dest.room);
      if |written| != size {
        return M.Failed, Some(written);
      }
      var c := TfsClose(h);
      return if c == -1 then M.Failed else M.Done(0), Some(written);
    }

    // -------------------------------------------------------------------------
    // Initialisation
    // -------------------------------------------------------------------------

    method StateInit()
      requires Valid()
      modifies freeInodes, freeBlocks, freeOpenFiles
      ensures Valid() && Snapshot() == M.StateInit(old(Snapshot()))
    {
      ClearTable(freeInodes);
      ClearTable(freeBlocks);
      ClearTable(freeOpenFiles);
    }

    method TfsInit() returns (r: int)
      requires Valid()
      modifies inodeTable, freeInodes, fsData, freeBlocks, freeOpenFiles
      ensures Valid() && (Snapshot(), r) == M.TfsInit(old(Snapshot()))
    {
      StateInit();
      var root := InodeCreate(M.T_DIRECTORY);
      return if root != M.ROOT_DIR_INUM then -1 else 0;
    }
  }
}
