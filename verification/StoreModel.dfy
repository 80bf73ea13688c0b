/**
 Part one of the repository as a transition system: the static tables of
 P1/fs/state.c as one value, and what each function of state.c and operations.c
 does to it. The class BlockStore is proved to compute these functions in place.
 */
module StoreModel {
  import opened Memory
  import opened Directory
  import opened Options

  const DATA_BLOCKS: nat := 1024
  const INODE_TABLE_SIZE: nat := 50
  const MAX_OPEN_FILES: nat := 20
  const ROOT_DIR_INUM: nat := 0
  const DIRECT_BLOCK_POINTERS: nat := 10
  const MAX_BLOCK_POINTERS: nat := 256
  const FILE_BLOCKS: nat := 266  // DIRECT_BLOCK_POINTERS + MAX_BLOCK_POINTERS
  const DATA_SIZE: nat := 0x10_0000  // BLOCK_SIZE * DATA_BLOCKS

  datatype NodeType = T_FILE | T_DIRECTORY
  datatype Allocation = FREE | TAKEN

  datatype Inode = Inode(kind: NodeType, size: nat, dataBlock: int, direct: seq<int>)

  /** A handle's position is split: block `boffset`, byte `offset` in that block. */
  datatype OpenFile = OpenFile(inumber: int, offset: nat, boffset: int)

  datatype State = State(
    inodes: seq<Inode>, inodeTs: seq<Allocation>,
    data: seq<byte>, blocks: seq<Allocation>,
    files: seq<OpenFile>, fileTs: seq<Allocation>)

  datatype Flags = Flags(creat: bool, trunc: bool, append: bool)

  /** The address inode_update returns: a byte of fs_data, NULL, or one outside fs_data. */
  datatype Position = Null | Address(at: nat) | Wild

  /** How a call ends: with a value, with -1, or with an access outside the program's arrays. */
  datatype Outcome = Done(n: nat) | Failed | Fault

  predicate ValidInumber(i: int) { 0 <= i < INODE_TABLE_SIZE }
  predicate ValidBlock(b: int) { 0 <= b < DATA_BLOCKS }
  predicate ValidHandle(h: int) { 0 <= h < MAX_OPEN_FILES }

  /** Table sizes, and the split of every handle's position (true of the zeroed tables too). */
  predicate WellFormed(s: State) {
    && |s.inodes| == |s.inodeTs| == INODE_TABLE_SIZE
    && |s.data| == DATA_SIZE && |s.blocks| == DATA_BLOCKS
    && |s.files| == |s.fileTs| == MAX_OPEN_FILES
    && (forall i :: 0 <= i < INODE_TABLE_SIZE ==>
          |s.inodes[i].direct| == DIRECT_BLOCK_POINTERS && s.inodes[i].size < SIZE_MOD)
    && (forall h :: 0 <= h < MAX_OPEN_FILES ==> s.files[h].offset < BLOCK_SIZE)
  }

  /** The open file table and the set of live inodes are the same. */
  predicate SameTables(s: State, s': State) {
    s'.files == s.files && s'.fileTs == s.fileTs && s'.inodeTs == s.inodeTs
  }

  // ---------------------------------------------------------------------------
  // state.c: data blocks
  // ---------------------------------------------------------------------------

  /** The first FREE slot of an allocation table from i on, -1 if there is none. */
  function FirstFree(t: seq<Allocation>, i: nat): (r: int)
    requires i <= |t|
    ensures r == -1 || i <= r < |t|
    ensures r != -1 ==> t[r] == FREE && forall j :: i <= j < r ==> t[j] == TAKEN
    ensures r == -1 ==> forall j :: i <= j < |t| ==> t[j] == TAKEN
    decreases |t| - i
  {
    if i == |t| then -1
    else if t[i] == FREE then i
    else assert t[i] == TAKEN; FirstFree(t, i + 1)
  }

  function DataBlockAlloc(s: State): (r: (State, int))
    requires WellFormed(s)
    ensures WellFormed(r.0)
    ensures SameTables(s, r.0)
  {
    var b := FirstFree(s.blocks, 0);
    if b == -1 then (s, -1) else (s.(blocks := s.blocks[b := TAKEN]), b)
  }

  /** 1024 bytes 0xff: 256 pointers equal to EMPTY. */
  function EmptyPointers(): (r: seq<byte>)
    ensures |r| == BLOCK_SIZE
  {
    seq(BLOCK_SIZE, _ => 255)
  }

  function PointerBlockAlloc(s: State): (r: (State, int))
    requires WellFormed(s)
    ensures WellFormed(r.0)
    ensures SameTables(s, r.0)
  {
    var (s1, b) := DataBlockAlloc(s);
    if b == -1 then (s1, -1)
    else (s1.(data := Splice(s1.data, b * BLOCK_SIZE, EmptyPointers())), b)
  }

  function DataBlockFree(s: State, b: int): (r: (State, bool))
    requires WellFormed(s)
    ensures WellFormed(r.0)
  {
    if !ValidBlock(b) then (s, false) else (s.(blocks := s.blocks[b := FREE]), true)
  }

  // ---------------------------------------------------------------------------
  // state.c: inodes
  // ---------------------------------------------------------------------------

  function SetInode(s: State, f: nat, ino: Inode): (r: State)
    requires WellFormed(s) && f < INODE_TABLE_SIZE
    requires |ino.direct| == DIRECT_BLOCK_POINTERS && ino.size < SIZE_MOD
    ensures WellFormed(r)
    ensures SameTables(s, r)
  {
    s.(inodes := s.inodes[f := ino])
  }

  function SetDirect(s: State, f: nat, i: nat, b: int): (r: State)
    requires WellFormed(s) && f < INODE_TABLE_SIZE && i < DIRECT_BLOCK_POINTERS
    ensures WellFormed(r)
    ensures SameTables(s, r)
  {
    SetInode(s, f, s.inodes[f].(direct := s.inodes[f].direct[i := b]))
  }

  function SetDataBlock(s: State, f: nat, b: int): (r: State)
    requires WellFormed(s) && f < INODE_TABLE_SIZE
    ensures WellFormed(r)
    ensures SameTables(s, r)
  {
    SetInode(s, f, s.inodes[f].(dataBlock := b))
  }

  /** The address of pointer j of an index block. */
  function PointerAt(blk: nat, j: nat): nat {
    blk * BLOCK_SIZE + 4 * j
  }

  function SetPointer(s: State, blk: nat, j: nat, b: int): (r: State)
    requires WellFormed(s) && blk < DATA_BLOCKS && j < MAX_BLOCK_POINTERS && IsInt(b)
    ensures WellFormed(r)
    ensures SameTables(s, r)
  {
    s.(data := WriteInt(s.data, PointerAt(blk, j), b))
  }

  function NoPointers(): (r: seq<int>)
    ensures |r| == DIRECT_BLOCK_POINTERS
    ensures forall i :: 0 <= i < |r| ==> r[i] == -1
  {
    seq(DIRECT_BLOCK_POINTERS, _ => -1)
  }

  function InodeCreate(s: State, kind: NodeType): (r: (State, int))
    requires WellFormed(s)
    ensures WellFormed(r.0)
  {
    var f := FirstFree(s.inodeTs, 0);
    if f == -1 then (s, -1)
    else
      var s1 := SetInode(s.(inodeTs := s.inodeTs[f := TAKEN]), f, s.inodes[f].(kind := kind));
      if kind == T_FILE then
        (SetInode(s1, f, Inode(T_FILE, 0, -1, NoPointers())), f)
      else
        var (s2, b) := DataBlockAlloc(s1);
        if b == -1 then (s2.(inodeTs := s2.inodeTs[f := FREE]), -1)
        else
          var s3 := SetInode(s2, f, Inode(T_DIRECTORY, BLOCK_SIZE, b, NoPointers()));
          (s3.(data := ClearEntries(s3.data, b * BLOCK_SIZE, 0)), f)
  }

  /** The loop over the direct pointers in inode_data_free. */
  function FreeDirect(s: State, f: nat, i: nat): (r: (State, bool))
    requires WellFormed(s) && f < INODE_TABLE_SIZE && i <= DIRECT_BLOCK_POINTERS
    ensures WellFormed(r.0)
    decreases DIRECT_BLOCK_POINTERS - i
  {
    if i == DIRECT_BLOCK_POINTERS then (s, true)
    else if s.inodes[f].direct[i] == -1 then FreeDirect(s, f, i + 1)
    else
      var (s1, ok) := DataBlockFree(s, s.inodes[f].direct[i]);
      if ok then FreeDirect(s1, f, i + 1) else (s1, false)
  }

  /** The loop over the pointers of the index block in inode_data_free. */
  function FreePointers(s: State, blk: nat, j: nat): (r: (State, bool))
    requires WellFormed(s) && blk < DATA_BLOCKS && j <= MAX_BLOCK_POINTERS
    ensures WellFormed(r.0)
    decreases MAX_BLOCK_POINTERS - j
  {
    if j == MAX_BLOCK_POINTERS then (s, true)
    else
      var b := ReadInt(s.data, PointerAt(blk, j));
      if b == -1 then FreePointers(s, blk, j + 1)
      else
        var (s1, ok) := DataBlockFree(s, b);
        if ok then FreePointers(s1, blk, j + 1) else (s1, false)
  }

  function InodeDataFree(s: State, f: nat): (r: (State, bool))
    requires WellFormed(s) && f < INODE_TABLE_SIZE
    ensures WellFormed(r.0)
  {
    if s.inodes[f].size == 0 then (s, true)
    else
      var (s1, ok) := FreeDirect(s, f, 0);
      var blk := s.inodes[f].dataBlock;
      if !ok then (s1, false)
      else if blk == -1 then (s1, true)
      else if !ValidBlock(blk) then (s1, false)
      else
        var (s2, ok2) := FreePointers(s1, blk, 0);
        if !ok2 then (s2, false) else DataBlockFree(s2, blk)
  }

  function InodeMetadataReset(s: State, f: nat): (r: State)
    requires WellFormed(s) && f < INODE_TABLE_SIZE
    ensures WellFormed(r)
  {
    SetInode(s, f, Inode(s.inodes[f].kind, 0, -1, NoPointers()))
  }

  function InodeDelete(s: State, f: int): (r: (State, bool))
    requires WellFormed(s)
    ensures WellFormed(r.0)
  {
    if !ValidInumber(f) || s.inodeTs[f] == FREE then (s, false)
    else InodeDataFree(s.(inodeTs := s.inodeTs[f := FREE]), f)
  }

  /** The loop of inode_update that fills missing direct pointers. */
  function FillDirect(s: State, f: nat, i: nat, last: int): (r: State)
    requires WellFormed(s) && f < INODE_TABLE_SIZE
    ensures WellFormed(r)
    ensures SameTables(s, r)
    decreases DIRECT_BLOCK_POINTERS - i
  {
    if i > last || i >= DIRECT_BLOCK_POINTERS then s
    else if s.inodes[f].direct[i] == -1 then
      var (s1, b) := DataBlockAlloc(s);
      FillDirect(SetDirect(s1, f, i, b), f, i + 1, last)
    else FillDirect(s, f, i + 1, last)
  }

  /** The loop of inode_update that fills missing pointers of the index block. */
  function FillPointers(s: State, blk: nat, j: nat, last: int): (r: State)
    requires WellFormed(s) && blk < DATA_BLOCKS
    ensures WellFormed(r)
    ensures SameTables(s, r)
    decreases MAX_BLOCK_POINTERS - j
  {
    if j > last || j >= MAX_BLOCK_POINTERS then s
    else if ReadInt(s.data, PointerAt(blk, j)) == -1 then
      var (s1, b) := DataBlockAlloc(s);
      FillPointers(SetPointer(s1, blk, j, b), blk, j + 1, last)
    else FillPointers(s, blk, j + 1, last)
  }

  /** The `if (inode->i_data_block == -1)` step of inode_update. */
  function EnsureIndexBlock(s: State, f: nat): (r: State)
    requires WellFormed(s) && f < INODE_TABLE_SIZE
    ensures WellFormed(r)
    ensures SameTables(s, r)
  {
    if s.inodes[f].dataBlock != -1 then s
    else
      var (s1, b) := PointerBlockAlloc(s);
      SetDataBlock(s1, f, b)
  }

  /** `(char *)data_block_get(b) + offset`. */
  function Locate(b: int, offset: nat): Position {
    if ValidBlock(b) then Address(b * BLOCK_SIZE + offset)
    else if offset == 0 then Null
    else Wild
  }

  /**
   inode_update. A NULL index block is dereferenced, and pointers past the 256th
   or before the first direct one are read from whatever lies there: outside
   fs_data this is Wild, inside fs_data it is the bytes that follow.
   */
  function InodeUpdate(s: State, h: nat): (r: (State, Position))
    requires WellFormed(s) && h < MAX_OPEN_FILES
    ensures WellFormed(r.0)
    ensures SameTables(s, r.0)
    ensures r.1.Address? ==> r.1.at + (BLOCK_SIZE - s.files[h].offset) <= DATA_SIZE
  {
    var file := s.files[h];
    var f := file.inumber;
    if !ValidInumber(f) then (s, Null)
    else
      var s1 := FillDirect(s, f, 0, file.boffset);
      if file.boffset >= DIRECT_BLOCK_POINTERS then
        var s2 := EnsureIndexBlock(s1, f);
        var blk := s2.inodes[f].dataBlock;
        var j := file.boffset - DIRECT_BLOCK_POINTERS;
        if !ValidBlock(blk) then (s2, Wild)
        else
          var s3 := FillPointers(s2, blk, 0, j);
          if PointerAt(blk, j) + 4 > DATA_SIZE then (s3, Wild)
          else (s3, Locate(ReadInt(s3.data, PointerAt(blk, j)), file.offset))
      else if file.boffset < 0 then (s1, Wild)
      else (s1, Locate(s1.inodes[f].direct[file.boffset], file.offset))
  }

  // ---------------------------------------------------------------------------
  // state.c: directory and open file table
  // ---------------------------------------------------------------------------

  function FindInDir(s: State, d: int, name: cstring): int
    requires WellFormed(s)
  {
    if !ValidInumber(d) || s.inodes[d].kind != T_DIRECTORY then -1
    else if !ValidBlock(s.inodes[d].dataBlock) then -1
    else FindFrom(s.data, s.inodes[d].dataBlock * BLOCK_SIZE, name, 0)
  }

  function AddDirEntry(s: State, d: int, f: int, name: cstring): (r: (State, bool))
    requires WellFormed(s)
    ensures WellFormed(r.0)
  {
    if !ValidInumber(d) || !ValidInumber(f) then (s, false)
    else if s.inodes[d].kind != T_DIRECTORY || name == [] || !ValidBlock(s.inodes[d].dataBlock) then (s, false)
    else
      var base := s.inodes[d].dataBlock * BLOCK_SIZE;
      var i := EmptyEntry(s.data, base, 0);
      if i == MAX_DIR_ENTRIES then (s, false)
      else (s.(data := FillEntry(s.data, base, i, f, name)), true)
  }

  function AddToOpenFileTable(s: State, f: int, offset: nat): (r: (State, int))
    requires WellFormed(s)
    ensures WellFormed(r.0)
  {
    var h := FirstFree(s.fileTs, 0);
    if h == -1 then (s, -1)
    else
      var file := OpenFile(f, offset % BLOCK_SIZE, TruncDiv(CastToInt(offset), BLOCK_SIZE));
      (s.(fileTs := s.fileTs[h := TAKEN], files := s.files[h := file]), h)
  }

  function RemoveFromOpenFileTable(s: State, h: int): (r: (State, bool))
    requires WellFormed(s)
    ensures WellFormed(r.0)
  {
    if !ValidHandle(h) || s.fileTs[h] != TAKEN then (s, false)
    else (s.(fileTs := s.fileTs[h := FREE]), true)
  }

  // ---------------------------------------------------------------------------
  // operations.c
  // ---------------------------------------------------------------------------

  predicate ValidPathname(path: cstring) {
    |path| > 1 && path[0] == 47  // '/'
  }

  lemma TailIsCString(path: cstring)
    requires |path| > 0
    ensures 0 !in path[1..]
  {
  }

  /** The path without its first character. */
  function NameOf(path: cstring): (name: cstring)
    requires |path| > 0
    ensures name == path[1..]
  {
    TailIsCString(path);
    path[1..]
  }

  function TfsLookup(s: State, path: cstring): int
    requires WellFormed(s)
  {
    if !ValidPathname(path) then -1 else FindInDir(s, ROOT_DIR_INUM, NameOf(path))
  }

  /** tfs_open on a path that is bound to inode f, up to the initial offset (None: -1). */
  function OpenExisting(s: State, f: nat, flags: Flags): (r: (State, bool))
    requires WellFormed(s) && f < INODE_TABLE_SIZE
    ensures WellFormed(r.0)
  {
    if !flags.trunc then (s, true)
    else
      var (s1, ok) := InodeDataFree(s, f);
      if ok then (InodeMetadataReset(s1, f), true) else (s1, false)
  }

  /** tfs_open on an unbound path: a new inode and its directory entry. */
  function OpenNew(s: State, path: cstring): (r: (State, int))
    requires WellFormed(s) && ValidPathname(path)
    ensures WellFormed(r.0)
  {
    var (s1, f) := InodeCreate(s, T_FILE);
    if f == -1 then (s1, -1)
    else
      var (s2, ok) := AddDirEntry(s1, ROOT_DIR_INUM, f, NameOf(path));
      if ok then (s2, f) else (InodeDelete(s2, f).0, -1)
  }

  function TfsOpen(s: State, path: cstring, flags: Flags): (r: (State, int))
    requires WellFormed(s)
    ensures WellFormed(r.0)
  {
    if !ValidPathname(path) then (s, -1)
    else
      var f := TfsLookup(s, path);
      if f >= 0 then
        if !ValidInumber(f) then (s, -1)
        else
          var (s1, ok) := OpenExisting(s, f, flags);
          if !ok then (s1, -1)
          else AddToOpenFileTable(s1, f, if flags.append then s1.inodes[f].size else 0)
      else if flags.creat then
        var (s1, g) := OpenNew(s, path);
        if g == -1 then (s1, -1) else AddToOpenFileTable(s1, g, 0)
      else (s, -1)
  }

  function TfsClose(s: State, h: int): (r: (State, int))
    requires WellFormed(s)
    ensures WellFormed(r.0)
  {
    var (s1, ok) := RemoveFromOpenFileTable(s, h);
    (s1, if ok then 0 else -1)
  }

  /** How many bytes the next step of tfs_write moves. */
  function WriteStep(toWrite: nat, offset: nat): (aux: nat)
    requires offset < BLOCK_SIZE
    ensures aux <= toWrite && aux <= BLOCK_SIZE - offset
    ensures toWrite > 0 ==> aux > 0
    ensures aux == toWrite || aux == BLOCK_SIZE - offset
  {
    if toWrite + offset > BLOCK_SIZE then BLOCK_SIZE - offset else toWrite
  }

  /** The handle moves on by aux bytes. */
  function Advance(s: State, h: nat, aux: nat): (r: State)
    requires WellFormed(s) && h < MAX_OPEN_FILES
    requires s.files[h].offset + aux <= BLOCK_SIZE
    ensures WellFormed(r)
  {
    var file := s.files[h];
    var moved := if file.offset + aux >= BLOCK_SIZE
                 then file.(offset := file.offset + aux - BLOCK_SIZE, boffset := file.boffset + 1)
                 else file.(offset := file.offset + aux);
    s.(files := s.files[h := moved])
  }

  /** `inode->i_size += aux`: also when the bytes replace old ones. */
  function Grow(s: State, f: nat, aux: nat): (r: State)
    requires WellFormed(s) && f < INODE_TABLE_SIZE
    ensures WellFormed(r)
  {
    SetInode(s, f, s.inodes[f].(size := Wrap(s.inodes[f].size + aux)))
  }

  /** One step of tfs_write after the address is known. */
  function PutBytes(s: State, h: nat, at: nat, chunk: seq<byte>): (r: State)
    requires WellFormed(s) && h < MAX_OPEN_FILES && ValidInumber(s.files[h].inumber)
    requires at + |chunk| <= DATA_SIZE && s.files[h].offset + |chunk| <= BLOCK_SIZE
    ensures WellFormed(r)
    ensures r.files[h].inumber == s.files[h].inumber
  {
    var s1 := s.(data := Splice(s.data, at, chunk));
    Grow(Advance(s1, h, |chunk|), s.files[h].inumber, |chunk|)
  }

  /** The loop of tfs_write. */
  function WriteLoop(s: State, h: nat, buf: seq<byte>, total: nat): (r: (State, Outcome))
    requires WellFormed(s) && h < MAX_OPEN_FILES && ValidInumber(s.files[h].inumber)
    ensures WellFormed(r.0)
    decreases |buf|
  {
    if |buf| == 0 then (s, Done(total))
    else
      var aux := WriteStep(|buf|, s.files[h].offset);
      var (s1, p) := InodeUpdate(s, h);
      match p
      case Null => (s1, Failed)
      case Wild => (s1, Fault)
      case Address(at) => WriteLoop(PutBytes(s1, h, at, buf[..aux]), h, buf[aux..], total)
  }

  function TfsWrite(s: State, h: int, buf: seq<byte>): (r: (State, Outcome))
    requires WellFormed(s)
    ensures WellFormed(r.0)
  {
    if !ValidHandle(h) then (s, Failed)
    else if !ValidInumber(s.files[h].inumber) then (s, Failed)
    else WriteLoop(s, h, buf, |buf|)
  }

  /** How many bytes tfs_read sets out to read. The block part of the position is not used. */
  function ReadLength(s: State, h: nat, len: nat): (n: nat)
    requires WellFormed(s) && h < MAX_OPEN_FILES && ValidInumber(s.files[h].inumber)
    ensures n <= len
  {
    var n := Wrap(s.inodes[s.files[h].inumber].size - s.files[h].offset);
    if n > len then len else n
  }

  /** How far the next step of tfs_read moves the handle. */
  function ReadStep(toRead: nat, offset: nat): (aux: nat)
    requires offset < BLOCK_SIZE
    ensures aux <= toRead && aux <= BLOCK_SIZE - offset
    ensures toRead > 0 ==> aux > 0
    ensures aux == toRead || aux == BLOCK_SIZE - offset
  {
    if offset + toRead >= BLOCK_SIZE then BLOCK_SIZE - offset else toRead
  }

  /**
   The loop of tfs_read; `dst` is the caller's buffer and `at` the part of it
   already passed. Every step copies all of the `toRead` remaining bytes.
   */
  function ReadLoop(s: State, h: nat, dst: seq<byte>, at: nat, toRead: nat, total: nat)
    : (r: (State, seq<byte>, Outcome))
    requires WellFormed(s) && h < MAX_OPEN_FILES
    requires at + toRead <= |dst|
    ensures WellFormed(r.0) && |r.1| == |dst|
    decreases toRead
  {
    if toRead == 0 then (s, dst, Done(total))
    else
      var aux := ReadStep(toRead, s.files[h].offset);
      var (s1, p) := InodeUpdate(s, h);
      match p
      case Null => (s1, dst, Failed)
      case Wild => (s1, dst, Fault)
      case Address(from) =>
        if from + toRead > DATA_SIZE then (s1, dst, Fault)
        else
          ReadLoop(Advance(s1, h, aux), h,
                   Splice(dst, at, s1.data[from..from + toRead]), at + aux, toRead - aux, total)
  }

  function TfsRead(s: State, h: int, dst: seq<byte>, len: nat): (r: (State, seq<byte>, Outcome))
    requires WellFormed(s) && len <= |dst|
    ensures WellFormed(r.0) && |r.1| == |dst|
  {
    if !ValidHandle(h) then (s, dst, Failed)
    else if !ValidInumber(s.files[h].inumber) then (s, dst, Failed)
    else
      var n := ReadLength(s, h, len);
      ReadLoop(s, h, dst, 0, n, n)
  }

  /** The destination of a copy: fopen fails, or fwrite gets at most `room` bytes into it. */
  datatype External = Unopenable | Writable(room: nat)

  /** What fwrite puts into an opened destination. */
  function Received(bytes: seq<byte>, room: nat): seq<byte> {
    if |bytes| <= room then bytes else bytes[..room]
  }

  /**
   tfs_copy_to_external_fs: open, read i_size bytes, write them out, close; and
   what is in the destination afterwards, if it was opened. When the read or the
   destination falls short, the handle stays open.
   */
  function CopyOut(s: State, path: cstring, dest: External): (r: (State, Outcome, Option<seq<byte>>))
    requires WellFormed(s)
    ensures WellFormed(r.0)
  {
    var (s1, h) := TfsOpen(s, path, Flags(false, false, false));
    if !ValidHandle(h) || !ValidInumber(s1.files[h].inumber) then (s1, Failed, None)
    else
      var size := s1.inodes[s1.files[h].inumber].size;
      var (s2, bytes, r) := TfsRead(s1, h, seq<byte>(size, _ => 0), size);
      if r.Fault? then (s2, Fault, None)
      else if r != Done(size) || dest.Unopenable? then (s2, Failed, None)
      else
        var written := Received(bytes, dest.room);
        if |written| != size then (s2, Failed, Some(written))
        else
          var (s3, c) := TfsClose(s2, h);
          (s3, if c == -1 then Failed else Done(0), Some(written))
  }

  // ---------------------------------------------------------------------------
  // Initialisation
  // ---------------------------------------------------------------------------

  /** state_init: the allocation tables are cleared, everything else keeps its bytes. */
  function StateInit(s: State): (r: State)
    requires WellFormed(s)
    ensures WellFormed(r)
  {
    s.(inodeTs := seq(INODE_TABLE_SIZE, _ => FREE),
       blocks := seq(DATA_BLOCKS, _ => FREE),
       fileTs := seq(MAX_OPEN_FILES, _ => FREE))
  }

  function TfsInit(s: State): (r: (State, int))
    requires WellFormed(s)
    ensures WellFormed(r.0)
  {
    var (s1, root) := InodeCreate(StateInit(s), T_DIRECTORY);
    (s1, if root != ROOT_DIR_INUM then -1 else 0)
  }
}
