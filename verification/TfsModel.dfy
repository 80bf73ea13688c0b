/**
 Part two of the repository as a transition system: files of at most one block,
 every operation a critical section under one global lock. The functions are the
 bodies of P2/fs/state.c and P2/fs/operations.c; the class Tfs computes them in
 place.
 */
module TfsModel {
  import opened Memory
  import opened Directory
  import opened M = StoreModel

  datatype TInode = TInode(kind: NodeType, size: nat, dataBlock: int)
  datatype TFile = TFile(inumber: int, offset: nat)

  datatype Tables = Tables(
    inodes: seq<TInode>, inodeTs: seq<Allocation>,
    data: seq<byte>, blocks: seq<Allocation>,
    files: seq<TFile>, fileTs: seq<Allocation>, openCount: int)

  /** Table sizes; size_t fields stay below 2^64. */
  predicate Shaped(s: Tables) {
    && |s.inodes| == |s.inodeTs| == INODE_TABLE_SIZE
    && |s.data| == DATA_SIZE && |s.blocks| == DATA_BLOCKS
    && |s.files| == |s.fileTs| == MAX_OPEN_FILES
    && (forall i :: 0 <= i < INODE_TABLE_SIZE ==> s.inodes[i].size < SIZE_MOD)
    && (forall h :: 0 <= h < MAX_OPEN_FILES ==> s.files[h].offset < SIZE_MOD)
  }

  // ---------------------------------------------------------------------------
  // state.c
  // ---------------------------------------------------------------------------

  function BlockAlloc(s: Tables): (r: (Tables, int))
    requires Shaped(s)
    ensures Shaped(r.0)
  {
    var b := FirstFree(s.blocks, 0);
    if b == -1 then (s, -1) else (s.(blocks := s.blocks[b := TAKEN]), b)
  }

  function BlockFree(s: Tables, b: int): (r: (Tables, bool))
    requires Shaped(s)
    ensures Shaped(r.0)
  {
    if !ValidBlock(b) then (s, false) else (s.(blocks := s.blocks[b := FREE]), true)
  }

  function PutInode(s: Tables, f: nat, ino: TInode): (r: Tables)
    requires Shaped(s) && f < INODE_TABLE_SIZE && ino.size < SIZE_MOD
    ensures Shaped(r)
  {
    s.(inodes := s.inodes[f := ino])
  }

  function Create(s: Tables, kind: NodeType): (r: (Tables, int))
    requires Shaped(s)
    ensures Shaped(r.0)
  {
    var f := FirstFree(s.inodeTs, 0);
    if f == -1 then (s, -1)
    else
      var s1 := PutInode(s.(inodeTs := s.inodeTs[f := TAKEN]), f, s.inodes[f].(kind := kind));
      if kind == T_FILE then (PutInode(s1, f, TInode(T_FILE, 0, -1)), f)
      else
        var (s2, b) := BlockAlloc(s1);
        if b == -1 then (s2.(inodeTs := s2.inodeTs[f := FREE]), -1)
        else
          var s3 := PutInode(s2, f, TInode(T_DIRECTORY, BLOCK_SIZE, b));
          (s3.(data := ClearEntries(s3.data, b * BLOCK_SIZE, 0)), f)
  }

  function Delete(s: Tables, f: int): (r: (Tables, bool))
    requires Shaped(s)
    ensures Shaped(r.0)
  {
    if !ValidInumber(f) || s.inodeTs[f] == FREE then (s, false)
    else
      var s1 := s.(inodeTs := s.inodeTs[f := FREE]);
      if s.inodes[f].size > 0 then BlockFree(s1, s.inodes[f].dataBlock) else (s1, true)
  }

  function Find(s: Tables, d: int, name: cstring): int
    requires Shaped(s)
  {
    if !ValidInumber(d) || s.inodes[d].kind != T_DIRECTORY || !ValidBlock(s.inodes[d].dataBlock) then -1
    else FindFrom(s.data, s.inodes[d].dataBlock * BLOCK_SIZE, name, 0)
  }

  function AddEntry(s: Tables, d: int, f: int, name: cstring): (r: (Tables, bool))
    requires Shaped(s)
    ensures Shaped(r.0)
  {
    if !ValidInumber(d) || !ValidInumber(f) then (s, false)
    else if s.inodes[d].kind != T_DIRECTORY || name == [] || !ValidBlock(s.inodes[d].dataBlock) then (s, false)
    else
      var base := s.inodes[d].dataBlock * BLOCK_SIZE;
      var i := EmptyEntry(s.data, base, 0);
      if i == MAX_DIR_ENTRIES then (s, false) else (s.(data := FillEntry(s.data, base, i, f, name)), true)
  }

  function AddHandle(s: Tables, f: int, offset: nat): (r: (Tables, int))
    requires Shaped(s) && offset < SIZE_MOD
    ensures Shaped(r.0)
  {
    var h := FirstFree(s.fileTs, 0);
    if h == -1 then (s, -1)
    else (s.(fileTs := s.fileTs[h := TAKEN], files := s.files[h := TFile(f, offset)], openCount := s.openCount + 1), h)
  }

  function RemoveHandle(s: Tables, h: int): (r: (Tables, bool))
    requires Shaped(s)
    ensures Shaped(r.0)
  {
    if !ValidHandle(h) || s.fileTs[h] != TAKEN then (s, false)
    else (s.(fileTs := s.fileTs[h := FREE], openCount := s.openCount - 1), true)
  }

  // ---------------------------------------------------------------------------
  // operations.c, inside the lock
  // ---------------------------------------------------------------------------

  function Lookup(s: Tables, path: cstring): int
    requires Shaped(s)
  {
    if !ValidPathname(path) then -1 else Find(s, ROOT_DIR_INUM, NameOf(path))
  }

  /** The truncation of _tfs_open_unsynchronized. i_data_block keeps its value. */
  function Truncate(s: Tables, f: nat): (r: (Tables, bool))
    requires Shaped(s) && f < INODE_TABLE_SIZE
    ensures Shaped(r.0)
  {
    if s.inodes[f].size == 0 then (s, true)
    else
      var (s1, ok) := BlockFree(s, s.inodes[f].dataBlock);
      if ok then (PutInode(s1, f, s1.inodes[f].(size := 0)), true) else (s1, false)
  }

  /** The creation of _tfs_open_unsynchronized; the path is not checked again. */
  function CreateNamed(s: Tables, path: cstring): (r: (Tables, int))
    requires Shaped(s) && |path| > 0
    ensures Shaped(r.0)
  {
    var (s1, f) := Create(s, T_FILE);
    if f == -1 then (s1, -1)
    else
      var (s2, ok) := AddEntry(s1, ROOT_DIR_INUM, f, NameOf(path));
      if ok then (s2, f) else (Delete(s2, f).0, -1)
  }

  /** A handle number or -1 as the outcome of open. */
  function HandleOutcome(h: int): Outcome {
    if h >= 0 then Done(h) else Failed
  }

  /**
   _tfs_open_unsynchronized. The creation branch reads name + 1 also for paths
   that failed the check: for the empty path this is past the terminator.
   */
  function Open(s: Tables, path: cstring, flags: Flags): (r: (Tables, Outcome))
    requires Shaped(s)
    ensures Shaped(r.0)
  {
    var f := Lookup(s, path);
    if f >= 0 then
      if !ValidInumber(f) then (s, Failed)
      else
        var (s1, ok) := if flags.trunc then Truncate(s, f) else (s, true);
        if !ok then (s1, Failed)
        else
          var (s2, h) := AddHandle(s1, f, if flags.append then s1.inodes[f].size else 0);
          (s2, HandleOutcome(h))
    else if flags.creat then
      if path == [] then (s, Fault)
      else
        var (s1, g) := CreateNamed(s, path);
        if g == -1 then (s1, Failed)
        else
          var (s2, h) := AddHandle(s1, g, 0);
          (s2, HandleOutcome(h))
    else (s, Failed)
  }

  function Close(s: Tables, h: int): (r: (Tables, Outcome))
    requires Shaped(s)
    ensures Shaped(r.0)
  {
    var (s1, ok) := RemoveHandle(s, h);
    (s1, if ok then Done(0) else Failed)
  }

  /** How many bytes the write moves: `size_t` arithmetic throughout. */
  function WriteLength(n: nat, offset: nat): (r: nat)
    ensures n + offset < SIZE_MOD && offset <= BLOCK_SIZE ==>
              r == if n <= BLOCK_SIZE - offset then n else BLOCK_SIZE - offset
  {
    if Wrap(n + offset) > BLOCK_SIZE then Wrap(BLOCK_SIZE - offset) else n
  }

  /** The block of a write: a new one when the file is empty. */
  function EnsureBlock(s: Tables, f: nat): (r: Tables)
    requires Shaped(s) && f < INODE_TABLE_SIZE
    ensures Shaped(r)
  {
    if s.inodes[f].size == 0 then
      var (s1, b) := BlockAlloc(s);
      PutInode(s1, f, s1.inodes[f].(dataBlock := b))
    else s
  }

  function Write(s: Tables, h: int, buf: seq<byte>): (r: (Tables, Outcome))
    requires Shaped(s)
    ensures Shaped(r.0)
  {
    if !ValidHandle(h) || !ValidInumber(s.files[h].inumber) then (s, Failed)
    else
      var f := s.files[h].inumber;
      var offset := s.files[h].offset;
      var n := WriteLength(|buf|, offset);
      if n == 0 then (s, Done(0))
      else
        var s1 := EnsureBlock(s, f);
        var b := s1.inodes[f].dataBlock;
        if !ValidBlock(b) then (s1, Failed)
        else if n > |buf| || b * BLOCK_SIZE + offset + n > DATA_SIZE then (s1, Fault)
        else
          var moved := Wrap(offset + n);
          var s2 := s1.(data := Splice(s1.data, b * BLOCK_SIZE + offset, buf[..n]),
                        files := s1.files[h := TFile(f, moved)]);
          (if moved > s2.inodes[f].size then PutInode(s2, f, s2.inodes[f].(size := moved)) else s2, Done(n))
  }

  /** How many bytes the read moves. When the offset is past i_size the subtraction wraps. */
  function ReadLength(size: nat, offset: nat, len: nat): (r: nat)
    ensures r <= len
  {
    var n := Wrap(size - offset);
    if n > len then len else n
  }

  function Read(s: Tables, h: int, dst: seq<byte>, len: nat): (r: (Tables, seq<byte>, Outcome))
    requires Shaped(s) && len <= |dst|
    ensures Shaped(r.0) && |r.1| == |dst|
  {
    if !ValidHandle(h) || !ValidInumber(s.files[h].inumber) then (s, dst, Failed)
    else
      var f := s.files[h].inumber;
      var offset := s.files[h].offset;
      var n := ReadLength(s.inodes[f].size, offset, len);
      var b := s.inodes[f].dataBlock;
      if n == 0 then (s, dst, Done(0))
      else if !ValidBlock(b) then (s, dst, Failed)
      else if b * BLOCK_SIZE + offset + n > DATA_SIZE then (s, dst, Fault)
      else
        var from := b * BLOCK_SIZE + offset;
        (s.(files := s.files[h := TFile(f, Wrap(offset + n))]), Splice(dst, 0, s.data[from..from + n]), Done(n))
  }

  function Init(s: Tables): (r: (Tables, int))
    requires Shaped(s)
    ensures Shaped(r.0)
  {
    var s0 := s.(inodeTs := seq(INODE_TABLE_SIZE, _ => FREE), blocks := seq(DATA_BLOCKS, _ => FREE),
                 fileTs := seq(MAX_OPEN_FILES, _ => FREE), openCount := 0);
    var (s1, root) := Create(s0, T_DIRECTORY);
    (s1, if root != ROOT_DIR_INUM then -1 else 0)
  }
}
