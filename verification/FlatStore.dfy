/**
 What part one amounts to without blocks and pointers: numbered files with a
 size and the bytes written to them, names in the order they were bound, handles
 with one position, and a count of free blocks and of the most ever in use.
 */
module FlatStore {
  import opened Memory
  import opened Directory
  import opened StoreModel
  import opened Numbering
  import opened StoreWrite

  /** A file: i_size, the number of mapped data blocks, and every byte written since it was last emptied. */
  datatype File = File(size: nat, blocks: nat, bytes: map<nat, byte>)
  datatype Handle = Handle(file: int, pos: nat)
  datatype Flat = Flat(names: seq<Binding>, files: map<int, File>, handles: map<int, Handle>, free: int, peak: int)

  const EMPTY_FILE: File := File(0, 0, map[])

  /** The blocks a file of k data blocks takes, its index block included. */
  function Need(k: nat): nat {
    k + (if k > DIRECT_BLOCK_POINTERS then 1 else 0)
  }

  function AddHandle(a: Flat, f: int, pos: nat): (Flat, Outcome) {
    var h := LowestFree(a.handles, 0, MAX_OPEN_FILES);
    if h < 0 then (a, Failed) else (a.(handles := a.handles[h := Handle(f, pos)]), Done(h))
  }

  /** A file that cannot get a handle stays emptied, or created. */
  ghost function Open(a: Flat, path: cstring, flags: Flags): (Flat, Outcome) {
    if !ValidPathname(path) then (a, Failed)
    else
      var f := Lookup(a.names, NameOf(path));
      if f in a.files then
        var file := if flags.trunc then EMPTY_FILE else a.files[f];
        var a1 := a.(files := a.files[f := file], free := a.free + Need(a.files[f].blocks) - Need(file.blocks));
        AddHandle(a1, f, if flags.append then file.size else 0)
      else
        var g := LowestFree(a.files, 1, INODE_TABLE_SIZE);
        if !flags.creat || g < 0 || |a.names| >= MAX_DIR_ENTRIES then (a, Failed)
        else AddHandle(a.(names := a.names + [Binding(Clip(NameOf(path)), g)], files := a.files[g := EMPTY_FILE]), g, 0)
  }

  function Close(a: Flat, h: int): (Flat, Outcome) {
    if h in a.handles then (a.(handles := a.handles - {h}), Done(0)) else (a, Failed)
  }

  /** Handle h is open. */
  predicate OpenAt(a: Flat, h: int) {
    h in a.handles && a.handles[h].file in a.files
  }

  predicate Within(p: int, pos: nat, n: nat) {
    pos <= p < pos + n
  }

  /** The bytes with src put at position pos. */
  function Put(bytes: map<nat, byte>, pos: nat, src: seq<byte>): (r: map<nat, byte>)
    ensures forall p :: p in r <==> p in bytes || Within(p, pos, |src|)
    ensures forall p :: p in r ==> r[p] == if Within(p, pos, |src|) then src[p - pos] else bytes[p]
  {
    bytes + (map p | pos <= p < pos + |src| && Within(p, pos, |src|) :: src[p - pos])
  }

  /** The file after a write of buf at position pos. Its size grows by all bytes, old or new. */
  function WriteFile(file: File, pos: nat, buf: seq<byte>): File {
    File(file.size + |buf|, if BlocksFor(pos, |buf|) > file.blocks then BlocksFor(pos, |buf|) else file.blocks,
         Put(file.bytes, pos, buf))
  }

  function Write(a: Flat, h: int, buf: seq<byte>): (Flat, Outcome)
    requires OpenAt(a, h)
  {
    var Handle(f, pos) := a.handles[h];
    var file := WriteFile(a.files[f], pos, buf);
    var free := a.free + Need(a.files[f].blocks) - Need(file.blocks);
    (Flat(a.names, a.files[f := file], a.handles[h := Handle(f, pos + |buf|)], free, Max(a.peak, DATA_BLOCKS - free)),
     Done(|buf|))
  }

  /** How many bytes a read of at most len returns. */
  function Left(a: Flat, h: int, len: nat): (n: nat)
    requires OpenAt(a, h) && a.handles[h].pos <= a.files[a.handles[h].file].size
  {
    Min(len, a.files[a.handles[h].file].size - a.handles[h].pos)
  }

  /** All n bytes from position pos on have been written. */
  predicate AllWritten(bytes: map<nat, byte>, pos: nat, n: nat) {
    forall p :: pos <= p < pos + n ==> p in bytes
  }

  function Bytes(bytes: map<nat, byte>, pos: nat, n: nat): (r: seq<byte>)
    requires AllWritten(bytes, pos, n)
    ensures |r| == n
    ensures forall k :: 0 <= k < n ==> r[k] == bytes[pos + k]
  {
    seq<byte>(n, k requires 0 <= k < n => bytes[pos + k])
  }

  /** The read bytes go to the front of dst. */
  function Read(a: Flat, h: int, dst: seq<byte>, len: nat): (Flat, Outcome, seq<byte>)
    requires OpenAt(a, h) && a.handles[h].pos <= a.files[a.handles[h].file].size && len <= |dst|
    requires AllWritten(a.files[a.handles[h].file].bytes, a.handles[h].pos, Left(a, h, len))
  {
    var Handle(f, pos) := a.handles[h];
    var n := Left(a, h, len);
    (a.(handles := a.handles[h := Handle(f, pos + n)]), Done(n), Splice(dst, 0, Bytes(a.files[f].bytes, pos, n)))
  }
}
