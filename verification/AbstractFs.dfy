/**
 What part two promises to its callers, without inodes and blocks: names lead to
 byte sequences, handles to a name and an offset.
 */
module AbstractFs {
  import opened Memory
  import opened Directory
  import opened StoreModel
  import opened Numbering

  datatype Handle = Handle(name: cstring, offset: nat)
  datatype Fs = Fs(files: map<cstring, seq<byte>>, handles: map<int, Handle>)

  function AddHandle(a: Fs, name: cstring, offset: nat): (Fs, Outcome) {
    var h := LowestFree(a.handles, 0, MAX_OPEN_FILES);
    if h < 0 then (a, Failed) else (a.(handles := a.handles[h := Handle(name, offset)]), Done(h))
  }

  /** A file that cannot get a handle stays truncated, or created. */
  function Open(a: Fs, path: cstring, flags: Flags): (Fs, Outcome)
    requires ValidPathname(path)
  {
    var name := NameOf(path);
    if name in a.files then
      var content := if flags.trunc then [] else a.files[name];
      AddHandle(a.(files := a.files[name := content]), name, if flags.append then |content| else 0)
    else if !flags.creat || |a.files| >= MAX_DIR_ENTRIES then (a, Failed)
    else AddHandle(a.(files := a.files[name := []]), name, 0)
  }

  function Close(a: Fs, h: int): (Fs, Outcome) {
    if h in a.handles then (a.(handles := a.handles - {h}), Done(0)) else (a, Failed)
  }

  /** The content with src put at position at, longer if need be. */
  function Overwrite(content: seq<byte>, at: nat, src: seq<byte>): (r: seq<byte>)
    requires at <= |content|
    ensures |r| == if at + |src| > |content| then at + |src| else |content|
  {
    content[..at] + src + (if at + |src| < |content| then content[at + |src|..] else [])
  }

  /** The handle leads to a file of at most one block, at an offset within it. */
  predicate OpenAt(a: Fs, h: int) {
    && h in a.handles && a.handles[h].name in a.files
    && a.handles[h].offset <= |a.files[a.handles[h].name]| <= BLOCK_SIZE
  }

  function Write(a: Fs, h: int, buf: seq<byte>): (Fs, Outcome)
    requires OpenAt(a, h)
  {
    var Handle(name, offset) := a.handles[h];
    var n := Min(|buf|, BLOCK_SIZE - offset);
    (Fs(a.files[name := Overwrite(a.files[name], offset, buf[..n])], a.handles[h := Handle(name, offset + n)]), Done(n))
  }

  function Read(a: Fs, h: int, len: nat): (Fs, seq<byte>, Outcome)
    requires OpenAt(a, h)
  {
    var Handle(name, offset) := a.handles[h];
    var n := Min(len, |a.files[name]| - offset);
    (a.(handles := a.handles[h := Handle(name, offset + n)]), a.files[name][offset..offset + n], Done(n))
  }
}
