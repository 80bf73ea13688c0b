/**
 Loops over static arrays that both parts of the repository share: memcpy, the
 scan of an allocation table, and the work on the bytes of a directory block.
 */
module ArrayOps {
  import opened Memory
  import opened Directory
  import opened StoreModel

  /** memcpy into an array. */
  method Memcpy(a: array<byte>, at: nat, src: seq<byte>)
    requires at + |src| <= a.Length
    modifies a
    ensures a[..] == Splice(old(a[..]), at, src)
  {
    var i := 0;
    while i < |src|
      invariant 0 <= i <= |src|
      invariant forall k :: at <= k < at + i ==> a[k] == src[k - at]
      invariant forall k :: 0 <= k < a.Length && !(at <= k < at + i) ==> a[k] == old(a[k])
    {
      a[at + i] := src[i];
      i := i + 1;
    }
  }

  /** The first FREE slot of an allocation table is taken; -1 if there is none. */
  method TakeFirst(t: array<Allocation>) returns (r: int)
    modifies t
    ensures r == FirstFree(old(t[..]), 0)
    ensures t[..] == if r == -1 then old(t[..]) else old(t[..])[r := TAKEN]
  {
    var i := 0;
    while i < t.Length
      invariant 0 <= i <= t.Length
      invariant t[..] == old(t[..])
      invariant FirstFree(old(t[..]), 0) == FirstFree(old(t[..]), i)
    {
      if t[i] == FREE {
        t[i] := TAKEN;
        return i;
      }
      i := i + 1;
    }
    return -1;
  }

  method ClearTable(t: array<Allocation>)
    modifies t
    ensures t[..] == seq(t.Length, _ => FREE)
  {
    var i := 0;
    while i < t.Length
      invariant 0 <= i <= t.Length
      invariant forall k :: 0 <= k < i ==> t[k] == FREE
    {
      t[i] := FREE;
      i := i + 1;
    }
  }

  /** `*(int *)&data[at] = v`. */
  method StoreInt(data: array<byte>, at: nat, v: int)
    requires at + 4 <= data.Length && IsInt(v)
    modifies data
    ensures data[..] == WriteInt(old(data[..]), at, v)
  {
    Memcpy(data, at, EncodeInt(v));
  }

  method LoadInt(data: array<byte>, at: nat) returns (v: int)
    requires at + 4 <= data.Length
    ensures v == ReadInt(data[..], at)
  {
    v := DecodeInt(data[at..at + 4]);
    assert data[..][at..at + 4] == data[at..at + 4];
  }

  /** The loop of inode_create that empties a new directory block. */
  method ClearDirectory(data: array<byte>, base: nat)
    requires base + BLOCK_SIZE <= data.Length
    modifies data
    ensures data[..] == ClearEntries(old(data[..]), base, 0)
  {
    hide WriteInt;
    var i := 0;
    while i < MAX_DIR_ENTRIES
      invariant 0 <= i <= MAX_DIR_ENTRIES
      invariant ClearEntries(data[..], base, i) == ClearEntries(old(data[..]), base, 0)
    {
      StoreInt(data, base + ENTRY_SIZE * i + MAX_FILE_NAME, EMPTY);
      i := i + 1;
    }
  }

  /** The loop of find_in_dir. */
  method SearchDirectory(data: array<byte>, base: nat, name: cstring) returns (r: int)
    requires base + BLOCK_SIZE <= data.Length
    ensures r == FindFrom(data[..], base, name, 0)
  {
    hide NameMatches, ReadInt;
    var i := 0;
    while i < MAX_DIR_ENTRIES
      invariant 0 <= i <= MAX_DIR_ENTRIES
      invariant FindFrom(data[..], base, name, i) == FindFrom(data[..], base, name, 0)
    {
      var at := base + ENTRY_SIZE * i;
      var inumber := LoadInt(data, at + MAX_FILE_NAME);
      assert data[..][at..at + MAX_FILE_NAME] == data[at..at + MAX_FILE_NAME];
      if inumber != EMPTY && NameMatches(data[at..at + MAX_FILE_NAME], name, 0) {
        return inumber;
      }
      i := i + 1;
    }
    return -1;
  }

  /** The scan of add_dir_entry for an empty entry. */
  method FirstEmpty(data: array<byte>, base: nat) returns (i: nat)
    requires base + BLOCK_SIZE <= data.Length
    ensures i == EmptyEntry(data[..], base, 0)
  {
    hide ReadInt;
    i := 0;
    while i < MAX_DIR_ENTRIES
      invariant 0 <= i <= MAX_DIR_ENTRIES
      invariant EmptyEntry(data[..], base, i) == EmptyEntry(data[..], base, 0)
    {
      var inumber := LoadInt(data, base + ENTRY_SIZE * i + MAX_FILE_NAME);
      if inumber == EMPTY {
        return;
      }
      i := i + 1;
    }
  }

  /** The inumber and the name of one entry. */
  method SetEntry(data: array<byte>, base: nat, i: nat, f: int, name: cstring)
    requires base + BLOCK_SIZE <= data.Length && i < MAX_DIR_ENTRIES && IsInt(f)
    modifies data
    ensures data[..] == FillEntry(old(data[..]), base, i, f, name)
  {
    StoreInt(data, base + ENTRY_SIZE * i + MAX_FILE_NAME, f);
    Memcpy(data, base + ENTRY_SIZE * i, StoredName(name));
  }
}
