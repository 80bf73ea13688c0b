/**
 A directory block: 23 packed entries of a 40-byte name buffer and an `int`
 inumber, searched with strncmp and filled with strncpy. Both parts of the
 repository share this code.
 */
module Directory {
  import opened Memory

  const BLOCK_SIZE: nat := 1024
  const MAX_FILE_NAME: nat := 40
  const ENTRY_SIZE: nat := 44
  const MAX_DIR_ENTRIES: nat := 23  // BLOCK_SIZE / ENTRY_SIZE
  const EMPTY: int := -1

  /** The characters of a C string, without the terminating NUL. */
  type cstring = s: seq<byte> | 0 !in s witness []

  /** The character at position i of a C string, the terminator included. */
  function CharAt(s: cstring, i: nat): (c: byte)
  {
    if i < |s| then s[i] else 0
  }

  /** What strncpy(d_name, name, MAX_FILE_NAME - 1) and the final NUL leave in d_name. */
  function StoredName(name: cstring): (d: seq<byte>)
    ensures |d| == MAX_FILE_NAME
  {
    seq(MAX_FILE_NAME, i requires i >= 0 => if i < MAX_FILE_NAME - 1 then CharAt(name, i) else 0)
  }

  /** strncmp(d, name, MAX_FILE_NAME) == 0, from position i on. */
  predicate NameMatches(d: seq<byte>, name: cstring, i: nat)
    requires |d| == MAX_FILE_NAME
    decreases MAX_FILE_NAME - i
  {
    if i >= MAX_FILE_NAME then true
    else d[i] == CharAt(name, i) && (d[i] == 0 || NameMatches(d, name, i + 1))
  }

  /** The part of a name that survives being stored. */
  function Clip(name: cstring): (r: cstring)
    ensures |name| < MAX_FILE_NAME ==> r == name
    ensures |name| >= MAX_FILE_NAME ==> |r| == MAX_FILE_NAME - 1 && r == name[..MAX_FILE_NAME - 1]
  {
    if |name| < MAX_FILE_NAME then name else name[..MAX_FILE_NAME - 1]
  }

  lemma {:induction false} MatchesFrom(a: cstring, b: cstring, i: nat)
    requires |a| < MAX_FILE_NAME
    requires i <= |a| && i <= |b| && a[..i] == b[..i]
    ensures NameMatches(StoredName(a), b, i) <==> a == b
    decreases |a| - i
  {
    var d := StoredName(a);
    assert d[i] == CharAt(a, i);
    if i == |a| {
      assert d[i] == 0;
      if i == |b| {
        assert a == a[..i] && b == b[..i];
      } else {
        assert b[i] in b;
      }
    } else {
      assert a[i] in a;
      if i < |b| && a[i] == b[i] {
        assert a[..i + 1] == a[..i] + [a[i]] && b[..i + 1] == b[..i] + [b[i]];
        MatchesFrom(a, b, i + 1);
      }
    }
  }

  /**
   A stored name matches exactly the clipped original: names shorter than 40
   characters are found under their own name and under no other, longer ones
   are never found under their own name.
   */
  lemma StoredNameMatches(a: cstring, b: cstring)
    ensures NameMatches(StoredName(a), b, 0) <==> Clip(a) == b
  {
    assert StoredName(a) == StoredName(Clip(a));
    assert Clip(a)[..0] == b[..0];
    MatchesFrom(Clip(a), b, 0);
  }

  function EntryName(data: seq<byte>, base: nat, i: nat): (d: seq<byte>)
    requires base + BLOCK_SIZE <= |data| && i < MAX_DIR_ENTRIES
    ensures |d| == MAX_FILE_NAME
  {
    data[base + ENTRY_SIZE * i..base + ENTRY_SIZE * i + MAX_FILE_NAME]
  }

  function EntryInumber(data: seq<byte>, base: nat, i: nat): int
    requires base + BLOCK_SIZE <= |data| && i < MAX_DIR_ENTRIES
  {
    ReadInt(data, base + ENTRY_SIZE * i + MAX_FILE_NAME)
  }

  /** `dir_entry[i].d_inumber = inumber`. */
  function SetInumber(data: seq<byte>, base: nat, i: nat, inumber: int): (r: seq<byte>)
    requires base + BLOCK_SIZE <= |data| && i < MAX_DIR_ENTRIES && IsInt(inumber)
    ensures |r| == |data|
  {
    WriteInt(data, base + ENTRY_SIZE * i + MAX_FILE_NAME, inumber)
  }

  /** The initialisation loop of inode_create for a directory. */
  function ClearEntries(data: seq<byte>, base: nat, i: nat): (r: seq<byte>)
    requires base + BLOCK_SIZE <= |data| && i <= MAX_DIR_ENTRIES
    ensures |r| == |data|
    decreases MAX_DIR_ENTRIES - i
  {
    if i == MAX_DIR_ENTRIES then data
    else ClearEntries(SetInumber(data, base, i, EMPTY), base, i + 1)
  }

  /** The search loop of find_in_dir. */
  function FindFrom(data: seq<byte>, base: nat, name: cstring, i: nat): (r: int)
    requires base + BLOCK_SIZE <= |data| && i <= MAX_DIR_ENTRIES
    decreases MAX_DIR_ENTRIES - i
  {
    if i == MAX_DIR_ENTRIES then -1
    else if EntryInumber(data, base, i) != EMPTY && NameMatches(EntryName(data, base, i), name, 0) then
      EntryInumber(data, base, i)
    else FindFrom(data, base, name, i + 1)
  }

  /** The first empty entry from i on, MAX_DIR_ENTRIES if there is none. */
  function EmptyEntry(data: seq<byte>, base: nat, i: nat): (r: nat)
    requires base + BLOCK_SIZE <= |data| && i <= MAX_DIR_ENTRIES
    ensures i <= r <= MAX_DIR_ENTRIES
    ensures r < MAX_DIR_ENTRIES ==> EntryInumber(data, base, r) == EMPTY
    ensures forall j :: i <= j < r ==> EntryInumber(data, base, j) != EMPTY
    decreases MAX_DIR_ENTRIES - i
  {
    if i == MAX_DIR_ENTRIES || EntryInumber(data, base, i) == EMPTY then i
    else EmptyEntry(data, base, i + 1)
  }

  /** Writing one entry: the inumber, then the name buffer. */
  function FillEntry(data: seq<byte>, base: nat, i: nat, inumber: int, name: cstring): (r: seq<byte>)
    requires base + BLOCK_SIZE <= |data| && i < MAX_DIR_ENTRIES && IsInt(inumber)
    ensures |r| == |data|
  {
    Splice(SetInumber(data, base, i, inumber), base + ENTRY_SIZE * i, StoredName(name))
  }

  // ---------------------------------------------------------------------------
  // The block as a list of bindings
  // ---------------------------------------------------------------------------

  datatype Binding = Binding(name: cstring, inumber: int)

  /** The block holds exactly these bindings, in order, in its first entries. */
  ghost predicate Holds(data: seq<byte>, base: nat, list: seq<Binding>) {
    && base + BLOCK_SIZE <= |data|
    && |list| <= MAX_DIR_ENTRIES
    && (forall i :: 0 <= i < |list| ==>
          && EntryInumber(data, base, i) == list[i].inumber != EMPTY
          && EntryName(data, base, i) == StoredName(list[i].name)
          && |list[i].name| < MAX_FILE_NAME)
    && (forall i :: |list| <= i < MAX_DIR_ENTRIES ==> EntryInumber(data, base, i) == EMPTY)
  }

  /** The inumber of the first binding of a name from i on, -1 if there is none. */
  ghost function LookupFrom(list: seq<Binding>, name: cstring, i: nat): (r: int)
    requires i <= |list|
    decreases |list| - i
  {
    if i == |list| then -1
    else if list[i].name == name then list[i].inumber
    else LookupFrom(list, name, i + 1)
  }

  ghost function Lookup(list: seq<Binding>, name: cstring): int {
    LookupFrom(list, name, 0)
  }

  lemma {:induction false} LookupFromSpec(list: seq<Binding>, name: cstring, i: nat)
    requires i <= |list|
    requires forall j :: 0 <= j < |list| ==> list[j].inumber != -1
    ensures LookupFrom(list, name, i) == -1 ==> forall j :: i <= j < |list| ==> list[j].name != name
    ensures LookupFrom(list, name, i) != -1 ==>
              exists j :: i <= j < |list| && list[j].name == name && list[j].inumber == LookupFrom(list, name, i)
    decreases |list| - i
  {
    if i < |list| && list[i].name != name {
      LookupFromSpec(list, name, i + 1);
    }
  }

  lemma {:induction false} LookupFromAppend(list: seq<Binding>, b: Binding, name: cstring, i: nat)
    requires i <= |list|
    requires forall j :: 0 <= j < |list| ==> list[j].inumber != -1
    ensures LookupFrom(list + [b], name, i) ==
            if LookupFrom(list, name, i) != -1 then LookupFrom(list, name, i)
            else if b.name == name then b.inumber else -1
    decreases |list| - i
  {
    if i == |list| {
      assert (list + [b])[i] == b;
      assert LookupFrom(list + [b], name, i + 1) == -1;
    } else {
      assert (list + [b])[i] == list[i];
      if list[i].name != name {
        LookupFromAppend(list, b, name, i + 1);
      }
    }
  }

  lemma {:induction false} FindIsLookup(data: seq<byte>, base: nat, list: seq<Binding>, name: cstring, i: nat)
    requires Holds(data, base, list) && i <= MAX_DIR_ENTRIES
    ensures FindFrom(data, base, name, i) == if i <= |list| then LookupFrom(list, name, i) else -1
    decreases MAX_DIR_ENTRIES - i
  {
    if i < MAX_DIR_ENTRIES {
      FindIsLookup(data, base, list, name, i + 1);
      if i < |list| {
        StoredNameMatches(list[i].name, name);
      }
    }
  }

  /**
   find_in_dir over the bytes is lookup in the list of bindings, for every name.
   */
  lemma FindInDirectory(data: seq<byte>, base: nat, list: seq<Binding>, name: cstring)
    requires Holds(data, base, list)
    ensures FindFrom(data, base, name, 0) == Lookup(list, name)
  {
    FindIsLookup(data, base, list, name, 0);
  }

  /** The search for an empty entry stops right after the bindings. */
  lemma EmptyEntryIsEnd(data: seq<byte>, base: nat, list: seq<Binding>)
    requires Holds(data, base, list)
    ensures EmptyEntry(data, base, 0) == |list|
  {
    if |list| < MAX_DIR_ENTRIES {
      assert EntryInumber(data, base, |list|) == EMPTY;
    }
  }

  /** A block holds one list of bindings only. */
  lemma HoldsUnique(data: seq<byte>, base: nat, list: seq<Binding>, list': seq<Binding>)
    requires Holds(data, base, list) && Holds(data, base, list')
    ensures list == list'
  {
    EmptyEntryIsEnd(data, base, list);
    EmptyEntryIsEnd(data, base, list');
    forall i | 0 <= i < |list|
      ensures list[i] == list'[i]
    {
      StoredNameMatches(list[i].name, list'[i].name);
      StoredNameMatches(list'[i].name, list'[i].name);
    }
  }

  lemma EntryFrame(data: seq<byte>, data': seq<byte>, base: nat, i: nat)
    requires base + BLOCK_SIZE <= |data| == |data'| && i < MAX_DIR_ENTRIES
    requires forall p :: base + ENTRY_SIZE * i <= p < base + ENTRY_SIZE * (i + 1) ==> data[p] == data'[p]
    ensures EntryInumber(data, base, i) == EntryInumber(data', base, i)
    ensures EntryName(data, base, i) == EntryName(data', base, i)
  {
    ReadIntFrame(data, data', base + ENTRY_SIZE * i + MAX_FILE_NAME);
    assert EntryName(data, base, i) == EntryName(data', base, i);
  }

  /** A directory depends on the bytes of its block only. */
  lemma HoldsFrame(data: seq<byte>, data': seq<byte>, base: nat, list: seq<Binding>)
    requires Holds(data, base, list) && |data'| == |data|
    requires forall p :: base <= p < base + BLOCK_SIZE ==> data[p] == data'[p]
    ensures Holds(data', base, list)
  {
    forall i: nat | i < MAX_DIR_ENTRIES
      ensures EntryInumber(data, base, i) == EntryInumber(data', base, i)
      ensures EntryName(data, base, i) == EntryName(data', base, i)
    {
      EntryFrame(data, data', base, i);
    }
  }

  lemma FillEntryEffect(data: seq<byte>, base: nat, i: nat, inumber: int, name: cstring)
    requires base + BLOCK_SIZE <= |data| && i < MAX_DIR_ENTRIES && IsInt(inumber)
    ensures var r := FillEntry(data, base, i, inumber, name);
            && EntryInumber(r, base, i) == inumber
            && EntryName(r, base, i) == StoredName(name)
            && (forall p :: 0 <= p < |data| && !(base + ENTRY_SIZE * i <= p < base + ENTRY_SIZE * (i + 1)) ==>
                  r[p] == data[p])
  {
    var d := SetInumber(data, base, i, inumber);
    var r := FillEntry(data, base, i, inumber, name);
    ReadWrittenInt(data, base + ENTRY_SIZE * i + MAX_FILE_NAME, inumber);
    ReadIntFrame(d, r, base + ENTRY_SIZE * i + MAX_FILE_NAME);
    assert EntryName(r, base, i) == StoredName(name);
  }

  /** add_dir_entry appends one binding, under the clipped name, when there is room. */
  lemma AddBinding(data: seq<byte>, base: nat, list: seq<Binding>, inumber: int, name: cstring)
    requires Holds(data, base, list) && |list| < MAX_DIR_ENTRIES
    requires IsInt(inumber) && inumber != EMPTY
    ensures Holds(FillEntry(data, base, |list|, inumber, name), base, list + [Binding(Clip(name), inumber)])
  {
    var n := |list|;
    var r := FillEntry(data, base, n, inumber, name);
    var list' := list + [Binding(Clip(name), inumber)];
    FillEntryEffect(data, base, n, inumber, name);
    assert StoredName(name) == StoredName(Clip(name));
    forall i: nat | i < MAX_DIR_ENTRIES && i != n
      ensures EntryInumber(r, base, i) == EntryInumber(data, base, i)
      ensures EntryName(r, base, i) == EntryName(data, base, i)
    {
      EntryFrame(data, r, base, i);
    }
  }

  lemma {:induction false} ClearEntriesEffect(data: seq<byte>, base: nat, i: nat)
    requires base + BLOCK_SIZE <= |data| && i <= MAX_DIR_ENTRIES
    requires forall j :: 0 <= j < i ==> EntryInumber(data, base, j) == EMPTY
    ensures var r := ClearEntries(data, base, i);
            && (forall j :: 0 <= j < MAX_DIR_ENTRIES ==> EntryInumber(r, base, j) == EMPTY)
            && (forall p :: 0 <= p < |data| && !(base <= p < base + BLOCK_SIZE) ==> r[p] == data[p])
    decreases MAX_DIR_ENTRIES - i
  {
    if i < MAX_DIR_ENTRIES {
      var d := SetInumber(data, base, i, EMPTY);
      ReadWrittenInt(data, base + ENTRY_SIZE * i + MAX_FILE_NAME, EMPTY);
      assert EntryInumber(d, base, i) == EMPTY;
      forall j: nat | j < i
        ensures EntryInumber(d, base, j) == EMPTY
      {
        ReadIntFrame(data, d, base + ENTRY_SIZE * j + MAX_FILE_NAME);
        assert EntryInumber(data, base, j) == EMPTY;
      }
      ClearEntriesEffect(d, base, i + 1);
      assert ClearEntries(data, base, i) == ClearEntries(d, base, i + 1);
    }
  }

  /** A cleared block is the empty directory. */
  lemma ClearedIsEmpty(data: seq<byte>, base: nat)
    requires base + BLOCK_SIZE <= |data|
    ensures Holds(ClearEntries(data, base, 0), base, [])
  {
    ClearEntriesEffect(data, base, 0);
  }

  /**
   Directory as a map. After binding a name of fewer than 40 characters that
   was not bound, the name leads to its inumber and no other lookup changes.
   */
  lemma BindThenFind(data: seq<byte>, base: nat, list: seq<Binding>, inumber: int, name: cstring, other: cstring)
    requires Holds(data, base, list) && EmptyEntry(data, base, 0) < MAX_DIR_ENTRIES
    requires IsInt(inumber) && inumber != EMPTY
    requires |name| < MAX_FILE_NAME && FindFrom(data, base, name, 0) == -1
    ensures var r := FillEntry(data, base, EmptyEntry(data, base, 0), inumber, name);
            FindFrom(r, base, other, 0) == if other == name then inumber else FindFrom(data, base, other, 0)
  {
    EmptyEntryIsEnd(data, base, list);
    AddBinding(data, base, list, inumber, name);
    var list' := list + [Binding(Clip(name), inumber)];
    FindInDirectory(data, base, list, name);
    FindInDirectory(data, base, list, other);
    FindInDirectory(FillEntry(data, base, |list|, inumber, name), base, list', other);
    LookupFromAppend(list, Binding(Clip(name), inumber), other, 0);
  }

  /**
   The bound on the length is exact: a fresh binding can be found again if and
   only if its name has fewer than 40 characters.
   */
  lemma FoundAgainIffShort(data: seq<byte>, base: nat, list: seq<Binding>, inumber: int, name: cstring)
    requires Holds(data, base, list) && EmptyEntry(data, base, 0) < MAX_DIR_ENTRIES
    requires IsInt(inumber) && inumber != EMPTY
    requires FindFrom(data, base, name, 0) == -1
    ensures var r := FillEntry(data, base, EmptyEntry(data, base, 0), inumber, name);
            FindFrom(r, base, name, 0) == inumber <==> |name| < MAX_FILE_NAME
  {
    EmptyEntryIsEnd(data, base, list);
    AddBinding(data, base, list, inumber, name);
    FindInDirectory(data, base, list, name);
    FindInDirectory(FillEntry(data, base, |list|, inumber, name), base, list + [Binding(Clip(name), inumber)], name);
    LookupFromAppend(list, Binding(Clip(name), inumber), name, 0);
  }
}
