/** code/filesys/directory.cc: a fixed table of names and header locations,
    refined to a map from names (as far as they count) to sector numbers. */
module Directories {
  import opened Words
  import opened SlotTables

  const FILE_NAME_MAX_LEN: nat := 9
  const ENTRY_SIZE: nat := 20

  // ----- C strings, as strncmp and strncpy see them -----

  /** The characters of `s` that count: at most `n`, and none from the first NUL on. */
  function CStr(s: seq<byte>, n: nat): (r: seq<byte>)
    ensures |r| <= n && |r| <= |s| && r == s[..|r|]
    ensures |r| < n && |r| < |s| ==> s[|r|] == 0
    ensures forall i :: 0 <= i < |r| ==> r[i] != 0
  {
    if n == 0 || s == [] || s[0] == 0 then [] else [s[0]] + CStr(s[1..], n - 1)
  }

  /** A file name as the directory knows it. */
  datatype Name = Name(chars: seq<byte>)

  /** The part of a file name the directory distinguishes. */
  function Key(name: seq<byte>): Name {
    Name(CStr(name, FILE_NAME_MAX_LEN))
  }

  /** Character `i` of a string whose end reads as NUL. */
  function CharAt(s: seq<byte>, i: nat): byte {
    if i < |s| then s[i] else 0
  }

  /** Only the counted prefix is visible: any two strings with the same first
      characters up to a NUL or the limit have the same counted part. */
  lemma CStrUnique(s: seq<byte>, n: nat, r: seq<byte>)
    requires |r| <= n && (forall i :: 0 <= i < |r| ==> r[i] != 0 && r[i] == CharAt(s, i))
    requires |r| < n ==> CharAt(s, |r|) == 0
    ensures CStr(s, n) == r
  {
    var c := CStr(s, n);
    assert forall i :: 0 <= i < |c| ==> c[i] == CharAt(s, i) != 0;
    assert |c| < n ==> CharAt(s, |c|) == 0;
    assert |c| == |r|;
  }

  // ----- which names are the same -----

  /** The first `n` characters agree, and a name ends there for both or nine have been seen. */
  predicate AgreeUpTo(a: seq<byte>, b: seq<byte>, n: nat) {
    && n <= 9
    && (forall i :: 0 <= i < n ==> CharAt(a, i) == CharAt(b, i))
    && (n == 9 || CharAt(a, n) == 0 == CharAt(b, n))
  }

  /** The directory takes two strings for one name. */
  ghost predicate SameName(a: seq<byte>, b: seq<byte>) {
    exists n: nat :: AgreeUpTo(a, b, n)
  }

  /** A string whose characters before `n` agree with the other's has the same counted part
      when both end at `n`. */
  lemma {:induction false} AgreeCounted(a: seq<byte>, b: seq<byte>, n: nat, limit: nat)
    requires n <= limit && (forall i :: 0 <= i < n ==> CharAt(a, i) == CharAt(b, i))
    requires n == limit || CharAt(a, n) == 0 == CharAt(b, n)
    ensures CStr(a, limit) == CStr(b, limit)
  {
    var c := CStr(a, limit);
    assert forall i :: 0 <= i < |c| ==> c[i] == CharAt(a, i) != 0;
    assert |c| < limit ==> CharAt(a, |c|) == 0;
    CStrUnique(b, limit, c);
  }

  /** Character by character: two strings are one name exactly when they agree up to the
      first NUL, or in all of the first nine characters. */
  lemma KeyExactly(a: seq<byte>, b: seq<byte>)
    ensures Key(a) == Key(b) <==> SameName(a, b)
  {
    if SameName(a, b) {
      var n: nat :| AgreeUpTo(a, b, n);
      AgreeCounted(a, b, n, FILE_NAME_MAX_LEN);
    }
    if Key(a) == Key(b) {
      var c := CStr(a, FILE_NAME_MAX_LEN);
      assert forall i :: 0 <= i < |c| ==> c[i] == CharAt(a, i) == CharAt(b, i);
      assert AgreeUpTo(a, b, |c|);
    }
  }

  /** `!strncmp(a, b, n)` */
  method SamePrefix(a: seq<byte>, b: seq<byte>, n: nat) returns (same: bool)
    ensures same <==> CStr(a, n) == CStr(b, n)
  {
    for i := 0 to n
      invariant i <= |a|
      invariant forall j :: 0 <= j < i ==> CharAt(a, j) == CharAt(b, j) != 0
    {
      if CharAt(a, i) != CharAt(b, i) {
        CStrUniqueAt(a, n, i);
        CStrUniqueAt(b, n, i);
        return false;
      }
      if CharAt(a, i) == 0 {
        assert forall j :: 0 <= j < i ==> a[j] == CharAt(a, j);
        CStrUnique(a, n, a[..i]);
        CStrUnique(b, n, a[..i]);
        return true;
      }
    }
    assert forall j :: 0 <= j < n ==> a[j] == CharAt(a, j);
    CStrUnique(a, n, a[..n]);
    CStrUnique(b, n, a[..n]);
    return true;
  }

  /** When the first `i` characters all count, the next one is visible in the counted part. */
  lemma CStrUniqueAt(s: seq<byte>, n: nat, i: nat)
    requires i < n && forall j :: 0 <= j < i ==> CharAt(s, j) != 0
    ensures |CStr(s, n)| >= i
    ensures if CharAt(s, i) == 0 then |CStr(s, n)| == i else |CStr(s, n)| > i && CStr(s, n)[i] == CharAt(s, i)
  {
    var c := CStr(s, n);
    assert |c| < n ==> CharAt(s, |c|) == 0;
  }

  /** `strncpy(dest, src, n)`: copies up to the NUL and pads with NULs; what lies
      beyond the `n` characters stays as it was. */
  method CopyName(dest: seq<byte>, src: seq<byte>, n: nat) returns (r: seq<byte>)
    requires n <= |dest|
    ensures |r| == |dest| && r[n..] == dest[n..]
    ensures CStr(r, n) == CStr(src, n)
  {
    ghost var k := CStr(src, n);
    r := dest;
    var ended := false;
    for i := 0 to n
      invariant |r| == |dest| && r[n..] == dest[n..]
      invariant ended <==> |k| < i
      invariant forall j :: 0 <= j < i ==> r[j] == if j < |k| then k[j] else 0
    {
      if CharAt(src, i) == 0 { ended := true; }
      r := r[i := if ended then 0 else src[i]];
    }
    CStrUnique(r, n, k);
  }

  // ----- directory entries and their image -----

  datatype RawEntry = Entry(inUse: bool, sector: int32, name: seq<byte>)
  type DirectoryEntry = e: RawEntry | |e.name| == FILE_NAME_MAX_LEN + 1
    witness Entry(false, 0, [0, 0, 0, 0, 0, 0, 0, 0, 0, 0])

  /** Byte `j` of an entry: the flag, its padding, the sector, the name, the padding. */
  function EntryByte(e: DirectoryEntry, j: nat): byte
    requires j < ENTRY_SIZE
  {
    if j == 0 then (if e.inUse then 1 else 0)
    else if j < 4 then 0
    else if j < 8 then WordByte(ToWord(e.sector), j - 4)
    else if j < 18 then e.name[j - 8]
    else 0
  }

  function DecodeEntry(b: seq<byte>): DirectoryEntry
    requires |b| == ENTRY_SIZE
  {
    Entry(b[0] != 0, FromWord(WordOf(b[4], b[5], b[6], b[7])), b[8..18])
  }

  function EncodeTable(t: seq<DirectoryEntry>): (bs: seq<byte>)
    ensures |bs| == ENTRY_SIZE * |t|
  {
    seq(ENTRY_SIZE * |t|, i requires 0 <= i < ENTRY_SIZE * |t| => EntryByte(t[i / ENTRY_SIZE], i % ENTRY_SIZE))
  }

  function DecodeTable(bs: seq<byte>): (t: seq<DirectoryEntry>)
    ensures |t| == |bs| / ENTRY_SIZE
  {
    seq(|bs| / ENTRY_SIZE, i requires 0 <= i < |bs| / ENTRY_SIZE =>
      DecodeEntry(bs[ENTRY_SIZE * i..ENTRY_SIZE * i + ENTRY_SIZE]))
  }

  lemma EntryRoundTrip(e: DirectoryEntry, b: seq<byte>)
    requires |b| == ENTRY_SIZE && forall j :: 0 <= j < ENTRY_SIZE ==> b[j] == EntryByte(e, j)
    ensures DecodeEntry(b) == e
  {
    WordOfBytes(ToWord(e.sector));
    assert b[8..18] == e.name;
  }

  lemma DivMod20(q: nat, r: nat)
    requires r < ENTRY_SIZE
    ensures (ENTRY_SIZE * q + r) / ENTRY_SIZE == q && (ENTRY_SIZE * q + r) % ENTRY_SIZE == r
  {
  }

  lemma EntryImage(t: seq<DirectoryEntry>, i: nat, j: nat)
    requires i < |t| && j < ENTRY_SIZE
    ensures EncodeTable(t)[ENTRY_SIZE * i + j] == EntryByte(t[i], j)
  {
    DivMod20(i, j);
  }

  /** Where the flag, the sector and the name of an entry are. */
  lemma EntryOnDisk(t: seq<DirectoryEntry>, i: nat)
    requires i < |t|
    ensures var b := EncodeTable(t)[20 * i..20 * i + 20];
      && (b[0] != 0 <==> t[i].inUse)
      && Spells(b[4..8], ToWord(t[i].sector))
      && b[8..18] == t[i].name
  {
    var b := EncodeTable(t)[20 * i..20 * i + 20];
    forall j | 0 <= j < 20 ensures b[j] == EntryByte(t[i], j) {
      EntryImage(t, i, j);
    }
    WordOfBytes(ToWord(t[i].sector));
  }

  /** Storing a directory table and fetching it again is the identity. */
  lemma TableRoundTrip(t: seq<DirectoryEntry>)
    ensures DecodeTable(EncodeTable(t)) == t
  {
    var bs := EncodeTable(t);
    forall i | 0 <= i < |t| ensures DecodeTable(bs)[i] == t[i] {
      var b := bs[ENTRY_SIZE * i..ENTRY_SIZE * i + ENTRY_SIZE];
      forall j | 0 <= j < ENTRY_SIZE ensures b[j] == EntryByte(t[i], j) {
        EntryImage(t, i, j);
      }
      EntryRoundTrip(t[i], b);
    }
  }

  // ----- the table as a map -----

  /** What an entry contributes: nothing, or the location of a named file's header. */
  function SlotOf(e: DirectoryEntry): Slot<Name, int> {
    if e.inUse then Used(Key(e.name), e.sector) else Free
  }

  function Slots(t: seq<DirectoryEntry>): (s: seq<Slot<Name, int>>)
    ensures |s| == |t|
  {
    seq(|t|, i requires 0 <= i < |t| => SlotOf(t[i]))
  }

  lemma SlotsUpdate(t: seq<DirectoryEntry>, i: nat, e: DirectoryEntry)
    requires i < |t|
    ensures Slots(t[i := e]) == Slots(t)[i := SlotOf(e)]
  {
  }

  ghost predicate WfTable(t: seq<DirectoryEntry>) {
    UniqueKeys(Slots(t))
  }

  /** The directory a table stands for: where the header of each named file is. */
  ghost function Files(t: seq<DirectoryEntry>): (m: map<Name, int>)
    requires WfTable(t)
  {
    Entries(Slots(t))
  }

  class Directory {
    const table: array<DirectoryEntry>

    /** Every entry starts out unused; the rest of its bytes are whatever they were. */
    constructor (size: nat)
      ensures fresh(table) && table.Length == size
      ensures forall i :: 0 <= i < size ==> !table[i].inUse
    {
      table := new DirectoryEntry[size];
      new;
      for i := 0 to size
        invariant forall j :: 0 <= j < i ==> !table[j].inUse
      {
        table[i] := table[i].(inUse := false);
      }
    }

    /** The first used entry with the name, or -1. */
    method FindIndex(name: seq<byte>) returns (i: int)
      ensures -1 <= i < table.Length
      ensures i >= 0 ==> table[i].inUse && Key(table[i].name) == Key(name)
      ensures i == -1 ==> forall j :: 0 <= j < table.Length && table[j].inUse ==> Key(table[j].name) != Key(name)
      ensures i >= 0 ==> SameName(table[i].name, name)
      ensures i == -1 ==> forall j :: 0 <= j < table.Length && table[j].inUse ==> !SameName(table[j].name, name)
    {
      hide SameName;
      forall e: DirectoryEntry ensures Key(e.name) == Key(name) <==> SameName(e.name, name) {
        KeyExactly(e.name, name);
      }
      for k := 0 to table.Length
        invariant forall j :: 0 <= j < k && table[j].inUse ==> Key(table[j].name) != Key(name)
      {
        if table[k].inUse {
          var same := SamePrefix(table[k].name, name, FILE_NAME_MAX_LEN);
          if same { return k; }
        }
      }
      return -1;
    }

    method Find(name: seq<byte>) returns (sector: int)
      requires WfTable(table[..])
      ensures sector == if Key(name) in Files(table[..]) then Files(table[..])[Key(name)] else -1
    {
      ghost var t := table[..];
      var i := FindIndex(name);
      if i != -1 {
        EntryIn(Slots(t), i);
        return table[i].sector;
      }
      NotIn(Slots(t), Key(name));
      return -1;
    }

    /** Succeeds exactly when the name is new and the table has room, and then
        adds one mapping. */
    method Add(name: seq<byte>, newSector: int32) returns (ok: bool)
      requires WfTable(table[..])
      modifies table
      ensures WfTable(table[..])
      ensures ok <==> Key(name) !in old(Files(table[..])) && |old(Files(table[..]))| < table.Length
      ensures ok ==> Files(table[..]) == old(Files(table[..]))[Key(name) := newSector]
      ensures !ok ==> table[..] == old(table[..])
    {
      ghost var t := table[..];
      var found := FindIndex(name);
      if found != -1 {
        EntryIn(Slots(t), found);
        return false;
      }
      NotIn(Slots(t), Key(name));
      EntriesCount(Slots(t));
      for i := 0 to table.Length
        invariant table[..] == t
        invariant forall j :: 0 <= j < i ==> Slots(t)[j].Used?
      {
        if !table[i].inUse {
          var stored := CopyName(table[i].name, name, FILE_NAME_MAX_LEN);
          var e: DirectoryEntry := Entry(true, newSector, stored);
          EntriesAdd(Slots(t), i, Key(name), newSector);
          SlotsUpdate(t, i, e);
          table[i] := e;
          return true;
        }
      }
      return false;
    }

    method Remove(name: seq<byte>) returns (ok: bool)
      requires WfTable(table[..])
      modifies table
      ensures WfTable(table[..])
      ensures ok <==> Key(name) in old(Files(table[..]))
      ensures Files(table[..]) == old(Files(table[..])) - {Key(name)}
      ensures !ok ==> table[..] == old(table[..])
    {
      ghost var t := table[..];
      var i := FindIndex(name);
      if i == -1 {
        NotIn(Slots(t), Key(name));
        return false;
      }
      EntryIn(Slots(t), i);
      EntriesRemove(Slots(t), i);
      SlotsUpdate(t, i, t[i].(inUse := false));
      table[i] := table[i].(inUse := false);
      return true;
    }

    /** Overwrites the table with a stored image. */
    method Load(image: seq<byte>)
      requires |image| == ENTRY_SIZE * table.Length
      modifies table
      ensures table[..] == DecodeTable(image)
    {
      var t := DecodeTable(image);
      for i := 0 to table.Length
        invariant table[..i] == t[..i]
      {
        table[i] := t[i];
      }
    }
  }
}
