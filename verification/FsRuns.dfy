/** Every run of the file system, from formatting on, behaves like a map from
    names to byte strings of fixed length. */
module FsRuns {
  import opened Words
  import opened BitMaps
  import opened DiskLayout
  import opened Directories
  import opened Ownership
  import opened FsImage
  import opened FsSteps
  import opened FileSystems

  // ----- the abstract file system -----

  datatype Cursor = Cursor(name: Name, pos: nat)
  datatype AbsState = AbsState(files: map<Name, seq<byte>>, cursors: map<nat, Cursor>)

  /** One call and what it returned.  A file that is open is known by a number. */
  datatype Event =
    | Create(name: Name, size: nat, ok: bool)
    | Remove(name: Name, ok: bool)
    | Open(name: Name, id: nat, ok: bool)
    | Close(id: nat)
    | Seek(id: nat, pos: nat)
    | ReadAt(id: nat, numBytes: int, pos: nat, result: seq<byte>)
    | WriteAt(id: nat, data: seq<byte>, pos: nat, n: nat)
    | Read(id: nat, numBytes: int, result: seq<byte>)
    | Write(id: nat, data: seq<byte>, n: nat)

  /** What a read of the string `c` returns. */
  function Slice(c: seq<byte>, numBytes: int, pos: nat): (r: seq<byte>) {
    var n := Clip(numBytes, pos, |c|);
    if n == 0 then [] else c[pos..pos + n]
  }

  /** What a write makes of the string `c`. */
  function Overwrite(c: seq<byte>, data: seq<byte>, pos: nat): (r: seq<byte>)
    ensures |r| == |c|
  {
    var n := Clip(|data|, pos, |c|);
    if n == 0 then c else Splice(c, pos, data[..n])
  }

  /** A read gives exactly the bytes that lie in the string and in the request. */
  lemma SliceExactly(c: seq<byte>, numBytes: int, pos: nat, i: nat)
    ensures i < |Slice(c, numBytes, pos)| <==> pos + i < |c| && i < numBytes
    ensures i < |Slice(c, numBytes, pos)| ==> Slice(c, numBytes, pos)[i] == c[pos + i]
  {
  }

  /** A write changes exactly the bytes that lie in the string and in the request. */
  lemma OverwriteExactly(c: seq<byte>, data: seq<byte>, pos: nat, i: nat)
    requires i < |c|
    ensures Overwrite(c, data, pos)[i] == if pos <= i < pos + |data| then data[i - pos] else c[i]
  {
  }

  ghost predicate AbsNext(a: AbsState, a': AbsState, e: Event) {
    match e
    case Create(k, size, ok) =>
      && a'.cursors == a.cursors
      && (ok <==> k !in a.files && |a.files| < NUM_DIR_ENTRIES)
      && (!ok ==> a'.files == a.files)
      && (ok ==> k in a'.files && |a'.files[k]| == size && a'.files == a.files[k := a'.files[k]])
    case Remove(k, ok) =>
      && (ok <==> k in a.files)
      && a'.files == a.files - {k}
      && a'.cursors == (map id | id in a.cursors && a.cursors[id].name != k :: a.cursors[id])
    case Open(k, id, ok) =>
      && (ok <==> k in a.files)
      && a'.files == a.files
      && a'.cursors == if ok then a.cursors[id := Cursor(k, 0)] else a.cursors
    case Close(id) => a' == a.(cursors := a.cursors - {id})
    case Seek(id, pos) =>
      id in a.cursors && a' == a.(cursors := a.cursors[id := a.cursors[id].(pos := pos)])
    case ReadAt(id, numBytes, pos, result) =>
      && id in a.cursors && a.cursors[id].name in a.files
      && result == Slice(a.files[a.cursors[id].name], numBytes, pos)
      && a' == a
    case WriteAt(id, data, pos, n) =>
      && id in a.cursors && a.cursors[id].name in a.files
      && var k := a.cursors[id].name;
      && n == Clip(|data|, pos, |a.files[k]|)
      && a' == a.(files := a.files[k := Overwrite(a.files[k], data, pos)])
    case Read(id, numBytes, result) =>
      && id in a.cursors && a.cursors[id].name in a.files
      && var c := a.cursors[id];
      && result == Slice(a.files[c.name], numBytes, c.pos)
      && a' == a.(cursors := a.cursors[id := c.(pos := c.pos + |result|)])
    case Write(id, data, n) =>
      && id in a.cursors && a.cursors[id].name in a.files
      && var c := a.cursors[id];
      && n == Clip(|data|, c.pos, |a.files[c.name]|)
      && a' == AbsState(a.files[c.name := Overwrite(a.files[c.name], data, c.pos)],
                        a.cursors[id := c.(pos := c.pos + n)])
  }

  // ----- the file system on disk -----

  /** What the sectors of a disk amount to: whether it is a sound file system,
      the header of each named file, and its contents. */
  datatype Volume = Volume(sound: bool, hdrs: map<Name, Header>, files: map<Name, seq<byte>>)

  ghost function VolumeOf(d: Image): Volume {
    if FsInv(d)
    then Volume(true, map k | k in FilesOf(d) :: HeaderAt(d, FilesOf(d)[k]), Abs(d))
    else Volume(false, map[], map[])
  }

  /** An open file: the header fetched when it was opened, the position, and the
      name it was opened under. */
  datatype Handle = Handle(hdr: Header, pos: nat, name: Name)
  datatype FsState = FsState(disk: Image, handles: map<nat, Handle>)

  /** What OpenFile.ReadAt returns. */
  ghost predicate ReadStep(d: Image, h: Header, numBytes: int, pos: nat, result: seq<byte>) {
    && WfHeader(h)
    && var n := Clip(numBytes, pos, h.numBytes);
    result == if n == 0 then [] else Content(d, h)[pos..pos + n]
  }

  /** What OpenFile.WriteAt does to the disk, the bytes past the file length left open. */
  ghost predicate WriteStep(d: Image, d': Image, h: Header, data: seq<byte>, pos: nat, n: nat) {
    && WfHeader(h)
    && n == Clip(|data|, pos, h.numBytes)
    && (n == 0 ==> d' == d)
    && (n > 0 ==> Content(d', h) == Splice(Content(d, h), pos, data[..n]))
    && (forall s :: 0 <= s < NUM_SECTORS && s !in DataSet(h) ==> d'[s] == d[s])
  }

  /** One call on a mounted disk.  Removing a file ends the use of the handles on it. */
  ghost predicate Next(s: FsState, s': FsState, e: Event) {
    match e
    case Create(k, size, ok) =>
      size <= MAX_FILE_SIZE && s'.handles == s.handles && CreateStep(s.disk, s'.disk, k, size, ok)
    case Remove(k, ok) =>
      && RemoveStep(s.disk, s'.disk, k, ok)
      && s'.handles == (map id | id in s.handles && s.handles[id].name != k :: s.handles[id])
    case Open(k, id, ok) =>
      && s'.disk == s.disk && (ok <==> k in VolumeOf(s.disk).hdrs)
      && (ok ==> s'.handles == s.handles[id := Handle(VolumeOf(s.disk).hdrs[k], 0, k)])
      && (!ok ==> s'.handles == s.handles)
    case Close(id) => s' == s.(handles := s.handles - {id})
    case Seek(id, pos) =>
      id in s.handles && s' == s.(handles := s.handles[id := s.handles[id].(pos := pos)])
    case ReadAt(id, numBytes, pos, result) =>
      id in s.handles && ReadStep(s.disk, s.handles[id].hdr, numBytes, pos, result) && s' == s
    case WriteAt(id, data, pos, n) =>
      && id in s.handles && WriteStep(s.disk, s'.disk, s.handles[id].hdr, data, pos, n)
      && s'.handles == s.handles
    case Read(id, numBytes, result) =>
      && id in s.handles && ReadStep(s.disk, s.handles[id].hdr, numBytes, s.handles[id].pos, result)
      && s' == s.(handles := s.handles[id := s.handles[id].(pos := s.handles[id].pos + |result|)])
    case Write(id, data, n) =>
      && id in s.handles && WriteStep(s.disk, s'.disk, s.handles[id].hdr, data, s.handles[id].pos, n)
      && s'.handles == s.handles[id := s.handles[id].(pos := s.handles[id].pos + n)]
  }

  // ----- what each call does to the volume -----

  lemma AbsAt(d: Image, k: Name)
    requires FsInv(d)
    ensures k in Abs(d) <==> k in FilesOf(d)
    ensures k in FilesOf(d) ==> Abs(d)[k] == Content(d, HeaderAt(d, FilesOf(d)[k]))
  {
  }

  lemma AbsSize(d: Image)
    requires FsInv(d)
    ensures |Abs(d)| == |FilesOf(d)|
  {
    assert Abs(d).Keys == FilesOf(d).Keys;
    assert |Abs(d).Keys| == |Abs(d)| && |FilesOf(d).Keys| == |FilesOf(d)|;
  }

  /** Creating fails only because the name is taken or the directory is full. */
  lemma CreateDecision(d: Image, k: Name, size: nat)
    requires FsInv(d) && size <= MAX_FILE_SIZE
    ensures CannotCreate(FilesOf(d), Allocated(d), k, size) <==> k in Abs(d) || |Abs(d)| >= NUM_DIR_ENTRIES
  {
    SpaceSuffices(d);
    AbsSize(d);
    AbsAt(d, k);
    RoomForOne(|FilesOf(d)|, |Allocated(d)|, size);
  }

  lemma RoomForOne(files: nat, used: nat, size: nat)
    requires used <= 5 + 31 * files && size <= MAX_FILE_SIZE
    ensures files < NUM_DIR_ENTRIES ==> NUM_SECTORS - used >= 1 + DivRoundUp(size, SECTOR_SIZE)
  {
  }

  lemma CreateRefines(d: Image, d': Image, k: Name, size: nat, ok: bool)
    requires FsInv(d) && size <= MAX_FILE_SIZE && CreateStep(d, d', k, size, ok)
    ensures FsInv(d')
    ensures ok <==> k !in Abs(d) && |Abs(d)| < NUM_DIR_ENTRIES
    ensures !ok ==> d' == d
    ensures ok ==> k in Abs(d') && |Abs(d')[k]| == size && Abs(d') == Abs(d)[k := Abs(d')[k]]
    ensures forall l :: l in FilesOf(d) ==>
      l in FilesOf(d') && FilesOf(d')[l] == FilesOf(d)[l] && d'[FilesOf(d)[l]] == d[FilesOf(d)[l]]
  {
    CreateDecision(d, k, size);
    if ok {
      var sector, h :| Created(d, d', k, size, sector, h);
      CreatedKeepsInv(d, d', k, size, sector, h);
      HeadersStay(d, d', {sector});
    }
  }

  // ----- which names are separate files -----

  /** With room for two and both names new, two creates succeed both exactly when the directory
      can tell the names apart; then they are two entries with headers of their own, and the
      second leaves the contents of the first as they were. */
  lemma TwoNames(d: Image, d1: Image, d2: Image, a: seq<byte>, b: seq<byte>, m: nat, n: nat, okA: bool, okB: bool)
    requires FsInv(d) && Key(a) !in Abs(d) && Key(b) !in Abs(d) && |Abs(d)| + 2 <= NUM_DIR_ENTRIES
    requires m <= MAX_FILE_SIZE && n <= MAX_FILE_SIZE
    requires CreateStep(d, d1, Key(a), m, okA) && CreateStep(d1, d2, Key(b), n, okB)
    ensures FsInv(d1) && FsInv(d2) && okA && (okB <==> !SameName(a, b))
    ensures !SameName(a, b) ==>
      && Key(a) in Abs(d1) && Key(a) in Abs(d2) && Key(b) in Abs(d2) && |Abs(d2)| == |Abs(d)| + 2
      && Abs(d2)[Key(a)] == Abs(d1)[Key(a)] && |Abs(d2)[Key(a)]| == m && |Abs(d2)[Key(b)]| == n
      && Key(a) in FilesOf(d2) && Key(b) in FilesOf(d2) && FilesOf(d2)[Key(a)] != FilesOf(d2)[Key(b)]
  {
    hide SameName, Key, CreateStep, FsInv, Abs, FilesOf;
    KeyExactly(a, b);
    TwoKeys(d, d1, d2, Key(a), Key(b), m, n, okA, okB);
  }

  lemma TwoKeys(d: Image, d1: Image, d2: Image, k: Name, l: Name, m: nat, n: nat, okK: bool, okL: bool)
    requires FsInv(d) && k !in Abs(d) && l !in Abs(d) && |Abs(d)| + 2 <= NUM_DIR_ENTRIES
    requires m <= MAX_FILE_SIZE && n <= MAX_FILE_SIZE
    requires CreateStep(d, d1, k, m, okK) && CreateStep(d1, d2, l, n, okL)
    ensures FsInv(d1) && FsInv(d2) && okK && (okL <==> k != l)
    ensures k != l ==>
      && k in Abs(d2) && l in Abs(d2) && k in Abs(d1) && |Abs(d2)| == |Abs(d)| + 2
      && Abs(d2)[k] == Abs(d1)[k] && |Abs(d2)[k]| == m && |Abs(d2)[l]| == n
      && k in FilesOf(d2) && l in FilesOf(d2) && FilesOf(d2)[k] != FilesOf(d2)[l]
  {
    hide CreateStep, FsInv, Abs, FilesOf;
    CreateRefines(d, d1, k, m, okK);
    OneMore(Abs(d), k, Abs(d1)[k]);
    CreateRefines(d1, d2, l, n, okL);
    if k != l {
      OneMore(Abs(d1), l, Abs(d2)[l]);
      OwnHeaders(d2, k, l);
    }
  }

  lemma OneMore<V(!new)>(m: map<Name, V>, k: Name, v: V)
    requires k !in m
    ensures |m[k := v]| == |m| + 1
  {
    assert m[k := v].Keys == m.Keys + {k};
    assert |m[k := v].Keys| == |m[k := v]| && |m.Keys| == |m|;
  }

  lemma OwnHeaders(d: Image, k: Name, l: Name)
    requires FsInv(d) && k in Abs(d) && l in Abs(d) && k != l
    ensures k in FilesOf(d) && l in FilesOf(d) && FilesOf(d)[k] != FilesOf(d)[l]
  {
    AbsAt(d, k);
    AbsAt(d, l);
    var cat := Catalog(d, FilesOf(d));
    assert cat[k].Footprint() !! cat[l].Footprint();
    assert FilesOf(d)[l] in cat[l].Footprint();
    assert FilesOf(d)[k] in cat[k].Footprint();
  }

  /** Creating a file and removing it again gives back every sector and every name. */
  lemma CreateThenRemove(d: Image, d1: Image, d2: Image, k: Name, size: nat, ok: bool)
    requires CreateStep(d, d1, k, size, true) && size <= MAX_FILE_SIZE && RemoveStep(d1, d2, k, ok)
    ensures ok && FsInv(d2) && Allocated(d2) == Allocated(d)
    ensures FilesOf(d2) == FilesOf(d) && Abs(d2) == Abs(d)
  {
    var sector, h :| Created(d, d1, k, size, sector, h);
    CreatedKeepsInv(d, d1, k, size, sector, h);
    RemovedKeepsInv(d1, d2, k);
    CreatedBack(d, d1, d2, k, sector, h);
  }

  lemma CreatedBack(d: Image, d1: Image, d2: Image, k: Name, sector: int, h: Header)
    requires FsInv(d) && FsInv(d1) && FsInv(d2) && k !in FilesOf(d) && 0 <= sector < NUM_SECTORS
    requires WfHeader(h) && sector !in Allocated(d) && DataSet(h) !! Allocated(d) + {sector}
    requires FilesOf(d1) == FilesOf(d)[k := sector] && HeaderAt(d1, sector) == h
    requires Allocated(d1) == Allocated(d) + ({sector} + DataSet(h)) && Abs(d1) == Abs(d)[k := Content(d, h)]
    requires Allocated(d2) == Allocated(d1) - FileAt(d1, sector).Footprint()
    requires FilesOf(d2) == FilesOf(d1) - {k} && Abs(d2) == Abs(d1) - {k}
    ensures Allocated(d2) == Allocated(d) && FilesOf(d2) == FilesOf(d) && Abs(d2) == Abs(d)
  {
    AbsAt(d, k);
    PutAway(FilesOf(d), k, sector);
    PutAway(Abs(d), k, Content(d, h));
  }

  lemma PutAway<V(!new)>(m: map<Name, V>, k: Name, v: V)
    requires k !in m
    ensures m[k := v] - {k} == m
  {
  }

  /** Headers of files stay where they are when only system files and free sectors change. */
  lemma HeaderStays(d: Image, d': Image, also: set<int>, l: Name)
    requires FsInv(d) && OnlySystem(d, d', also) && also !! Allocated(d) && l in FilesOf(d)
    ensures d'[FilesOf(d)[l]] == d[FilesOf(d)[l]]
  {
    OwnedPart(Catalog(d, FilesOf(d)), SysSet(d), Allocated(d), l);
    assert FilesOf(d)[l] in Catalog(d, FilesOf(d))[l].Footprint();
  }

  lemma RemoveRefines(d: Image, d': Image, k: Name, ok: bool)
    requires FsInv(d) && RemoveStep(d, d', k, ok)
    ensures FsInv(d') && (ok <==> k in Abs(d)) && Abs(d') == Abs(d) - {k}
    ensures FilesOf(d') == FilesOf(d) - {k}
    ensures forall l :: l in FilesOf(d) ==> d'[FilesOf(d)[l]] == d[FilesOf(d)[l]]
  {
    AbsAt(d, k);
    if ok {
      RemovedKeepsInv(d, d', k);
      HeadersStay(d, d', {});
    } else {
      NothingToRemove(Abs(d), k);
      NothingToRemove(FilesOf(d), k);
    }
  }

  lemma NothingToRemove<V(!new)>(m: map<Name, V>, k: Name)
    requires k !in m
    ensures m - {k} == m
  {
  }

  lemma HeadersStay(d: Image, d': Image, also: set<int>)
    requires FsInv(d) && OnlySystem(d, d', also) && also !! Allocated(d)
    ensures forall l :: l in FilesOf(d) ==> d'[FilesOf(d)[l]] == d[FilesOf(d)[l]]
  {
    forall l | l in FilesOf(d) ensures d'[FilesOf(d)[l]] == d[FilesOf(d)[l]] {
      HeaderStays(d, d', also, l);
    }
  }

  lemma WriteRefines(d: Image, d': Image, k: Name, data: seq<byte>, pos: nat, n: nat)
    requires FsInv(d) && k in FilesOf(d)
    requires WriteStep(d, d', HeaderAt(d, FilesOf(d)[k]), data, pos, n)
    ensures FsInv(d') && k in Abs(d) && n == Clip(|data|, pos, |Abs(d)[k]|)
    ensures Abs(d') == Abs(d)[k := Overwrite(Abs(d)[k], data, pos)]
    ensures FilesOf(d') == FilesOf(d) && MapHdr(d') == MapHdr(d) && DirHdr(d') == DirHdr(d)
  {
    AbsAt(d, k);
    if n == 0 {
      PutBack(Abs(d), k, Abs(d)[k]);
    } else {
      WrittenKeepsInv(d, d', k);
    }
  }

  lemma WriteKeepsHeaders(d: Image, d': Image, k: Name)
    requires FsInv(d) && k in FilesOf(d)
    requires forall s :: 0 <= s < NUM_SECTORS && s !in DataSet(HeaderAt(d, FilesOf(d)[k])) ==> d'[s] == d[s]
    ensures forall l :: l in FilesOf(d) ==> d'[FilesOf(d)[l]] == d[FilesOf(d)[l]]
  {
    forall l | l in FilesOf(d) ensures d'[FilesOf(d)[l]] == d[FilesOf(d)[l]] {
      HeaderNotData(d, k, l);
    }
  }

  /** No file's header is a data sector of a file. */
  lemma HeaderNotData(d: Image, k: Name, l: Name)
    requires FsInv(d) && k in FilesOf(d) && l in FilesOf(d)
    ensures FilesOf(d)[l] !in DataSet(HeaderAt(d, FilesOf(d)[k]))
  {
    var cat := Catalog(d, FilesOf(d));
    if l != k {
      assert cat[l].Footprint() !! cat[k].Footprint();
      assert FilesOf(d)[l] in cat[l].Footprint();
      assert cat[k].data <= cat[k].Footprint();
    }
  }

  /** Each call leaves the headers of the files it does not remove as they were. */
  ghost predicate HdrsKept(v: Volume, v': Volume, except: set<Name>) {
    forall l :: l in v.hdrs && l !in except ==> l in v'.hdrs && v'.hdrs[l] == v.hdrs[l]
  }

  lemma VolumeCreate(d: Image, d': Image, k: Name, size: nat, ok: bool)
    requires VolumeOf(d).sound && size <= MAX_FILE_SIZE && CreateStep(d, d', k, size, ok)
    ensures VolumeOf(d').sound && HdrsKept(VolumeOf(d), VolumeOf(d'), {})
    ensures ok <==> k !in VolumeOf(d).files && |VolumeOf(d).files| < NUM_DIR_ENTRIES
    ensures !ok ==> d' == d
    ensures ok ==> k in VolumeOf(d').files && |VolumeOf(d').files[k]| == size
    ensures ok ==> VolumeOf(d').files == VolumeOf(d).files[k := VolumeOf(d').files[k]]
  {
    CreateRefines(d, d', k, size, ok);
  }

  lemma VolumeRemove(d: Image, d': Image, k: Name, ok: bool)
    requires VolumeOf(d).sound && RemoveStep(d, d', k, ok)
    ensures VolumeOf(d').sound && HdrsKept(VolumeOf(d), VolumeOf(d'), {k})
    ensures ok <==> k in VolumeOf(d).files
    ensures VolumeOf(d').files == VolumeOf(d).files - {k}
  {
    RemoveRefines(d, d', k, ok);
  }

  lemma ReadIsSlice(d: Image, h: Header, numBytes: int, pos: nat, result: seq<byte>)
    requires ReadStep(d, h, numBytes, pos, result)
    ensures WfHeader(h) && result == Slice(Content(d, h), numBytes, pos)
  {
  }

  lemma VolumeRead(d: Image, k: Name, numBytes: int, pos: nat, result: seq<byte>)
    requires VolumeOf(d).sound && k in VolumeOf(d).hdrs
    requires ReadStep(d, VolumeOf(d).hdrs[k], numBytes, pos, result)
    ensures k in VolumeOf(d).files && result == Slice(VolumeOf(d).files[k], numBytes, pos)
  {
    ReadIsSlice(d, VolumeOf(d).hdrs[k], numBytes, pos, result);
    AbsAt(d, k);
  }

  lemma VolumeWrite(d: Image, d': Image, k: Name, data: seq<byte>, pos: nat, n: nat)
    requires VolumeOf(d).sound && k in VolumeOf(d).hdrs
    requires WriteStep(d, d', VolumeOf(d).hdrs[k], data, pos, n)
    ensures VolumeOf(d').sound && HdrsKept(VolumeOf(d), VolumeOf(d'), {})
    ensures k in VolumeOf(d).files && n == Clip(|data|, pos, |VolumeOf(d).files[k]|)
    ensures VolumeOf(d').files == VolumeOf(d).files[k := Overwrite(VolumeOf(d).files[k], data, pos)]
  {
    WriteRefines(d, d', k, data, pos, n);
    WriteKeepsHeaders(d, d', k);
  }

  lemma WriteKeepsSystem(d: Image, d': Image, k: Name, data: seq<byte>, pos: nat, n: nat)
    requires VolumeOf(d).sound && k in VolumeOf(d).hdrs
    requires WriteStep(d, d', VolumeOf(d).hdrs[k], data, pos, n)
    ensures FsInv(d') && MapHdr(d') == MapHdr(d) && DirHdr(d') == DirHdr(d)
  {
    WriteRefines(d, d', k, data, pos, n);
  }

  // ----- the refinement -----

  /** What every reachable state satisfies: the disk is sound and every open file
      holds the header that is on it. */
  ghost predicate RunInv(s: FsState) {
    && VolumeOf(s.disk).sound
    && forall id :: id in s.handles ==> HandleOk(VolumeOf(s.disk), s.handles[id])
  }

  ghost predicate HandleOk(v: Volume, h: Handle) {
    h.name in v.hdrs && h.hdr == v.hdrs[h.name]
  }

  ghost function Cursors(handles: map<nat, Handle>): map<nat, Cursor> {
    map id | id in handles :: Cursor(handles[id].name, handles[id].pos)
  }

  /** The abstract state a state on disk stands for. */
  ghost function View(s: FsState): AbsState {
    AbsState(VolumeOf(s.disk).files, Cursors(s.handles))
  }

  lemma CursorsPut(handles: map<nat, Handle>, id: nat, h: Handle)
    ensures Cursors(handles[id := h]) == Cursors(handles)[id := Cursor(h.name, h.pos)]
    ensures Cursors(handles - {id}) == Cursors(handles) - {id}
  {
  }

  lemma CursorsWithout(handles: map<nat, Handle>, k: Name)
    ensures Cursors(map id | id in handles && handles[id].name != k :: handles[id])
         == map id | id in Cursors(handles) && Cursors(handles)[id].name != k :: Cursors(handles)[id]
  {
  }

  lemma ReadWriteRefines(s: FsState, s': FsState, e: Event)
    requires RunInv(s) && Next(s, s', e) && (e.ReadAt? || e.Read? || e.WriteAt? || e.Write?)
    ensures RunInv(s') && AbsNext(View(s), View(s'), e)
  {
    hide VolumeOf, ReadStep, WriteStep, Slice, Overwrite;
    var h := s.handles[e.id];
    match e
    case ReadAt(id, numBytes, pos, result) =>
      VolumeRead(s.disk, h.name, numBytes, pos, result);
    case WriteAt(id, data, pos, n) =>
      VolumeWrite(s.disk, s'.disk, h.name, data, pos, n);
    case Read(id, numBytes, result) =>
      VolumeRead(s.disk, h.name, numBytes, h.pos, result);
      CursorsPut(s.handles, id, s'.handles[id]);
    case Write(id, data, n) =>
      VolumeWrite(s.disk, s'.disk, h.name, data, h.pos, n);
      CursorsPut(s.handles, id, s'.handles[id]);
  }

  lemma NameRefines(s: FsState, s': FsState, e: Event)
    requires RunInv(s) && Next(s, s', e) && !(e.ReadAt? || e.Read? || e.WriteAt? || e.Write?)
    ensures RunInv(s') && AbsNext(View(s), View(s'), e)
  {
    hide VolumeOf, CreateStep, RemoveStep;
    match e
    case Create(k, size, ok) =>
      VolumeCreate(s.disk, s'.disk, k, size, ok);
    case Remove(k, ok) =>
      VolumeRemove(s.disk, s'.disk, k, ok);
      CursorsWithout(s.handles, k);
    case Open(k, id, ok) =>
      VolumeKeys(s.disk);
      if ok { CursorsPut(s.handles, id, s'.handles[id]); }
    case Close(id) =>
      CursorsPut(s.handles, id, Handle(Header(0, 0, []), 0, Name([])));
    case Seek(id, pos) =>
      CursorsPut(s.handles, id, s'.handles[id]);
  }

  /** Every call refines its abstract counterpart and keeps the invariant. */
  lemma StepRefines(s: FsState, s': FsState, e: Event)
    requires RunInv(s) && Next(s, s', e)
    ensures RunInv(s') && AbsNext(View(s), View(s'), e)
  {
    hide *;
    if e.ReadAt? || e.Read? || e.WriteAt? || e.Write? {
      ReadWriteRefines(s, s', e);
    } else {
      NameRefines(s, s', e);
    }
  }

  lemma VolumeKeys(d: Image)
    ensures VolumeOf(d).hdrs.Keys == VolumeOf(d).files.Keys
  {
  }

  /** A run: it starts on a freshly formatted disk, and each state follows by a call. */
  ghost predicate Run(states: seq<FsState>, events: seq<Event>) {
    && |states| == |events| + 1
    && VolumeOf(states[0].disk) == Volume(true, map[], map[]) && states[0].handles == map[]
    && forall i :: 0 <= i < |events| ==> Next(states[i], states[i + 1], events[i])
  }

  /** In every state of every run the invariant holds, and the calls are those of
      the map of byte strings. */
  lemma {:induction false} RunRefines(states: seq<FsState>, events: seq<Event>, n: nat)
    requires Run(states, events) && n <= |events|
    ensures forall i :: 0 <= i <= n ==> RunInv(states[i])
    ensures forall i :: 0 <= i < n ==> AbsNext(View(states[i]), View(states[i + 1]), events[i])
  {
    hide VolumeOf, Next, AbsNext, View;
    if n > 0 {
      RunRefines(states, events, n - 1);
      StepRefines(states[n - 1], states[n], events[n - 1]);
    }
  }
}
