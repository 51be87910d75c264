/** The three ways the file system changes a formatted disk, each described by
    the sectors and system files it rewrites, and what each does to the
    invariant and to the abstract file system. */
module FsSteps {
  import opened Words
  import opened BitMaps
  import opened DiskLayout
  import opened SlotTables
  import opened Directories
  import opened Ownership
  import opened FsImage

  // ----- what depends on which sectors -----

  /** A file whose sectors are left alone stays as it is. */
  lemma FileFrame(d: Image, d': Image, s: int)
    requires HeaderOk(d, s) && forall x :: x in FileAt(d, s).Footprint() ==> d'[x] == d[x]
    ensures HeaderOk(d', s) && FileAt(d', s) == FileAt(d, s)
  {
    assert s in FileAt(d, s).Footprint();
    ContentFrame(d, d', HeaderAt(d, s));
  }

  lemma CatalogFrame(d: Image, d': Image, files: map<Name, int>)
    requires HeadersOk(d, files)
    requires forall k, x :: k in files && x in FileAt(d, files[k]).Footprint() ==> d'[x] == d[x]
    ensures HeadersOk(d', files) && Catalog(d', files) == Catalog(d, files)
  {
    forall k | k in files ensures HeaderOk(d', files[k]) && FileAt(d', files[k]) == FileAt(d, files[k]) {
      FileFrame(d, d', files[k]);
    }
  }

  lemma CatalogPlus(d: Image, files: map<Name, int>, k: Name, s: int)
    requires HeadersOk(d, files) && HeaderOk(d, s)
    ensures HeadersOk(d, files[k := s])
    ensures Catalog(d, files[k := s]) == Catalog(d, files)[k := FileAt(d, s)]
  {
  }

  lemma CatalogMinus(d: Image, files: map<Name, int>, k: Name)
    requires HeadersOk(d, files)
    ensures HeadersOk(d, files - {k})
    ensures Catalog(d, files - {k}) == Catalog(d, files) - {k}
  {
    hide FileAt, HeaderOk;
  }

  lemma ContentsPlus(cat: map<Name, FileRec<seq<byte>>>, k: Name, r: FileRec<seq<byte>>)
    ensures ContentsOf(cat[k := r]) == ContentsOf(cat)[k := r.content]
    ensures ContentsOf(cat - {k}) == ContentsOf(cat) - {k}
  {
  }

  /** Outside the data sectors of the two system files and `also`, nothing changed. */
  ghost predicate OnlySystem(d: Image, d': Image, also: set<int>)
    requires SysOk(d)
  {
    forall s :: 0 <= s < NUM_SECTORS && s !in also && s !in DataSet(MapHdr(d)) && s !in DataSet(DirHdr(d))
      ==> d'[s] == d[s]
  }

  /** `d'` holds the given directory and bitmap in the system files of `d`. */
  ghost predicate SystemHolds(d: Image, d': Image, files: map<Name, int>, alloc: set<int>)
    requires SysOk(d)
  {
    && WfTable(DecodeTable(Content(d', DirHdr(d))))
    && Files(DecodeTable(Content(d', DirHdr(d)))) == files
    && MarkedSet(DecodeWords(Content(d', MapHdr(d))), NUM_SECTORS) == alloc
  }

  lemma SystemFrame(d: Image, d': Image, also: set<int>, files: map<Name, int>, alloc: set<int>)
    requires SysOk(d) && OnlySystem(d, d', also) && 0 !in also && 1 !in also
    requires SystemHolds(d, d', files, alloc)
    ensures TableOk(d') && MapHdr(d') == MapHdr(d) && DirHdr(d') == DirHdr(d)
    ensures FilesOf(d') == files && Allocated(d') == alloc && SysSet(d') == SysSet(d)
  {
    assert d'[0] == d[0] && d'[1] == d[1];
  }

  lemma SystemUntouched(d: Image, d': Image)
    requires TableOk(d) && forall x :: x in SysSet(d) ==> d'[x] == d[x]
    ensures TableOk(d') && FilesOf(d') == FilesOf(d)
    ensures MapHdr(d') == MapHdr(d) && DirHdr(d') == DirHdr(d)
    ensures Allocated(d') == Allocated(d) && SysSet(d') == SysSet(d)
  {
    assert 0 in SysSet(d) && 1 in SysSet(d);
    ContentFrame(d, d', MapHdr(d));
    ContentFrame(d, d', DirHdr(d));
  }

  /** Rewriting system sectors and free sectors leaves every file as it is. */
  lemma FilesUntouched(d: Image, d': Image, files: map<Name, int>, sys: set<int>, alloc: set<int>, also: set<int>)
    requires SpaceOk(d, files, sys, alloc) && also !! alloc
    requires forall s :: 0 <= s < NUM_SECTORS && s !in also && s !in sys ==> d'[s] == d[s]
    ensures HeadersOk(d', files) && Catalog(d', files) == Catalog(d, files)
  {
    var cat := Catalog(d, files);
    forall k, x | k in files && x in FileAt(d, files[k]).Footprint() ensures d'[x] == d[x] {
      OwnedPart(cat, sys, alloc, k);
      assert x in cat[k].Footprint();
    }
    CatalogFrame(d, d', files);
  }

  // ----- creating a file -----

  lemma NewFile(d: Image, d': Image, sys: set<int>, sector: int, h: Header)
    requires 0 <= sector < NUM_SECTORS && WfHeader(h) && HeaderAt(d', sector) == h
    requires DataSet(h) !! sys + {sector}
    requires forall s :: 0 <= s < NUM_SECTORS && s != sector && s !in sys ==> d'[s] == d[s]
    ensures HeaderOk(d', sector) && FileAt(d', sector) == FileRec(sector, DataSet(h), Content(d, h))
  {
    ContentFrame(d, d', h);
  }

  lemma CreateInSpace(d: Image, d': Image, files: map<Name, int>, sys: set<int>, alloc: set<int>,
                      k: Name, sector: int, h: Header)
    requires SpaceOk(d, files, sys, alloc) && k !in files
    requires 0 <= sector < NUM_SECTORS && sector !in alloc
    requires WfHeader(h) && DataSet(h) !! alloc + {sector} && HeaderAt(d', sector) == h
    requires forall s :: 0 <= s < NUM_SECTORS && s != sector && s !in sys ==> d'[s] == d[s]
    ensures SpaceOk(d', files[k := sector], sys, alloc + ({sector} + DataSet(h)))
    ensures AbsOf(d', files[k := sector]) == AbsOf(d, files)[k := Content(d, h)]
  {
    var cat, r := Catalog(d, files), FileRec(sector, DataSet(h), Content(d, h));
    assert sys <= alloc;
    FilesUntouched(d, d', files, sys, alloc, {sector});
    NewFile(d, d', sys, sector, h);
    CatalogPlus(d', files, k, sector);
    OwnedAdd(cat, sys, alloc, k, r);
    ContentsPlus(cat, k, r);
  }

  // ----- removing a file -----

  lemma RemoveInSpace(d: Image, d': Image, files: map<Name, int>, sys: set<int>, alloc: set<int>, k: Name)
    requires SpaceOk(d, files, sys, alloc) && k in files
    requires forall s :: 0 <= s < NUM_SECTORS && s !in sys ==> d'[s] == d[s]
    ensures SpaceOk(d', files - {k}, sys, alloc - FileAt(d, files[k]).Footprint())
    ensures AbsOf(d', files - {k}) == AbsOf(d, files) - {k}
  {
    var cat := Catalog(d, files);
    FilesUntouched(d, d', files, sys, alloc, {});
    CatalogMinus(d', files, k);
    OwnedRemove(cat, sys, alloc, k);
    ContentsPlus(cat, k, cat[k]);
  }

  // ----- writing a file -----

  lemma PutBack<K(!new), V(!new)>(m: map<K, V>, k: K, v: V)
    ensures (m - {k})[k := v] == m[k := v]
    ensures k in m ==> m[k := m[k]] == m
  {
  }

  /** Writing one file touches no other file. */
  lemma WriteElsewhere(d: Image, d': Image, files: map<Name, int>, sys: set<int>, alloc: set<int>, k: Name)
    requires SpaceOk(d, files, sys, alloc) && k in files
    requires forall s :: 0 <= s < NUM_SECTORS && s !in FileAt(d, files[k]).data ==> d'[s] == d[s]
    ensures HeadersOk(d', files - {k}) && Catalog(d', files - {k}) == Catalog(d, files) - {k}
  {
    CatalogMinus(d, files, k);
    forall l, x | l in files - {k} && x in FileAt(d, files[l]).Footprint() ensures d'[x] == d[x] {
      NotInOther(d, files, sys, alloc, k, l, x);
    }
    CatalogFrame(d, d', files - {k});
  }

  lemma NotInOther(d: Image, files: map<Name, int>, sys: set<int>, alloc: set<int>, k: Name, l: Name, x: int)
    requires SpaceOk(d, files, sys, alloc) && k in files && l in files && l != k && x in FileAt(d, files[l]).Footprint()
    ensures 0 <= x < NUM_SECTORS && x !in FileAt(d, files[k]).data
  {
    var cat := Catalog(d, files);
    assert cat[l].Footprint() !! cat[k].Footprint();
  }

  lemma WriteOutsideSystem(d: Image, d': Image, files: map<Name, int>, sys: set<int>, alloc: set<int>, k: Name)
    requires SpaceOk(d, files, sys, alloc) && k in files
    requires forall s :: 0 <= s < NUM_SECTORS && s !in FileAt(d, files[k]).data ==> d'[s] == d[s]
    ensures forall x :: x in sys && 0 <= x < NUM_SECTORS ==> d'[x] == d[x]
  {
    OwnedPart(Catalog(d, files), sys, alloc, k);
  }

  lemma WrittenFile(d: Image, d': Image, s: int)
    requires HeaderOk(d, s)
    requires forall x :: 0 <= x < NUM_SECTORS && x !in FileAt(d, s).data ==> d'[x] == d[x]
    ensures HeaderOk(d', s) && FileAt(d', s) == FileAt(d, s).(content := Content(d', HeaderAt(d, s)))
  {
  }

  lemma WriteInSpace(d: Image, d': Image, files: map<Name, int>, sys: set<int>, alloc: set<int>, k: Name)
    requires SpaceOk(d, files, sys, alloc) && k in files
    requires forall s :: 0 <= s < NUM_SECTORS && s !in FileAt(d, files[k]).data ==> d'[s] == d[s]
    ensures SpaceOk(d', files, sys, alloc)
    ensures AbsOf(d', files) == AbsOf(d, files)[k := Content(d', HeaderAt(d, files[k]))]
  {
    var cat, s := Catalog(d, files), files[k];
    var c := Content(d', HeaderAt(d, s));
    WriteElsewhere(d, d', files, sys, alloc, k);
    WrittenFile(d, d', s);
    CatalogPlus(d', files - {k}, k, s);
    PutBack(files, k, s);
    PutBack(cat, k, FileAt(d', s));
    OwnedRewrite(cat, sys, alloc, k, c);
    ContentsPlus(cat, k, FileAt(d', s));
  }

  // ----- the three changes on a whole formatted disk -----

  /** A file of `size` bytes now has its header in `sector`, its data in free
      sectors, a directory entry and its bits in the map; nothing else changed. */
  ghost predicate Created(d: Image, d': Image, k: Name, size: int, sector: int, h: Header)
    requires FsInv(d)
  {
    && 0 <= sector < NUM_SECTORS && sector !in Allocated(d)
    && WfHeader(h) && h.numBytes == size && DataSet(h) !! Allocated(d) + {sector}
    && HeaderAt(d', sector) == h
    && OnlySystem(d, d', {sector})
    && SystemHolds(d, d', FilesOf(d)[k := sector], Allocated(d) + ({sector} + DataSet(h)))
  }

  lemma FreeNotSystem(d: Image, s: int)
    requires FsInv(d) && s !in Allocated(d)
    ensures s !in DataSet(MapHdr(d)) && s !in DataSet(DirHdr(d)) && s != 0 && s != 1
  {
    OwnedSystem(Catalog(d, FilesOf(d)), SysSet(d), Allocated(d));
    assert s !in SysSet(d);
  }

  lemma CreatedSystem(d: Image, d': Image, k: Name, size: int, sector: int, h: Header)
    requires FsInv(d) && Created(d, d', k, size, sector, h)
    ensures TableOk(d') && SysSet(d') == SysSet(d) && FilesOf(d') == FilesOf(d)[k := sector]
    ensures MapHdr(d') == MapHdr(d) && DirHdr(d') == DirHdr(d)
    ensures Allocated(d') == Allocated(d) + ({sector} + DataSet(h))
  {
    FreeNotSystem(d, sector);
    SystemFrame(d, d', {sector}, FilesOf(d)[k := sector], Allocated(d) + ({sector} + DataSet(h)));
  }

  lemma CreatedKeepsInv(d: Image, d': Image, k: Name, size: int, sector: int, h: Header)
    requires FsInv(d) && k !in FilesOf(d) && Created(d, d', k, size, sector, h)
    ensures FsInv(d') && Allocated(d') == Allocated(d) + ({sector} + DataSet(h))
    ensures FilesOf(d') == FilesOf(d)[k := sector]
    ensures MapHdr(d') == MapHdr(d) && DirHdr(d') == DirHdr(d)
    ensures Abs(d') == Abs(d)[k := Content(d, h)]
  {
    CreatedSystem(d, d', k, size, sector, h);
    CreateInSpace(d, d', FilesOf(d), SysSet(d), Allocated(d), k, sector, h);
  }

  ghost predicate Removed(d: Image, d': Image, k: Name)
    requires FsInv(d) && k in FilesOf(d)
  {
    && OnlySystem(d, d', {})
    && SystemHolds(d, d', FilesOf(d) - {k}, Allocated(d) - FileAt(d, FilesOf(d)[k]).Footprint())
  }

  lemma RemovedKeepsInv(d: Image, d': Image, k: Name)
    requires FsInv(d) && k in FilesOf(d) && Removed(d, d', k)
    ensures FsInv(d') && Allocated(d') == Allocated(d) - FileAt(d, FilesOf(d)[k]).Footprint()
    ensures FilesOf(d') == FilesOf(d) - {k}
    ensures MapHdr(d') == MapHdr(d) && DirHdr(d') == DirHdr(d)
    ensures Abs(d') == Abs(d) - {k}
  {
    var files, sys, alloc := FilesOf(d), SysSet(d), Allocated(d);
    SystemFrame(d, d', {}, files - {k}, alloc - FileAt(d, files[k]).Footprint());
    RemoveInSpace(d, d', files, sys, alloc, k);
  }

  /** Only data sectors of file `k` changed. */
  ghost predicate Written(d: Image, d': Image, k: Name)
    requires FsInv(d) && k in FilesOf(d)
  {
    forall s :: 0 <= s < NUM_SECTORS && s !in FileAt(d, FilesOf(d)[k]).data ==> d'[s] == d[s]
  }

  lemma WrittenKeepsInv(d: Image, d': Image, k: Name)
    requires FsInv(d) && k in FilesOf(d) && Written(d, d', k)
    ensures FsInv(d') && Allocated(d') == Allocated(d) && FilesOf(d') == FilesOf(d)
    ensures MapHdr(d') == MapHdr(d) && DirHdr(d') == DirHdr(d)
    ensures Abs(d') == Abs(d)[k := Content(d', HeaderAt(d, FilesOf(d)[k]))]
  {
    var files, sys, alloc := FilesOf(d), SysSet(d), Allocated(d);
    WriteOutsideSystem(d, d', files, sys, alloc, k);
    SystemUntouched(d, d');
    WriteInSpace(d, d', files, sys, alloc, k);
  }

  // ----- how much room there is -----

  lemma FileSize(d: Image, s: int)
    requires HeaderOk(d, s)
    ensures |FileAt(d, s).Footprint()| == 1 + DivRoundUp(|FileAt(d, s).content|, SECTOR_SIZE) <= 31
  {
    DataSetSize(HeaderAt(d, s));
  }

  lemma SystemSize(d: Image)
    requires SysOk(d)
    ensures |SysSet(d)| == 5
  {
    DataSetSize(MapHdr(d));
    DataSetSize(DirHdr(d));
  }

  lemma SpaceUsed(d: Image, files: map<Name, int>, sys: set<int>, alloc: set<int>)
    requires SpaceOk(d, files, sys, alloc)
    ensures |alloc| <= |sys| + 31 * |files|
  {
    var cat := Catalog(d, files);
    forall k | k in cat ensures |cat[k].Footprint()| <= 31 {
      FileSize(d, files[k]);
    }
    UnionSize(cat, 31);
    assert cat.Keys == files.Keys;
    assert |cat.Keys| == |cat| && |files.Keys| == |files|;
    assert alloc == sys + UnionOf(cat);
  }

  /** A formatted disk never runs out of sectors before the directory runs out
      of entries. */
  lemma SpaceSuffices(d: Image)
    requires FsInv(d)
    ensures |FilesOf(d)| <= NUM_DIR_ENTRIES
    ensures |Allocated(d)| <= 5 + 31 * |FilesOf(d)|
  {
    SystemSize(d);
    SpaceUsed(d, FilesOf(d), SysSet(d), Allocated(d));
    EntriesCount(Slots(TableOf(d)));
  }
}
