/** code/filesys/filesys.cc: formatting a disk, and creating, opening and removing
    files on it.  The bitmap and the directory are files of the disk they describe. */
module FileSystems {
  import opened Words
  import opened BitMaps
  import opened DiskLayout
  import opened OpenFiles
  import opened Directories
  import opened Ownership
  import opened FsImage
  import opened FsSteps

  // ----- the system files: BitMap and Directory FetchFrom and WriteBack -----

  /** Writing a whole file's worth of bytes at its start replaces its contents. */
  lemma SpliceAll(c: seq<byte>, image: seq<byte>, n: nat)
    requires |image| == |c| == n
    ensures Splice(c, 0, image[..n]) == image
  {
    assert image[..n] == image;
  }

  method FetchMap(file: OpenFile) returns (freeMap: BitMap)
    requires file.Valid() && file.hdr.numBytes == FREE_MAP_FILE_SIZE
    ensures fresh(freeMap) && fresh(freeMap.map_) && freeMap.Valid() && freeMap.numBits == NUM_SECTORS
    ensures freeMap.map_[..] == DecodeWords(file.Contents())
  {
    freeMap := new BitMap(NUM_SECTORS);
    var buf := new byte[FREE_MAP_FILE_SIZE];
    var n := file.ReadAt(buf, 0, FREE_MAP_FILE_SIZE, 0);
    assert buf[..] == file.Contents();
    freeMap.Load(buf[..]);
  }

  /** What is written back is what the next fetch finds. */
  method WriteBackMap(file: OpenFile, freeMap: BitMap)
    requires file.Valid() && file.hdr.numBytes == FREE_MAP_FILE_SIZE
    requires freeMap.Valid() && freeMap.numBits == NUM_SECTORS
    modifies file.disk.sectors
    ensures DecodeWords(file.Contents()) == freeMap.map_[..]
    ensures forall s :: 0 <= s < NUM_SECTORS && s !in DataSet(file.hdr.Value()) ==>
      file.disk.Value()[s] == old(file.disk.Value())[s]
  {
    var image := EncodeWords(freeMap.map_[..]);
    SpliceAll(file.Contents(), image, FREE_MAP_FILE_SIZE);
    var n := file.WriteAt(image, FREE_MAP_FILE_SIZE, 0);
    WordsRoundTrip(freeMap.map_[..]);
  }

  method FetchDirectory(file: OpenFile) returns (directory: Directory)
    requires file.Valid() && file.hdr.numBytes == DIRECTORY_FILE_SIZE
    ensures fresh(directory) && fresh(directory.table) && directory.table.Length == NUM_DIR_ENTRIES
    ensures directory.table[..] == DecodeTable(file.Contents())
  {
    directory := new Directory(NUM_DIR_ENTRIES);
    var buf := new byte[DIRECTORY_FILE_SIZE];
    var n := file.ReadAt(buf, 0, DIRECTORY_FILE_SIZE, 0);
    assert buf[..] == file.Contents();
    directory.Load(buf[..]);
  }

  method WriteBackDirectory(file: OpenFile, directory: Directory)
    requires file.Valid() && file.hdr.numBytes == DIRECTORY_FILE_SIZE
    requires directory.table.Length == NUM_DIR_ENTRIES
    modifies file.disk.sectors
    ensures DecodeTable(file.Contents()) == directory.table[..]
    ensures forall s :: 0 <= s < NUM_SECTORS && s !in DataSet(file.hdr.Value()) ==>
      file.disk.Value()[s] == old(file.disk.Value())[s]
  {
    var image := EncodeTable(directory.table[..]);
    SpliceAll(file.Contents(), image, DIRECTORY_FILE_SIZE);
    var n := file.WriteAt(image, DIRECTORY_FILE_SIZE, 0);
    TableRoundTrip(directory.table[..]);
  }

  /** Nothing changed outside the two files, and they hold the given words and table. */
  ghost predicate BothHold(d: Image, d': Image, mh: Header, dh: Header, ws: seq<word>, t: seq<DirectoryEntry>)
    requires WfHeader(mh) && WfHeader(dh)
  {
    && (forall s :: 0 <= s < NUM_SECTORS && s !in DataSet(mh) && s !in DataSet(dh) ==> d'[s] == d[s])
    && DecodeWords(Content(d', mh)) == ws
    && DecodeTable(Content(d', dh)) == t
  }

  /** Writes both system files back, in either order. */
  method WriteBackBoth(mapFile: OpenFile, dirFile: OpenFile, freeMap: BitMap, directory: Directory, mapFirst: bool)
    requires mapFile.Valid() && mapFile.hdr.numBytes == FREE_MAP_FILE_SIZE
    requires dirFile.Valid() && dirFile.hdr.numBytes == DIRECTORY_FILE_SIZE
    requires mapFile.disk == dirFile.disk && DataSet(mapFile.hdr.Value()) !! DataSet(dirFile.hdr.Value())
    requires freeMap.Valid() && freeMap.numBits == NUM_SECTORS && directory.table.Length == NUM_DIR_ENTRIES
    modifies mapFile.disk.sectors
    ensures BothHold(old(mapFile.disk.Value()), mapFile.disk.Value(), mapFile.hdr.Value(), dirFile.hdr.Value(),
                     freeMap.map_[..], directory.table[..])
  {
    if mapFirst {
      WriteBackMap(mapFile, freeMap);
      ghost var d := mapFile.disk.Value();
      WriteBackDirectory(dirFile, directory);
      ContentFrame(d, mapFile.disk.Value(), mapFile.hdr.Value());
    } else {
      WriteBackDirectory(dirFile, directory);
      ghost var d := mapFile.disk.Value();
      WriteBackMap(mapFile, freeMap);
      ContentFrame(d, mapFile.disk.Value(), dirFile.hdr.Value());
    }
  }

  /** In terms of the system files of a whole disk. */
  lemma BothHoldSystem(d: Image, d0: Image, d': Image, also: set<int>, ws: seq<word>, t: seq<DirectoryEntry>)
    requires SysOk(d) && BothHold(d0, d', MapHdr(d), DirHdr(d), ws, t) && WfTable(t) && |ws| == 32
    requires forall s :: 0 <= s < NUM_SECTORS && s !in also ==> d0[s] == d[s]
    ensures OnlySystem(d, d', also) && SystemHolds(d, d', Files(t), MarkedSet(ws, NUM_SECTORS))
  {
  }

  // ----- formatting -----

  /** Places the two system files: sectors 0 and 1 for their headers, and the
      lowest sectors left for their data. */
  method PlaceSystem(freeMap: BitMap) returns (mapHdr: FileHeader, dirHdr: FileHeader)
    requires freeMap.Valid() && freeMap.numBits == NUM_SECTORS && freeMap.Contents() == {}
    modifies freeMap.map_
    ensures fresh(mapHdr) && fresh(dirHdr)
    ensures WfHeader(mapHdr.Value()) && mapHdr.numBytes == FREE_MAP_FILE_SIZE
    ensures WfHeader(dirHdr.Value()) && dirHdr.numBytes == DIRECTORY_FILE_SIZE
    ensures SystemPlaced(DataSet(mapHdr.Value()), DataSet(dirHdr.Value()), freeMap.Contents())
  {
    hide DataSet, MarkedSet, WfHeader;
    mapHdr := new FileHeader();
    dirHdr := new FileHeader();
    freeMap.Mark(FREE_MAP_SECTOR);
    freeMap.Mark(DIRECTORY_SECTOR);
    assert freeMap.Contents() == {0, 1};
    var mapFits := mapHdr.Allocate(freeMap, FREE_MAP_FILE_SIZE);
    assert mapFits;
    ghost var h := mapHdr.Value();
    ThreeMarked(h, freeMap.Contents());
    var dirFits := dirHdr.Allocate(freeMap, DIRECTORY_FILE_SIZE);
    assert dirFits && mapHdr.Value() == h;
  }

  lemma ThreeMarked(h: Header, marked: set<int>)
    requires WfHeader(h) && h.numBytes == FREE_MAP_FILE_SIZE && marked == {0, 1} + DataSet(h)
    ensures |marked| <= 3
  {
    DataSetSize(h);
  }

  ghost predicate SystemPlaced(mapData: set<int>, dirData: set<int>, marked: set<int>) {
    && mapData !! dirData && 0 !in mapData && 1 !in mapData && 0 !in dirData && 1 !in dirData
    && marked == {0, 1} + mapData + dirData
  }

  lemma EmptyTable(t: seq<DirectoryEntry>)
    requires forall i :: 0 <= i < |t| ==> !t[i].inUse
    ensures WfTable(t) && Files(t) == map[]
  {
  }

  lemma EmptySpace(d: Image, sys: set<int>)
    ensures SpaceOk(d, map[], sys, sys) && AbsOf(d, map[]) == map[]
  {
    assert Catalog(d, map[]) == map[];
    assert UnionOf(Catalog(d, map[])) == {};
  }

  lemma SystemInPlace(d: Image, mh: Header, dh: Header, marked: set<int>)
    requires MapHdr(d) == mh && WfHeader(mh) && mh.numBytes == FREE_MAP_FILE_SIZE
    requires DirHdr(d) == dh && WfHeader(dh) && dh.numBytes == DIRECTORY_FILE_SIZE
    requires SystemPlaced(DataSet(mh), DataSet(dh), marked)
    ensures SysOk(d) && SysSet(d) == marked
  {
  }

  lemma FormattedDisk(d: Image, d': Image, sys: set<int>)
    requires SysOk(d) && SysSet(d) == sys && OnlySystem(d, d', {}) && SystemHolds(d, d', map[], sys)
    ensures FsInv(d') && Abs(d') == map[]
  {
    SystemFrame(d, d', {}, map[], sys);
    EmptySpace(d', sys);
  }

  /** Writes the headers of the system files to their well-known sectors. */
  method WriteSystemHeaders(disk: SynchDisk, mapHdr: FileHeader, dirHdr: FileHeader, ghost marked: set<int>)
    requires disk.Valid()
    requires WfHeader(mapHdr.Value()) && mapHdr.numBytes == FREE_MAP_FILE_SIZE
    requires WfHeader(dirHdr.Value()) && dirHdr.numBytes == DIRECTORY_FILE_SIZE
    requires SystemPlaced(DataSet(mapHdr.Value()), DataSet(dirHdr.Value()), marked)
    modifies disk.sectors
    ensures SysOk(disk.Value()) && SysSet(disk.Value()) == marked
  {
    mapHdr.WriteBack(disk, FREE_MAP_SECTOR);
    dirHdr.WriteBack(disk, DIRECTORY_SECTOR);
    SystemInPlace(disk.Value(), mapHdr.Value(), dirHdr.Value(), marked);
  }

  /** Lays out the system files on a disk that may hold anything. */
  method Format(disk: SynchDisk)
    requires disk.Valid()
    modifies disk.sectors
    ensures FsInv(disk.Value()) && Abs(disk.Value()) == map[]
  {
    var freeMap := new BitMap(NUM_SECTORS);
    var directory := new Directory(NUM_DIR_ENTRIES);
    var mapHdr, dirHdr := PlaceSystem(freeMap);
    WriteSystemHeaders(disk, mapHdr, dirHdr, freeMap.Contents());
    ghost var d := disk.Value();
    var freeMapFile := new OpenFile(disk, FREE_MAP_SECTOR);
    var directoryFile := new OpenFile(disk, DIRECTORY_SECTOR);
    EmptyTable(directory.table[..]);
    WriteBackBoth(freeMapFile, directoryFile, freeMap, directory, true);
    BothHoldSystem(d, d, disk.Value(), {}, freeMap.map_[..], directory.table[..]);
    FormattedDisk(d, disk.Value(), freeMap.Contents());
  }

  // ----- creating -----

  /** Why a file could not be created: it exists, there is no directory entry
      left, or there are not enough free sectors for its header and data. */
  ghost predicate CannotCreate(files: map<Name, int>, alloc: set<int>, k: Name, size: nat) {
    || k in files
    || |files| >= NUM_DIR_ENTRIES
    || NUM_SECTORS - |alloc| < 1 + DivRoundUp(size, SECTOR_SIZE)
  }

  /** Room for the file was found in memory: a header sector, data sectors, an entry. */
  ghost predicate Reserved(files: map<Name, int>, alloc: set<int>, k: Name, size: nat,
                           sector: int, h: Header, t: seq<DirectoryEntry>, marked: set<int>)
  {
    && 0 <= sector < NUM_SECTORS && sector !in alloc
    && WfHeader(h) && h.numBytes == size && DataSet(h) !! alloc + {sector}
    && WfTable(t) && Files(t) == files[k := sector]
    && marked == alloc + ({sector} + DataSet(h))
  }

  lemma OneMore(s: set<int>, x: int)
    requires x !in s
    ensures |s + {x}| == |s| + 1
  {
  }

  lemma ReservedFrom(files: map<Name, int>, alloc: set<int>, k: Name, size: nat,
                     sector: int, h: Header, t: seq<DirectoryEntry>, marked: set<int>)
    requires 0 <= sector < NUM_SECTORS && sector !in alloc
    requires WfHeader(h) && h.numBytes == size && DataSet(h) !! alloc + {sector}
    requires WfTable(t) && Files(t) == files[k := sector]
    requires marked == alloc + {sector} + DataSet(h)
    ensures Reserved(files, alloc, k, size, sector, h, t, marked)
  {
  }

  /** The decisions of Create, taken on the fetched directory and bitmap. */
  method Reserve(directory: Directory, freeMap: BitMap, name: seq<byte>, size: int)
    returns (ok: bool, sector: int, hdr: FileHeader)
    requires freeMap.Valid() && freeMap.numBits == NUM_SECTORS
    requires directory.table.Length == NUM_DIR_ENTRIES && WfTable(directory.table[..])
    requires forall k :: k in Files(directory.table[..]) ==> Files(directory.table[..])[k] >= 0
    requires 0 <= size <= MAX_FILE_SIZE
    modifies directory.table, freeMap.map_
    ensures fresh(hdr) && (ok ==> TableSized(hdr.Value()))
    ensures ok <==> !CannotCreate(old(Files(directory.table[..])), old(freeMap.Contents()), Key(name), size)
    ensures ok ==> Reserved(old(Files(directory.table[..])), old(freeMap.Contents()), Key(name), size,
                            sector, hdr.Value(), directory.table[..], freeMap.Contents())
  {
    ghost var files, alloc := Files(directory.table[..]), freeMap.Contents();
    ok, sector := false, -1;
    hdr := new FileHeader();
    var found := directory.Find(name);
    if found != -1 { return; }
    sector := freeMap.Find();
    if sector == -1 { return; }
    OneMore(alloc, sector);
    var added := directory.Add(name, sector);
    if !added { return; }
    ok := hdr.Allocate(freeMap, size);
    if ok {
      ReservedFrom(files, alloc, Key(name), size, sector, hdr.Value(), directory.table[..], freeMap.Contents());
    }
  }

  /** Writes the new header, then the directory, then the bitmap. */
  method CommitNew(mapFile: OpenFile, dirFile: OpenFile, sector: int, hdr: FileHeader,
                   directory: Directory, freeMap: BitMap)
    requires mapFile.Valid() && mapFile.hdr.numBytes == FREE_MAP_FILE_SIZE
    requires dirFile.Valid() && dirFile.hdr.numBytes == DIRECTORY_FILE_SIZE
    requires mapFile.disk == dirFile.disk && DataSet(mapFile.hdr.Value()) !! DataSet(dirFile.hdr.Value())
    requires freeMap.Valid() && freeMap.numBits == NUM_SECTORS && directory.table.Length == NUM_DIR_ENTRIES
    requires 0 <= sector < NUM_SECTORS && TableSized(hdr.Value())
    requires sector !in DataSet(mapFile.hdr.Value()) && sector !in DataSet(dirFile.hdr.Value())
    modifies mapFile.disk.sectors
    ensures HeaderAt(mapFile.disk.Value(), sector) == hdr.Value()
    ensures BothHold(old(mapFile.disk.Value())[sector := EncodeHeader(hdr.Value())], mapFile.disk.Value(),
                     mapFile.hdr.Value(), dirFile.hdr.Value(), freeMap.map_[..], directory.table[..])
  {
    hdr.WriteBack(mapFile.disk, sector);
    WriteBackBoth(mapFile, dirFile, freeMap, directory, false);
  }

  /** What the sectors say after the writes of a successful Create. */
  lemma CreatedByWrites(d: Image, d0: Image, d': Image, k: Name, size: nat, sector: int, h: Header,
                        ws: seq<word>, t: seq<DirectoryEntry>)
    requires FsInv(d) && |ws| == 32
    requires Reserved(FilesOf(d), Allocated(d), k, size, sector, h, t, MarkedSet(ws, NUM_SECTORS))
    requires HeaderAt(d', sector) == h
    requires forall s :: 0 <= s < NUM_SECTORS && s != sector ==> d0[s] == d[s]
    requires BothHold(d0, d', MapHdr(d), DirHdr(d), ws, t)
    ensures Created(d, d', k, size, sector, h)
  {
    BothHoldSystem(d, d0, d', {sector}, ws, t);
  }

  // ----- removing -----

  lemma RemovedByWrites(d: Image, d': Image, k: Name, ws: seq<word>, t: seq<DirectoryEntry>)
    requires FsInv(d) && |ws| == 32 && k in FilesOf(d)
    requires WfTable(t) && Files(t) == FilesOf(d) - {k}
    requires MarkedSet(ws, NUM_SECTORS) == Allocated(d) - FileAt(d, FilesOf(d)[k]).Footprint()
    requires BothHold(d, d', MapHdr(d), DirHdr(d), ws, t)
    ensures Removed(d, d', k)
  {
    BothHoldSystem(d, d, d', {}, ws, t);
  }

  /** Clears the bits of a file and its directory entry in the fetched copies. */
  method Release(directory: Directory, freeMap: BitMap, name: seq<byte>, fileHdr: FileHeader, sector: int)
    requires freeMap.Valid() && freeMap.numBits == NUM_SECTORS
    requires directory.table.Length == NUM_DIR_ENTRIES && WfTable(directory.table[..])
    requires WfHeader(fileHdr.Value()) && 0 <= sector < NUM_SECTORS
    requires DataSet(fileHdr.Value()) <= freeMap.Contents()
    modifies directory.table, freeMap.map_
    ensures WfTable(directory.table[..]) && Files(directory.table[..]) == old(Files(directory.table[..])) - {Key(name)}
    ensures freeMap.Contents() == old(freeMap.Contents()) - ({sector} + DataSet(fileHdr.Value()))
  {
    fileHdr.Deallocate(freeMap);
    freeMap.Clear(sector);
    var removed := directory.Remove(name);
  }

  // ----- the file system -----

  class FileSystem {
    const disk: SynchDisk
    const freeMapFile: OpenFile
    const directoryFile: OpenFile

    /** The two system files are open on the disk, which holds their headers. */
    ghost predicate Mounted()
      reads freeMapFile.hdr, directoryFile.hdr, disk.sectors
    {
      && disk.Valid() && freeMapFile.disk == disk && directoryFile.disk == disk
      && FsInv(disk.Value())
      && freeMapFile.hdr.Value() == MapHdr(disk.Value())
      && directoryFile.hdr.Value() == DirHdr(disk.Value())
    }

    /** Formats the disk, or mounts one that was formatted before. */
    constructor (disk: SynchDisk, format: bool)
      requires disk.Valid() && (!format ==> FsInv(disk.Value()))
      modifies disk.sectors
      ensures this.disk == disk && Mounted()
      ensures format ==> Abs(disk.Value()) == map[]
      ensures !format ==> disk.Value() == old(disk.Value())
    {
      this.disk := disk;
      if format {
        Format(disk);
      }
      freeMapFile := new OpenFile(disk, FREE_MAP_SECTOR);
      directoryFile := new OpenFile(disk, DIRECTORY_SECTOR);
    }

    method Create(name: seq<byte>, initialSize: int) returns (ok: bool)
      requires Mounted() && 0 <= initialSize <= MAX_FILE_SIZE
      modifies disk.sectors
      ensures Mounted()
      ensures CreateStep(old(disk.Value()), disk.Value(), Key(name), initialSize, ok)
    {
      hide DecodeHeader, EncodeHeader, DecodeWords, DecodeTable, MarkedSet, WfTable, Files, Content, DataSet, WfHeader, Owned;
      ghost var d := disk.Value();
      var directory := FetchDirectory(directoryFile);
      var freeMap := FetchMap(freeMapFile);
      var sector, hdr;
      ok, sector, hdr := Reserve(directory, freeMap, name, initialSize);
      if ok {
        StoreNew(name, initialSize, sector, hdr, directory, freeMap);
      }
    }

    /** The new header, directory and bitmap go to the disk. */
    method StoreNew(name: seq<byte>, size: int, sector: int, hdr: FileHeader, directory: Directory, freeMap: BitMap)
      requires Mounted() && 0 <= size <= MAX_FILE_SIZE && TableSized(hdr.Value()) && Key(name) !in FilesOf(disk.Value())
      requires freeMap.Valid() && freeMap.numBits == NUM_SECTORS && directory.table.Length == NUM_DIR_ENTRIES
      requires Reserved(FilesOf(disk.Value()), Allocated(disk.Value()), Key(name), size,
                        sector, hdr.Value(), directory.table[..], freeMap.Contents())
      modifies disk.sectors
      ensures Mounted() && Created(old(disk.Value()), disk.Value(), Key(name), size, sector, hdr.Value())
    {
      hide DecodeHeader, EncodeHeader, DecodeWords, DecodeTable, MarkedSet, WfTable, Files, Content, DataSet, WfHeader, Owned;
      ghost var d := disk.Value();
      FreeNotSystem(d, sector);
      CommitNew(freeMapFile, directoryFile, sector, hdr, directory, freeMap);
      CreatedByWrites(d, d[sector := EncodeHeader(hdr.Value())], disk.Value(), Key(name), size, sector, hdr.Value(),
                      freeMap.map_[..], directory.table[..]);
      CreatedKeepsInv(d, disk.Value(), Key(name), size, sector, hdr.Value());
    }

    /** A file that exists is opened at its start; its header is the one on disk. */
    method Open(name: seq<byte>) returns (file: OpenFile?)
      requires Mounted()
      ensures file == null <==> Key(name) !in FilesOf(disk.Value())
      ensures file != null ==> fresh(file) && fresh(file.hdr) && file.disk == disk && file.seekPosition == 0
      ensures file != null ==> file.hdr.Value() == HeaderAt(disk.Value(), FilesOf(disk.Value())[Key(name)])
    {
      hide DecodeHeader, DecodeWords, DecodeTable, MarkedSet, WfTable, Files, Content, DataSet, WfHeader, Owned;
      file := null;
      var directory := FetchDirectory(directoryFile);
      var sector := directory.Find(name);
      if sector >= 0 {
        file := new OpenFile(disk, sector);
      }
    }

    method Remove(name: seq<byte>) returns (ok: bool)
      requires Mounted()
      modifies disk.sectors
      ensures Mounted()
      ensures RemoveStep(old(disk.Value()), disk.Value(), Key(name), ok)
    {
      hide DecodeHeader, DecodeWords, DecodeTable, MarkedSet, WfTable, Files, Content, DataSet, WfHeader, Owned;
      ghost var d := disk.Value();
      var directory := FetchDirectory(directoryFile);
      var sector := directory.Find(name);
      if sector == -1 {
        return false;
      }
      var fileHdr := new FileHeader();
      fileHdr.FetchFrom(disk, sector);
      var freeMap := FetchMap(freeMapFile);
      FileIsAllocated(d, Key(name));
      Release(directory, freeMap, name, fileHdr, sector);
      WriteBackBoth(freeMapFile, directoryFile, freeMap, directory, true);
      RemovedByWrites(d, disk.Value(), Key(name), freeMap.map_[..], directory.table[..]);
      RemovedKeepsInv(d, disk.Value(), Key(name));
      ok := true;
    }
  }

  lemma FileIsAllocated(d: Image, k: Name)
    requires FsInv(d) && k in FilesOf(d)
    ensures FileAt(d, FilesOf(d)[k]).Footprint() <= Allocated(d)
    ensures DataSet(HeaderAt(d, FilesOf(d)[k])) <= Allocated(d)
  {
    OwnedPart(Catalog(d, FilesOf(d)), SysSet(d), Allocated(d), k);
    assert DataSet(HeaderAt(d, FilesOf(d)[k])) <= FileAt(d, FilesOf(d)[k]).Footprint();
  }

  /** What Remove does and returns: an existing file goes, or nothing changes. */
  ghost predicate RemoveStep(d: Image, d': Image, k: Name, ok: bool) {
    FsInv(d) && if k in FilesOf(d) then ok && Removed(d, d', k) else !ok && d' == d
  }

  /** What Create does and returns: the file appears, or nothing changes and there
      is a reason. */
  ghost predicate CreateStep(d: Image, d': Image, k: Name, size: nat, ok: bool) {
    && FsInv(d)
    && (ok <==> !CannotCreate(FilesOf(d), Allocated(d), k, size))
    && (!ok ==> d' == d)
    && (ok ==> exists sector, h :: Created(d, d', k, size, sector, h))
  }
}
