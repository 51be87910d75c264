/** Who owns the sectors of a disk: the system, and files that each own a header
    sector and data sectors.  Together they account for every allocated sector
    and no sector has two owners. */
module Ownership {

  datatype FileRec<C> = FileRec(sector: int, data: set<int>, content: C)
  {
    ghost function Footprint(): set<int> {
      {sector} + data
    }
  }

  ghost function UnionOf<K(!new), C(!new)>(cat: map<K, FileRec<C>>): (u: set<int>)
    ensures forall k, x :: k in cat && x in cat[k].Footprint() ==> x in u
  {
    set k, x | k in cat && x in cat[k].Footprint() :: x
  }

  ghost predicate Owned<K(!new), C(!new)>(cat: map<K, FileRec<C>>, sys: set<int>, alloc: set<int>) {
    && (forall k :: k in cat ==> cat[k].Footprint() !! sys)
    && (forall k, l :: k in cat && l in cat && k != l ==> cat[k].Footprint() !! cat[l].Footprint())
    && alloc == sys + UnionOf(cat)
  }

  lemma OwnedSystem<K(!new), C(!new)>(cat: map<K, FileRec<C>>, sys: set<int>, alloc: set<int>)
    requires Owned(cat, sys, alloc)
    ensures sys <= alloc
  {
  }

  lemma OwnedPart<K(!new), C(!new)>(cat: map<K, FileRec<C>>, sys: set<int>, alloc: set<int>, k: K)
    requires Owned(cat, sys, alloc) && k in cat
    ensures sys <= alloc && cat[k].Footprint() <= alloc && cat[k].Footprint() !! sys
  {
    assert forall x :: x in cat[k].Footprint() ==> x in UnionOf(cat);
  }

  lemma UnionAdd<K(!new), C(!new)>(cat: map<K, FileRec<C>>, k: K, r: FileRec<C>)
    requires k !in cat
    ensures UnionOf(cat[k := r]) == UnionOf(cat) + r.Footprint()
  {
    var cat' := cat[k := r];
    assert cat'[k] == r;
    assert forall l :: l in cat ==> cat'[l] == cat[l];
  }

  lemma OwnedAdd<K(!new), C(!new)>(cat: map<K, FileRec<C>>, sys: set<int>, alloc: set<int>, k: K, r: FileRec<C>)
    requires Owned(cat, sys, alloc) && k !in cat && r.Footprint() !! alloc
    ensures Owned(cat[k := r], sys, alloc + r.Footprint())
  {
    UnionAdd(cat, k, r);
  }

  lemma OwnedRemove<K(!new), C(!new)>(cat: map<K, FileRec<C>>, sys: set<int>, alloc: set<int>, k: K)
    requires Owned(cat, sys, alloc) && k in cat
    ensures Owned(cat - {k}, sys, alloc - cat[k].Footprint())
  {
    var rest := cat - {k};
    assert rest[k := cat[k]] == cat;
    UnionAdd(rest, k, cat[k]);
    assert UnionOf(rest) !! cat[k].Footprint();
  }

  /** Who owns what does not depend on what the files hold. */
  lemma OwnedRewrite<K(!new), C(!new)>(cat: map<K, FileRec<C>>, sys: set<int>, alloc: set<int>, k: K, c: C)
    requires Owned(cat, sys, alloc) && k in cat
    ensures Owned(cat[k := cat[k].(content := c)], sys, alloc)
  {
    var rest := cat - {k};
    assert rest[k := cat[k]] == cat;
    UnionAdd(rest, k, cat[k]);
    var r := cat[k].(content := c);
    UnionAdd(rest, k, r);
    assert rest[k := r] == cat[k := r];
  }

  /** The files hold no more sectors than their number times the largest footprint. */
  lemma {:induction false} UnionSize<K(!new), C(!new)>(cat: map<K, FileRec<C>>, most: nat)
    requires forall k :: k in cat ==> |cat[k].Footprint()| <= most
    ensures |UnionOf(cat)| <= most * |cat|
    decreases |cat|
  {
    if cat == map[] {
      assert UnionOf(cat) == {};
    } else {
      var k :| k in cat;
      var rest := cat - {k};
      assert rest[k := cat[k]] == cat;
      UnionSize(rest, most);
      UnionStep(rest, k, cat[k]);
      assert |cat| == |rest| + 1;
      MulStep(most, |rest|);
    }
  }

  lemma UnionStep<K(!new), C(!new)>(cat: map<K, FileRec<C>>, k: K, r: FileRec<C>)
    requires k !in cat
    ensures |UnionOf(cat[k := r])| <= |UnionOf(cat)| + |r.Footprint()|
  {
    UnionAdd(cat, k, r);
  }

  lemma MulStep(a: nat, n: nat)
    ensures a * (n + 1) == a * n + a
  {
  }
}

/** What a formatted disk means as a whole: the invariant that ties the bitmap,
    the directory and the headers together, and the map from names to contents
    that the disk stands for.  Values only. */
module FsImage {
  import opened Words
  import opened BitMaps
  import opened DiskLayout
  import opened Directories
  import opened Ownership

  const FREE_MAP_SECTOR: nat := 0
  const DIRECTORY_SECTOR: nat := 1
  const FREE_MAP_FILE_SIZE: nat := 128
  const NUM_DIR_ENTRIES: nat := 10
  const DIRECTORY_FILE_SIZE: nat := 200

  function HeaderAt(d: Image, s: int): (h: Header)
    requires 0 <= s < NUM_SECTORS
  {
    DecodeHeader(d[s])
  }

  function MapHdr(d: Image): Header { HeaderAt(d, FREE_MAP_SECTOR) }
  function DirHdr(d: Image): Header { HeaderAt(d, DIRECTORY_SECTOR) }

  /** The two system files lie apart from each other and from their headers. */
  ghost predicate SysOk(d: Image) {
    var mh, dh := MapHdr(d), DirHdr(d);
    && WfHeader(mh) && mh.numBytes == FREE_MAP_FILE_SIZE
    && WfHeader(dh) && dh.numBytes == DIRECTORY_FILE_SIZE
    && DataSet(mh) !! DataSet(dh)
    && {0, 1} !! DataSet(mh) && {0, 1} !! DataSet(dh)
  }

  ghost function SysSet(d: Image): set<int>
    requires SysOk(d)
  {
    {0, 1} + DataSet(MapHdr(d)) + DataSet(DirHdr(d))
  }

  /** The sectors the on-disk bitmap marks. */
  ghost function Allocated(d: Image): set<int>
    requires SysOk(d)
  {
    MarkedSet(DecodeWords(Content(d, MapHdr(d))), NUM_SECTORS)
  }

  ghost function TableOf(d: Image): (t: seq<DirectoryEntry>)
    requires SysOk(d)
    ensures |t| == NUM_DIR_ENTRIES
  {
    DecodeTable(Content(d, DirHdr(d)))
  }

  ghost predicate TableOk(d: Image) {
    SysOk(d) && WfTable(TableOf(d))
  }

  /** The on-disk directory: where each named file has its header. */
  ghost function FilesOf(d: Image): map<Name, int>
    requires TableOk(d)
  {
    Files(TableOf(d))
  }

  ghost predicate HeaderOk(d: Image, s: int) {
    0 <= s < NUM_SECTORS && WfHeader(HeaderAt(d, s)) && s !in DataSet(HeaderAt(d, s))
  }

  /** The file whose header is in sector `s`. */
  ghost function FileAt(d: Image, s: int): FileRec<seq<byte>>
    requires HeaderOk(d, s)
  {
    FileRec(s, DataSet(HeaderAt(d, s)), Content(d, HeaderAt(d, s)))
  }

  ghost predicate HeadersOk(d: Image, files: map<Name, int>) {
    forall k :: k in files ==> HeaderOk(d, files[k])
  }

  ghost function Catalog(d: Image, files: map<Name, int>): (cat: map<Name, FileRec<seq<byte>>>)
    requires HeadersOk(d, files)
  {
    map k | k in files :: FileAt(d, files[k])
  }

  /** Given a directory, the system's sectors and the marked sectors: every named
      file is sound, no sector is leaked and none is shared. */
  ghost predicate SpaceOk(d: Image, files: map<Name, int>, sys: set<int>, alloc: set<int>) {
    HeadersOk(d, files) && Owned(Catalog(d, files), sys, alloc)
  }

  /** The invariant of every formatted disk. */
  ghost predicate FsInv(d: Image) {
    TableOk(d) && SpaceOk(d, FilesOf(d), SysSet(d), Allocated(d))
  }

  ghost function ContentsOf(cat: map<Name, FileRec<seq<byte>>>): map<Name, seq<byte>> {
    map k | k in cat :: cat[k].content
  }

  ghost function AbsOf(d: Image, files: map<Name, int>): map<Name, seq<byte>>
    requires HeadersOk(d, files)
  {
    ContentsOf(Catalog(d, files))
  }

  /** The abstract file system a disk stands for. */
  ghost function Abs(d: Image): map<Name, seq<byte>>
    requires FsInv(d)
  {
    AbsOf(d, FilesOf(d))
  }
}
