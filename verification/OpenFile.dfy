/** code/filesys/filehdr.cc and code/filesys/openfile.cc: file headers and the
    byte-granular reads and writes built on whole-sector transfers. */
module OpenFiles {
  import opened Words
  import opened BitMaps
  import opened DiskLayout

  /** The disk as its one sequential caller sees it: atomic sector transfers. */
  class SynchDisk {
    const sectors: array<Sector>

    ghost predicate Valid() {
      sectors.Length == NUM_SECTORS
    }

    ghost function Value(): Image
      requires Valid()
      reads sectors
    {
      sectors[..]
    }

    /** A disk holding whatever the medium held. */
    constructor ()
      ensures Valid() && fresh(sectors)
    {
      sectors := new Sector[NUM_SECTORS](_ => BLANK);
    }

    method ReadSector(sector: int, data: array<byte>, start: nat)
      requires Valid() && 0 <= sector < NUM_SECTORS && start + SECTOR_SIZE <= data.Length
      modifies data
      ensures data[..] == old(data[..start]) + Value()[sector] + old(data[start + SECTOR_SIZE..])
    {
      var s := sectors[sector];
      forall k | 0 <= k < SECTOR_SIZE {
        data[start + k] := s[k];
      }
    }

    method WriteSector(sector: int, data: seq<byte>)
      requires Valid() && 0 <= sector < NUM_SECTORS && |data| == SECTOR_SIZE
      modifies sectors
      ensures Value() == old(Value())[sector := data]
    {
      sectors[sector] := data;
    }
  }

  ghost predicate Ascending(ds: seq<int32>, n: nat)
    requires n <= |ds|
  {
    forall j, k :: 0 <= j < k < n ==> ds[j] < ds[k]
  }

  /** `now` is `was` with the first `n` entries of `ds` added, none of which was in
      it, and no number below the last of them was passed over. */
  ghost predicate FirstFit(ds: seq<int32>, n: nat, was: set<int>, now: set<int>)
    requires n <= |ds|
  {
    && now == was + Firsts(ds, n)
    && was !! Firsts(ds, n)
    && (forall x :: x in Firsts(ds, n) ==> 0 <= x < NUM_SECTORS)
    && (n > 0 ==> forall x :: 0 <= x < ds[n - 1] ==> x in now)
  }

  lemma AscendingStep(ds: seq<int32>, n: nat, s: int32)
    requires n < |ds| && Ascending(ds, n)
    requires n > 0 ==> ds[n - 1] < s
    ensures Ascending(ds[n := s], n + 1)
  {
  }

  lemma FirstFitStep(ds: seq<int32>, n: nat, was: set<int>, now: set<int>, s: int32)
    requires n < |ds| && FirstFit(ds, n, was, now)
    requires 0 <= s < NUM_SECTORS && s !in now
    requires forall x :: 0 <= x < s ==> x in now
    ensures FirstFit(ds[n := s], n + 1, was, now + {s})
    ensures n > 0 ==> ds[n - 1] < s
  {
    var ds' := ds[n := s];
    assert Firsts(ds', n + 1) == Firsts(ds, n) + {s} by {
      FirstsStep(ds', n);
      assert ds'[..n] == ds[..n];
    }
    if n > 0 {
      assert ds[n - 1] in ds[..n];
      assert ds[n - 1] in now;
    }
  }

  lemma FirstFitHeader(h: Header, was: set<int>, now: set<int>)
    requires TableSized(h) && 0 <= h.numBytes <= MAX_FILE_SIZE
    requires h.numSectors == DivRoundUp(h.numBytes, SECTOR_SIZE)
    requires FirstFit(h.dataSectors, h.numSectors, was, now) && Ascending(h.dataSectors, h.numSectors)
    ensures WfHeader(h)
  {
    forall i | 0 <= i < h.numSectors ensures 0 <= h.dataSectors[i] < NUM_SECTORS {
      assert h.dataSectors[i] in Firsts(h.dataSectors, h.numSectors);
    }
  }

  class FileHeader {
    var numBytes: int32
    var numSectors: int32
    var dataSectors: seq<int32>

    ghost function Value(): Header
      reads this
    {
      Header(numBytes, numSectors, dataSectors)
    }

    /** The fields start out with whatever the fresh storage held. */
    constructor ()
      ensures TableSized(Value())
    {
      dataSectors := seq(NUM_DIRECT, _ => 0);
    }

    /** Takes ceil(fileSize / 128) free sectors, or leaves the map alone when there
        are not that many. */
    method Allocate(freeMap: BitMap, fileSize: int) returns (ok: bool)
      requires TableSized(Value())
      requires freeMap.Valid() && freeMap.numBits == NUM_SECTORS
      requires 0 <= fileSize <= MAX_FILE_SIZE
      modifies this, freeMap.map_
      ensures ok <==> DivRoundUp(fileSize, SECTOR_SIZE) <= NUM_SECTORS - |old(freeMap.Contents())|
      ensures !ok ==> freeMap.map_[..] == old(freeMap.map_[..])
      ensures ok ==> WfHeader(Value()) && numBytes == fileSize
      ensures ok ==> DataSet(Value()) !! old(freeMap.Contents())
      ensures ok ==> freeMap.Contents() == old(freeMap.Contents()) + DataSet(Value())
    {
      numBytes := fileSize;
      numSectors := DivRoundUp(fileSize, SECTOR_SIZE);
      var free := freeMap.NumClear();
      ok := free >= numSectors;
      if ok {
        ghost var was := freeMap.Contents();
        TakeSectors(freeMap);
        FirstFitHeader(Value(), was, freeMap.Contents());
      }
    }

    /** The allocation loop: fills the table with the lowest free sectors. */
    method TakeSectors(freeMap: BitMap)
      requires TableSized(Value()) && 0 <= numSectors <= NUM_DIRECT
      requires freeMap.Valid() && freeMap.numBits == NUM_SECTORS
      requires numSectors <= NUM_SECTORS - |freeMap.Contents()|
      modifies this`dataSectors, freeMap.map_
      ensures TableSized(Value())
      ensures FirstFit(dataSectors, numSectors, old(freeMap.Contents()), freeMap.Contents())
      ensures Ascending(dataSectors, numSectors)
    {
      ghost var was := freeMap.Contents();
      for i := 0 to numSectors
        invariant TableSized(Value())
        invariant FirstFit(dataSectors, i, was, freeMap.Contents())
        invariant Ascending(dataSectors, i)
        invariant |freeMap.Contents()| == |was| + i
      {
        ghost var now, ds := freeMap.Contents(), dataSectors;
        var s := freeMap.Find();
        FirstFitStep(ds, i, was, now, s);
        AscendingStep(ds, i, s);
        dataSectors := dataSectors[i := s];
      }
    }

    /** Gives the data sectors back; the check that each is marked always passes. */
    method Deallocate(freeMap: BitMap)
      requires WfHeader(Value())
      requires freeMap.Valid() && freeMap.numBits == NUM_SECTORS
      requires DataSet(Value()) <= freeMap.Contents()
      modifies freeMap.map_
      ensures freeMap.Contents() == old(freeMap.Contents()) - DataSet(Value())
    {
      for i := 0 to numSectors
        invariant freeMap.Contents() == old(freeMap.Contents()) - Firsts(dataSectors, i)
      {
        var marked := freeMap.Test(dataSectors[i]);
        assert dataSectors[i] !in Firsts(dataSectors, i);
        assert marked;
        freeMap.Clear(dataSectors[i]);
        FirstsStep(dataSectors, i);
      }
    }

    method FetchFrom(disk: SynchDisk, sector: int)
      requires disk.Valid() && 0 <= sector < NUM_SECTORS
      modifies this
      ensures Value() == DecodeHeader(disk.Value()[sector])
    {
      var buf := new byte[SECTOR_SIZE];
      disk.ReadSector(sector, buf, 0);
      assert buf[..] == disk.Value()[sector];
      var h := DecodeHeader(buf[..]);
      numBytes, numSectors, dataSectors := h.numBytes, h.numSectors, h.dataSectors;
    }

    method WriteBack(disk: SynchDisk, sector: int)
      requires TableSized(Value())
      requires disk.Valid() && 0 <= sector < NUM_SECTORS
      modifies disk.sectors
      ensures disk.Value() == old(disk.Value())[sector := EncodeHeader(Value())]
      ensures DecodeHeader(disk.Value()[sector]) == Value()
    {
      disk.WriteSector(sector, EncodeHeader(Header(numBytes, numSectors, dataSectors)));
      HeaderRoundTrip(Value());
    }

    function ByteToSector(offset: nat): int32
      requires TableSized(Header(numBytes, numSectors, dataSectors)) && offset / SECTOR_SIZE < NUM_DIRECT
      reads this
    {
      dataSectors[offset / SECTOR_SIZE]
    }

    function FileLength(): int32
      reads this
    {
      numBytes
    }
  }

  class OpenFile {
    const disk: SynchDisk
    const hdr: FileHeader
    var seekPosition: int

    ghost predicate Valid()
      reads hdr
    {
      disk.Valid() && WfHeader(hdr.Value())
    }

    /** What the file holds now. */
    ghost function Contents(): seq<byte>
      requires Valid()
      reads hdr, disk.sectors
    {
      Content(disk.Value(), hdr.Value())
    }

    constructor (disk: SynchDisk, sector: int)
      requires disk.Valid() && 0 <= sector < NUM_SECTORS
      ensures this.disk == disk && fresh(hdr) && seekPosition == 0
      ensures hdr.Value() == DecodeHeader(disk.Value()[sector])
    {
      this.disk := disk;
      hdr := new FileHeader();
      seekPosition := 0;
      new;
      hdr.FetchFrom(disk, sector);
    }

    method Seek(position: int)
      modifies this
      ensures seekPosition == position
    {
      seekPosition := position;
    }

    /** Moves the requested bytes that the file has into `into` from `start` on. */
    method ReadAt(into: array<byte>, start: nat, numBytes: int, position: int) returns (n: nat)
      requires Valid() && position >= 0 && position + numBytes <= MAX_INT
      requires start + Clip(numBytes, position, hdr.numBytes) <= into.Length
      modifies into
      ensures n == Clip(numBytes, position, hdr.numBytes)
      ensures n > 0 ==> into[start..start + n] == Contents()[position..position + n]
      ensures into[..start] == old(into[..start]) && into[start + n..] == old(into[start + n..])
    {
      n := Clip(numBytes, position, hdr.FileLength());
      if n == 0 { return; }
      var firstSector := position / SECTOR_SIZE;
      var lastSector := (position + n - 1) / SECTOR_SIZE;
      LastSectorInFile(position + n - 1, hdr.numBytes);
      var buf := ReadSectors(firstSector, lastSector);
      var offset := position - firstSector * SECTOR_SIZE;
      forall k | 0 <= k < n {
        into[start + k] := buf[offset + k];
      }
    }

    /** Brings whole sectors `firstSector` to `lastSector` of the file into a fresh buffer. */
    method ReadSectors(firstSector: nat, lastSector: nat) returns (buf: array<byte>)
      requires Valid() && firstSector <= lastSector < hdr.numSectors
      ensures fresh(buf) && buf.Length == (1 + lastSector - firstSector) * SECTOR_SIZE
      ensures forall k :: 0 <= k < buf.Length ==>
        buf[k] == ByteAt(disk.Value(), hdr.Value(), firstSector * SECTOR_SIZE + k)
    {
      buf := new byte[(1 + lastSector - firstSector) * SECTOR_SIZE];
      ghost var d, h := disk.Value(), hdr.Value();
      for i := firstSector to lastSector + 1
        modifies buf
        invariant forall k :: 0 <= k < (i - firstSector) * SECTOR_SIZE ==>
          buf[k] == ByteAt(d, h, firstSector * SECTOR_SIZE + k)
      {
        var at := (i - firstSector) * SECTOR_SIZE;
        disk.ReadSector(hdr.ByteToSector(i * SECTOR_SIZE), buf, at);
        forall k | at <= k < at + SECTOR_SIZE
          ensures buf[k] == ByteAt(d, h, firstSector * SECTOR_SIZE + k)
        {
          DivMod128(i, k - at);
        }
      }
    }

    /** Replaces the bytes at `position` and touches no sector outside the file.
        Bytes of the last sector beyond the file length may end up as anything. */
    method WriteAt(from: seq<byte>, numBytes: int, position: int) returns (n: nat)
      requires Valid() && position >= 0 && position + numBytes <= MAX_INT
      requires Clip(numBytes, position, hdr.numBytes) <= |from|
      modifies disk.sectors
      ensures n == Clip(numBytes, position, hdr.numBytes)
      ensures n == 0 ==> disk.Value() == old(disk.Value())
      ensures n > 0 ==> Contents() == Splice(old(Contents()), position, from[..n])
      ensures forall s :: 0 <= s < NUM_SECTORS && s !in DataSet(hdr.Value()) ==>
        disk.Value()[s] == old(disk.Value())[s]
    {
      n := Clip(numBytes, position, hdr.FileLength());
      if n > 0 {
        WriteInside(from[..n], position);
      }
    }

    /** The part of a write that lies inside the file. */
    method WriteInside(data: seq<byte>, position: nat)
      requires Valid() && |data| > 0 && position + |data| <= hdr.numBytes
      modifies disk.sectors
      ensures Contents() == Splice(old(Contents()), position, data)
      ensures forall s :: 0 <= s < NUM_SECTORS && s !in DataSet(hdr.Value()) ==>
        disk.Value()[s] == old(disk.Value())[s]
    {
      hide Content, Splice, DataSet, Stored, CoversSplice;
      var firstSector := position / SECTOR_SIZE;
      var lastSector := (position + |data| - 1) / SECTOR_SIZE;
      LastSectorInFile(position + |data| - 1, hdr.numBytes);
      ghost var d := disk.Value();
      var buf := FillBuffer(data, position, firstSector, lastSector);
      WriteSectors(firstSector, lastSector, buf);
      StoredIsSplice(d, disk.Value(), hdr.Value(), firstSector, lastSector + 1, position, data, buf);
      StoredOutside(d, disk.Value(), hdr.Value(), firstSector, lastSector + 1, buf);
    }

    /** The read-modify part of a write: a fresh buffer for whole sectors
        `firstSector` to `lastSector`, holding the new bytes and, up to the file
        length, the old bytes around them. */
    method FillBuffer(data: seq<byte>, position: nat, firstSector: nat, lastSector: nat) returns (buf: seq<byte>)
      requires Valid() && |data| > 0 && position + |data| <= hdr.numBytes
      requires firstSector == position / 128 && lastSector == (position + |data| - 1) / 128
      ensures |buf| == (1 + lastSector - firstSector) * SECTOR_SIZE
      ensures CoversSplice(Contents(), position, data, firstSector, buf)
    {
      var a := new byte[(1 + lastSector - firstSector) * SECTOR_SIZE];
      var firstAligned := position == firstSector * SECTOR_SIZE;
      var lastAligned := position + |data| == (lastSector + 1) * SECTOR_SIZE;
      if !firstAligned {
        ReadBack(a, firstSector, firstSector);
      }
      if !lastAligned && (firstSector != lastSector || firstAligned) {
        ReadBack(a, firstSector, lastSector);
      }
      var offset := position - firstSector * SECTOR_SIZE;
      SpliceCovers(Contents(), position, data, firstSector, a[..]);
      buf := Splice(a[..], offset, data);
    }

    /** Reads sector `j` of the file into its place in a buffer that starts at sector `firstSector`. */
    method ReadBack(a: array<byte>, firstSector: nat, j: nat)
      requires Valid() && firstSector <= j && j * SECTOR_SIZE < hdr.numBytes
      requires (1 + j - firstSector) * SECTOR_SIZE <= a.Length
      modifies a
      ensures Agrees(a[..], (j - firstSector) * SECTOR_SIZE, (1 + j - firstSector) * SECTOR_SIZE,
                     Contents(), firstSector * SECTOR_SIZE)
      ensures forall k :: 0 <= k < (j - firstSector) * SECTOR_SIZE ==> a[k] == old(a[k])
      ensures forall k :: (1 + j - firstSector) * SECTOR_SIZE <= k < a.Length ==> a[k] == old(a[k])
    {
      ghost var c, at := Contents(), (j - firstSector) * SECTOR_SIZE;
      var got := ReadAt(a, (j - firstSector) * SECTOR_SIZE, SECTOR_SIZE, j * SECTOR_SIZE);
      forall k | at <= k < at + got ensures a[k] == c[firstSector * SECTOR_SIZE + k] {
        assert a[at..at + got][k - at] == c[j * SECTOR_SIZE..j * SECTOR_SIZE + got][k - at];
      }
      forall k | 0 <= k < at ensures a[k] == old(a[k]) {
        assert a[..at][k] == old(a[..at])[k];
      }
      forall k | at + got <= k < a.Length ensures a[k] == old(a[k]) {
        assert a[at + got..][k - at - got] == old(a[at + got..])[k - at - got];
      }
    }

    /** Sequential access: the position moves by the number of bytes transferred. */
    method Read(into: array<byte>, numBytes: int) returns (n: nat)
      requires Valid() && seekPosition >= 0 && seekPosition + numBytes <= MAX_INT
      requires Clip(numBytes, seekPosition, hdr.numBytes) <= into.Length
      modifies into, this`seekPosition
      ensures n == Clip(numBytes, old(seekPosition), hdr.numBytes)
      ensures n > 0 ==> into[..n] == Contents()[old(seekPosition)..old(seekPosition) + n]
      ensures into[n..] == old(into[n..])
      ensures seekPosition == old(seekPosition) + n
    {
      n := ReadAt(into, 0, numBytes, seekPosition);
      seekPosition := seekPosition + n;
    }

    method Write(from: seq<byte>, numBytes: int) returns (n: nat)
      requires Valid() && seekPosition >= 0 && seekPosition + numBytes <= MAX_INT
      requires Clip(numBytes, seekPosition, hdr.numBytes) <= |from|
      modifies disk.sectors, this`seekPosition
      ensures n == Clip(numBytes, old(seekPosition), hdr.numBytes)
      ensures n == 0 ==> disk.Value() == old(disk.Value())
      ensures n > 0 ==> Contents() == Splice(old(Contents()), old(seekPosition), from[..n])
      ensures forall s :: 0 <= s < NUM_SECTORS && s !in DataSet(hdr.Value()) ==>
        disk.Value()[s] == old(disk.Value())[s]
      ensures seekPosition == old(seekPosition) + n
    {
      n := WriteAt(from, numBytes, seekPosition);
      seekPosition := seekPosition + n;
    }

    method WriteSectors(firstSector: nat, lastSector: nat, buf: seq<byte>)
      requires Valid() && firstSector <= lastSector < hdr.numSectors
      requires |buf| == (1 + lastSector - firstSector) * SECTOR_SIZE
      modifies disk.sectors
      ensures Stored(old(disk.Value()), disk.Value(), hdr.Value(), firstSector, lastSector + 1, buf)
    {
      ghost var d := disk.Value();
      for i := firstSector to lastSector + 1
        invariant Stored(d, disk.Value(), hdr.Value(), firstSector, i, buf)
      {
        DivMod128(i, 0);
        StoredStep(d, disk.Value(), hdr.Value(), firstSector, i, buf);
        disk.WriteSector(hdr.ByteToSector(i * SECTOR_SIZE), Block(buf, i - firstSector));
      }
    }
  }

  /** Sector-sized block `j` of a buffer. */
  function Block(buf: seq<byte>, j: nat): (b: Sector)
    requires (j + 1) * SECTOR_SIZE <= |buf|
  {
    buf[j * SECTOR_SIZE..(j + 1) * SECTOR_SIZE]
  }

  /** Bytes `lo` to `hi` of `a` are those of `c` from `base` on, as far as `c` goes. */
  ghost predicate Agrees(a: seq<byte>, lo: nat, hi: nat, c: seq<byte>, base: nat) {
    forall k :: lo <= k < hi && k < |a| && base + k < |c| ==> a[k] == c[base + k]
  }

  /** Overwriting a buffer that already holds the old bytes around the new ones. */
  lemma SpliceCovers(c: seq<byte>, position: nat, data: seq<byte>, firstSector: nat, a: seq<byte>)
    requires position + |data| <= |c| && firstSector * SECTOR_SIZE <= position
    requires position - firstSector * SECTOR_SIZE + |data| <= |a|
    requires Agrees(a, 0, position - firstSector * SECTOR_SIZE, c, firstSector * SECTOR_SIZE)
    requires Agrees(a, position - firstSector * SECTOR_SIZE + |data|, |a|, c, firstSector * SECTOR_SIZE)
    ensures CoversSplice(c, position, data, firstSector, Splice(a, position - firstSector * SECTOR_SIZE, data))
  {
  }

  /** Up to the end of the file, `buf` agrees with `c` overwritten by `data`. */
  ghost predicate CoversSplice(c: seq<byte>, position: nat, data: seq<byte>, firstSector: nat, buf: seq<byte>)
    requires position + |data| <= |c|
  {
    forall k :: 0 <= k < |buf| && firstSector * SECTOR_SIZE + k < |c| ==>
      buf[k] == Splice(c, position, data)[firstSector * SECTOR_SIZE + k]
  }

  /** `d'` is `d` with the blocks of `buf` stored in sectors `first` to `end - 1` of the file. */
  ghost predicate Stored(d: Image, d': Image, h: Header, first: nat, end: nat, buf: seq<byte>)
    requires WfHeader(h) && first <= end <= h.numSectors && (end - first) * SECTOR_SIZE <= |buf|
  {
    && (forall i :: first <= i < end ==> d'[h.dataSectors[i]] == Block(buf, i - first))
    && (forall s :: 0 <= s < NUM_SECTORS && s !in h.dataSectors[first..end] ==> d'[s] == d[s])
  }

  lemma StoredStep(d: Image, d': Image, h: Header, first: nat, end: nat, buf: seq<byte>)
    requires WfHeader(h) && first <= end < h.numSectors && (end + 1 - first) * SECTOR_SIZE <= |buf|
    requires Stored(d, d', h, first, end, buf)
    ensures Stored(d, d'[h.dataSectors[end] := Block(buf, end - first)], h, first, end + 1, buf)
  {
    var s := h.dataSectors[end];
    assert h.dataSectors[first..end + 1] == h.dataSectors[first..end] + [s];
    assert forall i :: first <= i < end ==> h.dataSectors[i] != s;
  }

  lemma StoredByte(d: Image, d': Image, h: Header, first: nat, end: nat, buf: seq<byte>, i: nat)
    requires WfHeader(h) && first <= end <= h.numSectors && (end - first) * SECTOR_SIZE <= |buf|
    requires Stored(d, d', h, first, end, buf) && i < h.numSectors * 128
    ensures ByteAt(d', h, i) == if first * 128 <= i < end * 128 then buf[i - first * 128] else ByteAt(d, h, i)
  {
    var j := i / 128;
    if first <= j < end {
      assert Block(buf, j - first)[i % 128] == buf[i - first * 128];
    } else {
      assert h.dataSectors[j] !in h.dataSectors[first..end];
    }
  }

  lemma StoredOutside(d: Image, d': Image, h: Header, first: nat, end: nat, buf: seq<byte>)
    requires WfHeader(h) && first <= end <= h.numSectors && (end - first) * SECTOR_SIZE <= |buf|
    requires Stored(d, d', h, first, end, buf)
    ensures forall s :: 0 <= s < NUM_SECTORS && s !in DataSet(h) ==> d'[s] == d[s]
  {
    assert forall i :: first <= i < end ==> h.dataSectors[i] in DataSet(h);
  }

  /** Storing a buffer that covers the splice makes the file hold the splice. */
  lemma StoredIsSplice(d: Image, d': Image, h: Header, first: nat, end: nat, position: nat, data: seq<byte>, buf: seq<byte>)
    requires WfHeader(h) && position + |data| <= h.numBytes
    requires first <= end <= h.numSectors && |buf| == (end - first) * SECTOR_SIZE
    requires first * SECTOR_SIZE <= position && position + |data| <= end * SECTOR_SIZE
    requires CoversSplice(Content(d, h), position, data, first, buf)
    requires Stored(d, d', h, first, end, buf)
    ensures Content(d', h) == Splice(Content(d, h), position, data)
  {
    var c := Splice(Content(d, h), position, data);
    forall i | 0 <= i < h.numBytes ensures Content(d', h)[i] == c[i] {
      StoredByte(d, d', h, first, end, buf, i);
      if first * 128 <= i < end * 128 {
        assert buf[i - first * 128] == c[first * 128 + (i - first * 128)];
      }
    }
  }
}
