/** What the bytes on the disk mean: sectors, file headers, file contents.
    Values only; the operations that move these bytes are in OpenFile.dfy. */
module DiskLayout {
  import opened Words
  import opened BitMaps

  const SECTOR_SIZE: nat := 128
  const NUM_SECTORS: nat := 1024
  const NUM_DIRECT: nat := 30
  const MAX_FILE_SIZE: nat := 3840
  const MAX_INT: int := 0x7fff_ffff

  type Sector = s: seq<byte> | |s| == 128 witness BLANK
  type Image = d: seq<Sector> | |d| == 1024 witness seq<Sector>(1024, _ => BLANK)
  const BLANK: seq<byte> := seq<byte>(128, _ => 0)

  /** A file header: the length in bytes, the number of data sectors, and the
      table of data sector numbers, of which only the first `numSectors` mean
      anything. */
  datatype Header = Header(numBytes: int32, numSectors: int32, dataSectors: seq<int32>)

  predicate TableSized(h: Header) {
    |h.dataSectors| == NUM_DIRECT
  }

  /** A header that describes a file: the right number of distinct sectors of the disk. */
  ghost predicate WfHeader(h: Header) {
    && TableSized(h)
    && 0 <= h.numBytes <= MAX_FILE_SIZE
    && h.numSectors == DivRoundUp(h.numBytes, SECTOR_SIZE)
    && (forall i :: 0 <= i < h.numSectors ==> 0 <= h.dataSectors[i] < NUM_SECTORS)
    && (forall i, j :: 0 <= i < j < h.numSectors ==> h.dataSectors[i] != h.dataSectors[j])
  }

  /** The first `n` entries of a sector table. */
  ghost function Firsts(ds: seq<int32>, n: nat): (s: set<int>)
    requires n <= |ds|
  {
    set x | x in ds[..n]
  }

  lemma FirstsStep(ds: seq<int32>, n: nat)
    requires n < |ds|
    ensures Firsts(ds, n + 1) == Firsts(ds, n) + {ds[n]}
  {
    assert ds[..n + 1] == ds[..n] + [ds[n]];
  }

  /** The data sectors of a file. */
  ghost function DataSet(h: Header): (s: set<int>)
    requires WfHeader(h)
    ensures forall x :: x in s ==> 0 <= x < NUM_SECTORS
    ensures forall i :: 0 <= i < h.numSectors ==> h.dataSectors[i] in s
  {
    Firsts(h.dataSectors, h.numSectors)
  }

  /** Byte `i` of the file's data sectors taken in order, slack included. */
  ghost function ByteAt(d: Image, h: Header, i: nat): byte
    requires WfHeader(h) && i < h.numSectors * 128
  {
    d[h.dataSectors[i / 128]][i % 128]
  }

  /** The contents of a file: the first `numBytes` bytes of its data sectors. */
  ghost function Content(d: Image, h: Header): (c: seq<byte>)
    requires WfHeader(h)
    ensures |c| == h.numBytes
  {
    seq(h.numBytes, i requires 0 <= i < h.numBytes => ByteAt(d, h, i))
  }

  /** How many bytes a request for `numBytes` at `position` moves. */
  function Clip(numBytes: int, position: int, length: int): (n: nat)
    requires position >= 0
    ensures n > 0 ==> position + n <= length
  {
    if numBytes <= 0 || position >= length then 0
    else if position + numBytes > length then length - position
    else numBytes
  }

  /** Those from there on that lie in the request and in the file. */
  lemma ClipExactly(numBytes: int, position: int, length: int, i: int)
    requires 0 <= position <= i
    ensures i < position + Clip(numBytes, position, length) <==> i < length && i < position + numBytes
  {
  }

  /** Byte `r` of the `q`th 128 bytes of a file is byte `r` of its `q`th data sector. */
  lemma ContentOnDisk(d: Image, h: Header, q: nat, r: nat)
    requires WfHeader(h) && r < 128 && q * 128 + r < h.numBytes
    ensures q < |h.dataSectors| && 0 <= h.dataSectors[q] < 1024
    ensures Content(d, h)[q * 128 + r] == d[h.dataSectors[q]][r]
  {
    DivMod128(q, r);
    LastSectorInFile(q * 128 + r, h.numBytes);
  }

  /** `c` with the bytes from `position` on replaced by `data`. */
  function Splice(c: seq<byte>, position: nat, data: seq<byte>): (r: seq<byte>)
    requires position + |data| <= |c|
    ensures |r| == |c|
    ensures forall i :: 0 <= i < |r| ==>
      r[i] == if position <= i < position + |data| then data[i - position] else c[i]
  {
    c[..position] + data + c[position + |data|..]
  }

  lemma DivMod128(q: nat, r: nat)
    requires r < 128
    ensures (q * 128 + r) / 128 == q && (q * 128 + r) % 128 == r
  {
  }

  lemma LastSectorInFile(i: nat, numBytes: nat)
    requires i < numBytes
    ensures i / 128 < DivRoundUp(numBytes, SECTOR_SIZE)
  {
  }

  /** A file's contents depend on its data sectors only. */
  lemma ContentFrame(d: Image, d': Image, h: Header)
    requires WfHeader(h)
    requires forall s :: s in DataSet(h) ==> d[s] == d'[s]
    ensures Content(d, h) == Content(d', h)
  {
    forall i | 0 <= i < h.numBytes ensures ByteAt(d, h, i) == ByteAt(d', h, i) {
      assert h.dataSectors[i / 128] in DataSet(h);
    }
  }

  lemma {:induction false} FirstsSize(h: Header, n: nat)
    requires WfHeader(h) && n <= h.numSectors
    ensures |Firsts(h.dataSectors, n)| == n
  {
    if n > 0 {
      FirstsSize(h, n - 1);
      FirstsStep(h.dataSectors, n - 1);
      assert h.dataSectors[n - 1] !in h.dataSectors[..n - 1];
    }
  }

  /** A file of `numBytes` bytes holds exactly ceil(numBytes / 128) sectors. */
  lemma DataSetSize(h: Header)
    requires WfHeader(h)
    ensures |DataSet(h)| == DivRoundUp(h.numBytes, SECTOR_SIZE)
  {
    FirstsSize(h, h.numSectors);
  }

  // ----- headers on disk -----

  /** A header is 32 ints, exactly one sector. */
  function EncodeHeader(h: Header): (s: Sector)
    requires TableSized(h)
  {
    EncodeWords(ToWords([h.numBytes, h.numSectors] + h.dataSectors))
  }

  function DecodeHeader(s: Sector): (h: Header)
    ensures TableSized(h)
  {
    var xs := FromWords(DecodeWords(s));
    Header(xs[0], xs[1], xs[2..])
  }

  /** The ints of a header in their order, each least significant byte first. */
  lemma HeaderOnDisk(h: Header, j: nat)
    requires TableSized(h) && j < 32
    ensures Spells(EncodeHeader(h)[4 * j..4 * j + 4],
                   ToWord(if j == 0 then h.numBytes else if j == 1 then h.numSectors else h.dataSectors[j - 2]))
  {
    WordsInBytes(ToWords([h.numBytes, h.numSectors] + h.dataSectors), j);
  }

  lemma HeaderRoundTrip(h: Header)
    requires TableSized(h)
    ensures DecodeHeader(EncodeHeader(h)) == h
  {
    IntsRoundTrip([h.numBytes, h.numSectors] + h.dataSectors);
    assert ([h.numBytes, h.numSectors] + h.dataSectors)[2..] == h.dataSectors;
  }
}
