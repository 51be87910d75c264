/** code/filesys/fstest.cc: copying a byte string into a file and printing a file,
    a few bytes at a time. */
module FsTests {
  import opened Words
  import opened DiskLayout
  import opened OpenFiles
  import opened Directories
  import opened FsImage
  import opened FileSystems
  import opened FsRuns

  const TRANSFER_SIZE: nat := 10

  // ----- sequential access in chunks of any sizes -----

  function Flatten(chunks: seq<seq<byte>>): (s: seq<byte>) {
    if chunks == [] then [] else chunks[0] + Flatten(chunks[1..])
  }

  function Sum(sizes: seq<nat>): nat {
    if sizes == [] then 0 else sizes[0] + Sum(sizes[1..])
  }

  /** The string and the position after a Write of each chunk in turn. */
  function WriteChunks(c: seq<byte>, pos: nat, chunks: seq<seq<byte>>): (r: (seq<byte>, nat))
    decreases |chunks|
  {
    if chunks == [] then (c, pos)
    else WriteChunks(Overwrite(c, chunks[0], pos), pos + Clip(|chunks[0]|, pos, |c|), chunks[1..])
  }

  /** What the Reads of the given sizes return, put together. */
  function ReadChunks(c: seq<byte>, pos: nat, sizes: seq<nat>): (r: seq<byte>)
    decreases |sizes|
  {
    if sizes == [] then []
    else
      var got := Slice(c, sizes[0], pos);
      got + ReadChunks(c, pos + |got|, sizes[1..])
  }

  /** Inside the string the clipping does not show. */
  lemma OverwriteAt(c: seq<byte>, data: seq<byte>, pos: nat, i: nat)
    requires i < |c|
    ensures Overwrite(c, data, pos)[i] == if pos <= i < pos + |data| then data[i - pos] else c[i]
  {
  }

  lemma ClipTwice(m: nat, n: nat, pos: nat, length: nat)
    ensures Clip(m, pos, length) + Clip(n, pos + Clip(m, pos, length), length) == Clip(m + n, pos, length)
    ensures Clip(m, pos, length) <= m && (Clip(m, pos, length) < m ==> length <= pos + Clip(m, pos, length))
  {
  }

  lemma OverwriteTwice(c: seq<byte>, a: seq<byte>, b: seq<byte>, pos: nat)
    ensures Overwrite(Overwrite(c, a, pos), b, pos + Clip(|a|, pos, |c|)) == Overwrite(c, a + b, pos)
    ensures Clip(|a|, pos, |c|) + Clip(|b|, pos + Clip(|a|, pos, |c|), |c|) == Clip(|a| + |b|, pos, |c|)
  {
    hide Overwrite, Clip;
    var mid, next := Overwrite(c, a, pos), pos + Clip(|a|, pos, |c|);
    ClipTwice(|a|, |b|, pos, |c|);
    forall i | 0 <= i < |c| ensures Overwrite(mid, b, next)[i] == Overwrite(c, a + b, pos)[i] {
      OverwriteAt(c, a, pos, i);
      OverwriteAt(mid, b, next, i);
      OverwriteAt(c, a + b, pos, i);
    }
  }

  lemma OverwriteNone(c: seq<byte>, pos: nat)
    ensures Overwrite(c, [], pos) == c && Clip(0, pos, |c|) == 0
  {
  }

  /** Chunk boundaries do not matter: writing in pieces is writing the whole. */
  lemma {:induction false} WriteChunksIsOne(c: seq<byte>, pos: nat, chunks: seq<seq<byte>>)
    ensures WriteChunks(c, pos, chunks)
         == (Overwrite(c, Flatten(chunks), pos), pos + Clip(|Flatten(chunks)|, pos, |c|))
    decreases |chunks|
  {
    hide Overwrite, Clip;
    if chunks == [] {
      OverwriteNone(c, pos);
    } else {
      WriteChunksIsOne(Overwrite(c, chunks[0], pos), pos + Clip(|chunks[0]|, pos, |c|), chunks[1..]);
      OverwriteTwice(c, chunks[0], Flatten(chunks[1..]), pos);
    }
  }

  lemma SliceTwice(c: seq<byte>, m: nat, n: nat, pos: nat)
    ensures Slice(c, m, pos) + Slice(c, n, pos + |Slice(c, m, pos)|) == Slice(c, m + n, pos)
  {
  }

  lemma SliceNone(c: seq<byte>, pos: nat)
    ensures Slice(c, 0, pos) == []
  {
  }

  lemma {:induction false} ReadChunksIsOne(c: seq<byte>, pos: nat, sizes: seq<nat>)
    ensures ReadChunks(c, pos, sizes) == Slice(c, Sum(sizes), pos)
    decreases |sizes|
  {
    hide Slice;
    if sizes == [] {
      SliceNone(c, pos);
    } else {
      var got := Slice(c, sizes[0], pos);
      ReadChunksIsOne(c, pos + |got|, sizes[1..]);
      SliceTwice(c, sizes[0], Sum(sizes[1..]), pos);
    }
  }

  /** Writing any string in chunks of any sizes and reading it back in chunks of
      any sizes gives the string, as far as the file and the reads go. */
  lemma ChunksRoundTrip(c: seq<byte>, chunks: seq<seq<byte>>, sizes: seq<nat>)
    requires Sum(sizes) <= |Flatten(chunks)|
    ensures var data := Flatten(chunks);
      ReadChunks(WriteChunks(c, 0, chunks).0, 0, sizes) == data[..Clip(Sum(sizes), 0, |c|)]
  {
    WriteChunksIsOne(c, 0, chunks);
    ReadChunksIsOne(WriteChunks(c, 0, chunks).0, 0, sizes);
    var data := Flatten(chunks);
    var w, n := Overwrite(c, data, 0), Clip(Sum(sizes), 0, |c|);
    assert forall i :: 0 <= i < n ==> w[i] == data[i];
  }

  // ----- the two programs -----

  /** `file` was opened as `k` on the file system and `k` has not been removed since. */
  ghost predicate OpenAs(fs: FileSystem, file: OpenFile, k: Name)
    reads file.hdr, fs.disk.sectors
  {
    && fs.disk.Valid() && file.disk == fs.disk
    && VolumeOf(fs.disk.Value()).sound
    && k in VolumeOf(fs.disk.Value()).hdrs && file.hdr.Value() == VolumeOf(fs.disk.Value()).hdrs[k]
  }

  /** A Write on an open file overwrites its string in the file system. */
  method WriteOn(fs: FileSystem, file: OpenFile, ghost k: Name, chunk: seq<byte>) returns (n: nat)
    requires fs.Mounted() && OpenAs(fs, file, k)
    requires file.seekPosition >= 0 && file.seekPosition + |chunk| <= MAX_INT
    modifies fs.disk.sectors, file`seekPosition
    ensures fs.Mounted() && OpenAs(fs, file, k)
    ensures k in old(VolumeOf(fs.disk.Value()).files)
    ensures var c := old(VolumeOf(fs.disk.Value()).files[k]);
      && n == Clip(|chunk|, old(file.seekPosition), |c|)
      && VolumeOf(fs.disk.Value()).files ==
           old(VolumeOf(fs.disk.Value()).files)[k := Overwrite(c, chunk, old(file.seekPosition))]
    ensures file.seekPosition == old(file.seekPosition) + n
  {
    hide VolumeOf, FsInv, WfHeader, Content, DataSet, MapHdr, DirHdr, Splice, Overwrite, WriteStep;
    ghost var d, pos := fs.disk.Value(), file.seekPosition;
    HeaderWf(d, k);
    n := file.Write(chunk, |chunk|);
    WriteIsStep(d, fs.disk.Value(), file.hdr.Value(), chunk, pos, n);
    VolumeWrite(d, fs.disk.Value(), k, chunk, pos, n);
    WriteKeepsSystem(d, fs.disk.Value(), k, chunk, pos, n);
  }

  lemma HeaderWf(d: Image, k: Name)
    requires VolumeOf(d).sound && k in VolumeOf(d).hdrs
    ensures WfHeader(VolumeOf(d).hdrs[k])
    ensures k in VolumeOf(d).files && VolumeOf(d).hdrs[k].numBytes == |VolumeOf(d).files[k]|
  {
  }

  lemma WriteIsStep(d: Image, d': Image, h: Header, data: seq<byte>, pos: nat, n: nat)
    requires WfHeader(h) && n == Clip(|data|, pos, h.numBytes)
    requires n == 0 ==> d' == d
    requires n > 0 ==> Content(d', h) == Splice(Content(d, h), pos, data[..n])
    requires forall s :: 0 <= s < NUM_SECTORS && s !in DataSet(h) ==> d'[s] == d[s]
    ensures WriteStep(d, d', h, data, pos, n)
  {
  }

  /** A Read on an open file returns the next part of its string in the file system. */
  method ReadOn(fs: FileSystem, file: OpenFile, ghost k: Name, numBytes: nat) returns (got: seq<byte>)
    requires fs.disk.Valid() && OpenAs(fs, file, k)
    requires file.seekPosition >= 0 && file.seekPosition + numBytes <= MAX_INT
    modifies file`seekPosition
    ensures k in VolumeOf(fs.disk.Value()).files
    ensures got == Slice(VolumeOf(fs.disk.Value()).files[k], numBytes, old(file.seekPosition))
    ensures file.seekPosition == old(file.seekPosition) + |got|
  {
    hide VolumeOf, WfHeader, Content, DataSet, ReadStep;
    ghost var d, pos := fs.disk.Value(), file.seekPosition;
    HeaderWf(d, k);
    var buffer := new byte[numBytes];
    var n := file.Read(buffer, numBytes);
    got := buffer[..n];
    ReadIsStep(d, file.hdr.Value(), numBytes, pos, got);
    VolumeRead(d, k, numBytes, pos, got);
  }

  lemma ReadIsStep(d: Image, h: Header, numBytes: int, pos: nat, got: seq<byte>)
    requires WfHeader(h) && |got| == Clip(numBytes, pos, h.numBytes)
    requires |got| > 0 ==> got == Content(d, h)[pos..pos + |got|]
    ensures ReadStep(d, h, numBytes, pos, got)
  {
  }

  /** Prints a file: the whole of its contents, ten bytes at a time. */
  method Print(fs: FileSystem, name: seq<byte>) returns (found: bool, out: seq<byte>)
    requires fs.Mounted()
    ensures found <==> Key(name) in VolumeOf(fs.disk.Value()).files
    ensures found ==> out == VolumeOf(fs.disk.Value()).files[Key(name)]
  {
    found, out := false, [];
    var file := fs.Open(name);
    OpenedAs(fs.disk.Value(), Key(name));
    if file == null { return; }
    found, out := PrintRest(fs, file, Key(name));
  }

  lemma OpenedAs(d: Image, k: Name)
    requires FsInv(d)
    ensures VolumeOf(d).sound && VolumeOf(d).files == Abs(d)
    ensures k in FilesOf(d) <==> k in VolumeOf(d).hdrs
    ensures k in FilesOf(d) <==> k in VolumeOf(d).files
    ensures k in FilesOf(d) ==> VolumeOf(d).hdrs[k] == HeaderAt(d, FilesOf(d)[k])
  {
    AbsAt(d, k);
  }

  method PrintRest(fs: FileSystem, file: OpenFile, ghost k: Name) returns (found: bool, out: seq<byte>)
    requires fs.disk.Valid() && OpenAs(fs, file, k) && file.seekPosition == 0
    modifies file`seekPosition
    ensures found && k in VolumeOf(fs.disk.Value()).files && out == VolumeOf(fs.disk.Value()).files[k]
  {
    hide VolumeOf;
    HeaderWf(fs.disk.Value(), k);
    ghost var c := VolumeOf(fs.disk.Value()).files[k];
    found, out := true, [];
    var got := ReadOn(fs, file, k, TRANSFER_SIZE);
    while |got| > 0
      invariant file.seekPosition == |out| + |got| <= |c|
      invariant out == c[..|out|] && got == Slice(c, TRANSFER_SIZE, |out|)
      invariant OpenAs(fs, file, k)
      decreases |c| - |out|
    {
      out := out + got;
      got := ReadOn(fs, file, k, TRANSFER_SIZE);
    }
  }

  /** Copies a byte string into a new file of the same length, ten bytes at a time. */
  method Copy(fs: FileSystem, data: seq<byte>, to: seq<byte>) returns (ok: bool)
    requires fs.Mounted() && |data| <= MAX_FILE_SIZE
    modifies fs.disk.sectors
    ensures fs.Mounted()
    ensures ok <==> (&& Key(to) !in old(VolumeOf(fs.disk.Value()).files)
                     && |old(VolumeOf(fs.disk.Value()).files)| < NUM_DIR_ENTRIES)
    ensures VolumeOf(fs.disk.Value()).files ==
      if ok then old(VolumeOf(fs.disk.Value()).files)[Key(to) := data] else old(VolumeOf(fs.disk.Value()).files)
  {
    hide VolumeOf, CreateStep, FsInv, FilesOf, HeaderAt, MapHdr, DirHdr;
    ghost var d := fs.disk.Value();
    OpenedAs(d, Key(to));
    ok := fs.Create(to, |data|);
    ghost var d1 := fs.disk.Value();
    VolumeCreate(d, d1, Key(to), |data|, ok);
    if !ok { return; }
    OpenedAs(d1, Key(to));
    var file := fs.Open(to);
    CopyRest(fs, file, Key(to), data);
    PutTwice(VolumeOf(d).files, Key(to), VolumeOf(d1).files[Key(to)], data);
  }

  lemma PutTwice(m: map<Name, seq<byte>>, k: Name, v: seq<byte>, w: seq<byte>)
    ensures m[k := v][k := w] == m[k := w]
  {
  }

  /** Writing the next chunk makes the file agree with the data that much further. */
  lemma CopyStep(c: seq<byte>, data: seq<byte>, i: nat, amount: nat)
    requires i + amount <= |data| == |c| && c[..i] == data[..i]
    ensures Overwrite(c, data[i..i + amount], i)[..i + amount] == data[..i + amount]
  {
    hide Overwrite, Clip;
    var r := Overwrite(c, data[i..i + amount], i);
    forall j | 0 <= j < i + amount ensures r[j] == data[j] {
      OverwriteAt(c, data[i..i + amount], i, j);
      if j < i { assert c[j] == c[..i][j] == data[..i][j]; }
    }
  }

  method CopyRest(fs: FileSystem, file: OpenFile, ghost k: Name, data: seq<byte>)
    requires fs.Mounted() && OpenAs(fs, file, k) && file.seekPosition == 0
    requires k in VolumeOf(fs.disk.Value()).files && |VolumeOf(fs.disk.Value()).files[k]| == |data| <= MAX_FILE_SIZE
    modifies fs.disk.sectors, file`seekPosition
    ensures fs.Mounted()
    ensures VolumeOf(fs.disk.Value()).files == old(VolumeOf(fs.disk.Value()).files)[k := data]
  {
    hide VolumeOf, FsInv, MapHdr, DirHdr, Overwrite;
    ghost var files := VolumeOf(fs.disk.Value()).files;
    ghost var c := files[k];
    var i := 0;
    while i < |data|
      invariant fs.Mounted() && OpenAs(fs, file, k)
      invariant 0 <= i == file.seekPosition <= |data| == |c| && c[..i] == data[..i]
      invariant VolumeOf(fs.disk.Value()).files == files[k := c]
    {
      var amount := if i + TRANSFER_SIZE <= |data| then TRANSFER_SIZE else |data| - i;
      var n := WriteOn(fs, file, k, data[i..i + amount]);
      PutTwice(files, k, c, Overwrite(c, data[i..i + amount], i));
      CopyStep(c, data, i, amount);
      c := Overwrite(c, data[i..i + amount], i);
      i := i + amount;
    }
    assert c == c[..i] && data == data[..i];
  }
}
