/** code/machine/translate.cc: virtual memory, by a page table or by a translation
    lookaside buffer, and the bytes of a program's address space seen through it. */
module Translation {
  import opened Words

  const PAGE_SIZE: nat := 128
  const NUM_PHYS_PAGES: nat := 32
  const MEMORY_SIZE: nat := 4096
  const TLB_SIZE: nat := 4

  datatype Entry = Entry(virtualPage: int32, physicalPage: int32, valid: bool, readOnly: bool, use: bool, dirty: bool)
  datatype Exception = PageFault | ReadOnly | BusError | AddressError
  datatype Outcome = Fault(exception: Exception) | At(physAddr: nat)

  /** How the machine finds an entry: the page number indexes a page table; in the TLB the
      first valid entry with that page number is taken. */
  datatype Mode = PageTable | Tlb

  predicate ValidSize(size: nat) {
    size == 1 || size == 2 || size == 4
  }

  predicate Matches(e: Entry, vpn: nat) {
    e.valid && ToWord(e.virtualPage) == vpn
  }

  function FirstMatch(t: seq<Entry>, vpn: nat): (i: nat)
    ensures i <= |t| && (forall j :: 0 <= j < i ==> !Matches(t[j], vpn)) && (i < |t| ==> Matches(t[i], vpn))
  {
    if t == [] || Matches(t[0], vpn) then 0 else 1 + FirstMatch(t[1..], vpn)
  }

  /** The index of the entry for a page; `|t|` or beyond when there is none. */
  function IndexOf(mode: Mode, t: seq<Entry>, vpn: nat): nat {
    if mode.PageTable? then vpn else FirstMatch(t, vpn)
  }

  function Misaligned(va: word, size: nat): bool {
    (size == 4 && va % 4 != 0) || (size == 2 && va % 2 != 0)
  }

  /** What Translate answers. */
  function TranslateBy(mode: Mode, t: seq<Entry>, va: word, size: nat, writing: bool): Outcome {
    if Misaligned(va, size) then Fault(AddressError)
    else
      var i := IndexOf(mode, t, va / 128);
      if i >= |t| then Fault(if mode.PageTable? then AddressError else PageFault)
      else if !t[i].valid then Fault(PageFault)
      else ThroughEntry(t[i], va, writing)
  }

  function ThroughEntry(e: Entry, va: word, writing: bool): Outcome {
    if e.readOnly && writing then Fault(ReadOnly)
    else if ToWord(e.physicalPage) >= 32 then Fault(BusError)
    else At(ToWord(e.physicalPage) * 128 + va % 128)
  }

  /** The use and dirty bits after an access through entry `i`. */
  function Touched(t: seq<Entry>, i: nat, writing: bool): seq<Entry>
    requires i < |t|
  {
    t[i := t[i].(use := true, dirty := t[i].dirty || writing)]
  }

  // ----- what translation gives -----

  /** What an access through entry `e` comes to, read off the entry: which exception, or the
      address of its byte in the frame. */
  predicate Through(e: Entry, va: word, writing: bool, o: Outcome) {
    var frame := ToWord(e.physicalPage);
    && (o.At? <==> !(e.readOnly && writing) && frame < 32)
    && (o.At? ==> o.physAddr / 128 == frame && o.physAddr % 128 == va % 128)
    && (o.Fault? ==> o.exception == if e.readOnly && writing then ReadOnly else BusError)
  }

  /** Through a page table, the page number indexes the table. */
  lemma ByTable(t: seq<Entry>, va: word, size: nat, writing: bool)
    requires ValidSize(size)
    ensures var o, page := TranslateBy(PageTable, t, va, size, writing), va / 128;
      if va % size != 0 || page >= |t| then o == Fault(AddressError)
      else if !t[page].valid then o == Fault(PageFault)
      else Through(t[page], va, writing, o)
  {
    FrameAndOffset(t, va);
  }

  /** None of the first `n` entries is a valid one for the page. */
  ghost predicate NoneFor(t: seq<Entry>, n: nat, page: nat)
    requires n <= |t|
  {
    forall j :: 0 <= j < n && t[j].valid ==> ToWord(t[j].virtualPage) != page
  }

  /** Entry `i` is the first valid one for the page. */
  ghost predicate FirstFor(t: seq<Entry>, i: nat, page: nat) {
    i < |t| && t[i].valid && ToWord(t[i].virtualPage) == page && NoneFor(t, i, page)
  }

  /** Through a TLB, the first valid entry for the page is taken; without one the access misses. */
  lemma ByTlb(t: seq<Entry>, va: word, size: nat, writing: bool)
    requires ValidSize(size)
    ensures var o, page := TranslateBy(Tlb, t, va, size, writing), va / 128;
      if va % size != 0 then o == Fault(AddressError)
      else if NoneFor(t, |t|, page) then o == Fault(PageFault)
      else exists i: nat :: FirstFor(t, i, page) && Through(t[i], va, writing, o)
  {
    var page, first := va / 128, FirstMatch(t, va / 128);
    FrameAndOffset(t, va);
    if first < |t| {
      assert forall j :: 0 <= j < first ==> !Matches(t[j], page);
      assert FirstFor(t, first, page);
    } else {
      assert forall j :: 0 <= j < |t| ==> !Matches(t[j], page);
    }
  }

  /** An access that goes through marks the entry it used, as dirty if it writes, and changes
      nothing else in the table. */
  lemma MarksExactly(mode: Mode, t: seq<Entry>, t': seq<Entry>, va: word, size: nat, writing: bool, j: nat)
    requires After(mode, t, t', va, size, writing) && j < |t|
    ensures |t'| == |t| && t'[j] == t[j].(use := t'[j].use, dirty := t'[j].dirty)
    ensures var used := TranslateBy(mode, t, va, size, writing).At?
                        && if mode.PageTable? then j == va / 128 else FirstFor(t, j, va / 128);
      t'[j].use == (t[j].use || used) && t'[j].dirty == (t[j].dirty || (used && writing))
  {
    var page, first := va / 128, FirstMatch(t, va / 128);
    assert forall i :: 0 <= i < first ==> !Matches(t[i], page);
    if FirstFor(t, j, page) {
      assert Matches(t[j], page) && first <= j;
      assert Matches(t[first], page);
    }
  }

  lemma FrameAndOffset(t: seq<Entry>, va: word)
    ensures forall i :: 0 <= i < |t| ==>
      var p := ToWord(t[i].physicalPage) * 128 + va % 128; p / 128 == ToWord(t[i].physicalPage) && p % 128 == va % 128
  {
    forall i | 0 <= i < |t|
      ensures var p := ToWord(t[i].physicalPage) * 128 + va % 128; p / 128 == ToWord(t[i].physicalPage) && p % 128 == va % 128
    {
      PageParts(ToWord(t[i].physicalPage), va % 128);
    }
  }

  lemma PageParts(page: nat, offset: nat)
    requires offset < 128
    ensures (page * 128 + offset) / 128 == page && (page * 128 + offset) % 128 == offset
  {
  }

  /** A translation stays inside memory, keeps the alignment, and carries the following
      bytes of the access along with the first. */
  lemma TranslatedInside(mode: Mode, t: seq<Entry>, va: word, size: nat, writing: bool)
    requires ValidSize(size) && TranslateBy(mode, t, va, size, writing).At?
    ensures var p := TranslateBy(mode, t, va, size, writing).physAddr;
      && p + size <= MEMORY_SIZE && p % size == 0 && va + size <= WORD
      && forall vb: word :: va <= vb < va + size ==> TranslateBy(mode, t, vb, 1, false) == At(p + (vb - va))
  {
    var p := TranslateBy(mode, t, va, size, writing).physAddr;
    RoomOnPage(va, size);
    forall vb: word | va <= vb < va + size ensures TranslateBy(mode, t, vb, 1, false) == At(p + (vb - va)) {
      assert vb / 128 == va / 128 && vb % 128 == va % 128 + (vb - va);
    }
  }

  lemma RoomOnPage(va: word, size: nat)
    requires ValidSize(size) && !Misaligned(va, size)
    ensures va % 128 + size <= 128 && va + size <= WORD
    ensures (va % 128) % size == 0
  {
    OffsetAligned(va / 128, va % 128);
  }

  lemma OffsetAligned(page: nat, offset: nat)
    requires offset < 128
    ensures (page * 128 + offset) % 4 == offset % 4 && (page * 128 + offset) % 2 == offset % 2
  {
    Remainders(page * 32 + offset / 4, offset % 4, page * 64 + offset / 2, offset % 2);
  }

  lemma Remainders(p: nat, r: nat, q: nat, s: nat)
    requires r < 4 && s < 2
    ensures (p * 4 + r) % 4 == r && (q * 2 + s) % 2 == s
  {
  }

  /** The use and dirty bits do not matter to any translation. */
  lemma TouchedSame(mode: Mode, t: seq<Entry>, i: nat, wrote: bool, va: word, size: nat, writing: bool)
    requires i < |t|
    ensures TranslateBy(mode, Touched(t, i, wrote), va, size, writing) == TranslateBy(mode, t, va, size, writing)
  {
    var t', vpn := Touched(t, i, wrote), va / 128;
    var a, b := FirstMatch(t, vpn), FirstMatch(t', vpn);
    assert forall j :: 0 <= j < |t| ==> Matches(t'[j], vpn) == Matches(t[j], vpn);
    assert a == b by {
      assert a < |t| ==> Matches(t'[a], vpn);
      assert b < |t| ==> Matches(t[b], vpn);
    }
  }

  /** Every valid TLB entry is a copy of the page table's. */
  ghost predicate Agrees(tlb: seq<Entry>, table: seq<Entry>) {
    forall i :: 0 <= i < |tlb| && tlb[i].valid ==> CopyOf(tlb[i], table)
  }

  predicate CopyOf(e: Entry, table: seq<Entry>) {
    var vpn := ToWord(e.virtualPage);
    vpn < |table| && table[vpn].valid && table[vpn].physicalPage == e.physicalPage && table[vpn].readOnly == e.readOnly
  }

  /** A TLB that agrees with the page table misses, or answers as the page table would;
      it misses exactly when the access is aligned and the page has no valid entry. */
  lemma TlbAgrees(tlb: seq<Entry>, table: seq<Entry>, va: word, size: nat, writing: bool)
    requires Agrees(tlb, table)
    ensures
      var missed := !Misaligned(va, size) && forall i :: 0 <= i < |tlb| ==> !Matches(tlb[i], va / 128);
      TranslateBy(Tlb, tlb, va, size, writing) ==
      if missed then Fault(PageFault) else TranslateBy(PageTable, table, va, size, writing)
  {
    var i := FirstMatch(tlb, va / 128);
    assert i < |tlb| ==> CopyOf(tlb[i], table);
  }

  lemma AgreesStill(tlb: seq<Entry>, table: seq<Entry>, i: nat, writing: bool)
    requires Agrees(tlb, table) && i < |tlb|
    ensures Agrees(Touched(tlb, i, writing), table)
  {
    var tlb' := Touched(tlb, i, writing);
    forall j | 0 <= j < |tlb'| && tlb'[j].valid ensures CopyOf(tlb'[j], table) {
      assert CopyOf(tlb[j], table);
    }
  }

  // ----- bytes -----

  /** Byte `k` of a value, least significant first. */
  function ByteOf(value: int32, k: nat): byte {
    var w := ToWord(value);
    if k == 0 then w % 256 else if k == 1 then w / 256 % 256 else if k == 2 then w / 65536 % 256 else w / 16777216 % 256
  }

  function Bytes(value: int32, size: nat): (bs: seq<byte>)
    requires size <= 4
    ensures |bs| == size && forall k :: 0 <= k < size ==> bs[k] == ByteOf(value, k)
  {
    [ByteOf(value, 0), ByteOf(value, 1), ByteOf(value, 2), ByteOf(value, 3)][..size]
  }

  /** Memory after the low bytes of a value are stored. */
  function Stored(mem: seq<byte>, p: nat, size: nat, value: int32): (r: seq<byte>)
    requires p + size <= |mem| && size <= 4
    ensures |r| == |mem|
    ensures forall i :: 0 <= i < |mem| ==> r[i] == if p <= i < p + size then ByteOf(value, i - p) else mem[i]
  {
    mem[..p] + Bytes(value, size) + mem[p + size..]
  }

  /** What a load of `size` bytes gives: one byte comes with its sign, two without. */
  function Loaded(mem: seq<byte>, p: nat, size: nat): (value: int32)
    requires p + size <= |mem| && ValidSize(size)
  {
    if size == 1 then (if mem[p] >= 128 then mem[p] - 256 else mem[p])
    else if size == 2 then mem[p] as int + 256 * mem[p + 1] as int
    else FromWord(mem[p] as int + 256 * mem[p + 1] as int + 65536 * mem[p + 2] as int + 16777216 * mem[p + 3] as int)
  }

  /** The value a load of `size` bytes gives back after a store of `size` bytes. */
  function Low(value: int32, size: nat): int32 {
    var w := ToWord(value);
    if size == 1 then (if w % 256 >= 128 then w % 256 - 256 else w % 256)
    else if size == 2 then w % 65536
    else value
  }

  /** A number is what its bytes spell. */
  lemma ByteSum(value: int32)
    ensures ToWord(value) == ByteOf(value, 0) as int + 256 * ByteOf(value, 1) as int
                             + 65536 * ByteOf(value, 2) as int + 16777216 * ByteOf(value, 3) as int
  {
    BytesOfWord(ToWord(value));
  }

  /** A load gives the number whose low bytes are those in memory, least significant first; one
      byte is extended by its sign, two are not. */
  lemma LoadExactly(mem: seq<byte>, p: nat, size: nat, k: nat)
    requires p + size <= |mem| && ValidSize(size) && k < size
    ensures ByteOf(Loaded(mem, p, size), k) == mem[p + k]
    ensures size == 1 ==> -128 <= Loaded(mem, p, size) < 128
    ensures size == 2 ==> 0 <= Loaded(mem, p, size) < 65536
  {
    if size == 4 {
      var w: word := mem[p] as int + 256 * mem[p + 1] as int + 65536 * mem[p + 2] as int + 16777216 * mem[p + 3] as int;
      SpelledBytes(mem[p], mem[p + 1], mem[p + 2], mem[p + 3]);
      assert ToWord(FromWord(w)) == w;
    } else if size == 2 {
      LastByte(mem[p], mem[p + 1]);
    } else {
      SignByte(mem[p]);
    }
  }

  lemma SignByte(b: byte)
    ensures ToWord(if b >= 128 then b - 256 else b) % 256 == b
  {
  }

  lemma SpelledBytes(b0: byte, b1: byte, b2: byte, b3: byte)
    ensures var w: word := b0 as int + 256 * b1 as int + 65536 * b2 as int + 16777216 * b3 as int;
      w % 256 == b0 && w / 256 % 256 == b1 && w / 65536 % 256 == b2 && w / 16777216 % 256 == b3
  {
    var r2: nat := b2 as int + 256 * b3 as int;
    var r1: nat := b1 as int + 256 * r2;
    LastByte(b0, r1);
    LastByte(b1, r2);
    LastByte(b2, b3);
    DivideOn(b0 as int + 256 * r1);
  }

  lemma LastByte(b: byte, rest: nat)
    ensures (b as int + 256 * rest) % 256 == b && (b as int + 256 * rest) / 256 == rest
  {
  }

  lemma DivideOn(w: nat)
    ensures w / 65536 == w / 256 / 256 && w / 16777216 == w / 256 / 256 / 256
  {
  }

  lemma LoadStored(mem: seq<byte>, p: nat, size: nat, value: int32)
    requires ValidSize(size) && p + size <= |mem|
    ensures Loaded(Stored(mem, p, size, value), p, size) == Low(value, size)
  {
    BytesOfWord(ToWord(value));
  }

  lemma BytesOfWord(w: word)
    ensures w % 256 + 256 * (w / 256 % 256) == w % 65536
    ensures w % 65536 + 65536 * (w / 65536 % 256) + 16777216 * (w / 16777216 % 256) == w
  {
  }

  // ----- the address space -----

  /** The byte a program sees at a virtual address, if the page is there. */
  ghost function Seen(mode: Mode, t: seq<Entry>, mem: seq<byte>, va: word): (b: int)
    requires |mem| == MEMORY_SIZE
    ensures -1 <= b < 256
  {
    var o := TranslateBy(mode, t, va, 1, false);
    if o.Fault? then -1 else TranslatedInside(mode, t, va, 1, false); mem[o.physAddr]
  }

  /** No two pages share a frame. */
  ghost predicate DistinctFrames(mode: Mode, t: seq<Entry>) {
    forall va: word, vb: word ::
      TranslateBy(mode, t, va, 1, false).At? && TranslateBy(mode, t, vb, 1, false).At?
      && TranslateBy(mode, t, va, 1, false).physAddr / 128 == TranslateBy(mode, t, vb, 1, false).physAddr / 128
      ==> va / 128 == vb / 128
  }

  /** A page table whose valid entries name different frames gives each page its own. */
  lemma OwnFrames(t: seq<Entry>)
    requires forall i, j :: 0 <= i < j < |t| && t[i].valid && t[j].valid ==> t[i].physicalPage != t[j].physicalPage
    ensures DistinctFrames(PageTable, t)
  {
    forall va: word, vb: word | (
        && TranslateBy(PageTable, t, va, 1, false).At? && TranslateBy(PageTable, t, vb, 1, false).At?
        && TranslateBy(PageTable, t, va, 1, false).physAddr / 128 == TranslateBy(PageTable, t, vb, 1, false).physAddr / 128)
      ensures va / 128 == vb / 128
    {
      ByTable(t, va, 1, false);
      ByTable(t, vb, 1, false);
      hide TranslateBy;
      SameFrame(t, va / 128, vb / 128);
    }
  }

  lemma SameFrame(t: seq<Entry>, i: nat, j: nat)
    requires forall i, j :: 0 <= i < j < |t| && t[i].valid && t[j].valid ==> t[i].physicalPage != t[j].physicalPage
    requires i < |t| && j < |t| && t[i].valid && t[j].valid && ToWord(t[i].physicalPage) == ToWord(t[j].physicalPage)
    ensures i == j
  {
    assert t[i].physicalPage == t[j].physicalPage;
  }

  lemma PhysParts(mode: Mode, t: seq<Entry>, va: word)
    requires TranslateBy(mode, t, va, 1, false).At?
    ensures TranslateBy(mode, t, va, 1, false).physAddr % 128 == va % 128
  {
  }

  /** With a frame to each page, no two addresses share a byte. */
  lemma SameByte(mode: Mode, t: seq<Entry>, va: word, vb: word)
    requires DistinctFrames(mode, t) && TranslateBy(mode, t, va, 1, false).At?
    requires TranslateBy(mode, t, vb, 1, false) == TranslateBy(mode, t, va, 1, false)
    ensures va == vb
  {
    hide TranslateBy;
    PhysParts(mode, t, va);
    PhysParts(mode, t, vb);
    assert va / 128 == vb / 128;
  }

  /** A store changes the bytes it names, and no other byte of the address space. */
  lemma StoreSeen(mode: Mode, t: seq<Entry>, mem: seq<byte>, va: word, size: nat, value: int32, vb: word)
    requires |mem| == MEMORY_SIZE && ValidSize(size) && DistinctFrames(mode, t)
    requires TranslateBy(mode, t, va, size, true).At?
    ensures var p := TranslateBy(mode, t, va, size, true).physAddr;
      p + size <= MEMORY_SIZE &&
      Seen(mode, t, Stored(mem, p, size, value), vb) ==
      if va <= vb < va + size then ByteOf(value, vb - va) else Seen(mode, t, mem, vb)
  {
    hide TranslateBy, ByteOf;
    TranslatedInside(mode, t, va, size, true);
    var p, o := TranslateBy(mode, t, va, size, true).physAddr, TranslateBy(mode, t, vb, 1, false);
    if va <= vb < va + size {
      assert o == At(p + (vb - va));
    } else if o.At? && p <= o.physAddr < p + size {
      var vc := va + (o.physAddr - p);
      assert TranslateBy(mode, t, vc, 1, false) == o;
      SameByte(mode, t, vc, vb);
      assert false;
    } else if o.At? {
      TranslatedInside(mode, t, vb, 1, false);
    }
  }

  /** A load puts together the bytes seen at its addresses. */
  lemma LoadSeen(mode: Mode, t: seq<Entry>, mem: seq<byte>, va: word, size: nat)
    requires |mem| == MEMORY_SIZE && ValidSize(size) && TranslateBy(mode, t, va, size, false).At?
    ensures var p := TranslateBy(mode, t, va, size, false).physAddr;
      p + size <= MEMORY_SIZE && forall vb: word :: va <= vb < va + size ==> mem[p + (vb - va)] == Seen(mode, t, mem, vb)
  {
    hide TranslateBy;
    TranslatedInside(mode, t, va, size, false);
  }

  /** Reading back a store gives its low bytes, through the entry the store marked. */
  lemma WriteThenRead(mode: Mode, t: seq<Entry>, mem: seq<byte>, va: word, size: nat, value: int32)
    requires |mem| == MEMORY_SIZE && ValidSize(size) && TranslateBy(mode, t, va, size, true).At?
    ensures var p, i := TranslateBy(mode, t, va, size, true).physAddr, IndexOf(mode, t, va / 128);
      && p + size <= MEMORY_SIZE && i < |t|
      && TranslateBy(mode, Touched(t, i, true), va, size, false) == At(p)
      && Loaded(Stored(mem, p, size, value), p, size) == Low(value, size)
  {
    TranslatedInside(mode, t, va, size, true);
    var p, i := TranslateBy(mode, t, va, size, true).physAddr, IndexOf(mode, t, va / 128);
    TouchedSame(mode, t, i, true, va, size, false);
    LoadStored(mem, p, size, value);
  }

  /** Reading anywhere else, through the table the store marked, gives what it gave before. */
  lemma WriteElsewhere(mode: Mode, t: seq<Entry>, mem: seq<byte>, va: word, size: nat, value: int32, vb: word, n: nat)
    requires |mem| == MEMORY_SIZE && ValidSize(size) && ValidSize(n) && DistinctFrames(mode, t)
    requires TranslateBy(mode, t, va, size, true).At?
    requires vb + n <= va || va + size <= vb
    ensures var p, i := TranslateBy(mode, t, va, size, true).physAddr, IndexOf(mode, t, va / 128);
      && p + size <= MEMORY_SIZE && i < |t|
      && TranslateBy(mode, Touched(t, i, true), vb, n, false) == TranslateBy(mode, t, vb, n, false)
      && var o := TranslateBy(mode, t, vb, n, false);
      o.At? ==>
        o.physAddr + n <= MEMORY_SIZE && Loaded(Stored(mem, p, size, value), o.physAddr, n) == Loaded(mem, o.physAddr, n)
  {
    TranslatedInside(mode, t, va, size, true);
    TouchedSame(mode, t, IndexOf(mode, t, va / 128), true, vb, n, false);
    if TranslateBy(mode, t, vb, n, false).At? {
      LoadUnchanged(mode, t, mem, va, size, value, vb, n);
    }
  }

  lemma LoadUnchanged(mode: Mode, t: seq<Entry>, mem: seq<byte>, va: word, size: nat, value: int32, vb: word, n: nat)
    requires |mem| == MEMORY_SIZE && ValidSize(size) && ValidSize(n) && DistinctFrames(mode, t)
    requires TranslateBy(mode, t, va, size, true).At? && TranslateBy(mode, t, vb, n, false).At?
    requires vb + n <= va || va + size <= vb
    ensures var p, q := TranslateBy(mode, t, va, size, true).physAddr, TranslateBy(mode, t, vb, n, false).physAddr;
      && p + size <= MEMORY_SIZE && q + n <= MEMORY_SIZE
      && Loaded(Stored(mem, p, size, value), q, n) == Loaded(mem, q, n)
  {
    hide TranslateBy, DistinctFrames, Seen, ByteOf;
    TranslatedInside(mode, t, va, size, true);
    var p, q := TranslateBy(mode, t, va, size, true).physAddr, TranslateBy(mode, t, vb, n, false).physAddr;
    var mem' := Stored(mem, p, size, value);
    LoadSeen(mode, t, mem, vb, n);
    LoadSeen(mode, t, mem', vb, n);
    TranslatedInside(mode, t, vb, n, false);
    forall j | q <= j < q + n ensures mem'[j] == mem[j] {
      var vc: word := vb + (j - q);
      StoreSeen(mode, t, mem, va, size, value, vc);
      assert mem[j] == Seen(mode, t, mem, vc) && mem'[j] == Seen(mode, t, mem', vc);
    }
  }

  // ----- the machine -----

  datatype Access = Raised(exception: Exception) | Done(value: int32)

  class Machine {
    var tlb: array?<Entry>
    var pageTable: array?<Entry>
    const mainMemory: array<byte>

    /** Translate asserts that there is either a TLB or a page table. */
    ghost predicate Valid()
      reads this
    {
      && mainMemory.Length == MEMORY_SIZE
      && (tlb == null) != (pageTable == null)
      && (tlb != null ==> tlb.Length == TLB_SIZE)
    }

    ghost function HowFound(): Mode
      reads this
    {
      if tlb == null then PageTable else Tlb
    }

    ghost function Entries(): seq<Entry>
      requires Valid()
      reads this, tlb, pageTable
    {
      if tlb == null then pageTable[..] else tlb[..]
    }

    constructor (table: array<Entry>, useTlb: bool)
      requires useTlb ==> table.Length == TLB_SIZE
      ensures Valid() && Entries() == table[..] && (HowFound().Tlb? <==> useTlb)
      ensures forall i :: 0 <= i < MEMORY_SIZE ==> mainMemory[i] == 0
    {
      tlb, pageTable := if useTlb then table else null, if useTlb then null else table;
      mainMemory := new byte[MEMORY_SIZE](_ => 0);
    }

    /** The index of the first valid TLB entry for the page, or -1. */
    method SearchTlb(vpn: nat) returns (entry: int)
      requires Valid() && tlb != null
      ensures if FirstMatch(tlb[..], vpn) == TLB_SIZE then entry == -1 else entry == FirstMatch(tlb[..], vpn)
    {
      hide FirstMatch;
      entry := -1;
      var i := 0;
      while i < TLB_SIZE
        invariant 0 <= i <= TLB_SIZE && entry == -1
        invariant forall j :: 0 <= j < i ==> !Matches(tlb[..][j], vpn)
      {
        assert tlb[i] == tlb[..][i];
        if tlb[i].valid && ToWord(tlb[i].virtualPage) == vpn {
          entry := i;
          break;
        }
        i := i + 1;
      }
    }

    method Translate(virtAddr: int32, size: nat, writing: bool) returns (o: Outcome)
      requires Valid() && ValidSize(size)
      modifies tlb, pageTable
      ensures o == TranslateBy(HowFound(), old(Entries()), ToWord(virtAddr), size, writing)
      ensures EntriesAfter(old(Entries()), ToWord(virtAddr), size, writing)
      ensures o.At? ==> o.physAddr + size <= MEMORY_SIZE
    {
      hide FirstMatch;
      ghost var t := Entries();
      if (size == 4 && ToWord(virtAddr) % 4 != 0) || (size == 2 && ToWord(virtAddr) % 2 != 0) {
        return Fault(AddressError);
      }
      var vpn, offset := ToWord(virtAddr) / PAGE_SIZE, ToWord(virtAddr) % PAGE_SIZE;
      var table: array<Entry>, entry: nat;
      if tlb == null {
        table, entry := pageTable, vpn;
        if vpn >= table.Length {
          return Fault(AddressError);
        } else if !table[vpn].valid {
          return Fault(PageFault);
        }
      } else {
        var found := SearchTlb(vpn);
        if found == -1 {
          return Fault(PageFault);
        }
        table, entry := tlb, found;
      }
      if table[entry].readOnly && writing {
        return Fault(ReadOnly);
      }
      var pageFrame := ToWord(table[entry].physicalPage);
      if pageFrame >= NUM_PHYS_PAGES {
        return Fault(BusError);
      }
      TranslatedInside(HowFound(), t, ToWord(virtAddr), size, writing);
      table[entry] := table[entry].(use := true);
      if writing {
        table[entry] := table[entry].(dirty := true);
      }
      o := At(pageFrame * PAGE_SIZE + offset);
    }

    method ReadMem(addr: int32, size: nat) returns (r: Access)
      requires Valid() && ValidSize(size)
      modifies tlb, pageTable
      ensures var o := TranslateBy(HowFound(), old(Entries()), ToWord(addr), size, false);
        if o.Fault? then r == Raised(o.exception)
        else o.physAddr + size <= MEMORY_SIZE && r == Done(Loaded(mainMemory[..], o.physAddr, size))
      ensures EntriesAfter(old(Entries()), ToWord(addr), size, false)
      ensures mainMemory[..] == old(mainMemory[..])
    {
      var o := Translate(addr, size, false);
      if o.Fault? {
        return Raised(o.exception);
      }
      r := Done(Loaded(mainMemory[..], o.physAddr, size));
    }

    method WriteMem(addr: int32, size: nat, value: int32) returns (r: Access)
      requires Valid() && ValidSize(size)
      modifies tlb, pageTable, mainMemory
      ensures var o := TranslateBy(HowFound(), old(Entries()), ToWord(addr), size, true);
        if o.Fault? then r == Raised(o.exception) && mainMemory[..] == old(mainMemory[..])
        else o.physAddr + size <= MEMORY_SIZE && r == Done(value)
             && mainMemory[..] == Stored(old(mainMemory[..]), o.physAddr, size, value)
      ensures EntriesAfter(old(Entries()), ToWord(addr), size, true)
    {
      var o := Translate(addr, size, true);
      if o.Fault? {
        return Raised(o.exception);
      }
      hide TranslateBy, ByteOf;
      Put(o.physAddr, size, value);
      r := Done(value);
    }

    /** Stores the low bytes, least significant first. */
    method Put(p: nat, size: nat, value: int32)
      requires Valid() && ValidSize(size) && p + size <= MEMORY_SIZE
      modifies mainMemory
      ensures mainMemory[..] == Stored(old(mainMemory[..]), p, size, value)
    {
      hide ByteOf;
      mainMemory[p] := ByteOf(value, 0);
      if size >= 2 {
        mainMemory[p + 1] := ByteOf(value, 1);
      }
      if size == 4 {
        mainMemory[p + 2] := ByteOf(value, 2);
        mainMemory[p + 3] := ByteOf(value, 3);
      }
    }

    /** A store and then a load of the same place: when the store goes through, so does
        the load, and gives the low bytes back. */
    method WriteAndRead(addr: int32, size: nat, value: int32) returns (w: Access, r: Access)
      requires Valid() && ValidSize(size)
      modifies tlb, pageTable, mainMemory
      ensures w.Done? <==> TranslateBy(HowFound(), old(Entries()), ToWord(addr), size, true).At?
      ensures w.Done? ==> r == Done(Low(value, size))
    {
      ghost var t, mem, va := Entries(), mainMemory[..], ToWord(addr);
      w := WriteMem(addr, size, value);
      if w.Done? {
        WriteThenRead(HowFound(), t, mem, va, size, value);
      }
      hide TranslateBy, Loaded, Stored, Touched;
      r := ReadMem(addr, size);
    }

    /** A load, a store somewhere else, and the same load again: both loads agree. */
    method ReadAcrossWrite(from: int32, n: nat, addr: int32, size: nat, value: int32)
      returns (before: Access, w: Access, after: Access)
      requires Valid() && ValidSize(size) && ValidSize(n) && DistinctFrames(HowFound(), Entries())
      requires ToWord(from) + n <= ToWord(addr) || ToWord(addr) + size <= ToWord(from)
      modifies tlb, pageTable, mainMemory
      ensures after == before
    {
      ghost var mode, t, va, vb := HowFound(), Entries(), ToWord(addr), ToWord(from);
      before := ReadMem(from, n);
      ghost var t1, mem := Entries(), mainMemory[..];
      ReadKeeps(mode, t, t1, vb, n, va, size, true);
      ReadKeeps(mode, t, t1, vb, n, vb, n, false);
      DistinctStill(mode, t, t1, vb, n);
      hide DistinctFrames;
      w := WriteMem(addr, size, value);
      if w.Done? {
        WriteElsewhere(mode, t1, mem, va, size, value, vb, n);
      }
      hide TranslateBy, Loaded, Stored, Touched;
      after := ReadMem(from, n);
    }

    /** What an access leaves in the table. */
    ghost predicate EntriesAfter(t: seq<Entry>, va: word, size: nat, writing: bool)
      requires Valid()
      reads this, tlb, pageTable
    {
      After(HowFound(), t, Entries(), va, size, writing)
    }
  }

  /** A fault leaves the table alone; an access marks the entry it went through. */
  ghost predicate After(mode: Mode, t: seq<Entry>, t': seq<Entry>, va: word, size: nat, writing: bool) {
    var i := IndexOf(mode, t, va / 128);
    if TranslateBy(mode, t, va, size, writing).Fault? then t' == t
    else i < |t| && t' == Touched(t, i, writing)
  }

  lemma ReadKeeps(mode: Mode, t: seq<Entry>, t': seq<Entry>, vb: word, n: nat, va: word, size: nat, writing: bool)
    requires After(mode, t, t', vb, n, false)
    ensures TranslateBy(mode, t', va, size, writing) == TranslateBy(mode, t, va, size, writing)
  {
    if t' != t {
      TouchedSame(mode, t, IndexOf(mode, t, vb / 128), false, va, size, writing);
    }
  }

  lemma DistinctStill(mode: Mode, t: seq<Entry>, t': seq<Entry>, vb: word, n: nat)
    requires After(mode, t, t', vb, n, false) && DistinctFrames(mode, t)
    ensures DistinctFrames(mode, t')
  {
    forall va: word ensures TranslateBy(mode, t', va, 1, false) == TranslateBy(mode, t, va, 1, false) {
      ReadKeeps(mode, t, t', vb, n, va, 1, false);
    }
  }
}
