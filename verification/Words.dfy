/** Bytes, 32-bit words and the memory images the file system and the network
    overlay on byte buffers.  A word is a natural number below 2^32; the bit
    operators of the source are written out on its binary digits. */
module Words {

  const WORD: nat := 0x1_0000_0000
  const BITS_IN_WORD: nat := 32

  type byte = x: int | 0 <= x < 256
  type word = x: int | 0 <= x < 0x1_0000_0000
  type int32 = x: int | -0x8000_0000 <= x < 0x8000_0000

  // ----- binary digits and the bit operators -----

  function Pow2(k: nat): (p: nat)
    ensures p >= 1
  {
    if k == 0 then 1 else 2 * Pow2(k - 1)
  }

  /** Binary digit `k` of `w`. */
  predicate Bit(w: nat, k: nat) {
    if k == 0 then w % 2 == 1 else Bit(w / 2, k - 1)
  }

  /** `w | v` */
  function Or(w: nat, v: nat): nat {
    if w == 0 && v == 0 then 0
    else (if w % 2 == 1 || v % 2 == 1 then 1 else 0) + 2 * Or(w / 2, v / 2)
  }

  /** `w & v` */
  function And(w: nat, v: nat): nat {
    if w == 0 && v == 0 then 0
    else (if w % 2 == 1 && v % 2 == 1 then 1 else 0) + 2 * And(w / 2, v / 2)
  }

  /** `~w` on `n` binary digits */
  function Not(w: nat, n: nat): nat {
    if n == 0 then 0 else (if w % 2 == 1 then 0 else 1) + 2 * Not(w / 2, n - 1)
  }

  lemma {:induction false} ZeroBit(k: nat)
    ensures !Bit(0, k)
  {
    if k > 0 { ZeroBit(k - 1); }
  }

  lemma {:induction false} OrBit(w: nat, v: nat, k: nat)
    ensures Bit(Or(w, v), k) <==> Bit(w, k) || Bit(v, k)
    decreases k
  {
    if k > 0 {
      if w == 0 && v == 0 { ZeroBit(k); }
      else { OrBit(w / 2, v / 2, k - 1); }
    }
  }

  lemma {:induction false} AndBit(w: nat, v: nat, k: nat)
    ensures Bit(And(w, v), k) <==> Bit(w, k) && Bit(v, k)
    decreases k
  {
    if k > 0 {
      if w == 0 && v == 0 { ZeroBit(k); }
      else { AndBit(w / 2, v / 2, k - 1); }
    }
  }

  lemma {:induction false} NotBit(w: nat, n: nat, k: nat)
    requires k < n
    ensures Bit(Not(w, n), k) <==> !Bit(w, k)
  {
    var rest := Not(w / 2, n - 1);
    assert Not(w, n) == (if w % 2 == 1 then 0 else 1) + 2 * rest;
    assert Not(w, n) / 2 == rest;
    if k > 0 { NotBit(w / 2, n - 1, k - 1); }
  }

  lemma {:induction false} Pow2Bit(j: nat, k: nat)
    ensures Bit(Pow2(j), k) <==> j == k
  {
    if j == 0 {
      if k > 0 { ZeroBit(k - 1); }
    } else if k > 0 {
      assert Pow2(j) / 2 == Pow2(j - 1);
      Pow2Bit(j - 1, k - 1);
    }
  }

  lemma {:induction false} OrBound(w: nat, v: nat, n: nat)
    requires w < Pow2(n) && v < Pow2(n)
    ensures Or(w, v) < Pow2(n)
    decreases n
  {
    if n > 0 { OrBound(w / 2, v / 2, n - 1); }
  }

  lemma {:induction false} AndBound(w: nat, v: nat)
    ensures And(w, v) <= w
    decreases w + v
  {
    if w != 0 || v != 0 { AndBound(w / 2, v / 2); }
  }

  lemma {:induction false} AllClearIsZero(w: nat, n: nat)
    requires w < Pow2(n)
    requires forall k :: 0 <= k < n ==> !Bit(w, k)
    ensures w == 0
  {
    if n > 0 {
      assert !Bit(w, 0);
      forall k | 0 <= k < n - 1 ensures !Bit(w / 2, k) {
        assert !Bit(w, k + 1);
      }
      AllClearIsZero(w / 2, n - 1);
    }
  }

  lemma {:induction false} Pow2Mono(a: nat, b: nat)
    requires a <= b
    ensures Pow2(a) <= Pow2(b)
  {
    if a < b { Pow2Mono(a, b - 1); }
  }

  lemma Pow2Of32()
    ensures Pow2(32) == WORD
  {
    assert Pow2(8) == 256;
    assert Pow2(16) == 256 * Pow2(8);
    assert Pow2(24) == 256 * Pow2(16);
    assert Pow2(32) == 256 * Pow2(24);
  }

  /** `w & (1 << k)` is non-zero exactly when digit `k` is set. */
  lemma TestMask(w: word, k: nat)
    requires k < 32
    ensures And(w, Pow2(k)) != 0 <==> Bit(w, k)
  {
    AndBit(w, Pow2(k), k);
    Pow2Bit(k, k);
    if !Bit(w, k) {
      AndBound(w, Pow2(k));
      Pow2Of32();
      forall j | 0 <= j < 32 ensures !Bit(And(w, Pow2(k)), j) {
        AndBit(w, Pow2(k), j);
        Pow2Bit(k, j);
      }
      AllClearIsZero(And(w, Pow2(k)), 32);
    } else if And(w, Pow2(k)) == 0 {
      ZeroBit(k);
    }
  }

  /** `w |= 1 << k` */
  function SetBit(w: word, k: nat): (r: word)
    requires k < 32
    ensures forall j: nat {:trigger Bit(r, j)} :: Bit(r, j) <==> j == k || Bit(w, j)
  {
    Pow2Of32();
    Pow2Mono(k + 1, 32);
    OrBound(w, Pow2(k), 32);
    assert forall j: nat {:trigger Bit(Or(w, Pow2(k)), j)} ::
        Bit(Or(w, Pow2(k)), j) <==> j == k || Bit(w, j) by {
      forall j: nat ensures Bit(Or(w, Pow2(k)), j) <==> j == k || Bit(w, j) {
        OrBit(w, Pow2(k), j);
        Pow2Bit(k, j);
      }
    }
    Or(w, Pow2(k))
  }

  /** `w &= ~(1 << k)` */
  function ClearBit(w: word, k: nat): (r: word)
    requires k < 32
    ensures forall j: nat {:trigger Bit(r, j)} :: j < 32 ==> (Bit(r, j) <==> j != k && Bit(w, j))
  {
    AndBound(w, Not(Pow2(k), 32));
    assert forall j: nat {:trigger Bit(And(w, Not(Pow2(k), 32)), j)} :: j < 32 ==>
        (Bit(And(w, Not(Pow2(k), 32)), j) <==> j != k && Bit(w, j)) by {
      forall j: nat | j < 32 ensures Bit(And(w, Not(Pow2(k), 32)), j) <==> j != k && Bit(w, j) {
        AndBit(w, Not(Pow2(k), 32), j);
        NotBit(Pow2(k), 32, j);
        Pow2Bit(k, j);
      }
    }
    And(w, Not(Pow2(k), 32))
  }

  // ----- little-endian images of words -----

  function WordByte(w: word, j: nat): byte
    requires j < 4
  {
    if j == 0 then w % 256
    else if j == 1 then w / 256 % 256
    else if j == 2 then w / 256 / 256 % 256
    else w / 256 / 256 / 256
  }

  function WordOf(b0: byte, b1: byte, b2: byte, b3: byte): word {
    b0 + 256 * (b1 + 256 * (b2 + 256 * b3))
  }

  lemma WordOfBytes(w: word)
    ensures WordOf(WordByte(w, 0), WordByte(w, 1), WordByte(w, 2), WordByte(w, 3)) == w
  {
  }

  /** The bytes of an array of words, as a `char *` cast sees them. */
  function EncodeWords(ws: seq<word>): (bs: seq<byte>)
    ensures |bs| == 4 * |ws|
  {
    seq(4 * |ws|, i requires 0 <= i < 4 * |ws| => WordByte(ws[i / 4], i % 4))
  }

  function DecodeWords(bs: seq<byte>): (ws: seq<word>)
    ensures |ws| == |bs| / 4
  {
    seq(|bs| / 4, i requires 0 <= i < |bs| / 4 => WordOf(bs[4*i], bs[4*i+1], bs[4*i+2], bs[4*i+3]))
  }

  /** Four bytes that spell a number, least significant byte first. */
  predicate Spells(b: seq<byte>, w: int) {
    |b| == 4 && w == b[0] as int + 256 * b[1] as int + 65536 * b[2] as int + 16777216 * b[3] as int
  }

  /** In an array every word is spelled by the four bytes at its place. */
  lemma WordsInBytes(ws: seq<word>, i: nat)
    requires i < |ws|
    ensures Spells(EncodeWords(ws)[4 * i..4 * i + 4], ws[i])
  {
    DivMod4(i);
    WordOfBytes(ws[i]);
  }

  /** The binary digits of a number put together from a low and a high part. */
  lemma {:induction false} LowAndHigh(low: nat, high: nat, n: nat, k: nat)
    requires low < Pow2(n)
    ensures Bit(low + Pow2(n) * high, k) <==> if k < n then Bit(low, k) else Bit(high, k - n)
    decreases n
  {
    if n > 0 {
      var p := Pow2(n - 1) * high;
      assert Pow2(n) * high == 2 * p;
      Halves(low, p);
      if k > 0 { LowAndHigh(low / 2, high, n - 1, k - 1); }
    }
  }

  lemma Halves(x: nat, p: nat)
    ensures (x + 2 * p) % 2 == x % 2 && (x + 2 * p) / 2 == x / 2 + p
  {
  }

  /** Digit `k` of an array of words is digit `k % 8` of byte `k / 8` of its image. */
  lemma BitInBytes(b: seq<byte>, k: nat)
    requires |b| == 4 && k < 32
    ensures Bit(WordOf(b[0], b[1], b[2], b[3]), k) <==> Bit(b[k / 8], k % 8)
  {
    assert Pow2(8) == 256;
    var high2 := b[2] as nat + 256 * b[3] as nat;
    var high1 := b[1] as nat + 256 * high2;
    LowAndHigh(b[0], high1, 8, k);
    if k >= 8 { LowAndHigh(b[1], high2, 8, k - 8); }
    if k >= 16 { LowAndHigh(b[2], b[3], 8, k - 16); }
  }

  lemma WordsRoundTrip(ws: seq<word>)
    ensures DecodeWords(EncodeWords(ws)) == ws
  {
    hide WordByte, WordOf;
    var bs := EncodeWords(ws);
    forall i | 0 <= i < |ws| ensures DecodeWords(bs)[i] == ws[i] {
      WordOfBytes(ws[i]);
      DivMod4(i);
    }
  }

  lemma DivMod4(i: nat)
    ensures (4*i) / 4 == i && (4*i+1) / 4 == i && (4*i+2) / 4 == i && (4*i+3) / 4 == i
    ensures (4*i) % 4 == 0 && (4*i+1) % 4 == 1 && (4*i+2) % 4 == 2 && (4*i+3) % 4 == 3
  {
  }

  // ----- two's complement -----

  function ToWord(x: int32): word {
    if x < 0 then x + 0x1_0000_0000 else x
  }

  function FromWord(w: word): int32 {
    if w >= 0x8000_0000 then w - 0x1_0000_0000 else w
  }

  function ToWords(xs: seq<int32>): (ws: seq<word>)
    ensures |ws| == |xs|
  {
    seq(|xs|, i requires 0 <= i < |xs| => ToWord(xs[i]))
  }

  function FromWords(ws: seq<word>): (xs: seq<int32>)
    ensures |xs| == |ws|
  {
    seq(|ws|, i requires 0 <= i < |ws| => FromWord(ws[i]))
  }

  lemma SignBack(xs: seq<int32>)
    ensures FromWords(ToWords(xs)) == xs
  {
  }

  /** Storing an array of ints in a byte buffer and reading it back is the identity. */
  lemma IntsRoundTrip(xs: seq<int32>)
    ensures FromWords(DecodeWords(EncodeWords(ToWords(xs)))) == xs
  {
    hide EncodeWords, DecodeWords, ToWords, FromWords;
    WordsRoundTrip(ToWords(xs));
    SignBack(xs);
  }
}
