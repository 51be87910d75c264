/** code/userprog/bitmap.cc: an array of bits packed into 32-bit words, refined
    to the set of marked bit numbers. */
module BitMaps {
  import opened Words

  /** Whether bit `i` of the packed words is on. */
  predicate IsMarked(ws: seq<word>, i: nat)
    requires i < 32 * |ws|
  {
    Bit(ws[i / 32], i % 32)
  }

  /** The set a packed bitmap of `n` bits stands for. */
  function MarkedSet(ws: seq<word>, n: nat): (s: set<nat>)
    requires n <= 32 * |ws|
    ensures forall i: nat :: i in s <==> i < n && IsMarked(ws, i)
  {
    set i: nat | i < n && IsMarked(ws, i)
  }

  /** In the stored form, number `i` is marked by digit `i % 8` of byte `i / 8`. */
  lemma MarkOnDisk(bs: seq<byte>, n: nat, i: nat)
    requires |bs| % 4 == 0 && i < n <= 8 * |bs|
    ensures i in MarkedSet(DecodeWords(bs), n) <==> Bit(bs[i / 8], i % 8)
  {
    var q, k := i / 32, i % 32;
    assert i / 8 == 4 * q + k / 8 && i % 8 == k % 8;
    BitInBytes(bs[4 * q..4 * q + 4], k);
  }

  function DivRoundUp(n: nat, s: nat): nat
    requires s > 0
  {
    n / s + if n % s > 0 then 1 else 0
  }

  lemma MarkedSetStep(ws: seq<word>, n: nat)
    requires n < 32 * |ws|
    ensures MarkedSet(ws, n + 1) == MarkedSet(ws, n) + (if IsMarked(ws, n) then {n} else {})
    ensures |MarkedSet(ws, n + 1)| == |MarkedSet(ws, n)| + (if IsMarked(ws, n) then 1 else 0)
  {
    var s := MarkedSet(ws, n);
    assert n !in s;
    assert MarkedSet(ws, n + 1) == s + (if IsMarked(ws, n) then {n} else {});
  }

  /** A full set below `n` has `n` members, and only a full one has. */
  lemma {:induction false} FullBelow(s: set<nat>, n: nat)
    requires forall i: nat :: i in s ==> i < n
    ensures |s| <= n
    ensures |s| == n <==> forall i: nat :: i < n ==> i in s
  {
    if n == 0 {
      assert s == {};
    } else {
      var t := s - {n - 1};
      FullBelow(t, n - 1);
      if n - 1 in s {
        assert s == t + {n - 1};
        assert forall i: nat :: i < n - 1 ==> (i in s <==> i in t);
      } else {
        assert s == t;
      }
    }
  }

  class BitMap {
    const numBits: nat
    const map_: array<word>

    ghost predicate Valid()
    {
      map_.Length == DivRoundUp(numBits, 32)
    }

    /** The numbers of the marked bits. */
    ghost function Contents(): (s: set<nat>)
      requires Valid()
      reads map_
      ensures forall i :: i in s ==> i < numBits
    {
      MarkedSet(map_[..], numBits)
    }

    /** Starts with every bit clear, whatever the fresh storage held. */
    constructor (nitems: nat)
      ensures Valid() && fresh(map_) && numBits == nitems
      ensures Contents() == {}
    {
      numBits := nitems;
      map_ := new word[DivRoundUp(nitems, 32)];
      new;
      for i := 0 to numBits
        invariant forall j: nat :: j < i ==> !IsMarked(map_[..], j)
      {
        Clear(i);
      }
    }

    method Mark(which: int)
      requires Valid() && 0 <= which < numBits
      modifies map_
      ensures Contents() == old(Contents()) + {which}
      ensures forall j: nat :: j < numBits ==>
        (IsMarked(map_[..], j) <==> j == which || old(IsMarked(map_[..], j)))
    {
      map_[which / 32] := SetBit(map_[which / 32], which % 32);
      forall j: nat | j < numBits
        ensures IsMarked(map_[..], j) <==> j == which || old(IsMarked(map_[..], j))
      {
        SameBit(j, which);
      }
    }

    method Clear(which: int)
      requires Valid() && 0 <= which < numBits
      modifies map_
      ensures Contents() == old(Contents()) - {which}
      ensures forall j: nat :: j < numBits ==>
        (IsMarked(map_[..], j) <==> j != which && old(IsMarked(map_[..], j)))
    {
      map_[which / 32] := ClearBit(map_[which / 32], which % 32);
      forall j: nat | j < numBits
        ensures IsMarked(map_[..], j) <==> j != which && old(IsMarked(map_[..], j))
      {
        SameBit(j, which);
      }
    }

    method Test(which: int) returns (on: bool)
      requires Valid() && 0 <= which < numBits
      ensures on <==> which in Contents()
    {
      TestMask(map_[which / 32], which % 32);
      on := And(map_[which / 32], Pow2(which % 32)) != 0;
    }

    /** Takes the least clear bit, or reports that there is none. */
    method Find() returns (r: int)
      requires Valid()
      modifies map_
      ensures -1 <= r < numBits
      ensures r == -1 <==> |old(Contents())| == numBits
      ensures r == -1 ==> map_[..] == old(map_[..])
      ensures r >= 0 ==> r !in old(Contents()) && Contents() == old(Contents()) + {r}
      ensures r >= 0 ==> forall j: nat :: j < r ==> j in old(Contents())
    {
      FullBelow(Contents(), numBits);
      for i := 0 to numBits
        invariant map_[..] == old(map_[..])
        invariant forall j: nat :: j < i ==> j in old(Contents())
      {
        var on := Test(i);
        if !on {
          Mark(i);
          return i;
        }
      }
      return -1;
    }

    method NumClear() returns (count: nat)
      requires Valid()
      ensures count == numBits - |Contents()|
    {
      count := 0;
      for i := 0 to numBits
        invariant count == i - |MarkedSet(map_[..], i)|
      {
        MarkedSetStep(map_[..], i);
        var on := Test(i);
        if !on { count := count + 1; }
      }
    }

    /** Overwrites the packed words with a stored image. */
    method Load(image: seq<byte>)
      requires Valid() && |image| == 4 * map_.Length
      modifies map_
      ensures map_[..] == DecodeWords(image)
    {
      var ws := DecodeWords(image);
      for i := 0 to map_.Length
        invariant map_[..i] == ws[..i]
      {
        map_[i] := ws[i];
      }
    }
  }

  lemma SameBit(j: nat, k: nat)
    ensures j == k <==> j / 32 == k / 32 && j % 32 == k % 32
  {
  }
}
