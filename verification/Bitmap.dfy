/**
  lib/kernel/bitmap.c. A bitmap is a sequence of bits, a whole number of bytes long. bitmap_scan
  looks for `cnt` clear bits in a row; for cnt > 1 its second loop tests one bit more than the
  bitmap has, the first bit of whatever byte follows it in memory. That bit is the parameter
  `beyond` below.

  On a full bitmap the ASSERT at bitmap.c:29 comes before the return of -1. A kernel built with
  ASSERTs stops there; one built with NDEBUG (kernel/debug.h) goes on and returns -1. The routines here
  and in the other modules follow the second, and say in a flag exactly when the first has stopped.
 */
module Bitmap {
  import opened Outcomes

  predicate ClearRun(bits: seq<bool>, start: nat, cnt: nat) {
    start + cnt <= |bits| && forall i :: start <= i < start + cnt ==> !bits[i]
  }

  /** r is the first place where cnt bits in a row are clear, or None when there is none. */
  ghost predicate FirstFit(bits: seq<bool>, cnt: nat, r: Option<nat>) {
    && (r.Some? ==> ClearRun(bits, r.value, cnt) && forall s: nat :: s < r.value ==> !ClearRun(bits, s, cnt))
    && (r.None? ==> forall s: nat :: !ClearRun(bits, s, cnt))
  }

  lemma FirstFitIsUnique(bits: seq<bool>, cnt: nat, a: Option<nat>, b: Option<nat>)
    requires FirstFit(bits, cnt, a) && FirstFit(bits, cnt, b)
    ensures a == b
  {}

  lemma SetBitBreaksRun(bits: seq<bool>, s: nat, cnt: nat, i: nat)
    requires s <= i < s + cnt && i < |bits| && bits[i]
    ensures !ClearRun(bits, s, cnt)
  {}

  /** Runs that end inside the bitmap do not depend on the bit after it. */
  lemma RunInside(bits: seq<bool>, beyond: bool, s: nat, cnt: nat)
    ensures s + cnt <= |bits| ==> (ClearRun(bits, s, cnt) <==> ClearRun(bits + [beyond], s, cnt))
  {
    var ext := bits + [beyond];
    assert forall i :: 0 <= i < |bits| ==> ext[i] == bits[i];
    assert ClearRun(ext, s, cnt) && s + cnt <= |bits| ==> forall i :: s <= i < s + cnt ==> !ext[i] && !bits[i];
  }

  predicate FullByte(bits: seq<bool>, idx: nat)
    requires 8 * idx + 8 <= |bits|
  {
    forall i :: 8 * idx <= i < 8 * idx + 8 ==> bits[i]
  }

  /** No bit is clear. */
  predicate Full(bits: seq<bool>) {
    forall i :: 0 <= i < |bits| ==> bits[i]
  }

  /** bitmap_scan. The answer is the first fit: in the bitmap for one bit, and in the bitmap with one
      bit more for longer runs. `stops` says that the ASSERT on the byte index fails. */
  method Scan(bits: seq<bool>, beyond: bool, cnt: nat) returns (r: Option<nat>, stops: bool)
    requires cnt > 0 && |bits| % 8 == 0
    ensures FirstFit(if cnt == 1 then bits else bits + [beyond], cnt, r)
    ensures stops <==> Full(bits)
  {
    var bytes := |bits| / 8;
    var idxByte := 0;
    while idxByte < bytes && FullByte(bits, idxByte)
      invariant idxByte <= bytes
      invariant forall i :: 0 <= i < 8 * idxByte ==> bits[i]
    {
      idxByte := idxByte + 1;
    }
    ghost var ext := if cnt == 1 then bits else bits + [beyond];
    if idxByte == bytes {
      forall s: nat
        ensures !ClearRun(ext, s, cnt)
      {
        if s < |bits| {
          assert ext[s] == bits[s];
        }
      }
      return None, true;
    }
    assert !FullByte(bits, idxByte) && !Full(bits) by {
      FullBytes(bits, idxByte);
    }
    var first := 8 * idxByte;
    while bits[first]
      invariant 8 * idxByte <= first < 8 * idxByte + 8
      invariant forall i :: 0 <= i < first ==> bits[i]
      decreases 8 * idxByte + 8 - first
    {
      assert !FullByte(bits, idxByte);
      first := first + 1;
    }
    if cnt == 1 {
      assert ClearRun(bits, first, 1);
      forall s: nat | s < first
        ensures !ClearRun(bits, s, 1)
      {
        SetBitBreaksRun(bits, s, 1, s);
      }
      return Some(first), false;
    }
    r := ScanRun(bits, beyond, cnt, first);
    stops := false;
  }

  lemma FullBytes(bits: seq<bool>, idx: nat)
    requires 8 * idx + 8 <= |bits|
    ensures Full(bits) ==> FullByte(bits, idx)
  {}

  /** The second loop: `first` is the first clear bit. */
  method ScanRun(bits: seq<bool>, beyond: bool, cnt: nat, first: nat) returns (r: Option<nat>)
    requires cnt > 1 && first < |bits| && !bits[first] && forall i :: 0 <= i < first ==> bits[i]
    ensures FirstFit(bits + [beyond], cnt, r)
  {
    ghost var ext := bits + [beyond];
    var bitLeft := |bits| - first;
    var nextBit := first + 1;
    var count := 1;
    forall s: nat | s + cnt <= nextBit
      ensures !ClearRun(ext, s, cnt)
    {
      SetBitBreaksRun(ext, s, cnt, s);
    }
    while bitLeft > 0
      invariant 0 <= bitLeft && nextBit + bitLeft == |bits| + 1 && 0 <= count < cnt && count <= nextBit
      invariant ClearRun(ext, nextBit - count, count)
      invariant nextBit - count > 0 ==> ext[nextBit - count - 1]
      invariant forall s: nat :: s + cnt <= nextBit ==> !ClearRun(ext, s, cnt)
    {
      bitLeft := bitLeft - 1;
      ghost var start := nextBit - count;
      if !(if nextBit < |bits| then bits[nextBit] else beyond) {
        count := count + 1;
        forall s: nat | s + cnt == nextBit + 1 && s < start
          ensures !ClearRun(ext, s, cnt)
        {
          SetBitBreaksRun(ext, s, cnt, start - 1);
        }
      } else {
        count := 0;
        forall s: nat | s + cnt == nextBit + 1
          ensures !ClearRun(ext, s, cnt)
        {
          SetBitBreaksRun(ext, s, cnt, nextBit);
        }
      }
      if count == cnt {
        assert ClearRun(ext, start, cnt);
        return Some(nextBit - cnt + 1);
      }
      nextBit := nextBit + 1;
    }
    return None;
  }

  /** The scan stays inside the bitmap: it looks for one bit, a run fits inside, the bit behind the
      bitmap is set, or one of the last cnt - 1 bits is. */
  predicate StaysInside(bits: seq<bool>, beyond: bool, cnt: nat) {
    cnt <= 1 || beyond || Fit(bits, cnt).Some? || cnt - 1 > |bits| || !ClearRun(bits, |bits| - (cnt - 1), cnt - 1)
  }

  /** Then, and only then, the answer is the first fit within the bitmap. */
  lemma GuardedScan(bits: seq<bool>, beyond: bool, cnt: nat, r: Option<nat>)
    requires cnt > 0 && FirstFit(if cnt == 1 then bits else bits + [beyond], cnt, r)
    ensures StaysInside(bits, beyond, cnt) <==> FirstFit(bits, cnt, r)
  {
    if cnt > 1 {
      ScanPastEndIff(bits, beyond, cnt, r);
      forall s: nat
        ensures s + cnt <= |bits| ==> (ClearRun(bits, s, cnt) <==> ClearRun(bits + [beyond], s, cnt))
      {
        RunInside(bits, beyond, s, cnt);
      }
    }
  }

  /** Exactly when the answer reaches one bit past the end: no run fits inside the bitmap, the bit
      after it is clear, and so are the last cnt - 1 bits of it. */
  lemma ScanPastEndIff(bits: seq<bool>, beyond: bool, cnt: nat, r: Option<nat>)
    requires cnt > 1 && FirstFit(bits + [beyond], cnt, r)
    ensures r.Some? && r.value + cnt > |bits| <==>
            !beyond && cnt - 1 <= |bits| && ClearRun(bits, |bits| - (cnt - 1), cnt - 1) && forall s: nat :: !ClearRun(bits, s, cnt)
  {
    var ext := bits + [beyond];
    assert forall i :: 0 <= i < |bits| ==> ext[i] == bits[i];
    forall s: nat
      ensures s + cnt <= |bits| ==> (ClearRun(bits, s, cnt) <==> ClearRun(ext, s, cnt))
    {
      RunInside(bits, beyond, s, cnt);
    }
    if !beyond && cnt - 1 <= |bits| && ClearRun(bits, |bits| - (cnt - 1), cnt - 1) {
      assert ClearRun(ext, |bits| - (cnt - 1), cnt);
    }
    if r.Some? && r.value + cnt > |bits| {
      assert forall i :: r.value <= i < |bits| ==> !ext[i];
      assert !ext[|bits|];
      forall s: nat
        ensures !ClearRun(bits, s, cnt)
      {
        if s < r.value {
          assert !ClearRun(ext, s, cnt);
        }
      }
    }
  }

  /** The first run of cnt clear bits that starts at i or later. */
  function FitFrom(bits: seq<bool>, cnt: nat, i: nat): (r: Option<nat>)
    ensures r.Some? ==> i <= r.value && ClearRun(bits, r.value, cnt) && forall s: nat :: i <= s < r.value ==> !ClearRun(bits, s, cnt)
    ensures r.None? ==> forall s: nat :: i <= s ==> !ClearRun(bits, s, cnt)
    decreases |bits| - i
  {
    if i + cnt > |bits| then None else if ClearRun(bits, i, cnt) then Some(i) else FitFrom(bits, cnt, i + 1)
  }

  /** What bitmap_scan answers, as a function of the bitmap. */
  function Fit(bits: seq<bool>, cnt: nat): (r: Option<nat>)
    ensures FirstFit(bits, cnt, r)
  {
    FitFrom(bits, cnt, 0)
  }

  function FirstFree(bits: seq<bool>): (r: Option<nat>)
    ensures r.Some? ==> r.value < |bits| && !bits[r.value]
    ensures r.None? ==> forall j :: 0 <= j < |bits| ==> bits[j]
  {
    var r := Fit(bits, 1);
    assert r.None? ==> forall j: nat :: j < |bits| && !bits[j] ==> ClearRun(bits, j, 1);
    r
  }

  /** A bitmap in which a run of two ends one bit behind the end. */
  lemma ScanPastEndWitness()
    ensures var bits := [true, true, true, true, true, true, true, false];
            FirstFit(bits + [false], 2, Some(7)) && Fit(bits, 2) == None
  {
    var bits := [true, true, true, true, true, true, true, false];
    assert ClearRun(bits + [false], 7, 2);
    forall s: nat | s < 7
      ensures !ClearRun(bits + [false], s, 2) && !ClearRun(bits, s, 2)
    {
      SetBitBreaksRun(bits + [false], s, 2, s);
      SetBitBreaksRun(bits, s, 2, s);
    }
    FirstFitIsUnique(bits, 2, Fit(bits, 2), None);
  }

  /** The number of clear bits. */
  function FreeCount(bits: seq<bool>): nat {
    if bits == [] then 0 else FreeCount(bits[1..]) + if bits[0] then 0 else 1
  }

  lemma {:induction false} FreeCountUpdate(bits: seq<bool>, i: nat, v: bool)
    requires i < |bits| && bits[i] != v
    ensures FreeCount(bits[i := v]) == FreeCount(bits) + if v then -1 else 1
  {
    var after := bits[i := v];
    if i == 0 {
      assert after[1..] == bits[1..];
    } else {
      assert after[1..] == bits[1..][i - 1 := v];
      FreeCountUpdate(bits[1..], i - 1, v);
    }
  }

  lemma {:induction false} FreeCountZeroIff(bits: seq<bool>)
    ensures FreeCount(bits) == 0 <==> FirstFree(bits).None?
    ensures FreeCount(bits) == 0 <==> Full(bits)
  {
    if bits != [] {
      FreeCountZeroIff(bits[1..]);
      assert bits == [bits[0]] + bits[1..];
      assert FirstFree(bits).None? <==> bits[0] && FirstFree(bits[1..]).None? by {
        if bits[0] && FirstFree(bits[1..]).None? {
          assert forall j :: 0 < j < |bits| ==> bits[j] == bits[1..][j - 1];
        }
        if FirstFree(bits).None? {
          assert forall j :: 0 <= j < |bits| - 1 ==> bits[1..][j] == bits[j + 1];
        }
      }
    }
  }

  function SetRange(bits: seq<bool>, start: nat, cnt: nat, v: bool): (r: seq<bool>)
    requires start + cnt <= |bits|
    ensures |r| == |bits| && forall i :: 0 <= i < |bits| ==> r[i] == if start <= i < start + cnt then v else bits[i]
  {
    bits[..start] + seq(cnt, _ => v) + bits[start + cnt..]
  }
}
