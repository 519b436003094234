/** Bitmaps of the kernel (lib/minstd/utils.hpp): bit `i` lives in byte `i / 8`, at place `i % 8`. */
module Bitmap {
  import opened Base

  function Mask(bit: nat): bv8 requires bit < 8 { (1 as bv8) << bit }

  function Get(bytes: seq<bv8>, index: nat): bool
    requires index < 8 * |bytes|
  {
    bytes[index / 8] & Mask(index % 8) != 0
  }

  /** The bitmap as a sequence of bits. */
  function Bits(bytes: seq<bv8>): (bits: seq<bool>)
    ensures |bits| == 8 * |bytes|
    ensures forall i | 0 <= i < |bits| :: bits[i] == Get(bytes, i)
  {
    seq(8 * |bytes|, i requires 0 <= i < 8 * |bytes| => Get(bytes, i))
  }

  lemma MaskIs(bit: nat)
    requires bit < 8
    ensures Mask(bit) == [1, 2, 4, 8, 16, 32, 64, 128][bit]
  {
    if bit == 0 {} else if bit == 1 {} else if bit == 2 {} else if bit == 3 {}
    else if bit == 4 {} else if bit == 5 {} else if bit == 6 {} else {}
  }

  /** Setting or clearing one bit of a byte changes that bit and no other. */
  lemma ByteBits(b: bv8, i: nat, j: nat)
    requires i < 8 && j < 8
    ensures (b | Mask(i)) & Mask(j) != 0 <==> i == j || b & Mask(j) != 0
    ensures (b & !Mask(i)) & Mask(j) != 0 <==> i != j && b & Mask(j) != 0
  {
    MaskIs(i);
    MaskIs(j);
  }

  lemma MarkBits(bytes: seq<bv8>, index: nat)
    requires index < 8 * |bytes|
    ensures Bits(bytes[index / 8 := bytes[index / 8] | Mask(index % 8)]) == Bits(bytes)[index := true]
  {
    var marked := bytes[index / 8 := bytes[index / 8] | Mask(index % 8)];
    forall i | 0 <= i < 8 * |bytes| ensures Get(marked, i) == (i == index || Get(bytes, i)) {
      ByteBits(bytes[i / 8], index % 8, i % 8);
    }
  }

  lemma UnmarkGet(bytes: seq<bv8>, index: nat, i: nat)
    requires index < 8 * |bytes| && i < 8 * |bytes|
    ensures Get(bytes[index / 8 := bytes[index / 8] & !Mask(index % 8)], i) == (i != index && Get(bytes, i))
  {
    if i / 8 == index / 8 {
      var b := bytes[i / 8];
      assert i == index <==> i % 8 == index % 8;
      ByteBits(b, index % 8, i % 8);
    }
  }

  lemma UnmarkBits(bytes: seq<bv8>, index: nat)
    requires index < 8 * |bytes|
    ensures Bits(bytes[index / 8 := bytes[index / 8] & !Mask(index % 8)]) == Bits(bytes)[index := false]
  {
    forall i | 0 <= i < 8 * |bytes| { UnmarkGet(bytes, index, i); }
  }

  method Mark(bitmap: array<bv8>, index: nat)
    requires index < 8 * bitmap.Length
    modifies bitmap
    ensures Bits(bitmap[..]) == old(Bits(bitmap[..]))[index := true]
  {
    MarkBits(bitmap[..], index);
    bitmap[index / 8] := bitmap[index / 8] | Mask(index % 8);
    assert bitmap[..] == old(bitmap[..])[index / 8 := old(bitmap[..])[index / 8] | Mask(index % 8)];
  }

  method Unmark(bitmap: array<bv8>, index: nat)
    requires index < 8 * bitmap.Length
    modifies bitmap
    ensures Bits(bitmap[..]) == old(Bits(bitmap[..]))[index := false]
  {
    UnmarkBits(bitmap[..], index);
    bitmap[index / 8] := bitmap[index / 8] & !Mask(index % 8);
    assert bitmap[..] == old(bitmap[..])[index / 8 := old(bitmap[..])[index / 8] & !Mask(index % 8)];
  }

  /** In 32 bits. */
  function DivideRoundup(a: nat, b: nat): nat
    requires a < WORD && 0 < b < WORD
  {
    (a + b - 1) % WORD / b
  }

  /** The least number of units of `b` that hold `a`, if and only if the sum fits 32 bits. */
  lemma DivideRoundupIff(a: nat, b: nat)
    requires a < WORD && 0 < b < WORD
    ensures a <= DivideRoundup(a, b) * b < a + b <==> a + b - 1 < WORD
  {
    var s := (a + b - 1) % WORD;
    Quotient(s, b);
    if a + b - 1 < WORD { assert s == a + b - 1; } else { assert s == a + b - 1 - WORD; }
  }

  lemma Quotient(s: nat, b: nat)
    requires 0 < b
    ensures s / b * b <= s < s / b * b + b
  {
    assert s == s / b * b + s % b;
  }

  /** The place of the lowest clear bit, or the length when all are set. */
  function FirstClear(bits: seq<bool>): (k: nat)
    ensures k <= |bits|
    ensures k < |bits| ==> !bits[k]
    ensures forall i | 0 <= i < k :: bits[i]
  {
    if bits == [] || !bits[0] then 0 else 1 + FirstClear(bits[1..])
  }

  lemma {:induction false} FirstClearIs(bits: seq<bool>, k: nat)
    requires k <= |bits| && (k < |bits| ==> !bits[k]) && forall i | 0 <= i < k :: bits[i]
    ensures FirstClear(bits) == k
  {
    if 0 < k { FirstClearIs(bits[1..], k - 1); }
  }

  /** How many bits are clear. */
  function Clear(bits: seq<bool>): (n: nat)
    ensures n <= |bits|
  {
    if bits == [] then 0 else (if bits[0] then 0 else 1) + Clear(bits[1..])
  }

  lemma {:induction false} ClearIff(bits: seq<bool>)
    ensures FirstClear(bits) < |bits| <==> 0 < Clear(bits)
  {
    if bits != [] { ClearIff(bits[1..]); }
  }

  lemma {:induction false} ClearAfterSet(bits: seq<bool>, k: nat)
    requires k < |bits| && !bits[k]
    ensures Clear(bits[k := true]) == Clear(bits) - 1
  {
    if 0 < k {
      ClearAfterSet(bits[1..], k - 1);
      assert bits[k := true][1..] == bits[1..][k - 1 := true];
    } else {
      assert bits[k := true][1..] == bits[1..];
    }
  }

  lemma {:induction false} ClearAfterUnset(bits: seq<bool>, k: nat)
    requires k < |bits|
    ensures Clear(bits[k := false]) == if bits[k] then Clear(bits) + 1 else Clear(bits)
  {
    if 0 < k {
      ClearAfterUnset(bits[1..], k - 1);
      assert bits[k := false][1..] == bits[1..][k - 1 := false];
    } else {
      assert bits[k := false][1..] == bits[1..];
    }
  }
}
