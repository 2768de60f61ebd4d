/** The byte-packed bitmaps of mm/pmm.c and mm/allocators/buddy.c: bit i lives in byte i / 8 at position i % 8. */
module Bitmap {

  /** 1 << k */
  function Mask(k: nat): bv8
    requires k < 8
  {
    match k
    case 0 => 0x01
    case 1 => 0x02
    case 2 => 0x04
    case 3 => 0x08
    case 4 => 0x10
    case 5 => 0x20
    case 6 => 0x40
    case _ => 0x80
  }

  predicate TestBit(b: bv8, k: nat)
    requires k < 8
  {
    b & Mask(k) != 0
  }

  lemma SetOneBit(b: bv8, k: nat, j: nat)
    requires k < 8 && j < 8
    ensures TestBit(b | Mask(k), j) == (j == k || TestBit(b, j))
  {
  }

  lemma ClearOneBit(b: bv8, k: nat, j: nat)
    requires k < 8 && j < 8
    ensures TestBit(b & !Mask(k), j) == (j != k && TestBit(b, j))
  {
  }

  class Bitmap {
    const bits: nat
    const bytes: array<bv8>
    ghost var contents: seq<bool>

    ghost predicate Valid()
      reads this, bytes
    {
      && bytes.Length == (bits + 7) / 8
      && |contents| == bits
      && forall i :: 0 <= i < bits ==> contents[i] == TestBit(bytes[i / 8], i % 8)
    }

    /** memset(bitmap, 0, (n + 7) / 8) */
    constructor (n: nat)
      ensures Valid() && fresh(bytes) && bits == n
      ensures contents == seq(n, _ => false)
    {
      bits := n;
      bytes := new bv8[(n + 7) / 8](_ => 0);
      contents := seq(n, _ => false);
    }

    method Set(i: nat)
      requires Valid() && i < bits
      modifies this`contents, bytes
      ensures Valid() && contents == old(contents)[i := true]
    {
      forall j | 0 <= j < 8 {
        SetOneBit(bytes[i / 8], i % 8, j);
      }
      bytes[i / 8] := bytes[i / 8] | Mask(i % 8);
      contents := contents[i := true];
    }

    method Clear(i: nat)
      requires Valid() && i < bits
      modifies this`contents, bytes
      ensures Valid() && contents == old(contents)[i := false]
    {
      forall j | 0 <= j < 8 {
        ClearOneBit(bytes[i / 8], i % 8, j);
      }
      bytes[i / 8] := bytes[i / 8] & !Mask(i % 8);
      contents := contents[i := false];
    }

    method Test(i: nat) returns (b: bool)
      requires Valid() && i < bits
      ensures b == contents[i]
    {
      b := TestBit(bytes[i / 8], i % 8);
    }
  }
}
