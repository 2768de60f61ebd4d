/** What the kernel's components share: the page size, 64-bit words and bulk updates of tables. */
module Machine {

  const PAGE_SIZE: nat := 4096

  /** One more than the largest 64-bit number. */
  const WORD: nat := 0x1_0000_0000_0000_0000

  function Min(x: nat, y: nat): nat {
    if x < y then x else y
  }

  /** Overwrites entries x .. x+n-1. */
  function Fill<T>(s: seq<T>, x: nat, n: nat, v: T): (r: seq<T>)
    ensures |r| == |s|
    ensures forall i :: 0 <= i < |s| ==> r[i] == if x <= i < x + n then v else s[i]
  {
    seq(|s|, i requires 0 <= i < |s| => if x <= i < x + n then v else s[i])
  }
}
