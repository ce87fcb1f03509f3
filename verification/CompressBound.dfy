/** The macro that bounds the size of a compressed frame, in 32-bit and in 64-bit size_t arithmetic. */
module CompressBound {
  datatype Width = W32 | W64

  function Modulus(w: Width): nat {
    match w
    case W32 => 0x1_0000_0000
    case W64 => 0x1_0000_0000_0000_0000
  }

  function MaxInputSize(w: Width): nat {
    match w
    case W32 => 0xFF00FF00
    case W64 => 0xFF00FF00FF00FF00
  }

  const SMALL := 131072   // 128 KB, 128 << 10

  // The sum the macro forms, before it is cut down to the width.
  function Formula(n: nat): nat {
    n + n / 256 + (if n < SMALL then (SMALL - n) / 2048 else 0)
  }

  function Bound(w: Width, n: nat): nat {
    if n >= MaxInputSize(w) then 0 else Formula(n) % Modulus(w)
  }

  lemma AcceptedDoesNotWrap(w: Width, n: nat)
    requires n < MaxInputSize(w)
    ensures Formula(n) < Modulus(w) && Bound(w, n) == Formula(n) >= n
  {
  }

  lemma FormulaMonotone(a: nat, b: nat)
    requires a <= b
    ensures Formula(a) <= Formula(b)
  {
  }

  /** No accepted size makes the sum wrap, among sizes of 128 KB and more the limit is the largest whose sum does
      not, and a larger accepted size never has a smaller bound. */
  lemma LimitAndOrder(w: Width, a: nat, b: nat)
    ensures a < MaxInputSize(w) ==> Formula(a) < Modulus(w) && Bound(w, a) == Formula(a) >= a
    ensures a >= SMALL ==> (Formula(a) < Modulus(w) <==> a <= MaxInputSize(w))
    ensures a <= b < MaxInputSize(w) ==> Bound(w, a) <= Bound(w, b)
  {
    if a <= b < MaxInputSize(w) {
      AcceptedDoesNotWrap(w, a);
      AcceptedDoesNotWrap(w, b);
      FormulaMonotone(a, b);
    }
  }

  /** What the bound adds to an accepted size: one byte for each full 256 and, below 128 KB, one for each full 2048
      missing to 128 KB: 64 at size 0, none from 126 KB + 1 on. Sizes that are not accepted have bound 0. */
  lemma WhatTheBoundAdds(w: Width, n: nat, blocks: nat, missing: nat)
    requires 256 * blocks <= n < 256 * (blocks + 1)
    requires if n < 131072 then 2048 * missing <= 131072 - n < 2048 * (missing + 1) else missing == 0
    ensures n < MaxInputSize(w) ==> Bound(w, n) == n + blocks + missing
    ensures n >= MaxInputSize(w) ==> Bound(w, n) == 0
    ensures missing <= 64 && (n == 0 ==> missing == 64) && (n > 129024 ==> missing == 0)
    ensures Modulus(W32) == 65536 * 65536 && Modulus(W64) == Modulus(W32) * Modulus(W32)
  {
    if n < MaxInputSize(w) {
      AcceptedDoesNotWrap(w, n);
    }
  }

  /** The header's remark on splitting holds of two chunks of 128 KB and more exactly if their total is itself
      accepted, or neither of them is: the bound of a size that is not accepted is 0. */
  lemma SplittingExactlyWhen(w: Width, a: nat, b: nat)
    requires SMALL <= a && SMALL <= b
    ensures Bound(w, a) + Bound(w, b) <= Bound(w, a + b)
            <==> a + b < MaxInputSize(w) || (a >= MaxInputSize(w) && b >= MaxInputSize(w))
  {
    ChunksFitExactlyWhen(w, [a, b]);
    assert [a, b][1..] == [b] && [b][1..] == [];
    assert Total([b]) == b && TotalBound(w, [b]) == Bound(w, b);
  }

  lemma TwoParts(w: Width, a: nat, b: nat)
    requires SMALL <= a && SMALL <= b && a + b < MaxInputSize(w)
    ensures Bound(w, a) + Bound(w, b) <= Bound(w, a + b)
  {
    AcceptedDoesNotWrap(w, a);
    AcceptedDoesNotWrap(w, b);
    AcceptedDoesNotWrap(w, a + b);
  }

  function Total(chunks: seq<nat>): nat {
    if chunks == [] then 0 else chunks[0] + Total(chunks[1..])
  }

  function TotalBound(w: Width, chunks: seq<nat>): nat {
    if chunks == [] then 0 else Bound(w, chunks[0]) + TotalBound(w, chunks[1..])
  }

  lemma {:induction false} ChunksFitTheBoundOfTheTotal(w: Width, chunks: seq<nat>)
    requires forall i :: 0 <= i < |chunks| ==> chunks[i] >= SMALL
    requires Total(chunks) < MaxInputSize(w)
    ensures TotalBound(w, chunks) <= Bound(w, Total(chunks))
    ensures chunks != [] ==> Total(chunks) >= SMALL
    decreases |chunks|
  {
    if chunks != [] {
      ChunksFitTheBoundOfTheTotal(w, chunks[1..]);
      if |chunks| > 1 {
        TwoParts(w, chunks[0], Total(chunks[1..]));
      }
    }
  }

  lemma {:induction false} NoBoundAtAll(w: Width, chunks: seq<nat>)
    ensures TotalBound(w, chunks) == 0 <==> forall i :: 0 <= i < |chunks| ==> chunks[i] >= MaxInputSize(w)
    decreases |chunks|
  {
    if chunks != [] {
      NoBoundAtAll(w, chunks[1..]);
      assert forall i :: 0 < i < |chunks| ==> chunks[i] == chunks[1..][i-1];
      if chunks[0] < MaxInputSize(w) {
        AcceptedDoesNotWrap(w, chunks[0]);
      }
    }
  }

  /** The same for any number of chunks of 128 KB and more: compressed one by one they need no more room than the
      bound of their total says, exactly if the total is accepted or none of them is. */
  lemma ChunksFitExactlyWhen(w: Width, chunks: seq<nat>)
    requires forall i :: 0 <= i < |chunks| ==> chunks[i] >= SMALL
    ensures TotalBound(w, chunks) <= Bound(w, Total(chunks))
            <==> || Total(chunks) < MaxInputSize(w)
                 || forall i :: 0 <= i < |chunks| ==> chunks[i] >= MaxInputSize(w)
  {
    if Total(chunks) < MaxInputSize(w) {
      ChunksFitTheBoundOfTheTotal(w, chunks);
    } else {
      NoBoundAtAll(w, chunks);
    }
  }
}
