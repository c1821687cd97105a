/** What several modules share: the widths of machine words, and rows of equal size. */
module Basics {
  type byte = x: int | 0 <= x < 256
  type word = x: int | 0 <= x < 65536

  const U16: nat := 0x1_0000
  const U32: nat := 0x1_0000_0000

  function Min(a: int, b: int): int { if a < b then a else b }

  function Max(a: int, b: int): int { if a < b then b else a }

  // The size of q rows of size s.
  function Rows(q: int, s: int): int {
    if q <= 0 then 0 else Rows(q - 1, s) + s
  }

  lemma {:induction false} RowsIsProduct(q: int, s: int)
    requires q >= 0
    ensures Rows(q, s) == q * s
  {
    if q > 0 {
      RowsIsProduct(q - 1, s);
    }
  }

  lemma {:induction false} RowsNonNegative(q: int, s: int)
    requires s >= 0
    ensures Rows(q, s) >= 0
  {
    if q > 0 {
      RowsNonNegative(q - 1, s);
    }
  }

  lemma {:induction false} RowsApart(q: int, q': int, s: int)
    requires 0 <= q < q' && 0 <= s
    ensures 0 <= Rows(q, s) && Rows(q, s) + s <= Rows(q', s)
    decreases q' - q, q
  {
    if q + 1 < q' {
      RowsApart(q, q' - 1, s);
    } else if q > 0 {
      RowsApart(q - 1, q, s);
    }
  }
}
