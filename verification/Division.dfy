/** Quotient and remainder in terms of rows: the shifts and masks of sectors and clusters. */
module Division {
  import opened Basics

  lemma {:induction false} RowsAdd(q: nat, k: nat, n: nat)
    ensures Rows(q + k, n) == Rows(q, n) + Rows(k, n)
  {
    if k > 0 { RowsAdd(q, k - 1, n); }
  }

  lemma {:induction false} RowsOfRows(q: nat, k: nat, n: nat)
    ensures Rows(k, n) >= 0 && Rows(q, k) >= 0 && Rows(Rows(q, k), n) == Rows(q, Rows(k, n))
  {
    RowsNonNegative(k, n);
    RowsNonNegative(q, k);
    if q > 0 {
      RowsOfRows(q - 1, k, n);
      RowsAdd(Rows(q - 1, k), k, n);
    }
  }

  lemma Split(x: nat, n: nat)
    requires n > 0
    ensures x == Rows(x / n, n) + x % n
  {
    RowsIsProduct(x / n, n);
  }

  lemma Divide(x: nat, n: nat, q: nat, r: nat)
    requires r < n && x == Rows(q, n) + r
    ensures x / n == q && x % n == r
  {
    Split(x, n);
    if q < x / n {
      RowsApart(q, x / n, n);
    } else if x / n < q {
      RowsApart(x / n, q, n);
    }
  }

  lemma DivideBelow(x: nat, n: nat, c: nat)
    requires n > 0
    ensures x < Rows(c, n) <==> x / n < c
    ensures x <= Rows(c, n) ==> x / n <= c
  {
    Split(x, n);
    if x / n < c {
      RowsApart(x / n, c, n);
    } else if c < x / n {
      RowsApart(c, x / n, n);
    }
  }

  lemma DivideOrder(x: nat, y: nat, n: nat)
    requires n > 0 && x <= y
    ensures x / n <= y / n
  {
    Split(x, n);
    Split(y, n);
    if y / n < x / n { RowsApart(y / n, x / n, n); }
  }

  lemma AddRows(x: nat, k: nat, n: nat)
    requires n > 0
    ensures 0 <= Rows(k, n) && (x + Rows(k, n)) / n == x / n + k && (x + Rows(k, n)) % n == x % n
  {
    Split(x, n);
    RowsAdd(x / n, k, n);
    RowsNonNegative(k, n);
    Divide(x + Rows(k, n), n, x / n + k, x % n);
  }

  /** Shifting by the sum is shifting twice. */
  lemma DivideTwice(x: nat, s: nat, k: nat)
    requires s > 0 && k > 0
    ensures Rows(k, s) > 0 && x / Rows(k, s) == x / s / k
  {
    var n := x / s;
    Split(x, s);
    Split(n, k);
    RowsOfRows(n / k, k, s);
    RowsAdd(Rows(n / k, k), n % k, s);
    RowsApart(n % k, k, s);
    Divide(x, Rows(k, s), n / k, Rows(n % k, s) + x % s);
  }

  lemma DivideSum(x: nat, j: nat, n: nat)
    requires n > 0 && x % n == 0
    ensures (x + j) / n == x / n + j / n && (x + j) % n == j % n
  {
    Split(x, n);
    Split(j, n);
    RowsAdd(x / n, j / n, n);
    Divide(x + j, n, x / n + j / n, j % n);
  }

  lemma StayWithin(n: nat, k: nat, j: nat)
    requires k > 0 && j < k - n % k
    ensures (n + j) / k == n / k && (n + j) % k == n % k + j
  {
    Split(n, k);
    Divide(n + j, k, n / k, n % k + j);
  }

  lemma NextMultiple(n: nat, k: nat)
    requires k > 0
    ensures (n + (k - n % k)) / k == n / k + 1 && (n + (k - n % k)) % k == 0
  {
    Split(n, k);
    Divide(n + (k - n % k), k, n / k + 1, 0);
  }

  lemma AddMod(x: nat, y: nat, k: nat, n: nat)
    requires n > 0 && x % n == y % n
    ensures (x + k) % n == (y + k) % n
  {
    Split(x, n);
    Split(y, n);
    AddRows(x % n + k, x / n, n);
    AddRows(y % n + k, y / n, n);
  }

  /** Wrapping at a multiple of n keeps the remainder. */
  lemma WrapMod(x: nat, n: nat, m: nat, u: nat)
    requires n > 0 && u == Rows(m, n) && u > 0
    ensures (x % u) % n == x % n
  {
    Split(x, u);
    RowsOfRows(x / u, m, n);
    AddRows(x % u, Rows(x / u, m), n);
  }

  lemma InnerParts(x: nat, s: nat, k: nat, q: nat, r: nat)
    requires s > 0 && 0 <= r < Rows(k, s) && x == Rows(q, Rows(k, s)) + r
    ensures x / s == Rows(q, k) + r / s && r / s < k
  {
    RowsOfRows(q, k, s);
    AddRows(r, Rows(q, k), s);
    DivideBelow(r, s, k);
  }

  // Part n of a whole of k parts, given where it begins.
  lemma PartOf(x: nat, s: nat, k: nat, c: nat, r: nat) returns (t: nat)
    requires s > 0 && k > 0 && 0 < c == Rows(k, s) && r == x % c
    ensures t == r / s && x / s % k == t
  {
    t := r / s;
    Split(x, c);
    InnerParts(x, s, k, x / c, r);
    var m, q := x / s, x / c;
    assert m == Rows(q, k) + t && t < k;
    Divide(m, k, q, t);
  }

  /** The place of a sector in its cluster depends on the place in the cluster alone. */
  lemma SamePart(x: nat, y: nat, s: nat, k: nat, c: nat)
    requires s > 0 && k > 0 && 0 < c == Rows(k, s) && x % c == y % c
    ensures x / s % k == y / s % k
  {
    var t := PartOf(x, s, k, c, x % c);
    var u := PartOf(y, s, k, c, y % c);
  }

  lemma NotJustBelow(y: nat, k: nat, t: nat, s: nat, n: nat)
    requires t < s && y % s == 0 && y + Rows(k, s) + t >= Rows(n, s)
    ensures y + Rows(k, s) >= Rows(n, s)
  {
    AddRows(y, k, s);
    var x := y + Rows(k, s);
    Split(x, s);
    if x < Rows(n, s) {
      DivideBelow(x, s, n);
      RowsApart(x / s, n, s);
    }
  }
}
