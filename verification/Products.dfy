/** Facts about products and quotients by a positive divisor. */
module Products {
  lemma MulNonNegative(a: nat, b: nat)
    ensures a * b >= 0
  {}

  lemma MulAdd(a: int, b: int, c: int)
    ensures (a + b) * c == a * c + b * c
  {}

  /** The defining property of quotient and remainder. */
  lemma DivMod(n: nat, c: int)
    requires c >= 1
    ensures n == n / c * c + n % c && 0 <= n % c < c && n / c >= 0
  {}

  lemma MulLess(a: nat, b: nat, c: int)
    requires a <= b && c >= 1
    ensures a * c <= b * c
    ensures a < b ==> a * c + c <= b * c
  {
    MulAdd(a, b - a, c);
    MulNonNegative(b - a, c);
    if a < b {
      MulAdd(b - a - 1, 1, c);
      MulNonNegative(b - a - 1, c);
    }
  }

  lemma DivBounds(n: nat, c: int)
    requires c >= 1
    ensures 0 <= n / c * c <= n < n / c * c + c
  {
    DivMod(n, c);
    MulNonNegative(n / c, c);
  }

  /** Quotients are the index of the window of size c. */
  lemma Quotient(n: nat, c: int, k: nat)
    requires c >= 1
    ensures k * c <= n < k * c + c <==> n / c == k
    ensures n / c == k ==> n % c == n - k * c
  {
    DivMod(n, c);
    if k < n / c { MulLess(k, n / c, c); }
    if k > n / c { MulLess(n / c, k, c); }
  }
}
