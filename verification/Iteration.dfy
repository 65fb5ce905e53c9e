/** Repeated application of a function, with the laws that do not depend on the function. */
module Iteration {

  function Iterate<T>(n: nat, f: T -> T, x: T): T {
    if n == 0 then x else Iterate(n - 1, f, f(x))
  }

  lemma {:induction false} IterateAdds<T>(m: nat, n: nat, f: T -> T, x: T)
    ensures Iterate(m + n, f, x) == Iterate(n, f, Iterate(m, f, x))
  {
    if m > 0 {
      IterateAdds(m - 1, n, f, f(x));
    }
  }

  lemma {:induction false} IterateAdditive<T(!new)>(n: nat, f: T -> T, plus: (T, T) -> T, x: T, y: T)
    requires forall a, b :: f(plus(a, b)) == plus(f(a), f(b))
    ensures Iterate(n, f, plus(x, y)) == plus(Iterate(n, f, x), Iterate(n, f, y))
  {
    if n > 0 {
      IterateAdditive(n - 1, f, plus, f(x), f(y));
    }
  }

  lemma {:induction false} IterateMaps<T(!new), U>(n: nat, f: T -> T, g: U -> U, h: T -> U, x: T)
    requires forall a :: h(f(a)) == g(h(a))
    ensures h(Iterate(n, f, x)) == Iterate(n, g, h(x))
  {
    if n > 0 {
      IterateMaps(n - 1, f, g, h, f(x));
    }
  }

  lemma {:induction false} IterateKeeps<T(!new)>(n: nat, f: T -> T, inv: T -> bool, x: T)
    requires forall a :: inv(a) ==> inv(f(a))
    requires inv(x)
    ensures inv(Iterate(n, f, x))
  {
    if n > 0 {
      IterateKeeps(n - 1, f, inv, f(x));
    }
  }

  lemma {:induction false} IterateInjective<T(!new)>(n: nat, f: T -> T, inv: T -> bool, x: T, y: T)
    requires forall a :: inv(a) ==> inv(f(a))
    requires forall a, b :: inv(a) && inv(b) && f(a) == f(b) ==> a == b
    requires inv(x) && inv(y) && Iterate(n, f, x) == Iterate(n, f, y)
    ensures x == y
  {
    if n > 0 {
      IterateInjective(n - 1, f, inv, f(x), f(y));
    }
  }
}
