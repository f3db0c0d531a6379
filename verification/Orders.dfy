/** Strict weak orders, as section 28.7 of ISO C++17 ([alg.sorting]) asks of a comparator. */
module Orders {

  predicate Tie<T>(lt: (T, T) -> bool, a: T, b: T) {
    !lt(a, b) && !lt(b, a)
  }

  ghost predicate StrictPartialOrder<T(!new)>(lt: (T, T) -> bool, s: iset<T>) {
    && (forall a :: a in s ==> !lt(a, a))
    && (forall a, b, c :: a in s && b in s && c in s && lt(a, b) && lt(b, c) ==> lt(a, c))
  }

  ghost predicate TiesAreTransitive<T(!new)>(lt: (T, T) -> bool, s: iset<T>) {
    forall a, b, c :: a in s && b in s && c in s && Tie(lt, a, b) && Tie(lt, b, c) ==> Tie(lt, a, c)
  }

  ghost predicate StrictWeakOrder<T(!new)>(lt: (T, T) -> bool, s: iset<T>) {
    StrictPartialOrder(lt, s) && TiesAreTransitive(lt, s)
  }

  lemma NotLessTransitive<T(!new)>(lt: (T, T) -> bool, s: iset<T>, a: T, b: T, c: T)
    requires StrictWeakOrder(lt, s) && a in s && b in s && c in s
    requires !lt(a, b) && !lt(b, c)
    ensures !lt(a, c)
  {
  }

  lemma NotBoth<T(!new)>(lt: (T, T) -> bool, s: iset<T>, a: T, b: T)
    requires StrictPartialOrder(lt, s) && a in s && b in s && lt(a, b)
    ensures !lt(b, a)
  {
  }
}
