/** Rust's `std::cmp::Ordering` and the lexicographic order on sequences from
    which `String`, `Path` and field-by-field comparisons are built. */
module Orders {

  datatype Ordering = Less | Equal | Greater {

    /** Ordering::reverse */
    function Reverse(): Ordering {
      match this
      case Less => Greater
      case Equal => Equal
      case Greater => Less
    }

    /** Ordering::then_with: the second comparison only breaks a tie. */
    function ThenWith(next: Ordering): Ordering {
      if this == Equal then next else this
    }
  }

  /** `cmp` is a total order that agrees with equality: the contract Rust asks
      of an `Ord` implementation together with its `Eq`. */
  ghost predicate TotalOrder<T(!new)>(cmp: (T, T) -> Ordering) {
    && (forall a, b :: cmp(a, b) == Equal <==> a == b)
    && (forall a, b :: cmp(b, a) == cmp(a, b).Reverse())
    && (forall a, b, c :: cmp(a, b) == Less && cmp(b, c) == Less ==> cmp(a, c) == Less)
  }

  /** Lexicographic comparison, element by element; a proper prefix is smaller
      (the order of `Iterator::cmp`, `str::cmp` and `Path::cmp`). */
  function Lex<T>(a: seq<T>, b: seq<T>, cmp: (T, T) -> Ordering): Ordering {
    if |a| == 0 then (if |b| == 0 then Equal else Less)
    else if |b| == 0 then Greater
    else cmp(a[0], b[0]).ThenWith(Lex(a[1..], b[1..], cmp))
  }

  lemma {:induction false} LexEqual<T>(a: seq<T>, b: seq<T>, cmp: (T, T) -> Ordering)
    requires forall x, y :: cmp(x, y) == Equal <==> x == y
    ensures Lex(a, b, cmp) == Equal <==> a == b
  {
    if |a| > 0 && |b| > 0 {
      LexEqual(a[1..], b[1..], cmp);
      assert a == [a[0]] + a[1..] && b == [b[0]] + b[1..];
    }
  }

  lemma {:induction false} LexReverse<T>(a: seq<T>, b: seq<T>, cmp: (T, T) -> Ordering)
    requires forall x, y :: cmp(y, x) == cmp(x, y).Reverse()
    ensures Lex(b, a, cmp) == Lex(a, b, cmp).Reverse()
  {
    if |a| > 0 && |b| > 0 {
      LexReverse(a[1..], b[1..], cmp);
    }
  }

  lemma {:induction false} LexTransitive<T(!new)>(a: seq<T>, b: seq<T>, c: seq<T>, cmp: (T, T) -> Ordering)
    requires TotalOrder(cmp)
    requires Lex(a, b, cmp) == Less && Lex(b, c, cmp) == Less
    ensures Lex(a, c, cmp) == Less
  {
    if |a| > 0 && |b| > 0 && |c| > 0 {
      if cmp(a[0], b[0]) == Equal && cmp(b[0], c[0]) == Equal {
        LexTransitive(a[1..], b[1..], c[1..], cmp);
      }
    }
  }

  /** Lifting a total order to sequences gives a total order. */
  lemma LexTotal<T(!new)>(cmp: (T, T) -> Ordering)
    requires TotalOrder(cmp)
    ensures forall a, b :: Lex(a, b, cmp) == Equal <==> a == b
    ensures forall a, b :: Lex(b, a, cmp) == Lex(a, b, cmp).Reverse()
    ensures forall a, b, c :: Lex(a, b, cmp) == Less && Lex(b, c, cmp) == Less ==> Lex(a, c, cmp) == Less
  {
    forall a: seq<T>, b: seq<T> ensures Lex(a, b, cmp) == Equal <==> a == b {
      LexEqual(a, b, cmp);
    }
    forall a: seq<T>, b: seq<T> ensures Lex(b, a, cmp) == Lex(a, b, cmp).Reverse() {
      LexReverse(a, b, cmp);
    }
    forall a: seq<T>, b: seq<T>, c: seq<T> | Lex(a, b, cmp) == Less && Lex(b, c, cmp) == Less
      ensures Lex(a, c, cmp) == Less
    {
      LexTransitive(a, b, c, cmp);
    }
  }

  /** A common prefix does not decide a lexicographic comparison. */
  lemma {:induction false} LexCommonPrefix<T>(prefix: seq<T>, a: seq<T>, b: seq<T>, cmp: (T, T) -> Ordering)
    requires forall x :: cmp(x, x) == Equal
    ensures Lex(prefix + a, prefix + b, cmp) == Lex(a, b, cmp)
  {
    if |prefix| > 0 {
      var pa, pb := prefix + a, prefix + b;
      assert pa[0] == prefix[0] == pb[0];
      assert pa[1..] == prefix[1..] + a;
      assert pb[1..] == prefix[1..] + b;
      LexCommonPrefix(prefix[1..], a, b, cmp);
      assert cmp(prefix[0], prefix[0]) == Equal;
    } else {
      assert prefix + a == a && prefix + b == b;
    }
  }
}
