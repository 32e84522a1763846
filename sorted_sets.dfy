/** Rust's `BTreeSet<T>` seen through its iteration order: a sequence strictly
    ascending under the element type's `Ord`, which rules out duplicates. */
module SortedSets {
  import opened Orders

  ghost predicate StrictlySorted<T>(s: seq<T>, cmp: (T, T) -> Ordering) {
    forall i, j :: 0 <= i < j < |s| ==> cmp(s[i], s[j]) == Less
  }

  lemma PairSorted<T>(x: T, y: T, cmp: (T, T) -> Ordering)
    requires cmp(x, y) == Less
    ensures StrictlySorted([x, y], cmp)
  {
  }

  /** BTreeSet::insert: adds `x` at its place in the order, or leaves the set
      alone when an equal element is already there. */
  function Insert<T(!new)>(s: seq<T>, x: T, cmp: (T, T) -> Ordering): (r: seq<T>)
    requires TotalOrder(cmp) && StrictlySorted(s, cmp)
    ensures StrictlySorted(r, cmp)
    ensures forall y :: y in r <==> y in s || y == x
  {
    if |s| == 0 then [x]
    else match cmp(x, s[0])
      case Less => [x] + s
      case Equal => s
      case Greater =>
        var rest := Insert(s[1..], x, cmp);
        assert forall y :: y in rest ==> cmp(s[0], y) == Less by {
          forall y | y in rest ensures cmp(s[0], y) == Less {
            if y != x {
              var k :| 1 <= k < |s| && s[k] == y;
            }
          }
        }
        [s[0]] + rest
  }

  /** Collecting an iterator into a BTreeSet: the elements are inserted in turn. */
  function Collect<T(!new)>(xs: seq<T>, cmp: (T, T) -> Ordering): (r: seq<T>)
    requires TotalOrder(cmp)
    ensures StrictlySorted(r, cmp)
    ensures forall y :: y in r <==> y in xs
  {
    if |xs| == 0 then []
    else
      var init := Collect(xs[..|xs| - 1], cmp);
      assert forall y :: y in xs <==> y in xs[..|xs| - 1] || y == xs[|xs| - 1] by {
        assert xs == xs[..|xs| - 1] + [xs[|xs| - 1]];
      }
      Insert(init, xs[|xs| - 1], cmp)
  }

  /** A set is determined by its elements: two strictly sorted sequences that
      hold the same elements are the same sequence. */
  lemma {:induction false} SortedUnique<T(!new)>(s: seq<T>, t: seq<T>, cmp: (T, T) -> Ordering)
    requires TotalOrder(cmp) && StrictlySorted(s, cmp) && StrictlySorted(t, cmp)
    requires forall y :: y in s <==> y in t
    ensures s == t
  {
    if |s| == 0 {
      EmptyOrHasFirst(t);
    } else {
      var s0 := s[0];
      assert s0 in t;
      var t0 := t[0];
      assert t0 in s;
      var k :| 0 <= k < |t| && t[k] == s0;
      var m :| 0 <= m < |s| && s[m] == t0;
      // s0 and t0 are both the least element, so k and m are both 0
      assert 0 < k ==> cmp(t0, s0) == Less;
      assert 0 < m ==> cmp(s0, t0) == Less;
      assert k == 0;
      forall y ensures y in s[1..] <==> y in t[1..] {
        if y in s[1..] {
          var i :| 1 <= i < |s| && s[i] == y;
          assert cmp(s[0], y) == Less;
          assert y in t && y != t[0];
        }
        if y in t[1..] {
          var i :| 1 <= i < |t| && t[i] == y;
          assert cmp(t[0], y) == Less;
          assert y in s && y != s[0];
        }
      }
      SortedUnique(s[1..], t[1..], cmp);
      assert s == [s[0]] + s[1..] && t == [t[0]] + t[1..];
    }
  }

  lemma EmptyOrHasFirst<T>(t: seq<T>)
    ensures t == [] || t[0] in t
  {
  }

  /** BTreeSet::insert is idempotent. */
  lemma InsertIdempotent<T(!new)>(s: seq<T>, x: T, cmp: (T, T) -> Ordering)
    requires TotalOrder(cmp) && StrictlySorted(s, cmp)
    ensures x in s ==> Insert(s, x, cmp) == s
    ensures Insert(Insert(s, x, cmp), x, cmp) == Insert(s, x, cmp)
  {
    var once := Insert(s, x, cmp);
    if x in s {
      SortedUnique(once, s, cmp);
    }
    SortedUnique(Insert(once, x, cmp), once, cmp);
  }

  /** The union of two sets, as `BTreeSet::extend` or `collect` of the
      concatenated elements builds it. */
  function Union<T(!new)>(s: seq<T>, t: seq<T>, cmp: (T, T) -> Ordering): (r: seq<T>)
    requires TotalOrder(cmp)
    ensures StrictlySorted(r, cmp)
    ensures forall y :: y in r <==> y in s || y in t
  {
    Collect(s + t, cmp)
  }
}
