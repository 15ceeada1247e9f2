/**
  Orders used by the field resolver: lexicographic order on index sequences (byIndex.Less),
  Go's order on strings, and the insertion sort that stands in for the sort package.
 */
module Ordering {

  /** Lexicographic order on integer sequences; a proper prefix comes before its extensions. */
  predicate IndexLess(a: seq<int>, b: seq<int>)
    decreases |a|
  {
    if a == [] then b != []
    else if b == [] then false
    else if a[0] != b[0] then a[0] < b[0]
    else IndexLess(a[1..], b[1..])
  }

  /** `a` and `b` first differ at position k, where `a` is smaller. */
  ghost predicate DiffersFirstAt(a: seq<int>, b: seq<int>, k: nat) {
    k < |a| && k < |b| && a[..k] == b[..k] && a[k] < b[k]
  }

  /** IndexLess is exactly "proper prefix, or smaller at the first difference". */
  lemma {:induction false} IndexLessLexicographic(a: seq<int>, b: seq<int>)
    ensures IndexLess(a, b) <==> (a < b || exists k: nat :: DiffersFirstAt(a, b, k))
    decreases |a|
  {
    if a == [] {
    } else if b == [] {
      assert forall k: nat :: !DiffersFirstAt(a, b, k);
    } else if a[0] != b[0] {
      if a[0] < b[0] {
        assert DiffersFirstAt(a, b, 0);
      } else {
        forall k: nat ensures !DiffersFirstAt(a, b, k) {
          if k > 0 && k < |a| && k < |b| { assert a[0] == a[..k][0] && b[0] == b[..k][0]; }
        }
      }
    } else {
      IndexLessLexicographic(a[1..], b[1..]);
      if IndexLess(a[1..], b[1..]) {
        if a[1..] < b[1..] {
          assert a < b;
        } else {
          var k: nat :| DiffersFirstAt(a[1..], b[1..], k);
          assert a[..k + 1] == [a[0]] + a[1..][..k];
          assert b[..k + 1] == [b[0]] + b[1..][..k];
          assert DiffersFirstAt(a, b, k + 1);
        }
      } else {
        forall k: nat | DiffersFirstAt(a, b, k) ensures false {
          if k == 0 {
          } else {
            assert a[1..][..k - 1] == a[1..k];
            assert b[1..][..k - 1] == b[1..k];
            assert a[1..k] == a[..k][1..];
            assert DiffersFirstAt(a[1..], b[1..], k - 1);
          }
        }
      }
    }
  }

  lemma {:induction false} IndexLessIrreflexive(a: seq<int>)
    ensures !IndexLess(a, a)
    decreases |a|
  {
    if a != [] { IndexLessIrreflexive(a[1..]); }
  }

  lemma {:induction false} IndexLessTransitive(a: seq<int>, b: seq<int>, c: seq<int>)
    requires IndexLess(a, b) && IndexLess(b, c)
    ensures IndexLess(a, c)
    decreases |a|
  {
    if a != [] && b != [] && c != [] && a[0] == b[0] && b[0] == c[0] {
      IndexLessTransitive(a[1..], b[1..], c[1..]);
    }
  }

  /** For distinct sequences exactly one of IndexLess(a, b) and IndexLess(b, a) holds. */
  lemma {:induction false} IndexLessTrichotomy(a: seq<int>, b: seq<int>)
    ensures a == b || IndexLess(a, b) || IndexLess(b, a)
    ensures !(IndexLess(a, b) && IndexLess(b, a))
    decreases |a|
  {
    if a != [] && b != [] && a[0] == b[0] {
      IndexLessTrichotomy(a[1..], b[1..]);
      if a[1..] == b[1..] {
        assert a == [a[0]] + a[1..] && b == [b[0]] + b[1..];
      }
    }
  }

  /** The code points of a string. */
  function Codes(s: string): (r: seq<int>)
    ensures |r| == |s|
    ensures forall i | 0 <= i < |s| :: r[i] == s[i] as int
  {
    if s == [] then [] else [s[0] as int] + Codes(s[1..])
  }

  lemma {:induction false} CodesInjective(s: string, t: string)
    requires Codes(s) == Codes(t)
    ensures s == t
  {
    assert |s| == |t|;
    forall i | 0 <= i < |s| ensures s[i] == t[i] {
      assert Codes(s)[i] == Codes(t)[i];
    }
  }

  /**
    Go's `<` on strings: byte order of the UTF-8 encodings, which is code point order
    (UTF-8 preserves the order of code points).
   */
  predicate StringLess(a: string, b: string) {
    IndexLess(Codes(a), Codes(b))
  }

  lemma StringLessStrictTotal(a: string, b: string, c: string)
    ensures !StringLess(a, a)
    ensures a == b || StringLess(a, b) || StringLess(b, a)
    ensures !(StringLess(a, b) && StringLess(b, a))
    ensures StringLess(a, b) && StringLess(b, c) ==> StringLess(a, c)
  {
    IndexLessIrreflexive(Codes(a));
    IndexLessTrichotomy(Codes(a), Codes(b));
    if Codes(a) == Codes(b) { CodesInjective(a, b); }
    if StringLess(a, b) && StringLess(b, c) { IndexLessTransitive(Codes(a), Codes(b), Codes(c)); }
  }

  // ---------------------------------------------------------------------------------------
  // Sorting.  sort.Slice and sort.Sort promise a permutation that is ordered by the
  // comparator; the insertion sort below is a definition with exactly those properties.

  ghost predicate Irreflexive<T(!new)>(lt: (T, T) -> bool) { forall a :: !lt(a, a) }

  ghost predicate Transitive<T(!new)>(lt: (T, T) -> bool) {
    forall a, b, c :: lt(a, b) && lt(b, c) ==> lt(a, c)
  }

  /** "Not less" is transitive too: incomparable elements form equivalence classes. */
  ghost predicate NegTransitive<T(!new)>(lt: (T, T) -> bool) {
    forall a, b, c :: !lt(a, b) && !lt(b, c) ==> !lt(a, c)
  }

  ghost predicate StrictWeakOrder<T(!new)>(lt: (T, T) -> bool) {
    Irreflexive(lt) && Transitive(lt) && NegTransitive(lt)
  }

  /** No element is less than one before it. */
  ghost predicate SortedBy<T>(s: seq<T>, lt: (T, T) -> bool) {
    forall i, j | 0 <= i < j < |s| :: !lt(s[j], s[i])
  }

  function Insert<T>(x: T, s: seq<T>, lt: (T, T) -> bool): (r: seq<T>)
    ensures multiset(r) == multiset(s) + multiset{x}
  {
    if s == [] then [x]
    else if lt(s[0], x) then
      assert s == [s[0]] + s[1..];
      [s[0]] + Insert(x, s[1..], lt)
    else [x] + s
  }

  function SortBy<T>(s: seq<T>, lt: (T, T) -> bool): (r: seq<T>)
    ensures multiset(r) == multiset(s) && |r| == |s|
  {
    if s == [] then []
    else
      assert s == [s[0]] + s[1..];
      Insert(s[0], SortBy(s[1..], lt), lt)
  }

  lemma {:induction false} InsertSorted<T(!new)>(x: T, s: seq<T>, lt: (T, T) -> bool)
    requires StrictWeakOrder(lt) && SortedBy(s, lt)
    ensures SortedBy(Insert(x, s, lt), lt)
  {
    if s == [] {
    } else if lt(s[0], x) {
      InsertSorted(x, s[1..], lt);
      var r := Insert(x, s[1..], lt);
      InsertMembers(x, s[1..], lt);
      forall k | 0 <= k < |r| ensures !lt(r[k], s[0]) {
        if r[k] != x {
          assert r[k] in r && r[k] in s[1..];
          var j :| 0 <= j < |s[1..]| && s[1..][j] == r[k];
          assert s[j + 1] == r[k];
        }
      }
      assert Insert(x, s, lt) == [s[0]] + r;
    } else {
      var r := [x] + s;
      forall i, j | 0 <= i < j < |r| ensures !lt(r[j], r[i]) {
        if i == 0 {
          assert !lt(s[j - 1], s[0]) || j == 1;
        } else {
          assert r[i] == s[i - 1] && r[j] == s[j - 1];
        }
      }
    }
  }

  lemma InsertMembers<T>(x: T, s: seq<T>, lt: (T, T) -> bool)
    ensures forall y | y in Insert(x, s, lt) :: y == x || y in s
  {
    forall y | y in Insert(x, s, lt) ensures y == x || y in s {
      assert y in multiset(Insert(x, s, lt));
    }
  }

  lemma {:induction false} SortBySorted<T(!new)>(s: seq<T>, lt: (T, T) -> bool)
    requires StrictWeakOrder(lt)
    ensures SortedBy(SortBy(s, lt), lt)
  {
    if s != [] {
      SortBySorted(s[1..], lt);
      InsertSorted(s[0], SortBy(s[1..], lt), lt);
    }
  }

  lemma SortByMembers<T>(s: seq<T>, lt: (T, T) -> bool)
    ensures forall x :: x in SortBy(s, lt) <==> x in s
  {
    var r := SortBy(s, lt);
    forall x ensures x in r <==> x in s {
      assert x in r <==> x in multiset(r);
      assert x in s <==> x in multiset(s);
    }
  }

  /**
    A sequence that is strictly increasing under `lt` is the only ordered arrangement of its
    elements: any permutation of it that is SortedBy `lt` equals it.
   */
  lemma {:induction false} SortedPermutationUnique<T>(a: seq<T>, b: seq<T>, lt: (T, T) -> bool)
    requires forall i, j | 0 <= i < j < |a| :: lt(a[i], a[j])
    requires SortedBy(b, lt)
    requires multiset(a) == multiset(b)
    ensures a == b
  {
    assert |a| == |multiset(a)| == |multiset(b)| == |b|;
    if a != [] {
      HeadsAgree(a, b, lt);
      TailMultiset(a, b);
      SortedTail(b, lt);
      forall i, j | 0 <= i < j < |a[1..]| ensures lt(a[1..][i], a[1..][j]) {
        assert a[1..][i] == a[i + 1] && a[1..][j] == a[j + 1];
      }
      SortedPermutationUnique(a[1..], b[1..], lt);
      assert a == [a[0]] + a[1..] && b == [b[0]] + b[1..];
    }
  }

  lemma TailMultiset<T>(a: seq<T>, b: seq<T>)
    requires a != [] && b != [] && a[0] == b[0] && multiset(a) == multiset(b)
    ensures multiset(a[1..]) == multiset(b[1..])
  {
    assert a == [a[0]] + a[1..] && b == [b[0]] + b[1..];
    assert multiset(a) == multiset{a[0]} + multiset(a[1..]);
    assert multiset(b) == multiset{b[0]} + multiset(b[1..]);
    assert multiset(a[1..]) == multiset(a) - multiset{a[0]};
    assert multiset(b[1..]) == multiset(b) - multiset{b[0]};
  }

  lemma SortedTail<T>(b: seq<T>, lt: (T, T) -> bool)
    requires b != [] && SortedBy(b, lt)
    ensures SortedBy(b[1..], lt)
  {
    forall i, j | 0 <= i < j < |b[1..]| ensures !lt(b[1..][j], b[1..][i]) {
      assert b[1..][j] == b[j + 1] && b[1..][i] == b[i + 1];
    }
  }

  lemma HeadsAgree<T>(a: seq<T>, b: seq<T>, lt: (T, T) -> bool)
    requires a != [] && |a| == |b|
    requires forall i, j | 0 <= i < j < |a| :: lt(a[i], a[j])
    requires SortedBy(b, lt)
    requires multiset(a) == multiset(b)
    ensures a[0] == b[0]
  {
    assert b[0] in multiset(a);
    var m :| 0 <= m < |a| && a[m] == b[0];
    assert a[0] in multiset(b);
    var k :| 0 <= k < |b| && b[k] == a[0];
  }
}
