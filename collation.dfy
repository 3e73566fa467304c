/** Ordering and de-duplication as the page uses them: `Array.prototype.sort`
    with a comparator of the shape `(a, b) => key(a).localeCompare(key(b))`, and
    the list of distinct values `[...new Set(xs)]`.

    The locale collation itself is not modelled. A comparator is a relation `le`
    on sort keys, "`localeCompare` returns at most zero"; the lemmas that need it
    to behave like an ordering ask for a total preorder. */
module Collation {

  /** `le` is total (any two keys compare) and transitive; keys that compare
      both ways are equivalent, and the sort keeps their input order. */
  ghost predicate TotalPreorder(le: (string, string) -> bool) {
    && (forall a, b :: Le(le, a, b) || Le(le, b, a))
    && (forall a, b, c :: Le(le, a, b) && Le(le, b, c) ==> Le(le, a, c))
  }

  /** One comparison, `a.localeCompare(b) <= 0`. The two laws of a total
      preorder are stated on this name, so that they come into play only where a
      proof names a comparison this way. */
  predicate Le(le: (string, string) -> bool, a: string, b: string) {
    le(a, b)
  }

  /** Every element sorts no later than every element after it. */
  ghost predicate SortedByKey<T>(s: seq<T>, key: T -> string, le: (string, string) -> bool) {
    forall i, j :: 0 <= i < j < |s| ==> le(key(s[i]), key(s[j]))
  }

  predicate Equivalent(le: (string, string) -> bool, a: string, b: string) {
    le(a, b) && le(b, a)
  }

  /** Puts `x` in front of the first element whose key it does not sort after. */
  function InsertByKey<T>(x: T, s: seq<T>, key: T -> string, le: (string, string) -> bool): (r: seq<T>)
    ensures |r| == |s| + 1 && r != []
  {
    if s == [] || le(key(x), key(s[0])) then
      [x] + s
    else
      [s[0]] + InsertByKey(x, s[1..], key, le)
  }

  /** `s.sort((a, b) => key(a).localeCompare(key(b)))`, as the sorted list it
      returns: a stable sort (insertion sort from the back, so that among
      equivalent keys the element that came first stays first). `sort` also
      reorders the array it is called on; here the result is a new value and
      `s` is left as it was. */
  function SortByKey<T>(s: seq<T>, key: T -> string, le: (string, string) -> bool): (r: seq<T>)
    ensures |r| == |s|
  {
    if s == [] then
      []
    else
      InsertByKey(s[0], SortByKey(s[1..], key, le), key, le)
  }

  /** Inserting adds `x` and loses nothing. */
  lemma {:induction false} InsertCounts<T>(x: T, s: seq<T>, key: T -> string, le: (string, string) -> bool)
    ensures multiset(InsertByKey(x, s, key, le)) == multiset(s) + multiset{x}
  {
    if s != [] && !le(key(x), key(s[0])) {
      InsertCounts(x, s[1..], key, le);
      assert s == [s[0]] + s[1..];
    }
  }

  /** The sort is a permutation of its input. */
  lemma {:induction false} SortCounts<T>(s: seq<T>, key: T -> string, le: (string, string) -> bool)
    ensures multiset(SortByKey(s, key, le)) == multiset(s)
  {
    if s != [] {
      SortCounts(s[1..], key, le);
      InsertCounts(s[0], SortByKey(s[1..], key, le), key, le);
      assert s == [s[0]] + s[1..];
    }
  }

  /** A key that sorts no later than `x` and every element of `s` sorts no
      later than every element of the insertion. */
  lemma {:induction false} InsertLowerBound<T>(x: T, s: seq<T>, key: T -> string, le: (string, string) -> bool, b: string)
    requires le(b, key(x))
    requires forall j :: 0 <= j < |s| ==> le(b, key(s[j]))
    ensures forall j :: 0 <= j < |InsertByKey(x, s, key, le)| ==> le(b, key(InsertByKey(x, s, key, le)[j]))
  {
    if s == [] || le(key(x), key(s[0])) {
      var r := [x] + s;
      assert forall j :: 1 <= j < |r| ==> r[j] == s[j - 1];
    } else {
      var tail := InsertByKey(x, s[1..], key, le);
      assert forall j :: 0 <= j < |s| - 1 ==> s[1..][j] == s[j + 1];
      InsertLowerBound(x, s[1..], key, le, b);
      var r := [s[0]] + tail;
      assert forall j :: 1 <= j < |r| ==> r[j] == tail[j - 1];
    }
  }

  lemma {:induction false} InsertKeepsSorted<T>(x: T, s: seq<T>, key: T -> string, le: (string, string) -> bool)
    requires TotalPreorder(le)
    requires SortedByKey(s, key, le)
    ensures SortedByKey(InsertByKey(x, s, key, le), key, le)
  {
    if s == [] || le(key(x), key(s[0])) {
      var r := [x] + s;
      forall i, j | 0 <= i < j < |r| ensures le(key(r[i]), key(r[j])) {
        assert r[j] == s[j - 1];
        if i == 0 && j > 1 {
          assert Le(le, key(x), key(s[0])) && Le(le, key(s[0]), key(s[j - 1]));
        } else if i > 0 {
          assert r[i] == s[i - 1];
        }
      }
    } else {
      var rest := s[1..];
      assert forall i, j :: 0 <= i < j < |rest| ==> rest[i] == s[i + 1] && rest[j] == s[j + 1];
      InsertKeepsSorted(x, rest, key, le);
      assert Le(le, key(x), key(s[0])) || Le(le, key(s[0]), key(x));
      assert forall j :: 0 <= j < |rest| ==> rest[j] == s[j + 1];
      InsertLowerBound(x, rest, key, le, key(s[0]));
      var tail := InsertByKey(x, rest, key, le);
      var r := [s[0]] + tail;
      forall i, j | 0 <= i < j < |r| ensures le(key(r[i]), key(r[j])) {
        assert r[j] == tail[j - 1];
        if i > 0 {
          assert r[i] == tail[i - 1];
        }
      }
    }
  }

  /** The sort orders its result by key. */
  lemma {:induction false} SortIsSorted<T>(s: seq<T>, key: T -> string, le: (string, string) -> bool)
    requires TotalPreorder(le)
    ensures SortedByKey(SortByKey(s, key, le), key, le)
  {
    if s != [] {
      SortIsSorted(s[1..], key, le);
      InsertKeepsSorted(s[0], SortByKey(s[1..], key, le), key, le);
    }
  }

  /** The elements of `s` whose key is equivalent to `k`, in the order of `s`. */
  function ClassOf<T>(s: seq<T>, key: T -> string, le: (string, string) -> bool, k: string): seq<T>
  {
    if s == [] then
      []
    else
      (if Equivalent(le, key(s[0]), k) then [s[0]] else []) + ClassOf(s[1..], key, le, k)
  }

  lemma ClassOfCons<T>(x: T, s: seq<T>, key: T -> string, le: (string, string) -> bool, k: string)
    ensures ClassOf([x] + s, key, le, k) == (if Equivalent(le, key(x), k) then [x] else []) + ClassOf(s, key, le, k)
  {
    assert ([x] + s)[0] == x && ([x] + s)[1..] == s;
  }

  /** A key that sorts strictly before a member of a class is not in that class. */
  lemma BeforeIsOutsideClass(le: (string, string) -> bool, kx: string, k0: string, k: string)
    requires TotalPreorder(le)
    requires !le(kx, k0) && Equivalent(le, kx, k)
    ensures !Equivalent(le, k0, k)
  {
    assert Le(le, kx, k) && Le(le, k, k0) ==> Le(le, kx, k0);
  }

  lemma {:induction false} InsertIntoClass<T>(x: T, s: seq<T>, key: T -> string, le: (string, string) -> bool, k: string)
    requires TotalPreorder(le)
    ensures ClassOf(InsertByKey(x, s, key, le), key, le, k)
         == (if Equivalent(le, key(x), k) then [x] else []) + ClassOf(s, key, le, k)
  {
    if s == [] || le(key(x), key(s[0])) {
      ClassOfCons(x, s, key, le, k);
    } else {
      var tail := InsertByKey(x, s[1..], key, le);
      var rest := ClassOf(s[1..], key, le, k);
      var c0 := if Equivalent(le, key(s[0]), k) then [s[0]] else [];
      InsertIntoClass(x, s[1..], key, le, k);
      ClassOfCons(s[0], tail, key, le, k);
      assert ClassOf(InsertByKey(x, s, key, le), key, le, k) == c0 + ClassOf(tail, key, le, k);
      assert ClassOf(s, key, le, k) == c0 + rest;
      if Equivalent(le, key(x), k) {
        BeforeIsOutsideClass(le, key(x), key(s[0]), k);
        assert c0 + ([x] + rest) == [x] + rest == [x] + (c0 + rest);
      } else {
        assert ClassOf(tail, key, le, k) == [] + rest == rest;
      }
    }
  }

  /** The sort is stable: for every key, the elements equivalent to it keep
      their relative order. */
  lemma {:induction false} SortIsStable<T>(s: seq<T>, key: T -> string, le: (string, string) -> bool, k: string)
    requires TotalPreorder(le)
    ensures ClassOf(SortByKey(s, key, le), key, le, k) == ClassOf(s, key, le, k)
  {
    if s != [] {
      SortIsStable(s[1..], key, le, k);
      InsertIntoClass(s[0], SortByKey(s[1..], key, le), key, le, k);
    }
  }

  predicate NoDuplicates<T(==)>(s: seq<T>) {
    forall i, j :: 0 <= i < j < |s| ==> s[i] != s[j]
  }

  lemma NoDuplicatesCons<T>(x: T, s: seq<T>)
    requires x !in s && NoDuplicates(s)
    ensures NoDuplicates([x] + s)
  {
    var r := [x] + s;
    forall i, j | 0 <= i < j < |r| ensures r[i] != r[j] {
      assert r[j] == s[j - 1];
      if i > 0 {
        assert r[i] == s[i - 1];
      }
    }
  }

  lemma HeadNotInTail<T>(s: seq<T>)
    requires s != [] && NoDuplicates(s)
    ensures s[0] !in s[1..] && NoDuplicates(s[1..])
  {
    forall m | 0 <= m < |s| - 1 ensures s[1..][m] != s[0] {
      assert s[1..][m] == s[m + 1];
    }
    forall i, j | 0 <= i < j < |s| - 1 ensures s[1..][i] != s[1..][j] {
      assert s[1..][i] == s[i + 1] && s[1..][j] == s[j + 1];
    }
  }

  lemma {:induction false} InsertKeepsDistinct<T>(x: T, s: seq<T>, key: T -> string, le: (string, string) -> bool)
    requires x !in s && NoDuplicates(s)
    ensures NoDuplicates(InsertByKey(x, s, key, le))
  {
    if s == [] || le(key(x), key(s[0])) {
      NoDuplicatesCons(x, s);
    } else {
      var tail := InsertByKey(x, s[1..], key, le);
      InsertCounts(x, s[1..], key, le);
      assert x !in s[1..];
      InsertKeepsDistinct(x, s[1..], key, le);
      HeadNotInTail(s);
      assert s[0] !in multiset(tail);
      NoDuplicatesCons(s[0], tail);
    }
  }

  /** Sorting a list without duplicates gives a list without duplicates. */
  lemma {:induction false} SortKeepsDistinct<T>(s: seq<T>, key: T -> string, le: (string, string) -> bool)
    requires NoDuplicates(s)
    ensures NoDuplicates(SortByKey(s, key, le))
  {
    if s != [] {
      var sorted := SortByKey(s[1..], key, le);
      HeadNotInTail(s);
      SortKeepsDistinct(s[1..], key, le);
      SortCounts(s[1..], key, le);
      assert s[0] !in multiset(sorted);
      InsertKeepsDistinct(s[0], sorted, key, le);
    }
  }

  /** `[...new Set(s)]`: each value once, at the place where it first occurs. */
  function Dedup<T(==)>(s: seq<T>): (r: seq<T>)
    ensures NoDuplicates(r)
    ensures forall i :: 0 <= i < |r| ==> r[i] in s
    ensures forall i :: 0 <= i < |s| ==> s[i] in r
  {
    if s == [] then
      []
    else
      var d := Dedup(s[..|s| - 1]);
      var last := s[|s| - 1];
      assert s == s[..|s| - 1] + [last];
      if last in d then
        d
      else
        assert forall i :: 0 <= i < |d| ==> (d + [last])[i] == d[i];
        d + [last]
  }

  /** The index of the first occurrence of `x` in `s`. */
  function FirstIndex<T(==)>(s: seq<T>, x: T): (n: nat)
    requires x in s
    ensures n < |s| && s[n] == x
    ensures forall k :: 0 <= k < n ==> s[k] != x
  {
    if s[0] == x then 0 else 1 + FirstIndex(s[1..], x)
  }

  /** A value's first occurrence does not move when more values are appended. */
  lemma FirstIndexOfPrefix<T>(s: seq<T>, x: T, y: T)
    requires x in s
    ensures FirstIndex(s + [y], x) == FirstIndex(s, x)
  {
    var n := FirstIndex(s, x);
    var t := s + [y];
    assert t[n] == x;
    assert forall k :: 0 <= k < n ==> t[k] == s[k];
  }

  /** Appending a value that is new puts its first occurrence at the end. */
  lemma FirstIndexOfNew<T>(s: seq<T>, y: T)
    requires y !in s
    ensures FirstIndex(s + [y], y) == |s|
  {
    var t := s + [y];
    assert forall k :: 0 <= k < |s| ==> t[k] == s[k];
  }

  /** The values come out in the order of their first occurrence, as a `Set`
      iterates in insertion order. */
  lemma {:induction false} DedupKeepsFirstOccurrenceOrder<T>(s: seq<T>)
    ensures forall i, j :: 0 <= i < j < |Dedup(s)| ==> FirstIndex(s, Dedup(s)[i]) < FirstIndex(s, Dedup(s)[j])
  {
    if s != [] {
      var init := s[..|s| - 1];
      var last := s[|s| - 1];
      var d := Dedup(init);
      DedupKeepsFirstOccurrenceOrder(init);
      assert s == init + [last];
      forall i | 0 <= i < |d| ensures FirstIndex(s, d[i]) == FirstIndex(init, d[i]) {
        FirstIndexOfPrefix(init, d[i], last);
      }
      if last !in d {
        var r := d + [last];
        assert last !in init;
        FirstIndexOfNew(init, last);
        forall i, j | 0 <= i < j < |r| ensures FirstIndex(s, r[i]) < FirstIndex(s, r[j]) {
          assert r[i] == d[i];
          if j < |d| {
            assert r[j] == d[j];
          } else {
            assert FirstIndex(s, r[j]) == |init|;
            assert FirstIndex(init, d[i]) < |init|;
          }
        }
      }
    }
  }

  /** A list that has no duplicates is its own de-duplication. */
  lemma {:induction false} DedupOfDistinct<T>(s: seq<T>)
    requires NoDuplicates(s)
    ensures Dedup(s) == s
  {
    if s != [] {
      var init := s[..|s| - 1];
      assert NoDuplicates(init) by {
        forall i, j | 0 <= i < j < |init| ensures init[i] != init[j] {
          assert init[i] == s[i] && init[j] == s[j];
        }
      }
      DedupOfDistinct(init);
      assert s[|s| - 1] !in init by {
        forall m | 0 <= m < |init| ensures init[m] != s[|s| - 1] {
          assert init[m] == s[m];
        }
      }
      assert s == init + [s[|s| - 1]];
    }
  }

  /** Code-point order on strings, as one comparator that meets the hypothesis
      the ordering lemmas make of `localeCompare`. */
  predicate CodePointLe(a: string, b: string)
    decreases |a|
  {
    a == [] || (b != [] && (a[0] < b[0] || (a[0] == b[0] && CodePointLe(a[1..], b[1..]))))
  }

  lemma {:induction false} CodePointLeTotal(a: string, b: string)
    ensures CodePointLe(a, b) || CodePointLe(b, a)
    decreases |a|
  {
    if a != [] && b != [] && a[0] == b[0] {
      CodePointLeTotal(a[1..], b[1..]);
    }
  }

  lemma {:induction false} CodePointLeTransitive(a: string, b: string, c: string)
    requires CodePointLe(a, b) && CodePointLe(b, c)
    ensures CodePointLe(a, c)
    decreases |a|
  {
    if a != [] && a[0] == b[0] && b[0] == c[0] {
      CodePointLeTransitive(a[1..], b[1..], c[1..]);
    }
  }

  /** The hypothesis on comparators can be met. */
  lemma CodePointOrderIsTotalPreorder()
    ensures TotalPreorder(CodePointLe)
  {
    forall a, b ensures Le(CodePointLe, a, b) || Le(CodePointLe, b, a) {
      CodePointLeTotal(a, b);
    }
    forall a, b, c | Le(CodePointLe, a, b) && Le(CodePointLe, b, c) ensures Le(CodePointLe, a, c) {
      CodePointLeTransitive(a, b, c);
    }
  }
}
