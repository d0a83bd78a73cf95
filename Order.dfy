/** The orderings behind Python's `sorted` as the site generator uses it:
    strings compare by code point, lexicographically (a proper prefix is
    smaller), and pathlib paths compare as the lists of their segments.
    `Sort` is a stable insertion sort standing for `sorted`. */
module Order {

  /** `a <= b` on Python strings. */
  predicate StrLe(a: string, b: string) {
    if a == [] then true
    else if b == [] then false
    else if a[0] != b[0] then a[0] < b[0]
    else StrLe(a[1..], b[1..])
  }

  /** `a <= b` on pathlib paths, given as their segments. */
  predicate PathLe(a: seq<string>, b: seq<string>) {
    if a == [] then true
    else if b == [] then false
    else if a[0] != b[0] then StrLe(a[0], b[0])
    else PathLe(a[1..], b[1..])
  }

  ghost predicate Total<T(!new)>(le: (T, T) -> bool) {
    forall a, b :: le(a, b) || le(b, a)
  }

  predicate Sorted<T>(s: seq<T>, le: (T, T) -> bool) {
    forall i :: 0 < i < |s| ==> le(s[i - 1], s[i])
  }

  /** Places `x` before the first element it is not greater than. */
  function Insert<T(==)>(x: T, s: seq<T>, le: (T, T) -> bool): (r: seq<T>)
    ensures multiset(r) == multiset(s) + multiset{x}
    ensures |r| == |s| + 1 && (r[0] == x || (s != [] && r[0] == s[0]))
  {
    if s == [] || le(x, s[0]) then [x] + s
    else
      assert s == [s[0]] + s[1..];
      [s[0]] + Insert(x, s[1..], le)
  }

  function Sort<T(==)>(s: seq<T>, le: (T, T) -> bool): (r: seq<T>)
    ensures multiset(r) == multiset(s)
  {
    if s == [] then []
    else
      assert s == [s[0]] + s[1..];
      Insert(s[0], Sort(s[1..], le), le)
  }

  lemma {:induction false} InsertSorted<T(!new)>(x: T, s: seq<T>, le: (T, T) -> bool)
    requires Total(le) && Sorted(s, le)
    ensures Sorted(Insert(x, s, le), le)
  {
    if s != [] && !le(x, s[0]) {
      assert le(s[0], x);
      InsertSorted(x, s[1..], le);
    }
  }

  /** With a total order, `Sort` returns its input in order: a sorted
      permutation of it. */
  lemma {:induction false} SortSorted<T(!new)>(s: seq<T>, le: (T, T) -> bool)
    requires Total(le)
    ensures Sorted(Sort(s, le), le) && multiset(Sort(s, le)) == multiset(s)
  {
    if s != [] {
      SortSorted(s[1..], le);
      InsertSorted(s[0], Sort(s[1..], le), le);
    }
  }

  lemma {:induction false} StrLeTotal(a: string, b: string)
    ensures StrLe(a, b) || StrLe(b, a)
  {
    if a != [] && b != [] && a[0] == b[0] {
      StrLeTotal(a[1..], b[1..]);
    }
  }

  lemma SortedSnoc<T>(s: seq<T>, x: T, le: (T, T) -> bool)
    requires Sorted(s, le) && (s != [] ==> le(s[|s| - 1], x))
    ensures Sorted(s + [x], le)
  {
    assert forall i :: 0 <= i < |s| ==> (s + [x])[i] == s[i];
  }

  lemma SortedCons<T>(x: T, s: seq<T>, le: (T, T) -> bool)
    requires Sorted(s, le) && (s != [] ==> le(x, s[0]))
    ensures Sorted([x] + s, le)
  {
    assert forall i :: 0 <= i < |s| ==> ([x] + s)[i + 1] == s[i];
  }

  lemma SortedTail<T>(s: seq<T>, le: (T, T) -> bool)
    requires Sorted(s, le) && s != []
    ensures Sorted(s[1..], le) && (|s| > 1 ==> le(s[0], s[1]))
  {
    assert forall i :: 0 <= i < |s| - 1 ==> s[1..][i] == s[i + 1];
  }

  lemma {:induction false} StrLeTrans(a: string, b: string, c: string)
    requires StrLe(a, b) && StrLe(b, c)
    ensures StrLe(a, c)
  {
    if a != [] && a[0] == b[0] && b[0] == c[0] {
      StrLeTrans(a[1..], b[1..], c[1..]);
    }
  }

  lemma {:induction false} PathLeTotal(a: seq<string>, b: seq<string>)
    ensures PathLe(a, b) || PathLe(b, a)
  {
    if a != [] && b != [] {
      if a[0] == b[0] {
        PathLeTotal(a[1..], b[1..]);
      } else {
        StrLeTotal(a[0], b[0]);
      }
    }
  }

  lemma PathOrderTotal()
    ensures Total(PathLe)
  {
    forall a, b ensures PathLe(a, b) || PathLe(b, a) {
      PathLeTotal(a, b);
    }
  }

  /** Paths in `sorted` order. */
  function SortPaths(paths: seq<seq<string>>): (r: seq<seq<string>>)
    ensures Sorted(r, PathLe) && multiset(r) == multiset(paths)
  {
    PathOrderTotal();
    SortSorted(paths, PathLe);
    Sort(paths, PathLe)
  }
}
