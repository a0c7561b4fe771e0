// Array.prototype.sort as the screens use it: a stable sort under a
// comparison that is a total preorder.  String.prototype.localeCompare is
// modelled as the code-point lexicographic order on text.

module Sorting {

  /** Code-point lexicographic order: the localeCompare stand-in. */
  predicate TextLe(a: string, b: string)
    decreases |a|
  {
    a == [] || (b != [] && (a[0] < b[0] || (a[0] == b[0] && TextLe(a[1..], b[1..]))))
  }

  lemma {:induction false} TextLeTotal(a: string, b: string)
    ensures TextLe(a, b) || TextLe(b, a)
    decreases |a|
  {
    if a != [] && b != [] && a[0] == b[0] {
      TextLeTotal(a[1..], b[1..]);
    }
  }

  lemma {:induction false} TextLeTransitive(a: string, b: string, c: string)
    requires TextLe(a, b) && TextLe(b, c)
    ensures TextLe(a, c)
    decreases |a|
  {
    if a != [] && b != [] && c != [] && a[0] == b[0] == c[0] {
      TextLeTransitive(a[1..], b[1..], c[1..]);
    }
  }

  lemma {:induction false} TextLeAntisymmetric(a: string, b: string)
    requires TextLe(a, b) && TextLe(b, a)
    ensures a == b
    decreases |a|
  {
    if a != [] && b != [] {
      TextLeAntisymmetric(a[1..], b[1..]);
      assert a == [a[0]] + a[1..];
      assert b == [b[0]] + b[1..];
    }
  }

  ghost predicate TotalPreorder<T(!new)>(le: (T, T) -> bool) {
    (forall a, b :: le(a, b) || le(b, a))
    && (forall a, b, c :: le(a, b) && le(b, c) ==> le(a, c))
  }

  ghost predicate SortedBy<T>(s: seq<T>, le: (T, T) -> bool) {
    forall i, j :: 0 <= i < j < |s| ==> le(s[i], s[j])
  }

  /** Insert x after every element that does not exceed it (keeps equal elements in arrival order). */
  function Insert<T>(t: seq<T>, x: T, le: (T, T) -> bool): (r: seq<T>)
    ensures multiset(r) == multiset(t) + multiset{x}
    ensures |r| == |t| + 1
  {
    if t == [] || le(t[|t| - 1], x) then t + [x]
    else
      assert t == t[..|t| - 1] + [t[|t| - 1]];
      Insert(t[..|t| - 1], x, le) + [t[|t| - 1]]
  }

  /** Insertion sort: the elements of s in a stable order under le. */
  function SortBy<T>(s: seq<T>, le: (T, T) -> bool): (r: seq<T>)
    ensures multiset(r) == multiset(s)
    ensures |r| == |s|
  {
    if s == [] then []
    else
      assert s == s[..|s| - 1] + [s[|s| - 1]];
      Insert(SortBy(s[..|s| - 1], le), s[|s| - 1], le)
  }

  lemma {:induction false} InsertSorted<T(!new)>(t: seq<T>, x: T, le: (T, T) -> bool)
    requires TotalPreorder(le)
    requires SortedBy(t, le)
    ensures SortedBy(Insert(t, x, le), le)
    decreases |t|
  {
    if t == [] || le(t[|t| - 1], x) {
    } else {
      var init := t[..|t| - 1];
      var last := t[|t| - 1];
      assert le(x, last);
      InsertSorted(init, x, le);
      var u := Insert(init, x, le);
      assert multiset(u) == multiset(init) + multiset{x};
      forall i | 0 <= i < |u|
        ensures le(u[i], last)
      {
        assert u[i] in multiset(u);
        if u[i] == x {
        } else {
          assert u[i] in multiset(init);
          var k :| 0 <= k < |init| && init[k] == u[i];
          assert le(t[k], t[|t| - 1]);
        }
      }
    }
  }

  lemma {:induction false} SortBySorted<T(!new)>(s: seq<T>, le: (T, T) -> bool)
    requires TotalPreorder(le)
    ensures SortedBy(SortBy(s, le), le)
    decreases |s|
  {
    if s != [] {
      SortBySorted(s[..|s| - 1], le);
      InsertSorted(SortBy(s[..|s| - 1], le), s[|s| - 1], le);
    }
  }

  /** Sorting keeps exactly the elements it was given. */
  lemma SortByMembers<T>(s: seq<T>, le: (T, T) -> bool, x: T)
    ensures x in SortBy(s, le) <==> x in s
  {
    assert x in SortBy(s, le) <==> x in multiset(SortBy(s, le));
    assert x in s <==> x in multiset(s);
  }

  /** The order of records by a text key (the name, as localeCompare orders it). */
  function ByText<T>(key: T -> string): (le: (T, T) -> bool)
  {
    (a: T, b: T) => TextLe(key(a), key(b))
  }

  lemma ByTextPreorder<T(!new)>(key: T -> string)
    ensures TotalPreorder(ByText(key))
  {
    var le := ByText(key);
    forall a, b ensures le(a, b) || le(b, a) {
      TextLeTotal(key(a), key(b));
    }
    forall a, b, c | le(a, b) && le(b, c) ensures le(a, c) {
      TextLeTransitive(key(a), key(b), key(c));
    }
  }

  /** The order of records by a number key, smallest first. */
  function ByNumber<T>(key: T -> int): (le: (T, T) -> bool)
  {
    (a: T, b: T) => key(a) <= key(b)
  }

  lemma ByNumberPreorder<T(!new)>(key: T -> int)
    ensures TotalPreorder(ByNumber(key))
  {
  }

  /** Records sorted by a text key: the same records, in non-decreasing key order. */
  function SortByText<T>(s: seq<T>, key: T -> string): (r: seq<T>)
    ensures multiset(r) == multiset(s)
  {
    SortBy(s, ByText(key))
  }

  lemma SortByTextSorted<T(!new)>(s: seq<T>, key: T -> string)
    ensures forall i, j :: 0 <= i < j < |s| ==> TextLe(key(SortByText(s, key)[i]), key(SortByText(s, key)[j]))
  {
    ByTextPreorder(key);
    SortBySorted(s, ByText(key));
  }

  /** Records sorted by a number key: the same records, in non-decreasing key order. */
  function SortByNumber<T>(s: seq<T>, key: T -> int): (r: seq<T>)
    ensures multiset(r) == multiset(s)
  {
    SortBy(s, ByNumber(key))
  }

  lemma SortByNumberSorted<T(!new)>(s: seq<T>, key: T -> int)
    ensures forall i, j :: 0 <= i < j < |s| ==> key(SortByNumber(s, key)[i]) <= key(SortByNumber(s, key)[j])
  {
    ByNumberPreorder(key);
    SortBySorted(s, ByNumber(key));
  }

  /** Array.prototype.filter. */
  function Filter<T>(s: seq<T>, keep: T -> bool): (r: seq<T>)
    ensures |r| <= |s|
    ensures forall i {:trigger r[i]} :: 0 <= i < |r| ==> r[i] in s && keep(r[i])
    ensures forall i {:trigger s[i] in r} :: 0 <= i < |s| && keep(s[i]) ==> s[i] in r
  {
    if s == [] then []
    else if keep(s[|s| - 1]) then Filter(s[..|s| - 1], keep) + [s[|s| - 1]]
    else Filter(s[..|s| - 1], keep)
  }

  /** An element survives the filter exactly when it was there and is kept. */
  lemma FilterMembers<T>(s: seq<T>, keep: T -> bool, x: T)
    ensures x in Filter(s, keep) <==> x in s && keep(x)
  {
    if x in s && keep(x) {
      var k :| 0 <= k < |s| && s[k] == x;
    }
  }

  /** Sorting by a text key keeps exactly the elements it was given. */
  lemma SortByTextMembers<T>(s: seq<T>, key: T -> string, x: T)
    ensures x in SortByText(s, key) <==> x in s
  {
    SortByMembers(s, ByText(key), x);
  }

  /** Array.prototype.slice(0, n). */
  function TakeFirst<T>(s: seq<T>, n: nat): (r: seq<T>)
    ensures |r| == if |s| < n then |s| else n
    ensures r == s[..|r|]
  {
    if |s| <= n then s else s[..n]
  }

  /** Array.prototype.reverse: the same elements, last first. */
  function Reversed<T>(s: seq<T>): (r: seq<T>)
    ensures |r| == |s|
    ensures forall i :: 0 <= i < |s| ==> r[i] == s[|s| - 1 - i]
  {
    if s == [] then [] else [s[|s| - 1]] + Reversed(s[..|s| - 1])
  }
}
