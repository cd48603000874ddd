/**
  `sorted(xs, key=..., reverse=True)` as both versions use it: a stable sort into
  non-increasing key order. Keys compare as Python 2 compares them: numbers by value,
  strings character by character, and any number before any string.
*/
module Ordering {

  datatype SortKey = Num(n: int) | Text(s: string)

  /** Lexicographic `a < b`. */
  predicate TextBelow(a: string, b: string)
    decreases |a|
  {
    if a == [] then b != []
    else b != [] && (a[0] < b[0] || (a[0] == b[0] && TextBelow(a[1..], b[1..])))
  }

  predicate KeyBelow(a: SortKey, b: SortKey)
  {
    match a
    case Num(x) => (match b case Num(y) => x < y case Text(_) => true)
    case Text(x) => (match b case Num(_) => false case Text(y) => TextBelow(x, y))
  }

  lemma {:induction false} TextAsymmetric(a: string, b: string)
    ensures !(TextBelow(a, b) && TextBelow(b, a))
    decreases |a|
  {
    if a != [] && b != [] && a[0] == b[0] {
      TextAsymmetric(a[1..], b[1..]);
    }
  }

  /** Of two strings that are not below one another either way, neither lies strictly
      between them and a third: `a < c` forces `a < b` or `b < c`. */
  lemma {:induction false} TextSplit(a: string, b: string, c: string)
    requires TextBelow(a, c)
    ensures TextBelow(a, b) || TextBelow(b, c)
    decreases |a|
  {
    if a != [] && b != [] && a[0] == b[0] && b[0] == c[0] {
      TextSplit(a[1..], b[1..], c[1..]);
    }
  }

  lemma KeyAsymmetric(a: SortKey, b: SortKey)
    ensures !(KeyBelow(a, b) && KeyBelow(b, a))
  {
    if a.Text? && b.Text? {
      TextAsymmetric(a.s, b.s);
    }
  }

  lemma KeySplit(a: SortKey, b: SortKey, c: SortKey)
    requires KeyBelow(a, c)
    ensures KeyBelow(a, b) || KeyBelow(b, c)
  {
    if a.Text? && b.Text? && c.Text? {
      TextSplit(a.s, b.s, c.s);
    }
  }

  /** No element is followed by one with a larger key. */
  ghost predicate Descending<T>(r: seq<T>, key: T -> SortKey)
  {
    forall i, j :: 0 <= i < j < |r| ==> !KeyBelow(key(r[i]), key(r[j]))
  }

  /** Puts `x` after every element whose key is not below its own. */
  function InsertDesc<T>(x: T, t: seq<T>, key: T -> SortKey): (r: seq<T>)
    ensures multiset(r) == multiset(t) + multiset{x}
  {
    if t == [] then [x]
    else if KeyBelow(key(t[0]), key(x)) then [x] + t
    else
      assert t == [t[0]] + t[1..];
      [t[0]] + InsertDesc(x, t[1..], key)
  }

  /** `sorted(s, key=key, reverse=True)`. */
  function SortDesc<T>(s: seq<T>, key: T -> SortKey): (r: seq<T>)
    ensures multiset(r) == multiset(s)
  {
    if s == [] then []
    else
      assert s == s[..|s| - 1] + [s[|s| - 1]];
      InsertDesc(s[|s| - 1], SortDesc(s[..|s| - 1], key), key)
  }

  lemma {:induction false} InsertDescending<T>(x: T, t: seq<T>, key: T -> SortKey)
    requires Descending(t, key)
    ensures Descending(InsertDesc(x, t, key), key)
  {
    var r := InsertDesc(x, t, key);
    if t == [] {
    } else if KeyBelow(key(t[0]), key(x)) {
      forall j | 1 <= j < |r| ensures !KeyBelow(key(x), key(r[j])) {
        assert r[j] == t[j - 1];
        if KeyBelow(key(x), key(t[j - 1])) {
          KeySplit(key(x), key(t[0]), key(t[j - 1]));
          KeyAsymmetric(key(x), key(t[0]));
        }
      }
    } else {
      var rest := InsertDesc(x, t[1..], key);
      InsertDescending(x, t[1..], key);
      forall j | 0 <= j < |rest| ensures !KeyBelow(key(t[0]), key(rest[j])) {
        assert rest[j] in multiset(rest);
        if rest[j] != x {
          assert rest[j] in multiset(t[1..]);
          var k :| 0 <= k < |t[1..]| && t[1..][k] == rest[j];
          assert t[k + 1] == rest[j];
        }
      }
      assert r == [t[0]] + rest;
    }
  }

  /** The sorted list is in non-increasing key order (a permutation of the input by
      `SortDesc`'s own contract). */
  lemma {:induction false} SortDescSorted<T>(s: seq<T>, key: T -> SortKey)
    ensures Descending(SortDesc(s, key), key)
  {
    if s != [] {
      SortDescSorted(s[..|s| - 1], key);
      InsertDescending(s[|s| - 1], SortDesc(s[..|s| - 1], key), key);
    }
  }
}
