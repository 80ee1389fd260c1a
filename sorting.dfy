/** `sort_values` on a text column as both renderers use it. The key of a row is the
    cell's string, or None for a NaN cell; strings compare as Python compares them,
    code point by code point with a proper prefix first, and NaN cells go last. */
module Sorting {
  import opened Cells
  import opened Frames

  /** Python's `a <= b` on two strings. */
  predicate StrLe(a: string, b: string)
  {
    |a| == 0 || (|b| > 0 && (a[0] < b[0] || (a[0] == b[0] && StrLe(a[1..], b[1..]))))
  }

  lemma {:induction false} StrLeTotal(a: string, b: string)
    ensures StrLe(a, b) || StrLe(b, a)
  {
    if |a| > 0 && |b| > 0 && a[0] == b[0] {
      StrLeTotal(a[1..], b[1..]);
    }
  }

  lemma {:induction false} StrLeTrans(a: string, b: string, c: string)
    requires StrLe(a, b) && StrLe(b, c)
    ensures StrLe(a, c)
  {
    if |a| > 0 && a[0] == b[0] && b[0] == c[0] {
      StrLeTrans(a[1..], b[1..], c[1..]);
    }
  }

  /** Strings that are each at most the other are equal. */
  lemma {:induction false} StrLeAntisymmetric(a: string, b: string)
    requires StrLe(a, b) && StrLe(b, a)
    ensures a == b
  {
    if |a| > 0 {
      StrLeAntisymmetric(a[1..], b[1..]);
      assert a == [a[0]] + a[1..] && b == [b[0]] + b[1..];
    }
  }

  /** The order of sort keys: strings by `StrLe`, NaN after every string. */
  predicate KeyLe(a: Option<string>, b: Option<string>)
  {
    b.None? || (a.Some? && StrLe(a.value, b.value))
  }

  lemma KeyLeTotal(a: Option<string>, b: Option<string>)
    ensures KeyLe(a, b) || KeyLe(b, a)
  {
    if a.Some? && b.Some? {
      StrLeTotal(a.value, b.value);
    }
  }

  lemma KeyLeTrans(a: Option<string>, b: Option<string>, c: Option<string>)
    requires KeyLe(a, b) && KeyLe(b, c)
    ensures KeyLe(a, c)
  {
    if c.Some? {
      StrLeTrans(a.value, b.value, c.value);
    }
  }

  /** The keys never decrease along `s`. */
  predicate SortedBy<X>(s: seq<X>, key: X -> Option<string>)
  {
    forall i, j :: 0 <= i < j < |s| ==> KeyLe(key(s[i]), key(s[j]))
  }

  /** A first element at most every later key keeps a sequence sorted. */
  lemma SortedCons<X>(x: X, s: seq<X>, key: X -> Option<string>)
    requires SortedBy(s, key)
    requires forall j :: 0 <= j < |s| ==> KeyLe(key(x), key(s[j]))
    ensures SortedBy([x] + s, key)
  {
    var r := [x] + s;
    forall i, j | 0 <= i < j < |r|
      ensures KeyLe(key(r[i]), key(r[j]))
    {
      if i > 0 {
        assert r[i] == s[i - 1] && r[j] == s[j - 1];
      }
    }
  }

  /** Putting `x` in front of a sorted sequence whose first key is not below its own. */
  lemma InsertFront<X>(x: X, s: seq<X>, key: X -> Option<string>)
    requires SortedBy(s, key) && |s| > 0 && KeyLe(key(x), key(s[0]))
    ensures SortedBy([x] + s, key)
  {
    forall j | 0 <= j < |s|
      ensures KeyLe(key(x), key(s[j]))
    {
      if j > 0 {
        KeyLeTrans(key(x), key(s[0]), key(s[j]));
      }
    }
    SortedCons(x, s, key);
  }

  /** Keeping the first element of a sorted sequence in front of `x` inserted into the rest. */
  lemma InsertBehind<X>(x: X, s: seq<X>, rest: seq<X>, key: X -> Option<string>)
    requires SortedBy(s, key) && |s| > 0 && !KeyLe(key(x), key(s[0]))
    requires SortedBy(rest, key)
    requires forall k :: 0 <= k < |rest| ==> rest[k] == x || rest[k] in s[1..]
    requires multiset(rest) == multiset(s[1..]) + multiset{x}
    ensures SortedBy([s[0]] + rest, key)
    ensures multiset([s[0]] + rest) == multiset(s) + multiset{x}
    ensures forall k :: 0 <= k < |rest| + 1 ==> ([s[0]] + rest)[k] == x || ([s[0]] + rest)[k] in s
  {
    var tail := s[1..];
    KeyLeTotal(key(x), key(s[0]));
    forall j | 0 <= j < |rest|
      ensures KeyLe(key(s[0]), key(rest[j]))
    {
      if rest[j] != x {
        var i :| 0 <= i < |tail| && tail[i] == rest[j];
        assert s[i + 1] == rest[j];
      }
    }
    SortedCons(s[0], rest, key);
    assert s == [s[0]] + tail;
    forall k | 0 < k < |rest| + 1
      ensures ([s[0]] + rest)[k] == x || ([s[0]] + rest)[k] in s
    {
      if rest[k - 1] != x {
        InTail(s, rest[k - 1]);
      }
    }
  }

  /** `x` goes before the first element whose key is not below its own. */
  function Insert<X>(x: X, s: seq<X>, key: X -> Option<string>): (r: seq<X>)
    requires SortedBy(s, key)
    ensures |r| == |s| + 1
    ensures multiset(r) == multiset(s) + multiset{x}
    ensures forall k :: 0 <= k < |r| ==> r[k] == x || r[k] in s
    ensures SortedBy(r, key)
  {
    if |s| == 0 then [x]
    else if KeyLe(key(x), key(s[0])) then
      InsertFront(x, s, key);
      [x] + s
    else
      var rest := Insert(x, s[1..], key);
      InsertBehind(x, s, rest, key);
      [s[0]] + rest
  }

  /** `sort_values(column)`: the rows in the order of their keys. The source's sort is
      not stable, so the order among equal keys is a choice of the model (the input
      order). */
  function SortBy<X>(s: seq<X>, key: X -> Option<string>): (r: seq<X>)
    ensures |r| == |s|
    ensures multiset(r) == multiset(s)
    ensures SortedBy(r, key)
  {
    if |s| == 0 then []
    else
      assert s == [s[0]] + s[1..];
      Insert(s[0], SortBy(s[1..], key), key)
  }

  /** A sequence already in key order is left as it is, ties included. */
  lemma {:induction false} SortBySorted<X>(s: seq<X>, key: X -> Option<string>)
    requires SortedBy(s, key)
    ensures SortBy(s, key) == s
  {
    if |s| > 0 {
      assert SortedBy(s[1..], key) by {
        forall i, j | 0 <= i < j < |s[1..]|
          ensures KeyLe(key(s[1..][i]), key(s[1..][j]))
        {
          assert s[1..][i] == s[i + 1] && s[1..][j] == s[j + 1];
        }
      }
      SortBySorted(s[1..], key);
      if |s| > 1 {
        assert KeyLe(key(s[0]), key(s[1]));
      }
    }
  }
}
