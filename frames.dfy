/** Row-wise operations on frames modelled as sequences: boolean filtering, counting
    the rows of a boolean column (`df[mask]`, `mask.sum()`) and cutting a sequence at
    the first row that meets a condition. */
module Frames {

  lemma AppendAssoc<X>(a: seq<X>, b: seq<X>, c: seq<X>)
    ensures (a + b) + c == a + (b + c)
  {
  }

  lemma ConcatIndex<X>(a: seq<X>, b: seq<X>, k: nat)
    requires k < |a| + |b|
    ensures k < |a| ==> (a + b)[k] == a[k]
    ensures k >= |a| ==> (a + b)[k] == b[k - |a|]
  {
  }

  /** A non-empty sequence is its front followed by its last element. */
  lemma Snoc<X>(s: seq<X>)
    requires |s| > 0
    ensures s == s[..|s| - 1] + [s[|s| - 1]]
  {
  }

  lemma InTail<X>(s: seq<X>, x: X)
    requires |s| > 0 && x in s[1..]
    ensures x in s
  {
    var i :| 0 <= i < |s[1..]| && s[1..][i] == x;
    assert s[i + 1] == x;
  }

  /** `df[keep]`: the rows satisfying `keep`, in their original order. */
  function Filter<X>(s: seq<X>, keep: X -> bool): (r: seq<X>)
    ensures |r| <= |s|
    ensures forall k :: 0 <= k < |r| ==> r[k] in s && keep(r[k])
    ensures forall k :: 0 <= k < |s| && keep(s[k]) ==> s[k] in r
  {
    if |s| == 0 then []
    else if keep(s[0]) then [s[0]] + Filter(s[1..], keep)
    else Filter(s[1..], keep)
  }

  /** Filtering keeps the relative order: it distributes over concatenation. */
  lemma {:induction false} FilterAppend<X>(a: seq<X>, b: seq<X>, keep: X -> bool)
    ensures Filter(a + b, keep) == Filter(a, keep) + Filter(b, keep)
  {
    if |a| > 0 {
      assert (a + b)[1..] == a[1..] + b;
      FilterAppend(a[1..], b, keep);
    } else {
      assert a + b == b;
    }
  }

  /** A filter that rejects nothing returns its input. */
  lemma {:induction false} FilterAll<X>(s: seq<X>, keep: X -> bool)
    requires forall k :: 0 <= k < |s| ==> keep(s[k])
    ensures Filter(s, keep) == s
  {
    if |s| > 0 {
      FilterAll(s[1..], keep);
    }
  }

  /** `mask.sum()`: the number of rows satisfying `p`. */
  function Count<X>(s: seq<X>, p: X -> bool): (n: nat)
    ensures n <= |s|
    ensures n == |Filter(s, p)|
  {
    if |s| == 0 then 0
    else (if p(s[0]) then 1 else 0) + Count(s[1..], p)
  }

  /** No row satisfies `p`. */
  lemma {:induction false} CountNone<X>(s: seq<X>, p: X -> bool)
    requires forall k :: 0 <= k < |s| ==> !p(s[k])
    ensures Count(s, p) == 0
  {
    if |s| > 0 {
      CountNone(s[1..], p);
    }
  }

  /** Counting under a weaker condition never gives less. */
  lemma {:induction false} CountMono<X>(s: seq<X>, p: X -> bool, q: X -> bool)
    requires forall k :: 0 <= k < |s| && p(s[k]) ==> q(s[k])
    ensures Count(s, p) <= Count(s, q)
  {
    if |s| > 0 {
      CountMono(s[1..], p, q);
    }
  }

  /** Every row satisfies `p` or its negation, never both. */
  lemma {:induction false} CountSplit<X>(s: seq<X>, p: X -> bool, notP: X -> bool)
    requires forall k :: 0 <= k < |s| ==> (notP(s[k]) <==> !p(s[k]))
    ensures Count(s, p) + Count(s, notP) == |s|
  {
    if |s| > 0 {
      CountSplit(s[1..], p, notP);
    }
  }

  /** Rows meeting one of two conditions that never hold together are counted by
      adding the two counts. */
  lemma {:induction false} CountDisjoint<X>(s: seq<X>, p: X -> bool, q: X -> bool, pOrQ: X -> bool)
    requires forall k :: 0 <= k < |s| ==> (pOrQ(s[k]) <==> p(s[k]) || q(s[k]))
    requires forall k :: 0 <= k < |s| ==> !(p(s[k]) && q(s[k]))
    ensures Count(s, pOrQ) == Count(s, p) + Count(s, q)
  {
    if |s| > 0 {
      CountDisjoint(s[1..], p, q, pOrQ);
    }
  }

  /** The longest prefix of `s` in which `stop` never holds. */
  function TakeUntil<X>(s: seq<X>, stop: X -> bool): (r: seq<X>)
    ensures |r| <= |s| && r == s[..|r|]
    ensures forall k :: 0 <= k < |r| ==> !stop(r[k])
    ensures |r| < |s| ==> stop(s[|r|])
  {
    if |s| == 0 then []
    else if stop(s[0]) then []
    else [s[0]] + TakeUntil(s[1..], stop)
  }

  lemma {:induction false} TakeUntilFirstStop<X>(body: seq<X>, x: X, rest: seq<X>, stop: X -> bool)
    requires forall k :: 0 <= k < |body| ==> !stop(body[k])
    requires stop(x)
    ensures TakeUntil(body + [x] + rest, stop) == body
  {
    if |body| > 0 {
      assert (body + [x] + rest)[1..] == body[1..] + [x] + rest;
      TakeUntilFirstStop(body[1..], x, rest, stop);
    }
  }

  /** When `stop` holds nowhere, nothing is cut. */
  lemma {:induction false} TakeUntilNoStop<X>(s: seq<X>, stop: X -> bool)
    requires forall k :: 0 <= k < |s| ==> !stop(s[k])
    ensures TakeUntil(s, stop) == s
  {
    if |s| > 0 {
      TakeUntilNoStop(s[1..], stop);
    }
  }

  /** A sequence that starts with `before + sec`, where `stop` first holds at `sec[k]`,
      is cut right before `sec[k]`. */
  lemma TakeUntilInside<X>(all: seq<X>, before: seq<X>, sec: seq<X>, k: nat, stop: X -> bool)
    requires |before| + |sec| <= |all| && all[..|before| + |sec|] == before + sec
    requires k < |sec| && stop(sec[k])
    requires forall j :: 0 <= j < |before| ==> !stop(before[j])
    requires forall j :: 0 <= j < k ==> !stop(sec[j])
    ensures TakeUntil(all, stop) == before + sec[..k]
    ensures |before| + k < |all|
  {
    var body := before + sec[..k];
    var rest := all[|body| + 1..];
    assert all == body + [sec[k]] + rest by {
      forall j | 0 <= j < |all|
        ensures all[j] == (body + [sec[k]] + rest)[j]
      {
        if j <= |body| {
          assert all[j] == (before + sec)[j];
        }
      }
    }
    forall j | 0 <= j < |body|
      ensures !stop(body[j])
    {
      if j >= |before| {
        assert body[j] == sec[j - |before|];
      }
    }
    TakeUntilFirstStop(body, sec[k], rest, stop);
  }
}
