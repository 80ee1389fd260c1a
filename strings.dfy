/** The handful of Python `str` operations the tool relies on: `strip`, `split()`,
    `" ".join`, `lower`/`upper`, `replace` and character filters. */
module Strings {

  /** Python's `str.isspace()`, the set `strip()` and `split()` work with. */
  predicate IsSpace(c: char)
  {
    || c == ' ' || ('\t' <= c <= '\r') || ('\U{1C}' <= c <= '\U{1F}')
    || c == '\U{85}' || c == '\U{A0}' || c == '\U{1680}'
    || ('\U{2000}' <= c <= '\U{200A}') || c == '\U{2028}' || c == '\U{2029}'
    || c == '\U{202F}' || c == '\U{205F}' || c == '\U{3000}'
  }

  /** "" or a string that neither starts nor ends with whitespace. */
  predicate Trimmed(s: string)
  {
    s == [] || (!IsSpace(s[0]) && !IsSpace(s[|s| - 1]))
  }

  /** `s.lstrip()`: the suffix left after dropping leading whitespace. */
  function TrimLeft(s: string): (r: string)
    ensures |r| <= |s| && r == s[|s| - |r|..]
    ensures r == [] || !IsSpace(r[0])
    ensures forall i :: 0 <= i < |s| - |r| ==> IsSpace(s[i])
  {
    if |s| > 0 && IsSpace(s[0]) then TrimLeft(s[1..]) else s
  }

  /** `s.rstrip()`: the prefix left after dropping trailing whitespace. */
  function TrimRight(s: string): (r: string)
    ensures |r| <= |s| && r == s[..|r|]
    ensures r == [] || !IsSpace(r[|r| - 1])
    ensures forall i :: |r| <= i < |s| ==> IsSpace(s[i])
  {
    if |s| > 0 && IsSpace(s[|s| - 1]) then TrimRight(s[..|s| - 1]) else s
  }

  /** A slice `s[i..j]` whose cut-off ends are whitespace. */
  predicate SpaceCut(s: string, i: int, j: int)
  {
    && 0 <= i <= j <= |s|
    && (forall k :: 0 <= k < i ==> IsSpace(s[k]))
    && (forall k :: j <= k < |s| ==> IsSpace(s[k]))
  }

  /** `r` is a slice of `s` with only whitespace cut from either end. */
  ghost predicate SpaceCutTo(s: string, r: string)
  {
    exists i, j :: SpaceCut(s, i, j) && r == s[i..j]
  }

  /** `s.strip()`: a trimmed string no longer than `s`; StripIsSlice shows it is the
      slice of `s` left by cutting whitespace from either end. */
  function Strip(s: string): (r: string)
    ensures Trimmed(r)
    ensures |r| <= |s|
  {
    TrimRight(TrimLeft(s))
  }

  /** `strip()` cuts only whitespace, and only from the two ends. */
  lemma StripIsSlice(s: string)
    ensures SpaceCutTo(s, Strip(s))
  {
    SpaceTrimsCut(s, TrimLeft(s), TrimRight(TrimLeft(s)));
  }

  /** The right trim of the left trim is a slice `SpaceCut` describes. */
  lemma SpaceTrimsCut(s: string, left: string, r: string)
    requires |left| <= |s| && left == s[|s| - |left|..]
    requires forall k :: 0 <= k < |s| - |left| ==> IsSpace(s[k])
    requires |r| <= |left| && r == left[..|r|]
    requires forall k :: |r| <= k < |left| ==> IsSpace(left[k])
    ensures SpaceCutTo(s, r)
  {
    var i := |s| - |left|;
    var j := i + |r|;
    assert r == s[i..j];
    forall k | j <= k < |s|
      ensures IsSpace(s[k])
    {
      assert s[k] == left[k - i];
    }
    assert SpaceCut(s, i, j);
  }

  /** `strip()` only removes characters: one the input lacks, the result lacks too. */
  lemma StripKeepsAbsent(s: string, c: char)
    requires c !in s
    ensures c !in Strip(s)
  {
    var t := TrimLeft(s);
    assert forall x :: x in t ==> x in s;
  }

  /** A string that is already trimmed is left alone by `strip()`. */
  lemma StripTrimmed(s: string)
    requires Trimmed(s)
    ensures Strip(s) == s
  {
  }

  /** `strip()` is idempotent. */
  lemma StripIdempotent(s: string)
    ensures Strip(Strip(s)) == Strip(s)
  {
    StripTrimmed(Strip(s));
  }

  /** Python's `str.lower()` on ASCII letters; other characters are left alone. */
  function LowerChar(c: char): char
  {
    if 'A' <= c <= 'Z' then (c as int + 32) as char else c
  }

  function Lower(s: string): (r: string)
    ensures |r| == |s|
    ensures forall i :: 0 <= i < |r| ==> !('A' <= r[i] <= 'Z')
    ensures forall i :: 0 <= i < |s| && !('A' <= s[i] <= 'Z') ==> r[i] == s[i]
    ensures forall i :: 0 <= i < |s| && 'A' <= s[i] <= 'Z' ==> r[i] == (s[i] as int + 32) as char
  {
    seq(|s|, i requires 0 <= i < |s| => LowerChar(s[i]))
  }

  /** A string without upper-case letters is its own lower-case form. */
  lemma LowerOfLowercase(s: string)
    requires forall k :: 0 <= k < |s| ==> !('A' <= s[k] <= 'Z')
    ensures Lower(s) == s
  {
  }

  /** Python's `str.upper()` on ASCII letters; other characters are left alone. */
  function UpperChar(c: char): char
  {
    if 'a' <= c <= 'z' then (c as int - 32) as char else c
  }

  function Upper(s: string): (r: string)
    ensures |r| == |s|
    ensures forall i :: 0 <= i < |r| ==> !('a' <= r[i] <= 'z')
    ensures forall i :: 0 <= i < |s| && !('a' <= s[i] <= 'z') ==> r[i] == s[i]
    ensures forall i :: 0 <= i < |s| && 'a' <= s[i] <= 'z' ==> r[i] == (s[i] as int - 32) as char
  {
    seq(|s|, i requires 0 <= i < |s| => UpperChar(s[i]))
  }

  /** A piece of `split()` output: non-empty and free of whitespace. */
  predicate IsWord(w: string)
  {
    |w| > 0 && forall i :: 0 <= i < |w| ==> !IsSpace(w[i])
  }

  /** Length of the leading run of non-whitespace characters. */
  function WordLen(s: string): (n: nat)
    ensures n <= |s|
    ensures forall i :: 0 <= i < n ==> !IsSpace(s[i])
    ensures n == |s| || IsSpace(s[n])
  {
    if |s| == 0 || IsSpace(s[0]) then 0 else 1 + WordLen(s[1..])
  }

  /** `s.split()` with no argument: the maximal runs of non-whitespace, in order. */
  function Words(s: string): (ws: seq<string>)
    decreases |s|
  {
    if |s| == 0 then []
    else if IsSpace(s[0]) then Words(s[1..])
    else
      var n := WordLen(s);
      [s[..n]] + Words(s[n..])
  }

  /** `" ".join(ws)`. */
  function Join(ws: seq<string>): string
  {
    if |ws| == 0 then ""
    else if |ws| == 1 then ws[0]
    else ws[0] + " " + Join(ws[1..])
  }

  lemma {:induction false} WordsAreWords(s: string)
    ensures forall k :: 0 <= k < |Words(s)| ==> IsWord(Words(s)[k])
    decreases |s|
  {
    if |s| == 0 {
    } else if IsSpace(s[0]) {
      WordsAreWords(s[1..]);
    } else {
      WordsAreWords(s[WordLen(s)..]);
    }
  }

  lemma {:induction false} WordLenOfWord(w: string, rest: string)
    requires IsWord(w)
    requires rest == [] || IsSpace(rest[0])
    ensures WordLen(w + rest) == |w|
    decreases |w|
  {
    if |w| > 1 {
      assert (w + rest)[1..] == w[1..] + rest;
      WordLenOfWord(w[1..], rest);
    } else {
      assert (w + rest)[1..] == rest;
    }
  }

  lemma WordsAfterWord(w: string, rest: string)
    requires IsWord(w)
    requires rest == [] || IsSpace(rest[0])
    ensures Words(w + rest) == [w] + Words(rest)
  {
    WordLenOfWord(w, rest);
    assert (w + rest)[..|w|] == w;
    assert (w + rest)[|w|..] == rest;
  }

  /** Splitting a space-joined list of words gives the words back. */
  lemma {:induction false} WordsOfJoin(ws: seq<string>)
    requires forall k :: 0 <= k < |ws| ==> IsWord(ws[k])
    ensures Words(Join(ws)) == ws
  {
    if |ws| == 0 {
    } else if |ws| == 1 {
      WordsAfterWord(ws[0], "");
      assert ws[0] + "" == ws[0];
    } else {
      var j := Join(ws[1..]);
      WordsOfJoin(ws[1..]);
      assert ws[0] + " " + j == ws[0] + (" " + j);
      WordsAfterWord(ws[0], " " + j);
      assert (" " + j)[1..] == j;
    }
  }

  /** No character is whitespace except a single ' ' between two words. */
  predicate SingleSpaced(r: string)
  {
    && Trimmed(r)
    && (forall i :: 0 <= i < |r| && IsSpace(r[i]) ==> r[i] == ' ')
    && (forall i :: 0 <= i < |r| - 1 ==> !IsSpace(r[i]) || !IsSpace(r[i + 1]))
  }

  /** Joining words with single spaces gives a single-spaced string. */
  lemma {:induction false} JoinSingleSpaced(ws: seq<string>)
    requires forall k :: 0 <= k < |ws| ==> IsWord(ws[k])
    ensures SingleSpaced(Join(ws))
    ensures |ws| > 0 ==> |Join(ws)| > 0
  {
    if |ws| >= 2 {
      var w, j := ws[0], Join(ws[1..]);
      JoinSingleSpaced(ws[1..]);
      var r := Join(ws);
      assert r == w + " " + j;
      assert |r| == |w| + 1 + |j|;
      forall i | 0 <= i < |r|
        ensures i < |w| ==> r[i] == w[i]
        ensures i == |w| ==> r[i] == ' '
        ensures i > |w| ==> r[i] == j[i - |w| - 1]
      {
      }
    }
  }

  /** `" ".join(s.split())` never contains characters the input lacks. */
  lemma {:induction false} WordsChars(s: string, c: char)
    requires c !in s
    ensures forall k :: 0 <= k < |Words(s)| ==> c !in Words(s)[k]
    decreases |s|
  {
    if |s| == 0 {
    } else if IsSpace(s[0]) {
      WordsChars(s[1..], c);
    } else {
      var n := WordLen(s);
      assert forall x :: x in s[..n] ==> x in s;
      WordsChars(s[n..], c);
    }
  }

  /** Every character of a join is a space or a character of one of the words. */
  lemma {:induction false} JoinChars(ws: seq<string>, c: char)
    requires c != ' '
    requires forall k :: 0 <= k < |ws| ==> c !in ws[k]
    ensures c !in Join(ws)
  {
    if |ws| >= 2 {
      JoinChars(ws[1..], c);
    }
  }

  /** `s.lstrip(chars)` for an explicit character set: the prefix dropped is made of
      characters of `cs`, and what is kept does not start with one. */
  function TrimLeftSet(s: string, cs: set<char>): (r: string)
    ensures |r| <= |s| && r == s[|s| - |r|..]
    ensures forall i :: 0 <= i < |s| - |r| ==> s[i] in cs
    ensures r == [] || r[0] !in cs
  {
    if |s| > 0 && s[0] in cs then
      var r := TrimLeftSet(s[1..], cs);
      assert forall i :: 1 <= i < |s| - |r| ==> s[i] == s[1..][i - 1];
      r
    else s
  }

  /** `s.rstrip(chars)`: the suffix dropped is made of characters of `cs`, and what is
      kept does not end with one. */
  function TrimRightSet(s: string, cs: set<char>): (r: string)
    ensures |r| <= |s| && r == s[..|r|]
    ensures forall i :: |r| <= i < |s| ==> s[i] in cs
    ensures r == [] || r[|r| - 1] !in cs
  {
    if |s| > 0 && s[|s| - 1] in cs then
      var r := TrimRightSet(s[..|s| - 1], cs);
      assert forall i :: |r| <= i < |s| - 1 ==> s[i] == s[..|s| - 1][i];
      r
    else s
  }

  /** A slice of `s` whose cut-off ends are made of characters of `cs`. */
  predicate StripsTo(s: string, cs: set<char>, i: int, j: int)
  {
    && 0 <= i <= j <= |s|
    && (forall k :: 0 <= k < i ==> s[k] in cs)
    && (forall k :: j <= k < |s| ==> s[k] in cs)
  }

  /** `s.strip(chars)`: a slice of `s` whose two cut-off ends are made of characters of
      `cs` and which neither starts nor ends with one. */
  function StripSet(s: string, cs: set<char>): (r: string)
    ensures exists i, j :: StripsTo(s, cs, i, j) && r == s[i..j]
    ensures r == [] || (r[0] !in cs && r[|r| - 1] !in cs)
  {
    var left := TrimLeftSet(s, cs);
    var r := TrimRightSet(left, cs);
    StripOfTrims(s, cs, left, r);
    r
  }

  /** The right trim of the left trim is a slice `StripsTo` describes. */
  lemma StripOfTrims(s: string, cs: set<char>, left: string, r: string)
    requires |left| <= |s| && left == s[|s| - |left|..]
    requires forall k :: 0 <= k < |s| - |left| ==> s[k] in cs
    requires |r| <= |left| && r == left[..|r|]
    requires forall k :: |r| <= k < |left| ==> left[k] in cs
    ensures exists i, j :: StripsTo(s, cs, i, j) && r == s[i..j]
  {
    var i := |s| - |left|;
    var j := i + |r|;
    assert r == s[i..j];
    forall k | j <= k < |s|
      ensures s[k] in cs
    {
      assert s[k] == left[k - i];
    }
    assert StripsTo(s, cs, i, j);
  }

  /** Two slices `StripsTo` describes that neither start nor end with a character of
      `cs` are the same slice. */
  lemma SliceUnique(s: string, cs: set<char>, i: int, j: int, i': int, j': int)
    requires StripsTo(s, cs, i, j) && StripsTo(s, cs, i', j')
    requires i == j || (s[i] !in cs && s[j - 1] !in cs)
    requires i' == j' || (s[i'] !in cs && s[j' - 1] !in cs)
    ensures s[i..j] == s[i'..j']
  {
    // Each position outside one slice but inside the other is a character of `cs`.
    assert i < i' ==> s[i] in cs;
    assert i' < i ==> s[i'] in cs;
    assert j < j' ==> s[j' - 1] in cs;
    assert j' < j ==> s[j - 1] in cs;
  }

  /** The cut-off ends of `strip(chars)` are as long as they can be: `StripSet` is the
      only slice its contract admits. */
  lemma StripSetUnique(s: string, cs: set<char>, i: nat, j: nat)
    requires StripsTo(s, cs, i, j)
    requires i == j || (s[i] !in cs && s[j - 1] !in cs)
    ensures StripSet(s, cs) == s[i..j]
  {
    var r := StripSet(s, cs);
    var i', j' :| StripsTo(s, cs, i', j') && r == s[i'..j'];
    SliceEnds(s, cs, i', j', r);
    SliceUnique(s, cs, i, j, i', j');
  }

  /** A slice whose own ends are outside `cs` starts and ends outside `cs` in `s`. */
  lemma SliceEnds(s: string, cs: set<char>, i: int, j: int, r: string)
    requires StripsTo(s, cs, i, j) && r == s[i..j]
    requires r == [] || (r[0] !in cs && r[|r| - 1] !in cs)
    ensures i == j || (s[i] !in cs && s[j - 1] !in cs)
  {
    assert i < j ==> r[0] == s[i] && r[|r| - 1] == s[j - 1];
  }

  /** A blank string has no words. */
  lemma {:induction false} WordsOfBlank(s: string)
    requires forall k :: 0 <= k < |s| ==> IsSpace(s[k])
    ensures Words(s) == []
    decreases |s|
  {
    if |s| > 0 {
      WordsOfBlank(s[1..]);
    }
  }

  /** `f"{a} - {b}".strip(" -")`, the way both renderers join a pair of header fields:
      the joined text with the spaces and dashes at both ends cut off. */
  function DashJoin(a: string, b: string): (r: string)
    ensures exists i, j :: StripsTo(a + " - " + b, {' ', '-'}, i, j) && r == (a + " - " + b)[i..j]
    ensures r == [] || (r[0] != ' ' && r[0] != '-' && r[|r| - 1] != ' ' && r[|r| - 1] != '-')
  {
    StripSet(a + " - " + b, {' ', '-'})
  }

  /** Two empty fields give an empty header line. */
  lemma DashJoinEmpty()
    ensures DashJoin("", "") == ""
  {
    assert "" + " - " + "" == " - ";
    assert TrimLeftSet(" - ", {' ', '-'}) == "";
  }

  /** A field that does not start or end with a space or a dash. */
  predicate Plain(a: string)
  {
    |a| > 0 && a[0] != ' ' && a[0] != '-' && a[|a| - 1] != ' ' && a[|a| - 1] != '-'
  }

  /** Fields that do not start or end with a space or a dash are joined unchanged. */
  lemma DashJoinPlain(a: string, b: string)
    requires |a| > 0 && a[0] != ' ' && a[0] != '-'
    requires |b| > 0 && b[|b| - 1] != ' ' && b[|b| - 1] != '-'
    ensures DashJoin(a, b) == a + " - " + b
  {
    var s := a + " - " + b;
    assert s[0] == a[0] && s[|s| - 1] == b[|b| - 1];
    assert StripsTo(s, {' ', '-'}, 0, |s|);
    StripSetUnique(s, {' ', '-'}, 0, |s|);
    assert s[0..|s|] == s;
  }

  /** With the second field empty, the separator is cut off and the first stays. */
  lemma DashJoinFirstOnly(a: string)
    requires Plain(a)
    ensures DashJoin(a, "") == a
  {
    var s := a + " - " + "";
    assert s[..|a|] == a;
    assert forall k :: |a| <= k < |s| ==> s[k] in {' ', '-'};
    assert StripsTo(s, {' ', '-'}, 0, |a|);
    StripSetUnique(s, {' ', '-'}, 0, |a|);
  }

  /** With the first field empty, the separator is cut off and the second stays. */
  lemma DashJoinSecondOnly(b: string)
    requires Plain(b)
    ensures DashJoin("", b) == b
  {
    var s := "" + " - " + b;
    assert s[3..] == b;
    assert s[3..|s|] == b;
    assert forall k :: 0 <= k < 3 ==> s[k] in {' ', '-'};
    assert StripsTo(s, {' ', '-'}, 3, |s|);
    StripSetUnique(s, {' ', '-'}, 3, |s|);
  }

  /** The joined header in each case of plain and empty fields. */
  lemma DashJoinCases(a: string, b: string)
    ensures a == "" && b == "" ==> DashJoin(a, b) == ""
    ensures Plain(a) && Plain(b) ==> DashJoin(a, b) == a + " - " + b
    ensures Plain(a) && b == "" ==> DashJoin(a, b) == a
    ensures a == "" && Plain(b) ==> DashJoin(a, b) == b
  {
    if a == "" {
      if b == "" {
        DashJoinEmpty();
      } else if Plain(b) {
        DashJoinSecondOnly(b);
      }
    } else if Plain(a) {
      if b == "" {
        DashJoinFirstOnly(a);
      } else if Plain(b) {
        DashJoinPlain(a, b);
      }
    }
  }

  /** `s.replace(a, b)` for single characters. */
  function ReplaceChar(s: string, a: char, b: char): (r: string)
    ensures |r| == |s|
    ensures forall i :: 0 <= i < |s| ==> r[i] == (if s[i] == a then b else s[i])
  {
    seq(|s|, i requires 0 <= i < |s| => if s[i] == a then b else s[i])
  }

  lemma ReplaceCharAppend(s: string, t: string, a: char, b: char)
    ensures ReplaceChar(s + t, a, b) == ReplaceChar(s, a, b) + ReplaceChar(t, a, b)
  {
  }

  lemma ReplaceCharAbsent(s: string, a: char, b: char)
    requires forall k :: 0 <= k < |s| ==> s[k] != a
    ensures ReplaceChar(s, a, b) == s
  {
  }

  /** `s.replace(c, "")` for a single character. */
  function RemoveChar(s: string, c: char): (r: string)
    ensures |r| <= |s|
    ensures forall x :: x in r <==> x in s && x != c
  {
    if |s| == 0 then ""
    else if s[0] == c then RemoveChar(s[1..], c)
    else [s[0]] + RemoveChar(s[1..], c)
  }

  /** `replace(c, "")` distributes over concatenation, so the kept characters stay in
      order. */
  lemma {:induction false} RemoveCharAppend(s: string, t: string, c: char)
    ensures RemoveChar(s + t, c) == RemoveChar(s, c) + RemoveChar(t, c)
  {
    if |s| > 0 {
      assert (s + t)[1..] == s[1..] + t;
      RemoveCharAppend(s[1..], t, c);
    } else {
      assert s + t == t;
    }
  }

  /** `ch.isalnum()` for ASCII letters and digits. */
  predicate IsAlnum(c: char)
  {
    ('a' <= c <= 'z') || ('A' <= c <= 'Z') || ('0' <= c <= '9')
  }
}
