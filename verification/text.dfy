/** String operations of the .NET base library that the translators rely on:
    whitespace trimming, `string.Join` and `string.Replace`. */
module Text {
  import opened Wrappers

  /** `Environment.NewLine`, and the line breaks inside verbatim string
      literals, fixed to one constant. */
  const NewLine: string := "\n"

  /** `char.IsWhiteSpace`: the Unicode space separators, line and paragraph
      separators, and the control characters U+0009 to U+000D and U+0085. */
  predicate IsWhiteSpace(c: char) {
    || c == ' '
    || ('\t' <= c <= '\r')
    || c == '\U{85}'
    || c == '\U{A0}'
    || c == '\U{1680}'
    || ('\U{2000}' <= c <= '\U{200A}')
    || c == '\U{2028}'
    || c == '\U{2029}'
    || c == '\U{202F}'
    || c == '\U{205F}'
    || c == '\U{3000}'
  }

  predicate AllWhiteSpace(s: string) {
    forall i :: 0 <= i < |s| ==> IsWhiteSpace(s[i])
  }

  /** `string.TrimStart()`: drops the leading whitespace and nothing else. */
  function TrimStart(s: string): (r: string)
    ensures |r| <= |s| && r == s[|s| - |r|..]
    ensures AllWhiteSpace(s[..|s| - |r|])
    ensures |r| == 0 || !IsWhiteSpace(r[0])
  {
    if |s| > 0 && IsWhiteSpace(s[0]) then TrimStart(s[1..]) else s
  }

  /** `string.TrimEnd()`: drops the trailing whitespace and nothing else. */
  function TrimEnd(s: string): (r: string)
    ensures |r| <= |s| && r == s[..|r|]
    ensures AllWhiteSpace(s[|r|..])
    ensures |r| == 0 || !IsWhiteSpace(r[|r| - 1])
  {
    if |s| > 0 && IsWhiteSpace(s[|s| - 1]) then
      var init := s[..|s| - 1];
      var t := TrimEnd(init);
      assert init[..|t|] == s[..|t|];
      assert s[|t|..] == init[|t|..] + [s[|s| - 1]];
      t
    else s
  }

  /** `string.Trim()`. */
  function Trim(s: string): string {
    TrimEnd(TrimStart(s))
  }

  /** `string.Join(sep, parts)`. */
  function Join(parts: seq<string>, sep: string): string
    decreases |parts|
  {
    if |parts| == 0 then ""
    else if |parts| == 1 then parts[0]
    else parts[0] + sep + Join(parts[1..], sep)
  }

  /** Joining a longer list adds the separator and the new last part. */
  lemma {:induction false} JoinSnoc(parts: seq<string>, last: string, sep: string)
    requires |parts| > 0
    ensures Join(parts + [last], sep) == Join(parts, sep) + sep + last
    decreases |parts|
  {
    if |parts| == 1 {
      assert (parts + [last])[1..] == [last];
    } else {
      JoinSnoc(parts[1..], last, sep);
      assert (parts + [last])[1..] == parts[1..] + [last];
    }
  }

  /** Joining ends with the separator and the last part. */
  lemma JoinLast(parts: seq<string>, sep: string)
    requires |parts| > 1
    ensures Join(parts, sep) == Join(parts[..|parts| - 1], sep) + sep + parts[|parts| - 1]
  {
    assert parts == parts[..|parts| - 1] + [parts[|parts| - 1]];
    JoinSnoc(parts[..|parts| - 1], parts[|parts| - 1], sep);
  }

  /** Joining two non-empty lists puts one separator between them. */
  lemma {:induction false} JoinAppend(a: seq<string>, b: seq<string>, sep: string)
    requires |a| > 0 && |b| > 0
    ensures Join(a + b, sep) == Join(a, sep) + sep + Join(b, sep)
    decreases |a|
  {
    if |a| == 1 {
      assert (a + b)[1..] == b;
    } else {
      JoinAppend(a[1..], b, sep);
      assert (a + b)[1..] == a[1..] + b;
    }
  }

  /** The UTF-16 code units of one character: two (a surrogate pair) for a
      character outside the Basic Multilingual Plane, one otherwise. */
  function CodeUnits(c: char): nat {
    if c as int > 0xFFFF then 2 else 1
  }

  /** `string.Length`: .NET counts UTF-16 code units, not characters. */
  function Utf16Length(s: string): (n: nat)
    ensures |s| <= n <= 2 * |s|
    decreases |s|
  {
    if |s| == 0 then 0 else CodeUnits(s[0]) + Utf16Length(s[1..])
  }

  lemma {:induction false} Utf16LengthAppend(a: string, b: string)
    ensures Utf16Length(a + b) == Utf16Length(a) + Utf16Length(b)
    decreases |a|
  {
    if |a| > 0 {
      Utf16LengthAppend(a[1..], b);
      assert (a + b)[1..] == a[1..] + b;
    } else {
      assert a + b == b;
    }
  }

  predicate StartsWith(s: string, prefix: string) {
    |prefix| <= |s| && s[..|prefix|] == prefix
  }

  predicate EndsWith(s: string, suffix: string) {
    |suffix| <= |s| && s[|s| - |suffix|..] == suffix
  }

  /** The last character's code units come last. */
  lemma Utf16LengthLast(s: string)
    requires |s| > 0
    ensures Utf16Length(s) == Utf16Length(s[..|s| - 1]) + CodeUnits(s[|s| - 1])
  {
    var init, last := s[..|s| - 1], [s[|s| - 1]];
    assert init + last == s;
    Utf16LengthAppend(init, last);
    assert Utf16Length(last) == CodeUnits(last[0]) + Utf16Length(last[1..]);
    assert last[1..] == [];
  }

  /** `pat` occurs in `s` starting at index `i`. */
  predicate OccursAt(s: string, pat: string, i: int) {
    0 <= i && i + |pat| <= |s| && s[i..i + |pat|] == pat
  }

  ghost predicate Occurs(s: string, pat: string) {
    exists i | 0 <= i <= |s| :: OccursAt(s, pat, i)
  }

  /** `s.IndexOf(pat)` with ordinal comparison: the first position where
      `pat` occurs, or none. */
  function IndexOf(s: string, pat: string): (r: Option<nat>)
    ensures r.Some? ==> OccursAt(s, pat, r.value)
    ensures r.Some? ==> forall j :: 0 <= j < r.value ==> !OccursAt(s, pat, j)
    ensures r.None? <==> !Occurs(s, pat)
  {
    IndexOfFrom(s, pat, 0)
  }

  /** The search from position `from` on, every earlier position ruled out. */
  function IndexOfFrom(s: string, pat: string, from: nat): (r: Option<nat>)
    requires from <= |s| + 1
    requires forall j :: 0 <= j < from ==> !OccursAt(s, pat, j)
    ensures r.Some? ==> from <= r.value && OccursAt(s, pat, r.value)
    ensures r.Some? ==> forall j :: 0 <= j < r.value ==> !OccursAt(s, pat, j)
    ensures r.None? <==> forall j :: 0 <= j <= |s| ==> !OccursAt(s, pat, j)
    decreases |s| + 1 - from
  {
    if from > |s| then None
    else if OccursAt(s, pat, from) then Some(from)
    else IndexOfFrom(s, pat, from + 1)
  }

  /** `s.Replace(pat, rep)`: scans left to right and replaces every
      non-overlapping occurrence of `pat`; .NET refuses an empty `pat`. */
  function Replace(s: string, pat: string, rep: string): string
    requires |pat| > 0
    decreases |s|
  {
    if |s| < |pat| then s
    else if s[..|pat|] == pat then rep + Replace(s[|pat|..], pat, rep)
    else [s[0]] + Replace(s[1..], pat, rep)
  }

  /** The pieces between the occurrences that `Replace` finds, in order. */
  ghost function Split(s: string, pat: string): (pieces: seq<string>)
    requires |pat| > 0
    ensures |pieces| >= 1
    decreases |s|
  {
    if |s| < |pat| then [s]
    else if s[..|pat|] == pat then [""] + Split(s[|pat|..], pat)
    else
      var rest := Split(s[1..], pat);
      [[s[0]] + rest[0]] + rest[1..]
  }

  /** An occurrence inside a prefix is an occurrence in the whole text. */
  lemma OccursInPrefix(s: string, n: nat, pat: string, i: int)
    requires n <= |s|
    ensures OccursAt(s[..n], pat, i) ==> OccursAt(s, pat, i)
  {
    if OccursAt(s[..n], pat, i) {
      assert s[..n][i..i + |pat|] == s[i..i + |pat|];
    }
  }

  lemma JoinConsHead(c: char, x: string, tail: seq<string>, sep: string)
    ensures Join([[c] + x] + tail, sep) == [c] + Join([x] + tail, sep)
  {
    if |tail| == 0 {
    } else {
      assert ([[c] + x] + tail)[1..] == tail;
      assert ([x] + tail)[1..] == tail;
    }
  }

  /** The first piece is the text before the first occurrence; when there is
      an occurrence, it follows that piece immediately. */
  lemma SplitHead(s: string, pat: string)
    requires |pat| > 0
    ensures var ps := Split(s, pat);
      && |ps[0]| <= |s| && s[..|ps[0]|] == ps[0]
      && (|ps| > 1 ==> OccursAt(s, pat, |ps[0]|))
      && (forall i :: 0 <= i < |ps[0]| ==> !OccursAt(s, pat, i))
  {
    SplitHeadIsPrefix(s, pat);
    SplitHeadMeetsOccurrence(s, pat);
    SplitHeadHoldsNone(s, pat);
  }

  lemma {:induction false} SplitHeadIsPrefix(s: string, pat: string)
    requires |pat| > 0
    ensures var ps := Split(s, pat); |ps[0]| <= |s| && s[..|ps[0]|] == ps[0]
    decreases |s|
  {
    if |s| >= |pat| && s[..|pat|] != pat {
      var rest := Split(s[1..], pat);
      SplitHeadIsPrefix(s[1..], pat);
      assert Split(s, pat)[0] == [s[0]] + rest[0];
      assert s[..|rest[0]| + 1] == [s[0]] + s[1..][..|rest[0]|];
    }
  }

  lemma {:induction false} SplitHeadMeetsOccurrence(s: string, pat: string)
    requires |pat| > 0
    ensures var ps := Split(s, pat); |ps| > 1 ==> |ps[0]| <= |s| && OccursAt(s, pat, |ps[0]|)
    decreases |s|
  {
    if |s| >= |pat| && s[..|pat|] != pat {
      var rest := Split(s[1..], pat);
      SplitHeadMeetsOccurrence(s[1..], pat);
      var ps := Split(s, pat);
      assert ps == [[s[0]] + rest[0]] + rest[1..];
      if |ps| > 1 {
        var n := |rest[0]|;
        assert OccursAt(s[1..], pat, n);
        assert s[1..][n..n + |pat|] == s[n + 1..n + 1 + |pat|];
      }
    } else if |s| >= |pat| {
      assert s[0..|pat|] == s[..|pat|];
    }
  }

  lemma {:induction false} SplitHeadHoldsNone(s: string, pat: string)
    requires |pat| > 0
    ensures var ps := Split(s, pat); forall i :: 0 <= i < |ps[0]| ==> !OccursAt(s, pat, i)
    decreases |s|
  {
    if |s| >= |pat| && s[..|pat|] != pat {
      var rest := Split(s[1..], pat);
      SplitHeadHoldsNone(s[1..], pat);
      SplitHeadIsPrefix(s[1..], pat);
      assert Split(s, pat)[0] == [s[0]] + rest[0];
      NoOccurrenceShift(s, pat, |rest[0]|);
    }
  }

  /** With no occurrence at the start, the first `n + 1` positions of `s`
      hold none when the first `n` positions of `s[1..]` hold none. */
  lemma NoOccurrenceShift(s: string, pat: string, n: nat)
    requires |s| >= |pat| && s[..|pat|] != pat && n < |s|
    requires forall i :: 0 <= i < n ==> !OccursAt(s[1..], pat, i)
    ensures forall i :: 0 <= i < n + 1 ==> !OccursAt(s, pat, i)
  {
    forall i | 0 <= i < n + 1
      ensures !OccursAt(s, pat, i)
    {
      if i == 0 {
        assert s[0..|pat|] == s[..|pat|];
      } else if i + |pat| <= |s| {
        assert s[i..i + |pat|] == s[1..][i - 1..i - 1 + |pat|];
        assert OccursAt(s, pat, i) == OccursAt(s[1..], pat, i - 1);
      }
    }
  }

  /** Joining the pieces with `sep` puts `sep` exactly where `Replace`
      found an occurrence. */
  lemma {:induction false} SplitJoin(s: string, pat: string, sep: string)
    requires |pat| > 0
    ensures Join(Split(s, pat), sep) == Replace(s, pat, sep)
    decreases |s|
  {
    if |s| < |pat| {
    } else if s[..|pat|] == pat {
      var rest := Split(s[|pat|..], pat);
      SplitJoin(s[|pat|..], pat, sep);
      assert Split(s, pat) == [""] + rest;
      assert ([""] + rest)[1..] == rest;
      assert Join([""] + rest, sep) == "" + sep + Join(rest, sep);
      assert Replace(s, pat, sep) == sep + Replace(s[|pat|..], pat, sep);
    } else {
      var rest := Split(s[1..], pat);
      SplitJoin(s[1..], pat, sep);
      assert Split(s, pat) == [[s[0]] + rest[0]] + rest[1..];
      assert rest == [rest[0]] + rest[1..];
      JoinConsHead(s[0], rest[0], rest[1..], sep);
      assert Replace(s, pat, sep) == [s[0]] + Replace(s[1..], pat, sep);
    }
  }

  /** Replacing `pat` by itself changes nothing. */
  lemma {:induction false} ReplaceBySelf(s: string, pat: string)
    requires |pat| > 0
    ensures Replace(s, pat, pat) == s
    decreases |s|
  {
    if |s| < |pat| {
    } else if s[..|pat|] == pat {
      ReplaceBySelf(s[|pat|..], pat);
      assert s == pat + s[|pat|..];
    } else {
      ReplaceBySelf(s[1..], pat);
      assert s == [s[0]] + s[1..];
    }
  }

  /** No piece still contains `pat`. */
  lemma {:induction false} SplitPiecesFree(s: string, pat: string)
    requires |pat| > 0
    ensures forall k :: 0 <= k < |Split(s, pat)| ==> !Occurs(Split(s, pat)[k], pat)
    decreases |s|
  {
    var ps := Split(s, pat);
    if |s| < |pat| {
    } else if s[..|pat|] == pat {
      SplitPiecesFree(s[|pat|..], pat);
      var rest := Split(s[|pat|..], pat);
      assert ps == [""] + rest;
      assert forall k :: 1 <= k < |ps| ==> ps[k] == rest[k - 1];
    } else {
      var rest := Split(s[1..], pat);
      SplitPiecesFree(s[1..], pat);
      SplitHead(s, pat);
      assert ps == [[s[0]] + rest[0]] + rest[1..];
      assert forall k :: 1 <= k < |ps| ==> ps[k] == rest[k];
      forall i | 0 <= i <= |ps[0]|
        ensures OccursAt(ps[0], pat, i) ==> OccursAt(s, pat, i)
      {
        OccursInPrefix(s, |ps[0]|, pat, i);
      }
    }
  }

  /** The pieces, joined back with `pat`, give the original text; joined with
      `rep`, they give the result of `Replace`; and no piece still contains
      `pat`. So `Replace` rewrites every occurrence and changes nothing else. */
  lemma ReplaceRewritesEveryOccurrence(s: string, pat: string, rep: string)
    requires |pat| > 0
    ensures Join(Split(s, pat), pat) == s
    ensures Join(Split(s, pat), rep) == Replace(s, pat, rep)
    ensures forall k :: 0 <= k < |Split(s, pat)| ==> !Occurs(Split(s, pat)[k], pat)
  {
    SplitJoin(s, pat, pat);
    ReplaceBySelf(s, pat);
    SplitJoin(s, pat, rep);
    SplitPiecesFree(s, pat);
  }

  /** A final character that cannot end an occurrence of `pat` survives the
      rewrite. */
  lemma {:induction false} ReplaceKeepsLastChar(s: string, pat: string, rep: string)
    requires |pat| > 0 && |s| > 0
    requires s[|s| - 1] != pat[|pat| - 1]
    ensures var r := Replace(s, pat, rep); |r| > 0 && r[|r| - 1] == s[|s| - 1]
    decreases |s|
  {
    if |s| < |pat| {
    } else if s[..|pat|] == pat {
      if |s| > |pat| {
        ReplaceKeepsLastChar(s[|pat|..], pat, rep);
      }
    } else if |s| > 1 {
      ReplaceKeepsLastChar(s[1..], pat, rep);
    }
  }

  /** Trailing whitespace added to text already free of it is trimmed away. */
  lemma TrimEndDropsAddedWhiteSpace(s: string, w: string)
    requires |s| > 0 && !IsWhiteSpace(s[|s| - 1])
    requires AllWhiteSpace(w)
    ensures TrimEnd(s + w) == s
  {
    assert (s + w)[|s| - 1] == s[|s| - 1];
  }

  /** Leading whitespace before a non-blank character is exactly what
      `TrimStart` removes. */
  lemma TrimStartDropsAddedWhiteSpace(w: string, s: string)
    requires AllWhiteSpace(w)
    requires |s| > 0 && !IsWhiteSpace(s[0])
    ensures TrimStart(w + s) == s
  {
    assert (w + s)[|w|] == s[0];
  }
}
