/** `InitialisationExpressionTranslator` helpers: the text of the constructor
    call and the layout of the initialiser entries after it. */
module Initialisation {
  import opened Wrappers
  import opened Text

  /** Up to this many characters of constructor text and entries (each entry
      counted with two characters of separator) are written on one line. */
  const InlineLimit: nat := 40

  /** `Substring` with a negative length throws. */
  datatype InitError = ArgumentOutOfRange

  /** The length the layout rule counts: the constructor text plus every
      entry with two characters of separator, each in UTF-16 code units as
      .NET's `string.Length` counts them. */
  function Cost(newExpression: string, initialisations: seq<string>): nat {
    Utf16Length(newExpression) + SeparatedLength(initialisations)
  }

  /** Sum of `init.Length + 2` over the entries. */
  function SeparatedLength(initialisations: seq<string>): nat
    decreases |initialisations|
  {
    if |initialisations| == 0 then 0
    else Utf16Length(initialisations[0]) + 2 + SeparatedLength(initialisations[1..])
  }

  predicate FitsInline(newExpression: string, initialisations: seq<string>) {
    Cost(newExpression, initialisations) <= InlineLimit
  }

  /** Reference layout of the multi-line form, line by line: the constructor,
      an opening brace, each entry indented four spaces with a comma after all
      but the last, and a closing brace. */
  ghost function MultiLineLines(newExpression: string, initialisations: seq<string>): (ls: seq<string>)
    requires |initialisations| > 0
    ensures |ls| == |initialisations| + 3
  {
    [newExpression, "{"]
      + seq(|initialisations|, i requires 0 <= i < |initialisations| =>
          "    " + initialisations[i] + (if i < |initialisations| - 1 then "," else ""))
      + ["}"]
  }

  /** `InitExpressionHelperBase.Translate`, after the constructor text is
      known: within the limit (40 included) the entries go on one line between
      braces, separated by `, `; otherwise every entry is on its own line. With
      no entries the multi-line form keeps an empty line between the braces. */
  function Layout(newExpression: string, initialisations: seq<string>): (r: string)
    ensures FitsInline(newExpression, initialisations) ==>
      r == newExpression + " { " + Join(initialisations, ", ") + " }"
    ensures !FitsInline(newExpression, initialisations) && |initialisations| > 0 ==>
      r == Join(MultiLineLines(newExpression, initialisations), NewLine)
    ensures !FitsInline(newExpression, initialisations) && |initialisations| == 0 ==>
      r == newExpression + NewLine + "{" + NewLine + NewLine + "}"
  {
    var indented := seq(|initialisations|, i requires 0 <= i < |initialisations| => "    " + initialisations[i]);
    if Cost(newExpression, initialisations) <= InlineLimit then
      newExpression + " { " + Join(initialisations, ", ") + " }"
    else
      var r := newExpression + NewLine + "{" + NewLine + Join(indented, "," + NewLine) + NewLine + "}";
      if |initialisations| > 0 then
        MultiLineMatchesLines(newExpression, initialisations);
        r
      else
        r
  }

  /** Joining with `,` and a line break is joining with a line break after
      putting a comma on every entry but the last. */
  lemma {:induction false} JoinCommaLines(entries: seq<string>)
    requires |entries| > 0
    ensures Join(entries, "," + NewLine)
         == Join(seq(|entries|, i requires 0 <= i < |entries| =>
                   entries[i] + (if i < |entries| - 1 then "," else "")), NewLine)
    decreases |entries|
  {
    var marked := seq(|entries|, i requires 0 <= i < |entries| =>
                    entries[i] + (if i < |entries| - 1 then "," else ""));
    if |entries| > 1 {
      var rest := entries[1..];
      JoinCommaLines(rest);
      var markedRest := seq(|rest|, i requires 0 <= i < |rest| =>
                          rest[i] + (if i < |rest| - 1 then "," else ""));
      assert marked[1..] == markedRest;
      assert marked[0] == entries[0] + ",";
    }
  }

  lemma MultiLineMatchesLines(newExpression: string, initialisations: seq<string>)
    requires |initialisations| > 0
    ensures var indented := seq(|initialisations|, i requires 0 <= i < |initialisations| => "    " + initialisations[i]);
      newExpression + NewLine + "{" + NewLine + Join(indented, "," + NewLine) + NewLine + "}"
      == Join(MultiLineLines(newExpression, initialisations), NewLine)
  {
    var n := |initialisations|;
    var indented := seq(n, i requires 0 <= i < n => "    " + initialisations[i]);
    var marked := seq(n, i requires 0 <= i < n => indented[i] + (if i < n - 1 then "," else ""));
    JoinCommaLines(indented);
    var ls := MultiLineLines(newExpression, initialisations);
    assert ls == [newExpression, "{"] + marked + ["}"];
    JoinSnoc([newExpression, "{"] + marked, "}", NewLine);
    assert ([newExpression, "{"] + marked)[1..] == ["{"] + marked;
    assert (["{"] + marked)[1..] == marked;
  }

  /** Every entry adds its length plus two to the cost, wherever it goes. */
  lemma {:induction false} SeparatedLengthInsert(front: seq<string>, x: string, back: seq<string>)
    ensures SeparatedLength(front + [x] + back) == SeparatedLength(front + back) + Utf16Length(x) + 2
    decreases |front|
  {
    if |front| == 0 {
      assert front + [x] + back == [x] + back;
      assert ([x] + back)[1..] == back;
      assert front + back == back;
    } else {
      SeparatedLengthInsert(front[1..], x, back);
      assert (front + [x] + back)[1..] == front[1..] + [x] + back;
      assert (front + back)[1..] == front[1..] + back;
    }
  }

  /** Adding an entry never turns a multi-line layout into an inline one. */
  lemma AddingEntryKeepsMultiLine(newExpression: string, front: seq<string>, x: string, back: seq<string>)
    requires !FitsInline(newExpression, front + back)
    ensures !FitsInline(newExpression, front + [x] + back)
  {
    SeparatedLengthInsert(front, x, back);
  }

  /** The inline form is three code units longer than the cost it was judged
      by, so an inline layout of at least one entry is at most 43 code units
      long. */
  lemma InlineLength(newExpression: string, initialisations: seq<string>)
    requires |initialisations| > 0
    ensures Utf16Length(newExpression + " { " + Join(initialisations, ", ") + " }")
         == Cost(newExpression, initialisations) + 3
    ensures FitsInline(newExpression, initialisations) ==>
      Utf16Length(newExpression + " { " + Join(initialisations, ", ") + " }") <= InlineLimit + 3
  {
    var joined := Join(initialisations, ", ");
    JoinedLength(initialisations);
    Utf16LengthAppend(newExpression, " { ");
    Utf16LengthAppend(newExpression + " { ", joined);
    Utf16LengthAppend(newExpression + " { " + joined, " }");
    assert Utf16Length(" { ") == 3;
    assert Utf16Length(" }") == 2;
  }

  lemma {:induction false} JoinedLength(initialisations: seq<string>)
    requires |initialisations| > 0
    ensures Utf16Length(Join(initialisations, ", ")) + 2 == SeparatedLength(initialisations)
    decreases |initialisations|
  {
    if |initialisations| > 1 {
      var rest := initialisations[1..];
      JoinedLength(rest);
      Utf16LengthAppend(initialisations[0], ", ");
      Utf16LengthAppend(initialisations[0] + ", ", Join(rest, ", "));
      assert Utf16Length(", ") == 2;
    } else {
      assert SeparatedLength(initialisations[1..]) == 0;
    }
  }

  /** The last two UTF-16 code units of `s` are the low half of a surrogate
      pair and a character of its own: cutting them leaves half a pair. */
  predicate SplitsSurrogatePair(s: string) {
    |s| >= 2 && CodeUnits(s[|s| - 1]) == 1 && CodeUnits(s[|s| - 2]) == 2
  }

  /** `GetNewExpression`: a parameterless constructor loses its last two
      UTF-16 code units (the empty brackets); text shorter than two code units
      makes `Substring` throw. A constructor with parameters is used as it
      is. */
  function NewExpressionText(translated: string, parameterless: bool): (r: Result<string, InitError>)
    ensures r.Err? <==> parameterless && Utf16Length(translated) < 2
    ensures r.Ok? && parameterless ==> StartsWith(translated, r.value) && |r.value| < |translated|
    ensures r.Ok? && parameterless && !SplitsSurrogatePair(translated) ==>
      Utf16Length(r.value) + 2 == Utf16Length(translated)
    ensures !parameterless ==> r == Ok(translated)
  {
    if parameterless then
      if Utf16Length(translated) < 2 then Err(ArgumentOutOfRange)
      else
        var n := |translated|;
        Utf16LengthLast(translated);
        if CodeUnits(translated[n - 1]) == 2 then
          Ok(translated[..n - 1])
        else
          Utf16LengthLast(translated[..n - 1]);
          assert translated[..n - 1][..n - 2] == translated[..n - 2];
          Ok(translated[..n - 2])
    else
      Ok(translated)
  }

  /** A parameterless constructor rendered with empty brackets comes back
      without them. */
  lemma StripsEmptyBrackets(typeText: string)
    ensures NewExpressionText(typeText + "()", true) == Ok(typeText)
  {
    Utf16LengthAppend(typeText, "()");
    assert Utf16Length("()") == 2;
    assert (typeText + "()")[..|typeText|] == typeText;
  }

  lemma BracketsStripped(s: string)
    ensures EndsWith(s, "()") ==> NewExpressionText(s, true) == Ok(s[..|s| - 2])
  {
    if EndsWith(s, "()") {
      assert s == s[..|s| - 2] + "()";
      StripsEmptyBrackets(s[..|s| - 2]);
    }
  }

  /** The whole helper: the constructor text, stripped of its brackets when
      the constructor is parameterless, then laid out with the entries. */
  function Translate(translatedNew: string, parameterless: bool, initialisations: seq<string>)
    : (r: Result<string, InitError>)
    ensures r.Err? <==> parameterless && Utf16Length(translatedNew) < 2
    ensures parameterless && EndsWith(translatedNew, "()") ==>
      r == Ok(Layout(translatedNew[..|translatedNew| - 2], initialisations))
    ensures !parameterless ==> r == Ok(Layout(translatedNew, initialisations))
  {
    BracketsStripped(translatedNew);
    match NewExpressionText(translatedNew, parameterless)
    case Err(e) => Err(e)
    case Ok(newExpression) => Ok(Layout(newExpression, initialisations))
  }
}
