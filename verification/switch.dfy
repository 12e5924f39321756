/** `SwitchExpressionTranslator`: renders a switch expression with one block
    per case and an optional default block last. */
module Switch {
  import opened Wrappers
  import opened Text
  import opened CodeBlocks
  import opened Expressions

  datatype SwitchCase = SwitchCase(testValues: seq<Expr>, body: Expr)

  datatype SwitchNode = SwitchNode(
    switchValue: Expr,
    cases: seq<SwitchCase>,
    defaultBody: Option<Expr>)

  /** The kinds this translator declares to the registry. */
  const NodeTypes: seq<ExpressionType> := [ExpressionType.Switch]

  const Break: string := "break;"

  /** A switch .NET can build: `Expression.SwitchCase` rejects a case with no
      test values. */
  predicate WellFormed(sw: SwitchNode) {
    forall i :: 0 <= i < |sw.cases| ==> |sw.cases[i].testValues| > 0
  }

  /** Reference layout of one case, line by line: each label indented once,
      then each body line indented twice, then an indented `break;` unless the
      body already leaves the switch. */
  ghost function CaseLines(body: CodeBlock, labels: seq<string>): (ls: seq<string>)
    ensures |ls| == |labels| + |body.lines| + (if body.hasReturn then 0 else 1)
    ensures forall i :: 0 <= i < |labels| ==> ls[i] == Indent + labels[i]
    ensures forall i :: 0 <= i < |body.lines| ==>
      ls[|labels| + i] == Indent + Indent + body.lines[i]
    ensures !body.hasReturn ==> ls[|ls| - 1] == Indent + Indent + Break
  {
    seq(|labels|, i requires 0 <= i < |labels| => Indent + labels[i])
      + seq(|body.lines|, i requires 0 <= i < |body.lines| => Indent + Indent + body.lines[i])
      + (if body.hasReturn then [] else [Indent + Indent + Break])
  }

  /** `GetCase`: `break;` is appended when the body has no return, the body is
      indented, the labels are inserted before it, the whole is indented again
      and rendered without braces. */
  function GetCase(bodyBlock: CodeBlock, labels: seq<string>): (r: string)
    ensures r == Join(CaseLines(bodyBlock, labels), NewLine)
  {
    var withBreak := if !bodyBlock.hasReturn then Append(bodyBlock, Break) else bodyBlock;
    var layout := Indented(Insert(Indented(withBreak), labels));
    CaseLayoutLines(bodyBlock, labels);
    WithoutCurlyBraces(layout)
  }

  lemma CaseLayoutLines(bodyBlock: CodeBlock, labels: seq<string>)
    ensures var withBreak := if !bodyBlock.hasReturn then Append(bodyBlock, Break) else bodyBlock;
      Indented(Insert(Indented(withBreak), labels)).lines == CaseLines(bodyBlock, labels)
  {
    var withBreak := if !bodyBlock.hasReturn then Append(bodyBlock, Break) else bodyBlock;
    var inner := Indented(withBreak);
    var outer := Indented(Insert(inner, labels));
    var expected := CaseLines(bodyBlock, labels);
    assert |outer.lines| == |expected|;
    forall i | 0 <= i < |expected|
      ensures outer.lines[i] == expected[i]
    {
      if i < |labels| {
      } else if i < |labels| + |bodyBlock.lines| {
        assert withBreak.lines[i - |labels|] == bodyBlock.lines[i - |labels|];
      } else {
        assert withBreak.lines[i - |labels|] == Break;
      }
    }
  }

  /** One `case v:` label per test value, in order. */
  function CaseLabels(c: SwitchCase, ctx: Context): (labels: seq<string>)
    ensures |labels| == |c.testValues|
    ensures forall i :: 0 <= i < |c.testValues| ==>
      labels[i] == "case " + ctx.translate(c.testValues[i]) + ":"
  {
    seq(|c.testValues|, i requires 0 <= i < |c.testValues| =>
      "case " + ctx.translate(c.testValues[i]) + ":")
  }

  /** A declared case. */
  function CaseText(c: SwitchCase, ctx: Context): string {
    GetCase(ctx.translateCodeBlock(c.body), CaseLabels(c, ctx))
  }

  /** `GetDefaultCase`: the default body under a `default:` label. */
  function DefaultCase(defaultBody: Expr, ctx: Context): (r: string)
    ensures r == Join(CaseLines(ctx.translateCodeBlock(defaultBody), ["default:"]), NewLine)
  {
    GetCase(ctx.translateCodeBlock(defaultBody), ["default:"])
  }

  /** The declared cases in their order, then `AppendDefaultCaseIfExists`:
      the default case last, and only when a default body exists. */
  function SwitchCases(sw: SwitchNode, ctx: Context): (r: seq<string>)
    ensures |r| == |sw.cases| + (if sw.defaultBody.Some? then 1 else 0)
    ensures forall i :: 0 <= i < |sw.cases| ==> r[i] == CaseText(sw.cases[i], ctx)
    ensures sw.defaultBody.Some? ==> r[|r| - 1] == DefaultCase(sw.defaultBody.value, ctx)
  {
    var declared := seq(|sw.cases|, i requires 0 <= i < |sw.cases| => CaseText(sw.cases[i], ctx));
    match sw.defaultBody
    case None => declared
    case Some(d) => declared + [DefaultCase(d, ctx)]
  }

  /** Reference layout of the cases, one line list per case: the declared
      cases in order, each under one `case v:` label per test value, then the
      default case under `default:` when a default body exists. */
  ghost function CaseBlocks(sw: SwitchNode, ctx: Context): (bs: seq<seq<string>>)
    ensures |bs| == |sw.cases| + (if sw.defaultBody.Some? then 1 else 0)
  {
    seq(|sw.cases|, i requires 0 <= i < |sw.cases| =>
      CaseLines(ctx.translateCodeBlock(sw.cases[i].body),
        seq(|sw.cases[i].testValues|, j requires 0 <= j < |sw.cases[i].testValues| =>
          "case " + ctx.translate(sw.cases[i].testValues[j]) + ":")))
    + (match sw.defaultBody
       case None => []
       case Some(d) => [CaseLines(ctx.translateCodeBlock(d), ["default:"])])
  }

  /** Line lists laid out one after another with an empty line between two. */
  ghost function Separated(blocks: seq<seq<string>>): seq<string>
    decreases |blocks|
  {
    if |blocks| == 0 then []
    else if |blocks| == 1 then blocks[0]
    else blocks[0] + [""] + Separated(blocks[1..])
  }

  /** Reference layout of the whole switch, line by line: the header, an
      opening brace, the cases separated by empty lines (a single empty line
      when there is no case at all), and a closing brace. */
  ghost function SwitchLines(sw: SwitchNode, ctx: Context): seq<string> {
    var blocks := CaseBlocks(sw, ctx);
    ["switch (" + ctx.translate(sw.switchValue) + ")", "{"]
      + (if |blocks| == 0 then [""] else Separated(blocks))
      + ["}"]
  }

  /** Joining each block's lines, then the blocks with a blank line between
      them, is joining the separated lines. */
  lemma {:induction false} JoinSeparated(blocks: seq<seq<string>>)
    requires forall i :: 0 <= i < |blocks| ==> |blocks[i]| > 0
    ensures |blocks| > 0 ==> |Separated(blocks)| > 0
    ensures Join(seq(|blocks|, i requires 0 <= i < |blocks| => Join(blocks[i], NewLine)), NewLine + NewLine)
         == Join(Separated(blocks), NewLine)
    decreases |blocks|
  {
    var joined := seq(|blocks|, i requires 0 <= i < |blocks| => Join(blocks[i], NewLine));
    if |blocks| > 1 {
      var rest := blocks[1..];
      JoinSeparated(rest);
      var sepRest := Separated(rest);
      assert joined[1..] == seq(|rest|, i requires 0 <= i < |rest| => Join(rest[i], NewLine));
      assert Join(joined, NewLine + NewLine) == joined[0] + (NewLine + NewLine) + Join(joined[1..], NewLine + NewLine);
      assert Separated(blocks) == blocks[0] + ([""] + sepRest);
      JoinAppend(blocks[0], [""] + sepRest, NewLine);
      assert ([""] + sepRest)[1..] == sepRest;
    }
  }

  /** The default case, when there is one, is laid out last, right before
      the closing brace. */
  lemma DefaultCaseLast(sw: SwitchNode, ctx: Context)
    requires sw.defaultBody.Some?
    ensures var ls := SwitchLines(sw, ctx);
      var d := CaseLines(ctx.translateCodeBlock(sw.defaultBody.value), ["default:"]);
      |d| + 1 <= |ls| && ls[|ls| - 1 - |d|..] == d + ["}"]
  {
    var blocks := CaseBlocks(sw, ctx);
    SeparatedEndsWithLast(blocks);
  }

  lemma {:induction false} SeparatedEndsWithLast(blocks: seq<seq<string>>)
    requires |blocks| > 0
    ensures var s := Separated(blocks); var last := blocks[|blocks| - 1];
      |last| <= |s| && s[|s| - |last|..] == last
    decreases |blocks|
  {
    if |blocks| > 1 {
      SeparatedEndsWithLast(blocks[1..]);
    }
  }

  /** `Translate`: the switch value in the header, the cases between braces
      separated by a blank line; the leading line break of the template is
      trimmed away, so the text starts with `switch`. */
  function Translate(sw: SwitchNode, ctx: Context): (r: string)
    ensures r == "switch (" + ctx.translate(sw.switchValue) + ")" + NewLine
               + "{" + NewLine
               + Join(SwitchCases(sw, ctx), NewLine + NewLine) + NewLine
               + "}"
    ensures WellFormed(sw) ==> r == Join(SwitchLines(sw, ctx), NewLine)
  {
    TranslateFollowsLines(sw, ctx);
    var switchValue := ctx.translate(sw.switchValue);
    var switchCaseLines := Join(SwitchCases(sw, ctx), NewLine + NewLine);
    var body := "switch (" + switchValue + ")" + NewLine + "{" + NewLine + switchCaseLines + NewLine + "}";
    assert AllWhiteSpace(NewLine);
    TrimStartDropsAddedWhiteSpace(NewLine, body);
    TrimStart(NewLine + body)
  }

  /** The rendered cases are the reference blocks, each joined by lines. */
  lemma CasesAreBlocks(sw: SwitchNode, ctx: Context)
    ensures var blocks := CaseBlocks(sw, ctx);
      SwitchCases(sw, ctx) == seq(|blocks|, i requires 0 <= i < |blocks| => Join(blocks[i], NewLine))
  {
    var blocks := CaseBlocks(sw, ctx);
    var cases := SwitchCases(sw, ctx);
    forall i | 0 <= i < |blocks|
      ensures cases[i] == Join(blocks[i], NewLine)
    {
      if i < |sw.cases| {
        var c := sw.cases[i];
        assert CaseLabels(c, ctx) == seq(|c.testValues|, j requires 0 <= j < |c.testValues| =>
          "case " + ctx.translate(c.testValues[j]) + ":");
      }
    }
  }

  lemma TranslateFollowsLines(sw: SwitchNode, ctx: Context)
    ensures WellFormed(sw) ==>
      ("switch (" + ctx.translate(sw.switchValue) + ")" + NewLine
         + "{" + NewLine
         + Join(SwitchCases(sw, ctx), NewLine + NewLine) + NewLine
         + "}"
       == Join(SwitchLines(sw, ctx), NewLine))
  {
    if WellFormed(sw) {
      TranslateFollowsWellFormedLines(sw, ctx);
    }
  }

  lemma TranslateFollowsWellFormedLines(sw: SwitchNode, ctx: Context)
    requires WellFormed(sw)
    ensures "switch (" + ctx.translate(sw.switchValue) + ")" + NewLine
               + "{" + NewLine
               + Join(SwitchCases(sw, ctx), NewLine + NewLine) + NewLine
               + "}"
         == Join(SwitchLines(sw, ctx), NewLine)
  {
    var blocks := CaseBlocks(sw, ctx);
    CasesAreBlocks(sw, ctx);
    forall i | 0 <= i < |blocks|
      ensures |blocks[i]| > 0
    {
      if i < |sw.cases| {
        assert |sw.cases[i].testValues| > 0;
      }
    }
    JoinSeparated(blocks);
    var middle := if |blocks| == 0 then [""] else Separated(blocks);
    FrameLines("switch (" + ctx.translate(sw.switchValue) + ")", SwitchCases(sw, ctx), middle);
  }

  /** The header, the braces and the joined cases, line by line. */
  lemma FrameLines(header: string, cases: seq<string>, middle: seq<string>)
    requires |middle| > 0 && Join(middle, NewLine) == Join(cases, NewLine + NewLine)
    ensures header + NewLine + "{" + NewLine + Join(cases, NewLine + NewLine) + NewLine + "}"
         == Join([header, "{"] + middle + ["}"], NewLine)
  {
    JoinAppend([header, "{"], middle + ["}"], NewLine);
    JoinAppend(middle, ["}"], NewLine);
    assert [header, "{"] + middle + ["}"] == [header, "{"] + (middle + ["}"]);
    assert ([header, "{"])[1..] == ["{"];
  }
}
