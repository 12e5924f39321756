/** `TryCatchExpressionTranslator`: renders a try expression with its catch
    handlers and optional fault and finally blocks, and decides with a walk
    over each handler whether its catch variable is really used. */
module TryCatch {
  import opened Wrappers
  import opened Text
  import opened CodeBlocks
  import opened Expressions

  /** One catch handler: the caught type, the optional variable, the optional
      filter and the body. */
  datatype CatchBlock = CatchBlock(
    test: ClrType,
    variable: Option<Variable>,
    filter: Option<Expr>,
    body: Expr)

  datatype TryNode = TryNode(
    body: Expr,
    handlers: seq<CatchBlock>,
    fault: Option<Expr>,
    finallyBody: Option<Expr>)

  /** The kinds this translator declares to the registry. */
  const NodeTypes: seq<ExpressionType> := [Try]

  // ---------------------------------------------------------------------
  // ExceptionUsageFinder

  /** The two flags of the visitor. */
  datatype FinderState = FinderState(rethrowFound: bool, usageFound: bool)

  /** A `throw` whose operand is the catch variable itself. */
  predicate IsRethrowOf(op: ExpressionType, operand: Option<Expr>, v: Variable) {
    op == Throw && operand.Some? && IsVariable(operand.value, v)
  }

  /** The visitor's walk over one node, pre-order. A unary node sets
      `rethrowFound` to whether it throws the variable, then its operand is
      visited; a parameter node clears a pending `rethrowFound` without
      counting, and otherwise counts as a usage when it is the variable. */
  function Visit(e: Expr, v: Variable, st: FinderState): FinderState
    decreases e
  {
    match e
    case Param(id, _) =>
      if !st.rethrowFound then
        (if id == v.id then st.(usageFound := true) else st)
      else
        st.(rethrowFound := false)
    case Unary(op, operand) =>
      var st' := st.(rethrowFound := IsRethrowOf(op, operand, v));
      (match operand
       case None => st'
       case Some(x) => Visit(x, v, st'))
    case Block(es) => VisitAll(es, v, st)
    case Other(_, cs) => VisitAll(cs, v, st)
  }

  /** The walk over a sequence of siblings, left to right. */
  function VisitAll(es: seq<Expr>, v: Variable, st: FinderState): FinderState
    decreases es
  {
    if |es| == 0 then st else VisitAll(es[1..], v, Visit(es[0], v, st))
  }

  /** `Visit(null)` does nothing. */
  function VisitOption(e: Option<Expr>, v: Variable, st: FinderState): FinderState {
    match e
    case None => st
    case Some(x) => Visit(x, v, st)
  }

  /** Reference definition of a usage: the variable occurs somewhere other
      than as the direct operand of a `throw`. */
  ghost predicate Mentions(e: Expr, v: Variable)
    decreases e
  {
    match e
    case Param(id, _) => id == v.id
    case Unary(op, operand) =>
      (match operand
       case None => false
       case Some(x) => !IsRethrowOf(op, operand, v) && Mentions(x, v))
    case Block(es) => exists i | 0 <= i < |es| :: Mentions(es[i], v)
    case Other(_, cs) => exists i | 0 <= i < |cs| :: Mentions(cs[i], v)
  }

  ghost predicate MentionsOption(e: Option<Expr>, v: Variable) {
    e.Some? && Mentions(e.value, v)
  }

  /** Started with no pending rethrow, the walk ends with none, and it adds
      to `usageFound` exactly whether the node mentions the variable. */
  lemma {:induction false} VisitFindsMentions(e: Expr, v: Variable, used: bool)
    ensures Visit(e, v, FinderState(false, used)) == FinderState(false, used || Mentions(e, v))
    decreases e
  {
    match e
    case Param(_, _) =>
    case Unary(op, operand) =>
      match operand {
        case None =>
        case Some(x) =>
          if !IsRethrowOf(op, operand, v) {
            VisitFindsMentions(x, v, used);
          }
      }
    case Block(es) => VisitAllFindsMentions(es, v, used);
    case Other(_, cs) => VisitAllFindsMentions(cs, v, used);
  }

  lemma {:induction false} VisitAllFindsMentions(es: seq<Expr>, v: Variable, used: bool)
    ensures VisitAll(es, v, FinderState(false, used))
         == FinderState(false, used || exists i | 0 <= i < |es| :: Mentions(es[i], v))
    decreases es
  {
    if |es| > 0 {
      VisitFindsMentions(es[0], v, used);
      VisitAllFindsMentions(es[1..], v, used || Mentions(es[0], v));
      assert forall i :: 1 <= i < |es| ==> es[1..][i - 1] == es[i];
      assert forall i :: 0 <= i < |es| - 1 ==> es[1..][i] == es[i + 1];
    }
  }

  lemma VisitOptionFindsMentions(e: Option<Expr>, v: Variable)
    ensures VisitOption(e, v, FinderState(false, false)) == FinderState(false, MentionsOption(e, v))
  {
    if e.Some? {
      VisitFindsMentions(e.value, v, false);
    }
  }

  /** `ExceptionUsageFinder.IsVariableUsed`: no variable is never used;
      otherwise the filter is walked, then the body only when the filter
      showed no usage. The result is true exactly when the filter or the body
      mentions the variable other than as the operand of a `throw`. */
  function IsVariableUsed(c: CatchBlock): (used: bool)
    ensures used <==> (c.variable.Some? && UsedIn(c, c.variable.value))
  {
    match c.variable
    case None => false
    case Some(v) =>
      VisitOptionFindsMentions(c.filter, v);
      VisitFindsMentions(c.body, v, false);
      var afterFilter := VisitOption(c.filter, v, FinderState(false, false));
      var afterBody :=
        if !afterFilter.usageFound then Visit(c.body, v, afterFilter) else afterFilter;
      afterBody.usageFound
  }

  /** The variable is mentioned in the filter or the body of the handler. */
  ghost predicate UsedIn(c: CatchBlock, v: Variable) {
    MentionsOption(c.filter, v) || Mentions(c.body, v)
  }

  // ---------------------------------------------------------------------
  // Rendering

  /** The filter, when there is one, as a `when` suffix. */
  function WhenClause(filter: Option<Expr>, ctx: Context): string {
    match filter
    case None => ""
    case Some(f) => " when " + ctx.translate(f)
  }

  /** `GetExceptionClause`: a used variable is declared with its type and
      followed by the filter; an unused one is left out together with the
      filter, and so is the type itself when it is `Exception`. */
  function ExceptionClause(c: CatchBlock, ctx: Context): (r: string)
    ensures c.variable.Some? && UsedIn(c, c.variable.value) ==>
      r == " (" + ctx.friendlyName(c.test) + " " + NameText(c.variable.value.name) + ")" + WhenClause(c.filter, ctx)
    ensures !(c.variable.Some? && UsedIn(c, c.variable.value)) && c.test == ExceptionType ==>
      r == ""
    ensures !(c.variable.Some? && UsedIn(c, c.variable.value)) && c.test != ExceptionType ==>
      r == " (" + ctx.friendlyName(c.test) + ")"
  {
    var exceptionTypeName := ctx.friendlyName(c.test);
    if IsVariableUsed(c) then
      " (" + exceptionTypeName + " " + NameText(c.variable.value.name) + ")" + WhenClause(c.filter, ctx)
    else if c.test != ExceptionType then
      " (" + exceptionTypeName + ")"
    else
      ""
  }

  /** The statement that rethrows a variable by name. */
  function RethrowText(name: string): (r: string)
    ensures |r| > 0 && r[|r| - 1] == ';'
  {
    "throw " + name + ";"
  }

  /** The braced handler body; when the handler declares a variable, every
      `throw <name>;` in the text becomes a bare `throw;`. */
  function CatchBody(c: CatchBlock, ctx: Context): (r: string)
    ensures |r| > 0 && r[|r| - 1] == '}'
    ensures c.variable.None? ==> r == WithCurlyBraces(ctx.translateCodeBlock(c.body))
  {
    var braced := WithCurlyBraces(ctx.translateCodeBlock(c.body));
    match c.variable
    case None => braced
    case Some(v) =>
      ReplaceKeepsLastChar(braced, RethrowText(NameText(v.name)), "throw;");
      Replace(braced, RethrowText(NameText(v.name)), "throw;")
  }

  /** With a variable, the braced body falls into pieces separated by the
      occurrences of `throw <name>;`, none of which contains another one, and
      the rendered body is the same pieces separated by `throw;`. */
  lemma CatchBodyRewritesRethrows(c: CatchBlock, ctx: Context)
    requires c.variable.Some?
    ensures var braced := WithCurlyBraces(ctx.translateCodeBlock(c.body));
      var pat := RethrowText(NameText(c.variable.value.name));
      var pieces := Split(braced, pat);
      && Join(pieces, pat) == braced
      && Join(pieces, "throw;") == CatchBody(c, ctx)
      && forall k :: 0 <= k < |pieces| ==> !Occurs(pieces[k], pat)
  {
    var braced := WithCurlyBraces(ctx.translateCodeBlock(c.body));
    ReplaceRewritesEveryOccurrence(braced, RethrowText(NameText(c.variable.value.name)), "throw;");
  }

  /** `GetCatchBlock`: the keyword, the clause, the body and a line break. */
  function CatchText(c: CatchBlock, ctx: Context): string {
    "catch" + ExceptionClause(c, ctx) + CatchBody(c, ctx) + NewLine
  }

  /** The handlers rendered in their order. */
  function CatchTexts(handlers: seq<CatchBlock>, ctx: Context): (r: seq<string>)
    ensures |r| == |handlers|
    ensures forall i :: 0 <= i < |handlers| ==> r[i] == CatchText(handlers[i], ctx)
  {
    seq(|handlers|, i requires 0 <= i < |handlers| => CatchText(handlers[i], ctx))
  }

  /** `GetHandlerBlock`: an absent block renders as nothing; a present one as
      the keyword followed by its braced body. */
  function HandlerBlock(block: Option<Expr>, keyword: string, ctx: Context): (r: string)
    ensures block.None? ==> r == ""
    ensures block.Some? ==> r == keyword + WithCurlyBraces(ctx.translateCodeBlock(block.value))
  {
    match block
    case None => ""
    case Some(b) => keyword + WithCurlyBraces(ctx.translateCodeBlock(b))
  }

  /** The parts of a try expression laid out in order, before trimming. */
  function Layout(t: TryNode, ctx: Context): string {
    "try" + WithCurlyBraces(ctx.translateCodeBlock(t.body)) + NewLine
      + Join(CatchTexts(t.handlers, ctx), "")
      + HandlerBlock(t.fault, "fault", ctx)
      + HandlerBlock(t.finallyBody, "finally", ctx)
  }

  /** `Translate`: the try block, the catch handlers in order, the fault block
      and the finally block. Trimming removes the leading line break and, when
      neither a fault nor a finally block closes the text, the final line
      break after the last handler (or after the try block). */
  function Translate(t: TryNode, ctx: Context): (r: string)
    ensures t.fault.Some? || t.finallyBody.Some? ==> r == Layout(t, ctx)
    ensures t.fault.None? && t.finallyBody.None? ==> r + NewLine == Layout(t, ctx)
  {
    var tryCatchFinallyBlock := NewLine + Layout(t, ctx);
    TranslateTrims(t, ctx);
    Trim(tryCatchFinallyBlock)
  }

  /** The rendered text opens with the try block and closes with the last
      part present: the finally block, else the fault block, else the last
      handler (whose line break is trimmed), else the try block itself. */
  lemma TranslateOpensAndCloses(t: TryNode, ctx: Context)
    ensures var r := Translate(t, ctx);
      var head := "try" + WithCurlyBraces(ctx.translateCodeBlock(t.body));
      && StartsWith(r, head)
      && (t.finallyBody.Some? ==>
            EndsWith(r, "finally" + WithCurlyBraces(ctx.translateCodeBlock(t.finallyBody.value))))
      && (t.finallyBody.None? && t.fault.Some? ==>
            EndsWith(r, "fault" + WithCurlyBraces(ctx.translateCodeBlock(t.fault.value))))
      && (t.finallyBody.None? && t.fault.None? && |t.handlers| > 0 ==>
            EndsWith(r + NewLine, CatchText(t.handlers[|t.handlers| - 1], ctx)))
      && (t.finallyBody.None? && t.fault.None? && |t.handlers| == 0 ==> r == head)
  {
    LayoutOpensAndCloses(t, ctx, Translate(t, ctx));
  }

  /** The same, for any text that relates to the layout as the translation does. */
  lemma LayoutOpensAndCloses(t: TryNode, ctx: Context, r: string)
    requires t.fault.Some? || t.finallyBody.Some? ==> r == Layout(t, ctx)
    requires t.fault.None? && t.finallyBody.None? ==> r + NewLine == Layout(t, ctx)
    ensures var head := "try" + WithCurlyBraces(ctx.translateCodeBlock(t.body));
      && StartsWith(r, head)
      && (t.finallyBody.Some? ==>
            EndsWith(r, "finally" + WithCurlyBraces(ctx.translateCodeBlock(t.finallyBody.value))))
      && (t.finallyBody.None? && t.fault.Some? ==>
            EndsWith(r, "fault" + WithCurlyBraces(ctx.translateCodeBlock(t.fault.value))))
      && (t.finallyBody.None? && t.fault.None? && |t.handlers| > 0 ==>
            EndsWith(r + NewLine, CatchText(t.handlers[|t.handlers| - 1], ctx)))
      && (t.finallyBody.None? && t.fault.None? && |t.handlers| == 0 ==> r == head)
  {
    var head := "try" + WithCurlyBraces(ctx.translateCodeBlock(t.body));
    var texts := CatchTexts(t.handlers, ctx);
    var fault := HandlerBlock(t.fault, "fault", ctx);
    var fin := HandlerBlock(t.finallyBody, "finally", ctx);
    assert Layout(t, ctx) == head + NewLine + Join(texts, "") + fault + fin;
    PartsOpenAndClose(head, texts, fault, fin, r);
  }

  /** The string-level core of the previous lemma. */
  lemma PartsOpenAndClose(head: string, texts: seq<string>, fault: string, fin: string, r: string)
    requires fault != "" || fin != "" ==> r == head + NewLine + Join(texts, "") + fault + fin
    requires fault == "" && fin == "" ==> r + NewLine == head + NewLine + Join(texts, "")
    ensures StartsWith(r, head)
    ensures fin != "" ==> EndsWith(r, fin)
    ensures fin == "" && fault != "" ==> EndsWith(r, fault)
    ensures fin == "" && fault == "" && |texts| > 0 ==> EndsWith(r + NewLine, texts[|texts| - 1])
    ensures fin == "" && fault == "" && |texts| == 0 ==> r == head
  {
    var catches := Join(texts, "");
    if fault != "" || fin != "" {
      StartsWithExtend(head, head, NewLine);
      StartsWithExtend(head + NewLine, head, catches);
      StartsWithExtend(head + NewLine + catches, head, fault);
      StartsWithExtend(head + NewLine + catches + fault, head, fin);
      EndsWithExtend(head + NewLine + catches + fault, fin);
      if fin == "" {
        assert r == head + NewLine + catches + fault;
        EndsWithExtend(head + NewLine + catches, fault);
      }
    } else {
      OpenPartsEnds(head, texts, r);
    }
  }

  /** Without fault and finally blocks: the text plus its trimmed line break
      closes with the last handler, or is the try block alone. */
  lemma OpenPartsEnds(head: string, texts: seq<string>, r: string)
    requires r + NewLine == head + NewLine + Join(texts, "")
    ensures StartsWith(r, head)
    ensures |texts| > 0 ==> EndsWith(r + NewLine, texts[|texts| - 1])
    ensures |texts| == 0 ==> r == head
  {
    var catches := Join(texts, "");
    OpenPartsStart(head, catches, r);
    if |texts| > 0 {
      JoinEndsWithLast(texts);
      EndsWithPrepend(head + NewLine, catches, texts[|texts| - 1]);
    }
  }

  /** The try block opens the text; with no catch text it is the whole text. */
  lemma OpenPartsStart(head: string, catches: string, r: string)
    requires r + NewLine == head + NewLine + catches
    ensures StartsWith(r, head)
    ensures catches == "" ==> r == head
  {
    StartsWithExtend(head, head, NewLine);
    StartsWithExtend(head + NewLine, head, catches);
    StartsWithShorten(r, head, NewLine);
    if catches == "" {
      assert r == (r + NewLine)[..|r|];
    }
  }

  /** Concatenated texts end with the last of them. */
  lemma JoinEndsWithLast(texts: seq<string>)
    requires |texts| > 0
    ensures EndsWith(Join(texts, ""), texts[|texts| - 1])
  {
    var n := |texts|;
    if n == 1 {
      EndsWithExtend("", texts[0]);
      assert "" + texts[0] == texts[0];
    } else {
      JoinLast(texts, "");
      EndsWithExtend(Join(texts[..n - 1], "") + "", texts[n - 1]);
    }
  }

  /** A suffix stays a suffix when text is put in front. */
  lemma EndsWithPrepend(front: string, s: string, suffix: string)
    requires EndsWith(s, suffix)
    ensures EndsWith(front + s, suffix)
  {
    assert (front + s)[|front + s| - |suffix|..] == s[|s| - |suffix|..];
  }

  /** A prefix stays a prefix when text is added. */
  lemma StartsWithExtend(s: string, prefix: string, more: string)
    requires StartsWith(s, prefix)
    ensures StartsWith(s + more, prefix)
  {
    assert (s + more)[..|prefix|] == s[..|prefix|];
  }

  /** A prefix of `s + tail` that is not longer than `s` is a prefix of `s`. */
  lemma StartsWithShorten(s: string, prefix: string, tail: string)
    requires StartsWith(s + tail, prefix) && |prefix| <= |s|
    ensures StartsWith(s, prefix)
  {
    assert (s + tail)[..|prefix|] == s[..|prefix|];
  }

  lemma EndsWithExtend(s: string, suffix: string)
    ensures EndsWith(s + suffix, suffix)
  {
    assert (s + suffix)[|s|..] == suffix;
  }

  /** A piece of text that ends with a closing brace. */
  predicate ClosesWithBrace(s: string) {
    |s| > 0 && s[|s| - 1] == '}'
  }

  lemma TranslateTrims(t: TryNode, ctx: Context)
    ensures var raw := NewLine + Layout(t, ctx);
      && (t.fault.Some? || t.finallyBody.Some? ==> Trim(raw) == Layout(t, ctx))
      && (t.fault.None? && t.finallyBody.None? ==> Trim(raw) + NewLine == Layout(t, ctx))
  {
    var head := "try" + WithCurlyBraces(ctx.translateCodeBlock(t.body));
    var catches := Join(CatchTexts(t.handlers, ctx), "");
    var fault := HandlerBlock(t.fault, "fault", ctx);
    var fin := HandlerBlock(t.finallyBody, "finally", ctx);
    CatchTextsClose(t.handlers, ctx);
    HandlerBlockCloses(t.fault, "fault", ctx);
    HandlerBlockCloses(t.finallyBody, "finally", ctx);
    assert Layout(t, ctx) == head + NewLine + catches + fault + fin;
    if t.fault.Some? || t.finallyBody.Some? {
      TrimClosedLayout(head, catches, fault, fin);
    } else {
      assert Layout(t, ctx) == head + NewLine + catches;
      TrimOpenLayout(head, catches);
    }
  }

  /** The concatenated catch texts are empty or end with a brace and a line
      break. */
  lemma CatchTextsClose(handlers: seq<CatchBlock>, ctx: Context)
    ensures var catches := Join(CatchTexts(handlers, ctx), "");
      catches == "" || ClosesWithBraceLine(catches)
  {
    var texts := CatchTexts(handlers, ctx);
    forall i | 0 <= i < |texts|
      ensures ClosesWithBraceLine(texts[i])
    {
      var body := CatchBody(handlers[i], ctx);
      assert texts[i] == ("catch" + ExceptionClause(handlers[i], ctx)) + body + NewLine;
    }
    if |texts| > 0 {
      ConcatClosesWithBraceLine(texts);
    }
  }

  /** A present fault or finally block ends with its closing brace. */
  lemma HandlerBlockCloses(block: Option<Expr>, keyword: string, ctx: Context)
    ensures block.Some? ==> ClosesWithBrace(HandlerBlock(block, keyword, ctx))
  {
  }

  /** Text that ends with a closing brace followed by a line break. */
  predicate ClosesWithBraceLine(x: string) {
    |x| >= 2 && x[|x| - 1] == '\n' && x[|x| - 2] == '}'
  }

  lemma TrimLeadingLineBreak(layout: string)
    requires |layout| > 0 && layout[0] == 't'
    ensures Trim(NewLine + layout) == TrimEnd(layout)
  {
    assert AllWhiteSpace(NewLine);
    TrimStartDropsAddedWhiteSpace(NewLine, layout);
  }

  lemma TrimEndOfBrace(s: string)
    requires ClosesWithBrace(s)
    ensures TrimEnd(s) == s
  {
    TrimEndDropsAddedWhiteSpace(s, "");
    assert s + "" == s;
  }

  lemma TrimEndOfBraceLine(s: string)
    requires ClosesWithBraceLine(s)
    ensures TrimEnd(s) + NewLine == s
  {
    var front := s[..|s| - 1];
    assert s == front + NewLine;
    assert AllWhiteSpace(NewLine);
    TrimEndDropsAddedWhiteSpace(front, NewLine);
  }

  /** Catch texts that each end with a brace and a line break concatenate to
      text that does too. */
  lemma {:induction false} ConcatClosesWithBraceLine(texts: seq<string>)
    requires |texts| > 0
    requires forall i :: 0 <= i < |texts| ==> ClosesWithBraceLine(texts[i])
    ensures ClosesWithBraceLine(Join(texts, ""))
  {
    var n := |texts|;
    if n > 1 {
      assert texts == texts[..n - 1] + [texts[n - 1]];
      JoinSnoc(texts[..n - 1], texts[n - 1], "");
      var j := Join(texts, "");
      assert j == (Join(texts[..n - 1], "") + "") + texts[n - 1];
      assert j[|j| - 1] == texts[n - 1][|texts[n - 1]| - 1];
      assert j[|j| - 2] == texts[n - 1][|texts[n - 1]| - 2];
    }
  }

  /** Trimming the laid-out parts after a leading line break when a fault or
      finally block closes them: nothing but the leading line break goes. */
  lemma TrimClosedLayout(head: string, catches: string, fault: string, fin: string)
    requires |head| > 0 && head[0] == 't'
    requires ClosesWithBrace(fault) || ClosesWithBrace(fin)
    requires fin == "" || ClosesWithBrace(fin)
    ensures Trim(NewLine + (head + NewLine + catches + fault + fin)) == head + NewLine + catches + fault + fin
  {
    var layout := head + NewLine + catches + fault + fin;
    TrimLeadingLineBreak(layout);
    if fin != "" {
      assert layout[|layout| - 1] == fin[|fin| - 1];
    } else {
      assert layout == head + NewLine + catches + fault;
      assert layout[|layout| - 1] == fault[|fault| - 1];
    }
    TrimEndOfBrace(layout);
  }

  /** Without fault and finally blocks, the final line break goes as well. */
  lemma TrimOpenLayout(head: string, catches: string)
    requires |head| > 0 && head[0] == 't' && ClosesWithBrace(head)
    requires catches == "" || ClosesWithBraceLine(catches)
    ensures Trim(NewLine + (head + NewLine + catches)) + NewLine == head + NewLine + catches
  {
    var layout := head + NewLine + catches;
    TrimLeadingLineBreak(layout);
    if catches == "" {
      assert layout == head + NewLine;
    } else {
      assert layout[|layout| - 1] == catches[|catches| - 1];
      assert layout[|layout| - 2] == catches[|catches| - 2];
    }
    TrimEndOfBraceLine(layout);
  }
}
