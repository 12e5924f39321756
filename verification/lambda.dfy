/** `LambdaExpressionTranslator`: a lambda renders as its parameters, an
    arrow and its body. */
module Lambda {
  import opened Wrappers
  import opened Text
  import opened CodeBlocks
  import opened Expressions

  datatype LambdaNode = LambdaNode(parameters: seq<Expr>, body: Expr)

  /** The helpers the lambda translator calls, left uninterpreted:
      `parametersText` is `GetTranslatedParameters` followed by
      `WithParenthesesIfNecessary`, `translatedBody` is
      `GetTranslatedExpressionBody`, and `asExpressionBody` and
      `withParentheses` are the two ways of writing the body block. */
  datatype LambdaFormat = LambdaFormat(
    parametersText: seq<Expr> -> string,
    translatedBody: Expr -> CodeBlock,
    asExpressionBody: CodeBlock -> string,
    withParentheses: CodeBlock -> string)

  /** The kinds this translator declares to the registry: lambdas only. */
  const NodeTypes: seq<ExpressionType> := [ExpressionType.Lambda]

  const Arrow: string := " =>"

  /** The parameter text. */
  function ParametersText(l: LambdaNode, fmt: LambdaFormat): string {
    fmt.parametersText(l.parameters)
  }

  /** The body text: expression-bodied when the block is a single statement,
      parenthesised otherwise. */
  function BodyText(l: LambdaNode, fmt: LambdaFormat): (r: string)
    ensures fmt.translatedBody(l.body).isASingleStatement ==>
      r == fmt.asExpressionBody(fmt.translatedBody(l.body))
    ensures !fmt.translatedBody(l.body).isASingleStatement ==>
      r == fmt.withParentheses(fmt.translatedBody(l.body))
  {
    var bodyBlock := fmt.translatedBody(l.body);
    if bodyBlock.isASingleStatement then fmt.asExpressionBody(bodyBlock) else fmt.withParentheses(bodyBlock)
  }

  /** Reading a rendered lambda back: the text before the first arrow is the
      parameter list, the text after it the body. */
  function ParseLambda(text: string): (r: Option<(string, string)>)
    ensures r.None? <==> !Occurs(text, Arrow)
    ensures r.Some? ==> r.value.0 + Arrow + r.value.1 == text
  {
    match IndexOf(text, Arrow)
    case None => None
    case Some(i) =>
      assert text == text[..i] + Arrow + text[i + |Arrow|..];
      Some((text[..i], text[i + |Arrow|..]))
  }

  /** `Translate`: the parameters, the arrow and the body. Whenever the
      parameter text has no arrow of its own, the rendering reads back as
      exactly that parameter text and that body text. */
  function Translate(l: LambdaNode, fmt: LambdaFormat): (r: string)
    ensures !Occurs(ParametersText(l, fmt), Arrow) ==>
      ParseLambda(r) == Some((ParametersText(l, fmt), BodyText(l, fmt)))
  {
    var parameters := ParametersText(l, fmt);
    var body := BodyText(l, fmt);
    ArrowFoundAfterParameters(parameters, body);
    parameters + Arrow + body
  }

  /** The first arrow in `p + " =>" + b` is the one after `p` when `p` holds
      none: no occurrence can start inside `p`, and none can straddle its
      end, because the arrow's only space is its first character. */
  lemma ArrowFoundAfterParameters(p: string, b: string)
    ensures !Occurs(p, Arrow) ==> IndexOf(p + Arrow + b, Arrow) == Some(|p|)
  {
    var r := p + Arrow + b;
    assert r[|p|..|p| + |Arrow|] == Arrow;
    assert OccursAt(r, Arrow, |p|);
    if !Occurs(p, Arrow) {
      forall j | 0 <= j < |p|
        ensures !OccursAt(r, Arrow, j)
      {
        if j + |Arrow| <= |p| {
          assert r[j..j + |Arrow|] == p[j..j + |Arrow|];
          assert !OccursAt(p, Arrow, j);
        } else {
          assert r[|p|] == ' ';
        }
      }
    }
  }
}
