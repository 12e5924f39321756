/** The modelled translators registered together: the part of the registry's
    list made of the try/catch, switch, lambda and parameter translators. */
module Core {
  import opened Wrappers
  import opened Expressions
  import Registry
  import TryCatch
  import Switch
  import Lambda
  import Parameters

  /** A node as the registry sees it. In .NET a node's kind fixes its class,
      so the translator a kind leads to can always cast the node; an
      `OtherExpression` stands for a kind none of these translators handle,
      with its default string. */
  datatype Node =
    | TryExpression(tryNode: TryCatch.TryNode)
    | SwitchExpression(switchNode: Switch.SwitchNode)
    | LambdaExpression(lambda: Lambda.LambdaNode)
    | ParameterExpression(param: Expr)
    | OtherExpression(kind: ExpressionType, text: string)

  function NodeTypeOf(n: Node): ExpressionType {
    match n
    case TryExpression(_) => Try
    case SwitchExpression(_) => ExpressionType.Switch
    case LambdaExpression(_) => ExpressionType.Lambda
    case ParameterExpression(_) => Parameter
    case OtherExpression(kind, _) => kind
  }

  /** `Expression.ToString()`, left uninterpreted except for the opaque
      nodes, which carry it. */
  function DefaultString(n: Node): string {
    match n
    case OtherExpression(_, text) => text
    case _ => ""
  }

  /** The kind of an opaque node is one the modelled translators do not
      declare, and a parameter node holds a parameter, as the kind of a .NET
      node always matches its class. */
  predicate WellFormed(n: Node) {
    && (n.OtherExpression? ==> n.kind !in [Try, ExpressionType.Switch, ExpressionType.Lambda, Parameter])
    && (n.ParameterExpression? ==> n.param.Param?)
  }

  /** A parameter node without a name. */
  predicate IsUnnamedParameter(n: Node) {
    n.ParameterExpression? && n.param.Param? && n.param.name.None?
  }

  /** The four translators, each declaring the kind it reads. A node of the
      wrong shape cannot reach a translator through the table; it renders as
      its default string. */
  function CoreTranslators(ctx: Context, fmt: Lambda.LambdaFormat, typeNames: seq<string>)
    : seq<Registry.Translator<Node>>
  {
    [ Registry.Translator(Lambda.NodeTypes, (n: Node) =>
        if n.LambdaExpression? then Some(Lambda.Translate(n.lambda, fmt)) else Some(DefaultString(n))),
      Registry.Translator(Parameters.NodeTypes, (n: Node) =>
        if n.ParameterExpression? && n.param.Param? then Parameters.Translate(n.param, ctx, typeNames)
        else Some(DefaultString(n))),
      Registry.Translator(Switch.NodeTypes, (n: Node) =>
        if n.SwitchExpression? then Some(Switch.Translate(n.switchNode, ctx)) else Some(DefaultString(n))),
      Registry.Translator(TryCatch.NodeTypes, (n: Node) =>
        if n.TryExpression? then Some(TryCatch.Translate(n.tryNode, ctx)) else Some(DefaultString(n))) ]
  }

  /** The registry over these translators: null for a null node and for an
      unnamed parameter, whose name is null; text for every other node. */
  function TranslateNode(n: Option<Node>, ctx: Context, fmt: Lambda.LambdaFormat, typeNames: seq<string>)
    : (r: Option<string>)
    ensures n.None? ==> r.None?
    ensures n.Some? ==> (r.None? <==> IsUnnamedParameter(n.value))
  {
    CoreTableBuilds(ctx, fmt, typeNames);
    NullOnlyForUnnamedParameter(n, ctx, fmt, typeNames);
    Registry.Translate(Registry.Build(CoreTranslators(ctx, fmt, typeNames)).value, n, NodeTypeOf, DefaultString)
  }

  /** The four translators declare different kinds, so the table builds. */
  lemma CoreTableBuilds(ctx: Context, fmt: Lambda.LambdaFormat, typeNames: seq<string>)
    ensures Registry.Build(CoreTranslators(ctx, fmt, typeNames)).Ok?
  {
    var ts := CoreTranslators(ctx, fmt, typeNames);
    assert Registry.KindSetsDisjoint(ts);
    Registry.BuildSucceedsIffDisjoint(ts);
  }

  /** Of the four translators only the parameter translator ever returns
      null, and only for an unnamed parameter. */
  lemma NullOnlyForUnnamedParameter(n: Option<Node>, ctx: Context, fmt: Lambda.LambdaFormat, typeNames: seq<string>)
    ensures Registry.Build(CoreTranslators(ctx, fmt, typeNames)).Ok?
    ensures n.Some? ==>
      (Registry.Translate(Registry.Build(CoreTranslators(ctx, fmt, typeNames)).value, n, NodeTypeOf, DefaultString).None?
       <==> IsUnnamedParameter(n.value))
  {
    CoreTableBuilds(ctx, fmt, typeNames);
    var ts := CoreTranslators(ctx, fmt, typeNames);
    var table := Registry.Build(ts).value;
    if n.Some? {
      var node := n.value;
      Registry.BuiltTable(ts);
      var r := Registry.Translate(table, n, NodeTypeOf, DefaultString);
      if r.None? {
        var k := NodeTypeOf(node);
        var i :| Registry.Declares(ts, i, k);
        assert table[k] == ts[i];
        assert ts[i].translate(node).None?;
        assert i == 1;
      }
      if IsUnnamedParameter(node) {
        assert Registry.Declares(ts, 1, Parameter);
        Registry.DispatchReachesDeclaringTranslator(ts, node, 1, NodeTypeOf, DefaultString);
      }
    }
  }

  /** Every node reaches the translator of its own kind, and an opaque node
      its default string. */
  lemma CoreDispatch(n: Node, ctx: Context, fmt: Lambda.LambdaFormat, typeNames: seq<string>)
    requires WellFormed(n)
    ensures var r := TranslateNode(Some(n), ctx, fmt, typeNames);
      match n
      case TryExpression(t) => r == Some(TryCatch.Translate(t, ctx))
      case SwitchExpression(sw) => r == Some(Switch.Translate(sw, ctx))
      case LambdaExpression(l) => r == Some(Lambda.Translate(l, fmt))
      case ParameterExpression(p) => r == Parameters.Translate(p, ctx, typeNames)
      case OtherExpression(_, text) => r == Some(text)
  {
    CoreTableBuilds(ctx, fmt, typeNames);
    var ts := CoreTranslators(ctx, fmt, typeNames);
    match n
    case LambdaExpression(_) =>
      assert Registry.Declares(ts, 0, NodeTypeOf(n));
      Registry.DispatchReachesDeclaringTranslator(ts, n, 0, NodeTypeOf, DefaultString);
    case ParameterExpression(_) =>
      assert Registry.Declares(ts, 1, NodeTypeOf(n));
      Registry.DispatchReachesDeclaringTranslator(ts, n, 1, NodeTypeOf, DefaultString);
    case SwitchExpression(_) =>
      assert Registry.Declares(ts, 2, NodeTypeOf(n));
      Registry.DispatchReachesDeclaringTranslator(ts, n, 2, NodeTypeOf, DefaultString);
    case TryExpression(_) =>
      assert Registry.Declares(ts, 3, NodeTypeOf(n));
      Registry.DispatchReachesDeclaringTranslator(ts, n, 3, NodeTypeOf, DefaultString);
    case OtherExpression(_, _) =>
      Registry.DispatchFallsBack(ts, n, NodeTypeOf, DefaultString);
  }
}
