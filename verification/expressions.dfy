/** The expression trees the translators read, reduced to what the modelled
    translators look at, and the translation context they are handed. */
module Expressions {
  import opened Wrappers
  import opened CodeBlocks

  /** Node kinds (`ExpressionType`); the values the modelled translators
      declare or test, and a selection of the others. */
  datatype ExpressionType =
    | Add | AndAlso | ArrayLength | Assign | Block | Call | Coalesce
    | Conditional | Constant | Convert | DebugInfo | Default | Dynamic
    | Equal | Extension | Goto | Index | Invoke | Label | Lambda | ListInit
    | Loop | MemberAccess | MemberInit | Negate | New | NewArrayBounds
    | NewArrayInit | Not | Parameter | Quote | RuntimeVariables | Switch
    | Throw | Try | TypeAs | TypeEqual | TypeIs | UnaryPlus | Unbox

  /** An expression. A parameter's identity is its `id` (the .NET node is
      compared by reference) and its name may be null (an unnamed
      parameter); a unary node's operand is absent for a bare rethrow; any other kind is an opaque node with its children in the
      order the base visitor walks them. */
  datatype Expr =
    | Param(id: nat, name: Option<string>)
    | Unary(op: ExpressionType, operand: Option<Expr>)
    | Block(expressions: seq<Expr>)
    | Other(kind: ExpressionType, children: seq<Expr>)

  /** A declared variable: the catch variable of a handler. */
  datatype Variable = Variable(id: nat, name: Option<string>)

  /** A possibly null name as C# string interpolation writes it: null as
      nothing. */
  function NameText(name: Option<string>): string {
    match name
    case None => ""
    case Some(n) => n
  }

  /** A parameter node is this variable. */
  predicate IsVariable(e: Expr, v: Variable) {
    e.Param? && e.id == v.id
  }

  /** A runtime type, known by its full name. */
  datatype ClrType = ClrType(fullName: string)

  /** `typeof(Exception)`. */
  const ExceptionType: ClrType := ClrType("System.Exception")

  /** What a translator may ask of the registry that drives it:
      `translate` renders a child node (`context.Translate`),
      `translateCodeBlock` renders a body as a code block
      (`context.TranslateCodeBlock`), and `friendlyName` renders a type name
      (`GetFriendlyName`). The model leaves all three uninterpreted. */
  datatype Context = Context(
    translate: Expr -> string,
    translateCodeBlock: Expr -> CodeBlock,
    friendlyName: ClrType -> string)
}
