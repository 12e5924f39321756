/** `ParameterExpressionTranslator`: a parameter is rendered by its name,
    escaped with `@` when the name is a reserved word. */
module Parameters {
  import opened Wrappers
  import opened Expressions

  /** The kinds this translator declares to the registry. */
  const NodeTypes: seq<ExpressionType> := [Parameter]

  /** The statement and operator keywords added to the type aliases. */
  const ReservedWords: seq<string> := [
    "typeof", "default", "void", "readonly", "do", "while", "switch", "if",
    "else", "try", "catch", "finally", "throw", "for", "foreach", "goto",
    "return", "implicit", "explicit"]

  /** `_keywords`: every type alias (`InternalTypeExtensions.TypeNames`, left
      uninterpreted and passed in) together with the reserved words. */
  function Keywords(typeNames: seq<string>): (ks: set<string>)
    ensures forall w :: w in ks <==> w in typeNames || w in ReservedWords
  {
    set w | w in typeNames + ReservedWords
  }

  /** The reserved-word list has nineteen different words. */
  lemma ReservedWordsAreNineteen()
    ensures |ReservedWords| == 19
    ensures forall i, j :: 0 <= i < j < |ReservedWords| ==> ReservedWords[i] != ReservedWords[j]
  {
  }

  /** The static `Translate(ParameterExpression)`: a keyword gets an `@`
      prefix, any other name is kept. */
  function TranslateName(name: string, typeNames: seq<string>): (r: string)
    ensures name in typeNames || name in ReservedWords <==> r == "@" + name
    ensures name !in typeNames && name !in ReservedWords <==> r == name
    ensures |name| <= |r| <= |name| + 1 && r[|r| - |name|..] == name
  {
    if name in Keywords(typeNames) then "@" + name else name
  }

  /** The instance `Translate`: the node is a parameter (the registry sends it
      nothing else), and the context plays no part. An unnamed parameter has a
      null name, which is not a keyword, so it renders as null. */
  function Translate(e: Expr, ctx: Context, typeNames: seq<string>): (r: Option<string>)
    requires e.Param?
    ensures r.None? <==> e.name.None?
    ensures r.Some? && (|e.name.value| == 0 || e.name.value[0] != '@') ==>
      Unescape(r.value, typeNames) == e.name.value
    ensures r.Some? ==> (r.value == "@" + e.name.value <==> e.name.value in Keywords(typeNames))
  {
    match e.name
    case None => None
    case Some(name) =>
      UnescapeInvertsTranslateName(name, typeNames);
      Some(TranslateName(name, typeNames))
  }

  /** The same parameter renders the same under any two contexts, and two
      parameters with the same name render alike. */
  lemma TranslateIgnoresContext(e1: Expr, e2: Expr, ctx1: Context, ctx2: Context, typeNames: seq<string>)
    requires e1.Param? && e2.Param? && e1.name == e2.name
    ensures Translate(e1, ctx1, typeNames) == Translate(e2, ctx2, typeNames)
  {
  }

  /** Reading an escaped name back: a leading `@` before a keyword goes. */
  function Unescape(text: string, typeNames: seq<string>): string {
    if |text| > 0 && text[0] == '@' && text[1..] in Keywords(typeNames) then text[1..] else text
  }

  /** A name that does not itself start with `@` is recovered from its
      rendering. */
  lemma UnescapeInvertsTranslateName(name: string, typeNames: seq<string>)
    ensures |name| == 0 || name[0] != '@' ==> Unescape(TranslateName(name, typeNames), typeNames) == name
  {
    if name in Keywords(typeNames) {
      assert ("@" + name)[1..] == name;
    }
  }

  /** So two such names render alike only when they are the same name. */
  lemma TranslateNameInjective(a: string, b: string, typeNames: seq<string>)
    requires |a| == 0 || a[0] != '@'
    requires |b| == 0 || b[0] != '@'
    requires TranslateName(a, typeNames) == TranslateName(b, typeNames)
    ensures a == b
  {
    UnescapeInvertsTranslateName(a, typeNames);
    UnescapeInvertsTranslateName(b, typeNames);
  }
}
