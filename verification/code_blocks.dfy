/** The formatted body of a translated block: its statements, one line each,
    and two facts about the statements it was built from. */
module CodeBlocks {
  import opened Text

  /** One indent unit. */
  const Indent: string := "    "

  /** `hasReturn` records whether the last translated statement already leaves
      the block (`CodeBlock.HasReturn`); `isASingleStatement` whether the block
      holds exactly one statement that is not itself a block. Both are read
      from the expressions when the block is built; the layout operations
      below carry them along and change only the lines. */
  datatype CodeBlock = CodeBlock(lines: seq<string>, hasReturn: bool, isASingleStatement: bool)

  /** Every line prefixed with one indent unit. */
  function Indented(b: CodeBlock): (r: CodeBlock)
    ensures |r.lines| == |b.lines|
    ensures forall i :: 0 <= i < |b.lines| ==> r.lines[i] == Indent + b.lines[i]
  {
    b.(lines := seq(|b.lines|, i requires 0 <= i < |b.lines| => Indent + b.lines[i]))
  }

  /** One more line at the end. */
  function Append(b: CodeBlock, line: string): CodeBlock {
    b.(lines := b.lines + [line])
  }

  /** Lines placed before the existing ones. */
  function Insert(b: CodeBlock, first: seq<string>): CodeBlock {
    b.(lines := first + b.lines)
  }

  /** The lines, indented, between an opening and a closing brace, each brace
      on a line of its own that the text begins by breaking to. */
  function WithCurlyBraces(b: CodeBlock): (r: string)
    ensures |r| > 0 && r[|r| - 1] == '}'
    ensures r[..|NewLine|] == NewLine
  {
    NewLine + "{" + NewLine + Join(Indented(b).lines, NewLine) + NewLine + "}"
  }

  /** The lines as they are, one per line. */
  function WithoutCurlyBraces(b: CodeBlock): string {
    Join(b.lines, NewLine)
  }
}
