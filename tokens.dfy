/**
 * The token stream the sniff reads: one record per token, with the nesting
 * metadata that the tokenizer has already computed.  Nothing here is ever
 * modified by the analysis.
 */
module Tokens {
  import opened Wrappers

  /**
   * A token code: the tokenizer's integer constant for the kind of token.
   * Only the codes the sniff distinguishes are named below; their values
   * are arbitrary but distinct, and every other integer stands for some
   * other kind of token.
   */
  newtype Code = int

  const Variable: Code := 1
  const Equal: Code := 2
  const PlusEqual: Code := 3
  const MinusEqual: Code := 4
  const MulEqual: Code := 5
  const DivEqual: Code := 6
  const PowEqual: Code := 7
  const ModEqual: Code := 8
  const AndEqual: Code := 9
  const OrEqual: Code := 10
  const XorEqual: Code := 11
  const SlEqual: Code := 12
  const SrEqual: Code := 13
  const ConcatEqual: Code := 14
  const Inc: Code := 15
  const Dec: Code := 16
  const For: Code := 17
  const Foreach: Code := 18
  const While: Code := 19
  const Do: Code := 20
  const Function: Code := 21
  const Closure: Code := 22
  const Static: Code := 23
  const Use: Code := 24
  const As: Code := 25
  const DoubleArrow: Code := 26
  const BitwiseAnd: Code := 27
  const ObjectOperator: Code := 28
  const DoubleColon: Code := 29
  const Comma: Code := 30
  const List: Code := 31
  const CloseShortArray: Code := 32
  const OpenTag: Code := 33
  const Whitespace: Code := 34
  const Comment: Code := 35
  const DocComment: Code := 36
  const OpenParenthesis: Code := 37
  const CloseParenthesis: Code := 38

  /** One entry of a token's `conditions`: the pointer of an enclosing construct and its code. */
  datatype Condition = Condition(pointer: nat, code: Code)

  /**
   * A token record.  `conditions` lists the enclosing scope owners outermost
   * first; `nestedParenthesis` lists the openers of the enclosing parentheses
   * outermost first (empty when the token is not inside parentheses).
   */
  datatype Token = Token(
    code: Code,
    content: string,
    level: nat,
    conditions: seq<Condition>,
    nestedParenthesis: seq<nat>,
    parenthesisOwner: Option<nat>,
    parenthesisOpener: Option<nat>,
    parenthesisCloser: Option<nat>,
    scopeOpener: Option<nat>,
    scopeCloser: Option<nat>)

  /**
   * A tokenized file: its tokens and the positions that the property helper
   * classifies as property declarations (that helper is not part of this model).
   */
  datatype File = File(tokens: seq<Token>, properties: set<nat>)

  /** The codes the token helper treats as function-like scope owners. */
  predicate IsFunctionCode(c: Code) {
    c == Function || c == Closure
  }

  /** The loop constructs the loop exemption considers. */
  predicate IsLoopCode(c: Code) {
    c == Foreach || c == For || c == Do || c == While
  }

  /**
   * The codes the token helper skips as ineffective: whitespace and
   * comments.  `DocComment` stands for every doc-comment token kind (the
   * opening and closing markers, the text, the tags and the whitespace and
   * star tokens inside a doc comment).
   */
  const IneffectiveCodes: set<Code> := {Whitespace, Comment, DocComment}

  /** The twelve compound assignment operators. */
  predicate IsCompoundAssignment(c: Code) {
    c in {PlusEqual, MinusEqual, MulEqual, DivEqual, PowEqual, ModEqual,
          AndEqual, OrEqual, XorEqual, SlEqual, SrEqual, ConcatEqual}
  }

  /** Plain `=` or one of the compound assignment operators. */
  predicate IsAssignmentOperator(c: Code) {
    c == Equal || IsCompoundAssignment(c)
  }

  /** The constructs that always carry a parenthesis opener and closer. */
  predicate HasParenthesisPair(c: Code) {
    c == For || c == Foreach || c == While || IsFunctionCode(c)
  }

  /**
   * The code at a pointer that a search returned.  A search that found
   * nothing yields no code, which then matches no code at all.
   */
  function CodeAt(ts: seq<Token>, p: Option<nat>): (r: Option<Code>)
    requires p.Some? ==> p.value < |ts|
    ensures r.Some? <==> p.Some?
    ensures r.Some? ==> r.value == ts[p.value].code
  {
    match p
    case None => None
    case Some(i) => Some(ts[i].code)
  }

  /** Token `i` is a variable spelled `name`. */
  predicate IsVariableNamed(ts: seq<Token>, i: nat, name: string)
    requires i < |ts|
  {
    ts[i].code == Variable && ts[i].content == name
  }

  /** The innermost enclosing parenthesis opener, if any. */
  function InnermostOpener(t: Token): (r: Option<nat>)
    ensures r.Some? <==> |t.nestedParenthesis| > 0
    ensures r.Some? ==> r.value == t.nestedParenthesis[|t.nestedParenthesis| - 1]
  {
    if |t.nestedParenthesis| == 0 then None
    else Some(t.nestedParenthesis[|t.nestedParenthesis| - 1])
  }
}
