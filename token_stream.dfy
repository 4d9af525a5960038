/**
 * What the tokenizer guarantees about the metadata it attaches to every
 * token.  The sniff reads these fields without checking them; a stream that
 * breaks one of these guarantees is a tokenizer fault, not analysed code.
 */
module TokenStream {
  import opened Wrappers
  import opened Tokens
  import opened TokenHelper

  /** An optional pointer, when present, lies inside the stream. */
  predicate InStream(p: Option<nat>, n: nat) {
    p.Some? ==> p.value < n
  }

  /**
   * A `conditions` entry names a token of the same code; a function or loop
   * scope owner has both scope braces; a `do` body is followed by its `while`.
   */
  predicate ValidCondition(ts: seq<Token>, c: Condition) {
    && c.pointer < |ts|
    && ts[c.pointer].code == c.code
    && (IsFunctionCode(c.code) || IsLoopCode(c.code) ==>
          ts[c.pointer].scopeOpener.Some? && ts[c.pointer].scopeCloser.Some?)
    && (c.code == Do ==> ts[c.pointer].scopeCloser.Some? && TrailingWhile(ts, ts[c.pointer].scopeCloser.value))
  }

  /** The first effective token after the closing brace of a `do` body is its `while`. */
  predicate TrailingWhile(ts: seq<Token>, closer: nat) {
    match FindNextEffective(ts, closer + 1)
    case Some(w) => ts[w].code == While
    case None => false
  }

  /** When `use` follows a closure's parameter list, a parenthesised list follows the `use`. */
  predicate ValidUseClause(ts: seq<Token>, closure: nat)
    requires closure < |ts|
  {
    ts[closure].parenthesisCloser.Some? ==>
      match FindNextEffective(ts, ts[closure].parenthesisCloser.value + 1)
      case Some(u) =>
        ts[u].code == Use ==>
          (match FindNextEffective(ts, u + 1)
           case Some(o) => ts[o].parenthesisCloser.Some?
           case None => false)
      case None => true
  }

  /** The pointer fields of token `i` lie inside the stream. */
  predicate PointersValid(ts: seq<Token>, i: nat)
    requires i < |ts|
  {
    var t := ts[i];
    && (forall k :: 0 <= k < |t.nestedParenthesis| ==> t.nestedParenthesis[k] < |ts|)
    && InStream(t.parenthesisOwner, |ts|)
    && InStream(t.parenthesisOpener, |ts|)
    && InStream(t.parenthesisCloser, |ts|)
    && InStream(t.scopeOpener, |ts|)
    && InStream(t.scopeCloser, |ts|)
  }

  /** Every `conditions` entry of token `i` is valid. */
  predicate ConditionsValid(ts: seq<Token>, i: nat)
    requires i < |ts|
  {
    forall k :: 0 <= k < |ts[i].conditions| ==> ValidCondition(ts, ts[i].conditions[k])
  }

  /** Loops and functions carry a parenthesis opener and closer. */
  predicate ParenthesesValid(ts: seq<Token>, i: nat)
    requires i < |ts|
  {
    HasParenthesisPair(ts[i].code) ==> ts[i].parenthesisOpener.Some? && ts[i].parenthesisCloser.Some?
  }

  /** A closure's `use` list, if any, is parenthesised. */
  predicate UseClauseValid(ts: seq<Token>, i: nat)
    requires i < |ts|
  {
    ts[i].code == Closure ==> ValidUseClause(ts, i)
  }

  /** The tokenizer's guarantees for the whole stream. */
  predicate WellFormed(f: File) {
    var ts := f.tokens;
    && (forall i :: 0 <= i < |ts| ==> PointersValid(ts, i))
    && (forall i :: 0 <= i < |ts| ==> ConditionsValid(ts, i))
    && (forall i :: 0 <= i < |ts| ==> ParenthesesValid(ts, i))
    && (forall i :: 0 <= i < |ts| ==> UseClauseValid(ts, i))
  }
}
