/**
 * Small token streams written out by hand for the PHP snippet above each
 * one, and what the rule decides for them.  The streams are simplified:
 * whitespace tokens are left out, and only the fields the rule reads are
 * filled in.
 * The `...WellFormed` lemmas check the tokenizer's guarantees token by
 * token; the larger streams check them one guarantee at a time.
 */
module UnusedVariableScenarios {
  import opened Wrappers
  import opened Tokens
  import opened TokenHelper
  import opened TokenStream
  import opened UnusedVariableSniff
  import opened UnusedVariableProperties

  /** Codes of tokens the rule does not distinguish. */
  const Number: Code := 100
  const Semicolon: Code := 101
  const OpenCurlyBracket: Code := 102
  const CloseCurlyBracket: Code := 103
  const Echo: Code := 104
  const If: Code := 105
  const True: Code := 106
  const OpenTagWithEcho: Code := 107
  const CloseTag: Code := 108

  /** `<?php $x = 1;` */
  const UnusedWrite: File := File([
    Token(OpenTag, "<?php", 0, [], [], None, None, None, None, None),
    Token(Variable, "$x", 0, [], [], None, None, None, None, None),
    Token(Equal, "=", 0, [], [], None, None, None, None, None),
    Token(Number, "1", 0, [], [], None, None, None, None, None),
    Token(Semicolon, ";", 0, [], [], None, None, None, None, None)
  ], {})

  lemma UnusedWriteWellFormed()
    ensures WellFormed(UnusedWrite)
  {
    var ts := UnusedWrite.tokens;
    forall i | 0 <= i < |ts| ensures PointersValid(ts, i) { }
    forall i | 0 <= i < |ts| ensures ConditionsValid(ts, i) { }
    forall i | 0 <= i < |ts| ensures ParenthesesValid(ts, i) { }
    forall i | 0 <= i < |ts| ensures UseClauseValid(ts, i) { }
  }

  /** A write that nothing reads is reported. */
  lemma UnusedWriteReported()
    ensures WellFormed(UnusedWrite)
    ensures Reportable(UnusedWrite, 1)
  {
    UnusedWriteWellFormed();
    var f := UnusedWrite;
    var ts := f.tokens;
    assert FindNextEffective(ts, 2) == Some(2);
    assert FindPrevious(ts, OpenTag, 0) == Some(0);
    forall i | 1 < i <= 4
      ensures !IsVariableNamed(ts, i, "$x")
    {
    }
  }

  /** `<?php $x = 1; echo $x;` */
  const ReadLater: File := File([
    Token(OpenTag, "<?php", 0, [], [], None, None, None, None, None),
    Token(Variable, "$x", 0, [], [], None, None, None, None, None),
    Token(Equal, "=", 0, [], [], None, None, None, None, None),
    Token(Number, "1", 0, [], [], None, None, None, None, None),
    Token(Semicolon, ";", 0, [], [], None, None, None, None, None),
    Token(Echo, "echo", 0, [], [], None, None, None, None, None),
    Token(Variable, "$x", 0, [], [], None, None, None, None, None),
    Token(Semicolon, ";", 0, [], [], None, None, None, None, None)
  ], {})

  lemma ReadLaterWellFormed()
    ensures WellFormed(ReadLater)
  {
    var ts := ReadLater.tokens;
    forall i | 0 <= i < |ts| ensures PointersValid(ts, i) { }
    forall i | 0 <= i < |ts| ensures ConditionsValid(ts, i) { }
    forall i | 0 <= i < |ts| ensures ParenthesesValid(ts, i) { }
    forall i | 0 <= i < |ts| ensures UseClauseValid(ts, i) { }
  }

  /** A write read later in the same scope is not reported; neither is the read. */
  lemma ReadLaterNotReported()
    ensures WellFormed(ReadLater)
    ensures !Reportable(ReadLater, 1) && !Reportable(ReadLater, 6)
  {
    ReadLaterWellFormed();
    var f := ReadLater;
    var ts := f.tokens;
    assert FindPrevious(ts, OpenTag, 0) == Some(0);
    ReadLaterSuppressesReport(f, 1, 6);
    assert FindNextEffective(ts, 7) == Some(7);
  }

  /** `<?php $x = 1; $f = function () { $x = 2; };`: the closure is a sibling statement of the first write. */
  const SiblingClosure: File := File([
    Token(OpenTag, "<?php", 0, [], [], None, None, None, None, None),
    Token(Variable, "$x", 0, [], [], None, None, None, None, None),
    Token(Equal, "=", 0, [], [], None, None, None, None, None),
    Token(Number, "1", 0, [], [], None, None, None, None, None),
    Token(Semicolon, ";", 0, [], [], None, None, None, None, None),
    Token(Variable, "$f", 0, [], [], None, None, None, None, None),
    Token(Equal, "=", 0, [], [], None, None, None, None, None),
    Token(Closure, "function", 0, [], [], None, Some(8), Some(9), Some(10), Some(15)),
    Token(OpenParenthesis, "(", 0, [], [], Some(7), Some(8), Some(9), None, None),
    Token(CloseParenthesis, ")", 0, [], [], Some(7), Some(8), Some(9), None, None),
    Token(OpenCurlyBracket, "{", 0, [], [], None, None, None, None, None),
    Token(Variable, "$x", 1, [Condition(7, Closure)], [], None, None, None, None, None),
    Token(Equal, "=", 1, [Condition(7, Closure)], [], None, None, None, None, None),
    Token(Number, "2", 1, [Condition(7, Closure)], [], None, None, None, None, None),
    Token(Semicolon, ";", 1, [Condition(7, Closure)], [], None, None, None, None, None),
    Token(CloseCurlyBracket, "}", 0, [], [], None, None, None, None, None),
    Token(Semicolon, ";", 0, [], [], None, None, None, None, None)
  ], {})

  lemma SiblingClosurePointersValid()
    ensures forall i :: 0 <= i < |SiblingClosure.tokens| ==> PointersValid(SiblingClosure.tokens, i)
  {
    var ts := SiblingClosure.tokens;
    forall i | 0 <= i < |ts| ensures ts[i].nestedParenthesis == [] { }
    forall i | 0 <= i < |ts| ensures PointersValid(ts, i) { }
  }

  lemma SiblingClosureConditionsValid()
    ensures forall i :: 0 <= i < |SiblingClosure.tokens| ==> ConditionsValid(SiblingClosure.tokens, i)
  {
    var ts := SiblingClosure.tokens;
    var closure := Condition(7, Closure);
    assert ValidCondition(ts, closure);
    forall i | 0 <= i < |ts| ensures ts[i].conditions == [] || ts[i].conditions == [closure] { }
  }

  lemma SiblingClosureParenthesesValid()
    ensures forall i :: 0 <= i < |SiblingClosure.tokens| ==> ParenthesesValid(SiblingClosure.tokens, i)
  {
    var ts := SiblingClosure.tokens;
    forall i | 0 <= i < |ts| ensures ParenthesesValid(ts, i) { }
  }

  lemma SiblingClosureUseClauseValid()
    ensures forall i :: 0 <= i < |SiblingClosure.tokens| ==> UseClauseValid(SiblingClosure.tokens, i)
  {
    var ts := SiblingClosure.tokens;
    assert FindNextEffective(ts, 10) == Some(10);
    forall i | 0 <= i < |ts| ensures UseClauseValid(ts, i) { }
  }

  lemma SiblingClosureWellFormed()
    ensures WellFormed(SiblingClosure)
  {
    SiblingClosurePointersValid();
    SiblingClosureConditionsValid();
    SiblingClosureParenthesesValid();
    SiblingClosureUseClauseValid();
  }

  /**
   * The inner `$x` belongs to the closure's own scope, yet the level test
   * stops the walk at the closure, whose level equals the outer write's, so
   * the inner `$x` counts as a read and the outer write is not reported.
   */
  lemma SiblingClosureHidesNothing()
    ensures WellFormed(SiblingClosure)
    ensures InSameScope(SiblingClosure, 1, 11) && !Reportable(SiblingClosure, 1)
  {
    SiblingClosureWellFormed();
    var f := SiblingClosure;
    assert FindPrevious(f.tokens, OpenTag, 0) == Some(0);
    ShallowClosureDoesNotHide(f, 1, 11);
    ReadLaterSuppressesReport(f, 1, 11);
  }

  /** The write inside the closure, which nothing after it reads, is reported. */
  lemma SiblingClosureInnerWriteReported()
    ensures WellFormed(SiblingClosure)
    ensures Reportable(SiblingClosure, 11)
  {
    SiblingClosureWellFormed();
    var f := SiblingClosure;
    var ts := f.tokens;
    assert FindNextEffective(ts, 12) == Some(12);
    ScopeOwnerIsInnermostFunction(f, 11, 0);
    assert FindNextEffective(ts, 10) == Some(10);
    forall i | 11 < i <= 15
      ensures !IsVariableNamed(ts, i, "$x")
    {
    }
    forall i | 8 < i < 15
      ensures !IsVariableNamed(ts, i, "$x") || CodeAt(ts, FindPreviousEffective(ts, i - 1)) != Some(Static)
    {
      if i == 11 {
        assert FindPreviousEffective(ts, 10) == Some(10);
      }
    }
  }

  /** `<?php $x = 1; if (true) { $f = function () { $x = 2; }; }`: the closure is nested one level below the write. */
  const NestedClosure: File := File([
    Token(OpenTag, "<?php", 0, [], [], None, None, None, None, None),
    Token(Variable, "$x", 0, [], [], None, None, None, None, None),
    Token(Equal, "=", 0, [], [], None, None, None, None, None),
    Token(Number, "1", 0, [], [], None, None, None, None, None),
    Token(Semicolon, ";", 0, [], [], None, None, None, None, None),
    Token(If, "if", 0, [], [], None, Some(6), Some(8), Some(9), Some(22)),
    Token(OpenParenthesis, "(", 0, [], [], Some(5), Some(6), Some(8), None, None),
    Token(True, "true", 0, [], [], None, None, None, None, None),
    Token(CloseParenthesis, ")", 0, [], [], Some(5), Some(6), Some(8), None, None),
    Token(OpenCurlyBracket, "{", 0, [], [], None, None, None, None, None),
    Token(Variable, "$f", 1, [Condition(5, If)], [], None, None, None, None, None),
    Token(Equal, "=", 1, [Condition(5, If)], [], None, None, None, None, None),
    Token(Closure, "function", 1, [Condition(5, If)], [], None, Some(13), Some(14), Some(15), Some(20)),
    Token(OpenParenthesis, "(", 1, [Condition(5, If)], [], Some(12), Some(13), Some(14), None, None),
    Token(CloseParenthesis, ")", 1, [Condition(5, If)], [], Some(12), Some(13), Some(14), None, None),
    Token(OpenCurlyBracket, "{", 1, [Condition(5, If)], [], None, None, None, None, None),
    Token(Variable, "$x", 2, [Condition(5, If), Condition(12, Closure)], [], None, None, None, None, None),
    Token(Equal, "=", 2, [Condition(5, If), Condition(12, Closure)], [], None, None, None, None, None),
    Token(Number, "2", 2, [Condition(5, If), Condition(12, Closure)], [], None, None, None, None, None),
    Token(Semicolon, ";", 2, [Condition(5, If), Condition(12, Closure)], [], None, None, None, None, None),
    Token(CloseCurlyBracket, "}", 1, [Condition(5, If)], [], None, None, None, None, None),
    Token(Semicolon, ";", 1, [Condition(5, If)], [], None, None, None, None, None),
    Token(CloseCurlyBracket, "}", 0, [], [], None, None, None, None, None)
  ], {})

  lemma NestedClosurePointersValid()
    ensures forall i :: 0 <= i < |NestedClosure.tokens| ==> PointersValid(NestedClosure.tokens, i)
  {
    var ts := NestedClosure.tokens;
    forall i | 0 <= i < |ts| ensures ts[i].nestedParenthesis == [] { }
    forall i | 0 <= i < |ts| ensures PointersValid(ts, i) { }
  }

  lemma NestedClosureConditionsValid()
    ensures forall i :: 0 <= i < |NestedClosure.tokens| ==> ConditionsValid(NestedClosure.tokens, i)
  {
    var ts := NestedClosure.tokens;
    var ifCondition, closure := Condition(5, If), Condition(12, Closure);
    assert ValidCondition(ts, ifCondition) && ValidCondition(ts, closure);
    forall i | 0 <= i < |ts|
      ensures ts[i].conditions == [] || ts[i].conditions == [ifCondition] || ts[i].conditions == [ifCondition, closure]
    {
    }
  }

  lemma NestedClosureParenthesesValid()
    ensures forall i :: 0 <= i < |NestedClosure.tokens| ==> ParenthesesValid(NestedClosure.tokens, i)
  {
    var ts := NestedClosure.tokens;
    forall i | 0 <= i < |ts| ensures ParenthesesValid(ts, i) { }
  }

  lemma NestedClosureUseClauseValid()
    ensures forall i :: 0 <= i < |NestedClosure.tokens| ==> UseClauseValid(NestedClosure.tokens, i)
  {
    var ts := NestedClosure.tokens;
    assert FindNextEffective(ts, 15) == Some(15);
    forall i | 0 <= i < |ts| ensures UseClauseValid(ts, i) { }
  }

  lemma NestedClosureWellFormed()
    ensures WellFormed(NestedClosure)
  {
    NestedClosurePointersValid();
    NestedClosureConditionsValid();
    NestedClosureParenthesesValid();
    NestedClosureUseClauseValid();
  }

  /** The only later `$x` sits inside the closure, which hides it. */
  lemma NestedClosureNoLaterRead()
    ensures WellFormed(NestedClosure)
    ensures !UsedLater(NestedClosure, 1, 22, "$x")
  {
    NestedClosureWellFormed();
    var f := NestedClosure;
    var ts := f.tokens;
    NestedClosureHides(f, 1, 16, 1);
    forall i | 1 < i <= 22 && i != 16
      ensures !IsVariableNamed(ts, i, "$x")
    {
    }
  }

  /** A closure nested below the write's level hides its own `$x`: the outer write is reported. */
  lemma NestedClosureReported()
    ensures WellFormed(NestedClosure)
    ensures Reportable(NestedClosure, 1)
  {
    NestedClosureNoLaterRead();
    var f := NestedClosure;
    var ts := f.tokens;
    assert FindNextEffective(ts, 2) == Some(2);
    NoLoopNoLoopExemption(f, 1, "$x");
    ScopeOwnerIsOpenTag(f, 1, 0);
  }

  /** `<?= $x = 1 ?><?php echo $x;`: only a `<?=` tag precedes the write. */
  const EchoTag: File := File([
    Token(OpenTagWithEcho, "<?=", 0, [], [], None, None, None, None, None),
    Token(Variable, "$x", 0, [], [], None, None, None, None, None),
    Token(Equal, "=", 0, [], [], None, None, None, None, None),
    Token(Number, "1", 0, [], [], None, None, None, None, None),
    Token(CloseTag, "?>", 0, [], [], None, None, None, None, None),
    Token(OpenTag, "<?php", 0, [], [], None, None, None, None, None),
    Token(Echo, "echo", 0, [], [], None, None, None, None, None),
    Token(Variable, "$x", 0, [], [], None, None, None, None, None),
    Token(Semicolon, ";", 0, [], [], None, None, None, None, None)
  ], {})

  lemma EchoTagWellFormed()
    ensures WellFormed(EchoTag)
  {
    var ts := EchoTag.tokens;
    forall i | 0 <= i < |ts| ensures PointersValid(ts, i) { }
    forall i | 0 <= i < |ts| ensures ConditionsValid(ts, i) { }
    forall i | 0 <= i < |ts| ensures ParenthesesValid(ts, i) { }
    forall i | 0 <= i < |ts| ensures UseClauseValid(ts, i) { }
  }

  /**
   * The search for a `<?php` tag before the write fails, so the write has
   * no scope owner and the later read at token 7, in the same scope, is
   * never looked at: the write is reported.  With the intended scope, which
   * runs to the last token, it is not.
   */
  lemma EchoTagReadIgnored()
    ensures WellFormed(EchoTag)
    ensures IsVariableNamed(EchoTag.tokens, 7, "$x") && InSameScope(EchoTag, 1, 7)
    ensures Reportable(EchoTag, 1)
    ensures !IntendedReportable(EchoTag, 1)
  {
    EchoTagWellFormed();
    var f := EchoTag;
    var ts := f.tokens;
    assert FindNextEffective(ts, 2) == Some(2);
    NoOpenTagNoScope(f, 1);
    NoClosureSameScope(f, 1, 7);
    IntendedReadLaterSuppressesReport(f, 1, 7);
  }
}
