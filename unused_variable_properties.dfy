/**
 * Properties of the unused-variable rule stated over the token stream
 * itself rather than over the rule's own search steps: which occurrences
 * count as writes, when the loop exemption cannot apply, which construct
 * owns the scope, and what keeps an occurrence from being reported.
 *
 * The hypotheses name tokens by what a reader sees ("the next effective
 * token is `j`"), written with the search characterisations of the token
 * helper, so each lemma is independent of how the rule finds them.
 */
module UnusedVariableProperties {
  import opened Wrappers
  import opened Tokens
  import opened TokenHelper
  import opened TokenStream
  import opened UnusedVariableSniff

  // ---------------------------------------------------------------------
  // The write classifier

  /** The first effective token after `vp`, if there is one, is not `=`, a compound assignment, `++` or `--`. */
  ghost predicate NoWriteOperatorAfter(ts: seq<Token>, vp: nat) {
    forall j: nat :: IsNextExcluding(ts, IneffectiveCodes, vp + 1, j) ==>
      !IsAssignmentOperator(ts[j].code) && ts[j].code != Inc && ts[j].code != Dec
  }

  /** The innermost parenthesis around `vp` is owned by a function or closure: `vp` is a parameter. */
  predicate InParameterList(f: File, vp: nat)
    requires WellFormed(f) && vp < |f.tokens|
  {
    var owner := InnermostParenthesisOwner(f, vp);
    owner.Some? && IsFunctionCode(f.tokens[owner.value].code)
  }

  /** The innermost parenthesis around `vp` is owned by a construct with code `code`. */
  predicate InParenthesesOf(f: File, vp: nat, code: Code)
    requires WellFormed(f) && vp < |f.tokens|
  {
    var owner := InnermostParenthesisOwner(f, vp);
    owner.Some? && f.tokens[owner.value].code == code
  }

  /** A compound assignment operator after the variable always makes it a write. */
  lemma CompoundAssignmentIsWrite(f: File, vp: nat, j: nat)
    requires WellFormed(f) && vp < |f.tokens|
    requires IsNextExcluding(f.tokens, IneffectiveCodes, vp + 1, j) && IsCompoundAssignment(f.tokens[j].code)
    ensures IsAssignment(f, vp)
  {
    NextExcludingUnique(f.tokens, IneffectiveCodes, vp + 1, j);
  }

  /** A plain `=` after the variable makes it a write unless it is a property declaration or a parameter default. */
  lemma PlainAssignmentIsWrite(f: File, vp: nat, j: nat)
    requires WellFormed(f) && vp < |f.tokens|
    requires IsNextExcluding(f.tokens, IneffectiveCodes, vp + 1, j) && f.tokens[j].code == Equal
    ensures IsAssignment(f, vp) <==> vp !in f.properties && !InParameterList(f, vp)
  {
    NextExcludingUnique(f.tokens, IneffectiveCodes, vp + 1, j);
  }

  /** `++` or `--` after the variable makes it a write exactly when it is not in a `for` header. */
  lemma IncrementIsWrite(f: File, vp: nat, j: nat)
    requires WellFormed(f) && vp < |f.tokens|
    requires IsNextExcluding(f.tokens, IneffectiveCodes, vp + 1, j)
    requires f.tokens[j].code == Inc || f.tokens[j].code == Dec
    ensures IsAssignment(f, vp) <==> !InParenthesesOf(f, vp, For)
  {
    NextExcludingUnique(f.tokens, IneffectiveCodes, vp + 1, j);
  }

  /** The code of the first effective token after `vp` is not a write operator. */
  lemma NextCodeNotWriteOperator(f: File, vp: nat)
    requires WellFormed(f) && vp < |f.tokens| && NoWriteOperatorAfter(f.tokens, vp)
    ensures var next := CodeAt(f.tokens, FindNextEffective(f.tokens, vp + 1));
      next.None? || (!IsAssignmentOperator(next.value) && next.value != Inc && next.value != Dec)
  {
    var p := FindNextEffective(f.tokens, vp + 1);
    if p.Some? {
      assert IsNextExcluding(f.tokens, IneffectiveCodes, vp + 1, p.value);
    }
  }

  /**
   * Without a write operator, a variable in a `foreach` header is a write
   * exactly when the effective token before it is `as` or `=>`.
   */
  lemma ForeachBindingIsWrite(f: File, vp: nat)
    requires WellFormed(f) && vp < |f.tokens|
    requires NoWriteOperatorAfter(f.tokens, vp) && InParenthesesOf(f, vp, Foreach)
    ensures IsAssignment(f, vp) <==>
      exists b: nat :: IsPreviousExcluding(f.tokens, IneffectiveCodes, vp - 1, b)
        && (f.tokens[b].code == As || f.tokens[b].code == DoubleArrow)
  {
    var ts := f.tokens;
    NextCodeNotWriteOperator(f, vp);
    var before := FindPreviousEffective(ts, vp - 1);
    forall b: nat | IsPreviousExcluding(ts, IneffectiveCodes, vp - 1, b)
      ensures before == Some(b)
    {
      PreviousExcludingUnique(ts, IneffectiveCodes, vp - 1, b);
    }
    if before.Some? {
      assert IsPreviousExcluding(ts, IneffectiveCodes, vp - 1, before.value);
    }
  }

  /**
   * Without a write operator and outside a `foreach` header, a variable is a
   * write exactly when it is a `list(...)` or a `[...] =` destructuring target.
   */
  lemma DestructuringOnly(f: File, vp: nat)
    requires WellFormed(f) && vp < |f.tokens|
    requires NoWriteOperatorAfter(f.tokens, vp) && !InParenthesesOf(f, vp, Foreach)
    ensures IsAssignment(f, vp) <==> ListTarget(f, vp) || ShortListTarget(f, vp)
  {
    NextCodeNotWriteOperator(f, vp);
  }

  /** Without a write operator and outside a `foreach` header, a variable inside `list(...)` is a write. */
  lemma ListDestructuringIsWrite(f: File, vp: nat, b: nat)
    requires WellFormed(f) && vp < |f.tokens|
    requires NoWriteOperatorAfter(f.tokens, vp) && !InParenthesesOf(f, vp, Foreach)
    requires InnermostOpener(f.tokens[vp]).Some?
    requires IsPreviousExcluding(f.tokens, IneffectiveCodes, InnermostOpener(f.tokens[vp]).value - 1, b)
    requires f.tokens[b].code == List
    ensures IsAssignment(f, vp)
  {
    DestructuringOnly(f, vp);
    PreviousExcludingUnique(f.tokens, IneffectiveCodes, InnermostOpener(f.tokens[vp]).value - 1, b);
  }

  /**
   * Outside a `foreach` header, a variable followed (past other variables,
   * commas and ineffective tokens) by `]` and then `=` is a write: it is a
   * target of a short-list destructuring assignment.
   */
  lemma ShortListDestructuringIsWrite(f: File, vp: nat, c: nat, e: nat)
    requires WellFormed(f) && vp < |f.tokens| && !InParenthesesOf(f, vp, Foreach)
    requires IsNextExcluding(f.tokens, ShortListCodes, vp + 1, c) && f.tokens[c].code == CloseShortArray
    requires IsNextExcluding(f.tokens, IneffectiveCodes, c + 1, e) && f.tokens[e].code == Equal
    ensures IsAssignment(f, vp)
  {
    ShortListNoWriteOperator(f.tokens, vp, c);
    ShortListFound(f, vp, c, e);
    DestructuringOnly(f, vp);
  }

  /** The searches of the short-list branch find the `]` at `c` and the `=` after it. */
  lemma ShortListFound(f: File, vp: nat, c: nat, e: nat)
    requires WellFormed(f) && vp < |f.tokens|
    requires IsNextExcluding(f.tokens, ShortListCodes, vp + 1, c) && f.tokens[c].code == CloseShortArray
    requires IsNextExcluding(f.tokens, IneffectiveCodes, c + 1, e) && f.tokens[e].code == Equal
    ensures ShortListTarget(f, vp)
  {
    NextExcludingUnique(f.tokens, ShortListCodes, vp + 1, c);
    NextExcludingUnique(f.tokens, IneffectiveCodes, c + 1, e);
  }

  /** Only variables, commas and ineffective tokens lie between `vp` and the `]`, so no write operator follows `vp`. */
  lemma ShortListNoWriteOperator(ts: seq<Token>, vp: nat, c: nat)
    requires IsNextExcluding(ts, ShortListCodes, vp + 1, c) && ts[c].code == CloseShortArray
    ensures NoWriteOperatorAfter(ts, vp)
  {
    assert !Skipped(ts, IneffectiveCodes, c);
    forall j: nat | IsNextExcluding(ts, IneffectiveCodes, vp + 1, j)
      ensures !IsAssignmentOperator(ts[j].code) && ts[j].code != Inc && ts[j].code != Dec
    {
      if j < c {
        assert Skipped(ts, ShortListCodes, j);
      }
    }
  }

  /**
   * In every other case the variable is not a write: no write operator
   * follows, it is not in a `foreach` header, its parenthesis is not a
   * `list(...)`, and it is not followed by `] =`.
   */
  lemma OtherwiseNotWrite(f: File, vp: nat)
    requires WellFormed(f) && vp < |f.tokens|
    requires NoWriteOperatorAfter(f.tokens, vp) && !InParenthesesOf(f, vp, Foreach)
    requires InnermostOpener(f.tokens[vp]).Some? ==>
      forall b: nat :: IsPreviousExcluding(f.tokens, IneffectiveCodes, InnermostOpener(f.tokens[vp]).value - 1, b)
        ==> f.tokens[b].code != List
    requires forall c: nat ::
      (IsNextExcluding(f.tokens, ShortListCodes, vp + 1, c) && f.tokens[c].code == CloseShortArray) ==>
        forall e: nat :: IsNextExcluding(f.tokens, IneffectiveCodes, c + 1, e) ==> f.tokens[e].code != Equal
    ensures !IsAssignment(f, vp)
  {
    var ts := f.tokens;
    DestructuringOnly(f, vp);
    var opener := InnermostOpener(ts[vp]);
    if opener.Some? {
      PointersInStream(f, vp);
      var before := FindPreviousEffective(ts, opener.value as int - 1);
      if before.Some? {
        assert IsPreviousExcluding(ts, IneffectiveCodes, opener.value - 1, before.value);
      }
    }
    var closer := FindNextExcluding(ts, ShortListCodes, vp + 1);
    if closer.Some? && ts[closer.value].code == CloseShortArray {
      assert IsNextExcluding(ts, ShortListCodes, vp + 1, closer.value);
      var after := FindNextEffective(ts, closer.value + 1);
      if after.Some? {
        assert IsNextExcluding(ts, IneffectiveCodes, closer.value + 1, after.value);
      }
    }
  }

  // ---------------------------------------------------------------------
  // The loop exemption

  /** Without a loop between the variable and its enclosing function, the loop exemption never applies. */
  lemma NoLoopNoLoopExemption(f: File, vp: nat, name: string)
    requires WellFormed(f) && vp < |f.tokens|
    requires var conds := f.tokens[vp].conditions;
      forall k :: ScopeStart(conds) <= k < |conds| ==> !IsLoopCode(conds[k].code)
    ensures !UsedInLoop(f, vp, name)
  {
  }

  /** When every same-named token in a loop body is itself a write, the body does not read the variable. */
  lemma WritesAreNotReads(f: File, loop: nat, name: string)
    requires WellFormed(f) && loop < |f.tokens|
    requires f.tokens[loop].scopeOpener.Some? && f.tokens[loop].scopeCloser.Some?
    requires forall i ::
      (ScopeOpener(f, loop) < i < ScopeCloser(f, loop) && IsVariableNamed(f.tokens, i, name)) ==> IsAssignment(f, i)
    ensures !BodyReads(f, loop, name)
  {
  }

  // ---------------------------------------------------------------------
  // Scope resolution

  /** Inside a function, the innermost enclosing function or closure owns the scope, which ends at its closing brace. */
  lemma ScopeOwnerIsInnermostFunction(f: File, vp: nat, k: nat)
    requires WellFormed(f) && vp < |f.tokens| && f.tokens[vp].code == Variable
    requires k < |f.tokens[vp].conditions| && IsFunctionCode(f.tokens[vp].conditions[k].code)
    requires forall m :: k < m < |f.tokens[vp].conditions| ==> !IsFunctionCode(f.tokens[vp].conditions[m].code)
    ensures ScopeOwner(f, vp) == Some(f.tokens[vp].conditions[k].pointer)
    ensures ScopeEnd(f, vp).Some? && f.tokens[ScopeOwner(f, vp).value].scopeCloser == ScopeEnd(f, vp)
  {
    ScopeStartAt(f.tokens[vp].conditions, k + 1);
    ConditionValidAt(f, vp, k);
  }

  /** Outside every function, the nearest open tag before the variable owns the scope, which runs to the last token. */
  lemma ScopeOwnerIsOpenTag(f: File, vp: nat, t: nat)
    requires WellFormed(f) && vp < |f.tokens| && f.tokens[vp].code == Variable
    requires forall m :: 0 <= m < |f.tokens[vp].conditions| ==> !IsFunctionCode(f.tokens[vp].conditions[m].code)
    requires t < vp && f.tokens[t].code == OpenTag
    requires forall m :: t < m < vp ==> f.tokens[m].code != OpenTag
    ensures ScopeOwner(f, vp) == Some(t)
    ensures ScopeEnd(f, vp) == Some(|f.tokens| - 1)
  {
    ScopeStartAt(f.tokens[vp].conditions, 0);
    forall m | t < m <= vp - 1
      ensures !HasCode(f.tokens, OpenTag, m)
    {
    }
    PreviousUnique(f.tokens, OpenTag, vp - 1, t);
  }

  /**
   * Outside every function, with no `<?php` tag before the variable (only
   * `<?=` tags, say), there is no scope owner and no scope end: no exemption
   * is consulted and no later read is looked for.
   */
  lemma NoOpenTagNoScope(f: File, vp: nat)
    requires WellFormed(f) && vp < |f.tokens| && f.tokens[vp].code == Variable
    requires forall m :: 0 <= m < |f.tokens[vp].conditions| ==> !IsFunctionCode(f.tokens[vp].conditions[m].code)
    requires forall t :: 0 <= t < vp ==> f.tokens[t].code != OpenTag
    ensures ScopeOwner(f, vp).None? && ScopeEnd(f, vp).None?
    ensures Reportable(f, vp) <==>
      && IsAssignment(f, vp)
      && !AfterMemberOperator(f.tokens, vp)
      && !UsedInForLoopCondition(f, vp, f.tokens[vp].content)
      && !UsedInLoop(f, vp, f.tokens[vp].content)
  {
    ScopeStartAt(f.tokens[vp].conditions, 0);
    assert forall m :: 0 <= m <= vp - 1 ==> !HasCode(f.tokens, OpenTag, m);
  }

  // ---------------------------------------------------------------------
  // Shadowing and reporting

  /**
   * A closure between `p` and the variable's own level hides `p`: a token
   * inside a nested closure never counts as a read.
   */
  lemma NestedClosureHides(f: File, vp: nat, p: nat, k: nat)
    requires WellFormed(f) && vp < |f.tokens| && p < |f.tokens|
    requires k < |f.tokens[p].conditions| && f.tokens[p].conditions[k].code == Closure
    requires forall m :: k <= m < |f.tokens[p].conditions| ==>
      (ConditionPointersInStream(f, p); f.tokens[f.tokens[p].conditions[m].pointer].level > f.tokens[vp].level)
    ensures !InSameScope(f, vp, p)
  {
  }

  /** A token with no enclosing closure is always in the same scope as the variable. */
  lemma NoClosureSameScope(f: File, vp: nat, p: nat)
    requires WellFormed(f) && vp < |f.tokens| && p < |f.tokens|
    requires forall m :: 0 <= m < |f.tokens[p].conditions| ==> f.tokens[p].conditions[m].code != Closure
    ensures InSameScope(f, vp, p)
  {
  }

  /**
   * The walk stops at the first entry whose level is at most the variable's
   * own, before it looks at that entry's code.  So when the innermost
   * construct around `p` sits at the variable's level or above it, `p` is in
   * the same scope, even when that construct is a closure: a closure that is
   * a sibling statement of the write does not hide its own variables.
   */
  lemma ShallowClosureDoesNotHide(f: File, vp: nat, p: nat)
    requires WellFormed(f) && vp < |f.tokens| && p < |f.tokens|
    requires |f.tokens[p].conditions| > 0
    requires var c := f.tokens[p].conditions[|f.tokens[p].conditions| - 1];
      c.pointer < |f.tokens| && f.tokens[c.pointer].level <= f.tokens[vp].level
    ensures InSameScope(f, vp, p)
  {
    ConditionPointersInStream(f, p);
    var conds := f.tokens[p].conditions;
    var last := |conds| - 1;
    forall k | 0 <= k < |conds| && conds[k].code == Closure
      ensures !(forall m :: k <= m < |conds| ==> f.tokens[conds[m].pointer].level > f.tokens[vp].level)
    {
      assert k <= last;
    }
  }

  /** A later same-named variable in the scope, not hidden by a closure, keeps the write from being reported. */
  lemma ReadLaterSuppressesReport(f: File, vp: nat, i: nat)
    requires WellFormed(f) && vp < |f.tokens| && f.tokens[vp].code == Variable
    requires ScopeEnd(f, vp).Some? && vp < i <= ScopeEnd(f, vp).value
    requires IsVariableNamed(f.tokens, i, f.tokens[vp].content)
    requires InSameScope(f, vp, i)
    ensures !Reportable(f, vp)
  {
  }

  /** Only writes are reported, and never member accesses through `->` or `::`. */
  lemma OnlyWritesReported(f: File, vp: nat)
    requires WellFormed(f) && vp < |f.tokens| && f.tokens[vp].code == Variable
    requires Reportable(f, vp)
    ensures IsAssignment(f, vp)
    ensures vp > 0 ==> f.tokens[vp - 1].code != ObjectOperator && f.tokens[vp - 1].code != DoubleColon
  {
  }

  // ---------------------------------------------------------------------
  // The scope a variable without an owner evidently should have

  /**
   * The scope end the rule evidently intends: outside every function the
   * scope runs to the last token whether or not a `<?php` tag precedes the
   * variable.
   */
  ghost function IntendedScopeEnd(f: File, vp: nat): (closer: nat)
    requires WellFormed(f) && vp < |f.tokens| && f.tokens[vp].code == Variable
    ensures closer < |f.tokens|
    ensures ScopeOwner(f, vp).None? ==> closer == |f.tokens| - 1
  {
    match ScopeEnd(f, vp)
    case Some(c) => c
    case None => |f.tokens| - 1
  }

  /** `Reportable` with the intended scope end, so the forward scan always runs. */
  ghost predicate IntendedReportable(f: File, vp: nat)
    requires WellFormed(f) && vp < |f.tokens| && f.tokens[vp].code == Variable
  {
    var name := f.tokens[vp].content;
    var owner := ScopeOwner(f, vp);
    && IsAssignment(f, vp)
    && !AfterMemberOperator(f.tokens, vp)
    && !UsedInForLoopCondition(f, vp, name)
    && !UsedInLoop(f, vp, name)
    && (owner.Some? ==> !ExemptInFunction(f, owner.value, name))
    && !UsedLater(f, vp, IntendedScopeEnd(f, vp), name)
  }

  /** With the intended scope, a later same-scope read suppresses the report in every file, owner or not. */
  lemma IntendedReadLaterSuppressesReport(f: File, vp: nat, i: nat)
    requires WellFormed(f) && vp < |f.tokens| && f.tokens[vp].code == Variable
    requires vp < i < |f.tokens| && IsVariableNamed(f.tokens, i, f.tokens[vp].content)
    requires ScopeEnd(f, vp).Some? ==> i <= ScopeEnd(f, vp).value
    requires InSameScope(f, vp, i)
    ensures !IntendedReportable(f, vp)
  {
  }

  /** The intended rule and the source agree whenever the source finds a scope owner. */
  lemma IntendedAgreesWithOwner(f: File, vp: nat)
    requires WellFormed(f) && vp < |f.tokens| && f.tokens[vp].code == Variable
    requires ScopeOwner(f, vp).Some?
    ensures IntendedReportable(f, vp) <==> Reportable(f, vp)
  {
  }
}
