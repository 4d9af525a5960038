/**
 * The unused-variable rule: for one variable token of a tokenized PHP file,
 * decide whether it is a write whose value is never read again in its scope,
 * and if so produce the one diagnostic the rule reports for it.
 *
 * Every step is a read-only computation over the token stream.  The steps
 * that the rule performs with an index loop are methods, each proved equal
 * to a declarative predicate stated next to it; `Process` is proved equal to
 * `Reportable`, which combines them.
 */
module UnusedVariableSniff {
  import opened Wrappers
  import opened Tokens
  import opened TokenHelper
  import opened TokenStream

  /** The rule's error code. */
  const CodeUnusedVariable: string := "UnusedVariable"

  /** One reported error: its message, the token it is reported at and its code. */
  datatype Diagnostic = Diagnostic(message: string, pointer: nat, code: string)

  /** The message of the error reported for variable `name`. */
  function UnusedMessage(name: string): (message: string) {
    "Unused variable " + name + "."
  }

  // ---------------------------------------------------------------------
  // Field access under the tokenizer's guarantees

  function ParenthesisOpener(f: File, p: nat): (r: nat)
    requires WellFormed(f) && p < |f.tokens| && f.tokens[p].parenthesisOpener.Some?
    ensures r < |f.tokens|
  {
    PointersInStream(f, p);
    f.tokens[p].parenthesisOpener.value
  }

  function ParenthesisCloser(f: File, p: nat): (r: nat)
    requires WellFormed(f) && p < |f.tokens| && f.tokens[p].parenthesisCloser.Some?
    ensures r < |f.tokens|
  {
    PointersInStream(f, p);
    f.tokens[p].parenthesisCloser.value
  }

  function ScopeOpener(f: File, p: nat): (r: nat)
    requires WellFormed(f) && p < |f.tokens| && f.tokens[p].scopeOpener.Some?
    ensures r < |f.tokens|
  {
    PointersInStream(f, p);
    f.tokens[p].scopeOpener.value
  }

  function ScopeCloser(f: File, p: nat): (r: nat)
    requires WellFormed(f) && p < |f.tokens| && f.tokens[p].scopeCloser.Some?
    ensures r < |f.tokens|
  {
    PointersInStream(f, p);
    f.tokens[p].scopeCloser.value
  }

  /** The owner of the innermost parenthesis around token `vp`, when that parenthesis has one. */
  function InnermostParenthesisOwner(f: File, vp: nat): (r: Option<nat>)
    requires WellFormed(f) && vp < |f.tokens|
    ensures r.Some? ==> r.value < |f.tokens|
  {
    var ts := f.tokens;
    PointersInStream(f, vp);
    match InnermostOpener(ts[vp])
    case None => None
    case Some(o) => PointersInStream(f, o); ts[o].parenthesisOwner
  }

  /** The pointer fields of a token lie inside the stream. */
  lemma PointersInStream(f: File, p: nat)
    requires WellFormed(f) && p < |f.tokens|
    ensures forall k :: 0 <= k < |f.tokens[p].nestedParenthesis| ==> f.tokens[p].nestedParenthesis[k] < |f.tokens|
    ensures InStream(f.tokens[p].parenthesisOwner, |f.tokens|)
    ensures InStream(f.tokens[p].parenthesisOpener, |f.tokens|)
    ensures InStream(f.tokens[p].parenthesisCloser, |f.tokens|)
    ensures InStream(f.tokens[p].scopeOpener, |f.tokens|)
    ensures InStream(f.tokens[p].scopeCloser, |f.tokens|)
  {
    assert PointersValid(f.tokens, p);
  }

  /** Loops and functions carry their parentheses. */
  lemma ParenthesesPresent(f: File, p: nat)
    requires WellFormed(f) && p < |f.tokens| && HasParenthesisPair(f.tokens[p].code)
    ensures f.tokens[p].parenthesisOpener.Some? && f.tokens[p].parenthesisCloser.Some?
  {
    assert ParenthesesValid(f.tokens, p);
  }

  /** Every `conditions` entry of a token points into the stream. */
  lemma ConditionPointersInStream(f: File, p: nat)
    requires WellFormed(f) && p < |f.tokens|
    ensures forall k :: 0 <= k < |f.tokens[p].conditions| ==> f.tokens[p].conditions[k].pointer < |f.tokens|
  {
    AllConditionsValid(f, p);
  }

  /** Every `conditions` entry of a token satisfies the tokenizer's guarantees. */
  lemma AllConditionsValid(f: File, p: nat)
    requires WellFormed(f) && p < |f.tokens|
    ensures forall k :: 0 <= k < |f.tokens[p].conditions| ==> ValidCondition(f.tokens, f.tokens[p].conditions[k])
  {
    assert ConditionsValid(f.tokens, p);
  }

  /** One `conditions` entry satisfies the tokenizer's guarantees. */
  lemma ConditionValidAt(f: File, p: nat, k: nat)
    requires WellFormed(f) && p < |f.tokens| && k < |f.tokens[p].conditions|
    ensures ValidCondition(f.tokens, f.tokens[p].conditions[k])
  {
    assert ConditionsValid(f.tokens, p);
  }

  // ---------------------------------------------------------------------
  // Is the occurrence a write at all?

  /** What the search for a short list's closing bracket skips: the variables and commas of the list, and ineffective tokens. */
  const ShortListCodes: set<Code> := IneffectiveCodes + {Variable, Comma}

  /**
   * The write classifier: an assignment (not to a property, not a parameter
   * default), an increment or decrement outside a `for` header, a `foreach`
   * binding, or a destructuring target in `list(...)` or `[...] =`.
   */
  function IsAssignment(f: File, vp: nat): (isWrite: bool)
    requires WellFormed(f) && vp < |f.tokens|
    // a compound assignment is always a write
    ensures var next := CodeAt(f.tokens, FindNextEffective(f.tokens, vp + 1));
      next.Some? && IsAssignmentOperator(next.value) && next.value != Equal ==> isWrite
    // a property declaration with a default value is never one
    ensures vp in f.properties && CodeAt(f.tokens, FindNextEffective(f.tokens, vp + 1)) == Some(Equal) ==> !isWrite
  {
    var ts := f.tokens;
    var nextCode := CodeAt(ts, FindNextEffective(ts, vp + 1));
    var owner := InnermostParenthesisOwner(f, vp);
    PointersInStream(f, vp);
    if nextCode.Some? && IsAssignmentOperator(nextCode.value) then
      if nextCode.value == Equal && vp in f.properties then false
      else if nextCode.value == Equal && owner.Some? && IsFunctionCode(ts[owner.value].code) then
        false // a parameter with a default value
      else true
    else if nextCode == Some(Inc) || nextCode == Some(Dec) then
      owner.None? || ts[owner.value].code != For
    else if owner.Some? && ts[owner.value].code == Foreach then
      var before := CodeAt(ts, FindPreviousEffective(ts, vp - 1));
      before == Some(As) || before == Some(DoubleArrow)
    else if ListTarget(f, vp) then
      true
    else
      ShortListTarget(f, vp)
  }

  /** The effective token before the innermost parenthesis around `vp` is `list`. */
  predicate ListTarget(f: File, vp: nat): (isTarget: bool)
    requires WellFormed(f) && vp < |f.tokens|
    ensures isTarget ==> InnermostOpener(f.tokens[vp]).Some?
    ensures isTarget ==> exists b :: 0 <= b < InnermostOpener(f.tokens[vp]).value && b < |f.tokens| && f.tokens[b].code == List
  {
    var ts := f.tokens;
    var opener := InnermostOpener(ts[vp]);
    PointersInStream(f, vp);
    opener.Some? && CodeAt(ts, FindPreviousEffective(ts, opener.value - 1)) == Some(List)
  }

  /** Past variables, commas and ineffective tokens, `vp` is followed by `]` and then by `=`. */
  predicate ShortListTarget(f: File, vp: nat): (isTarget: bool)
    requires WellFormed(f) && vp < |f.tokens|
    ensures isTarget <==> exists c: nat, e: nat ::
      && IsNextExcluding(f.tokens, ShortListCodes, vp + 1, c) && f.tokens[c].code == CloseShortArray
      && IsNextExcluding(f.tokens, IneffectiveCodes, c + 1, e) && f.tokens[e].code == Equal
  {
    var ts := f.tokens;
    var shortListCloser := FindNextExcluding(ts, ShortListCodes, vp + 1);
    if CodeAt(ts, shortListCloser) == Some(CloseShortArray) then
      CodeAt(ts, FindNextEffective(ts, shortListCloser.value + 1)) == Some(Equal)
    else false
  }

  // ---------------------------------------------------------------------
  // Exemption: the variable also appears elsewhere in its `for` header

  /** The innermost parenthesis around `vp` belongs to a `for`, and another variable named `name` lies inside it. */
  ghost predicate UsedInForLoopCondition(f: File, vp: nat, name: string)
    requires WellFormed(f) && vp < |f.tokens|
  {
    var ts := f.tokens;
    var owner := InnermostParenthesisOwner(f, vp);
    && owner.Some?
    && ts[owner.value].code == For
    && (ParenthesesPresent(f, owner.value);
        exists i :: InnermostOpener(ts[vp]).value < i < ParenthesisCloser(f, owner.value)
          && i != vp && IsVariableNamed(ts, i, name))
  }

  method IsUsedInForLoopCondition(f: File, vp: nat, name: string) returns (used: bool)
    requires WellFormed(f) && vp < |f.tokens|
    ensures used == UsedInForLoopCondition(f, vp, name)
  {
    var ts := f.tokens;
    if |ts[vp].nestedParenthesis| == 0 {
      return false;
    }
    PointersInStream(f, vp);
    var opener := ts[vp].nestedParenthesis[|ts[vp].nestedParenthesis| - 1];
    PointersInStream(f, opener);
    if ts[opener].parenthesisOwner.None? {
      return false;
    }
    var owner := ts[opener].parenthesisOwner.value;
    if ts[owner].code != For {
      return false;
    }
    ParenthesesPresent(f, owner);
    var closer := ParenthesisCloser(f, owner);
    var i := opener + 1;
    while i < closer
      invariant opener < i && (i <= closer || i == opener + 1)
      invariant forall j :: opener < j < i && j < closer ==> j == vp || !IsVariableNamed(ts, j, name)
    {
      if i != vp && IsVariableNamed(ts, i, name) {
        return true;
      }
      i := i + 1;
    }
    return false;
  }

  // ---------------------------------------------------------------------
  // Exemption: a later iteration of an enclosing loop reads the variable

  /**
   * The index into `conds` just past the innermost function-like entry (0
   * when there is none): the entries from there on lie inside the nearest
   * enclosing function.
   */
  function ScopeStart(conds: seq<Condition>): (s: nat)
    ensures s <= |conds|
    ensures forall k :: s <= k < |conds| ==> !IsFunctionCode(conds[k].code)
    ensures s > 0 ==> IsFunctionCode(conds[s - 1].code)
  {
    if |conds| == 0 then 0
    else if IsFunctionCode(conds[|conds| - 1].code) then |conds|
    else ScopeStart(conds[..|conds| - 1])
  }

  /** Whether a loop token carries a condition the exemption reads (`while` and `do`). */
  predicate HasLoopCondition(c: Code) {
    c == While || c == Do
  }

  /** The token whose parentheses hold a loop's condition: the loop itself, or the `while` after a `do` body. */
  function LoopConditionPointer(f: File, c: Condition): (w: nat)
    requires WellFormed(f) && ValidCondition(f.tokens, c) && HasLoopCondition(f.tokens[c.pointer].code)
    ensures w < |f.tokens| && f.tokens[w].code == While
    ensures f.tokens[w].parenthesisOpener.Some? && f.tokens[w].parenthesisCloser.Some?
  {
    var ts := f.tokens;
    var w := if ts[c.pointer].code == Do
      then FindNextEffective(ts, ts[c.pointer].scopeCloser.value + 1).value
      else c.pointer;
    ParenthesesPresent(f, w);
    w
  }

  /** The first variable named `name` in the loop's condition exists and is not `vp` itself. */
  predicate ConditionReads(f: File, c: Condition, vp: nat, name: string): (found: bool)
    requires WellFormed(f) && ValidCondition(f.tokens, c) && HasLoopCondition(f.tokens[c.pointer].code)
    ensures var w := LoopConditionPointer(f, c);
      found <==> exists i ::
        && ParenthesisOpener(f, w) < i < ParenthesisCloser(f, w) && i != vp
        && HasCodeAndContent(f.tokens, Variable, name, i)
        && forall k :: ParenthesisOpener(f, w) < k < i ==> !HasCodeAndContent(f.tokens, Variable, name, k)
  {
    var w := LoopConditionPointer(f, c);
    var hit := FindNextContent(f.tokens, Variable, name, ParenthesisOpener(f, w) + 1, ParenthesisCloser(f, w));
    hit.Some? && hit.value != vp
  }

  /** The loop's body holds a variable named `name` that is not itself a write. */
  ghost predicate BodyReads(f: File, loop: nat, name: string)
    requires WellFormed(f) && loop < |f.tokens|
    requires f.tokens[loop].scopeOpener.Some? && f.tokens[loop].scopeCloser.Some?
  {
    exists i :: ScopeOpener(f, loop) < i < ScopeCloser(f, loop)
      && IsVariableNamed(f.tokens, i, name) && !IsAssignment(f, i)
  }

  /**
   * Entry `k` of `vp`'s conditions is a loop other than `for`/`foreach` (so
   * a `while` or a `do`) whose condition reads `name`.
   */
  predicate ConditionHit(f: File, vp: nat, name: string, k: nat)
    requires WellFormed(f) && vp < |f.tokens| && k < |f.tokens[vp].conditions|
  {
    ConditionValidAt(f, vp, k);
    var c := f.tokens[vp].conditions[k];
    && IsLoopCode(c.code)
    && f.tokens[c.pointer].code != For && f.tokens[c.pointer].code != Foreach
    && ConditionReads(f, c, vp, name)
  }

  /** Entry `k` is the outermost loop among the entries from `s` on. */
  predicate OutermostLoop(conds: seq<Condition>, s: nat, k: nat) {
    && s <= k < |conds|
    && IsLoopCode(conds[k].code)
    && forall m :: s <= m < k ==> !IsLoopCode(conds[m].code)
  }

  /** Some `while`/`do` loop between `vp` and its nearest enclosing function reads `name` in its condition. */
  ghost predicate AnyConditionHit(f: File, vp: nat, name: string)
    requires WellFormed(f) && vp < |f.tokens|
  {
    var conds := f.tokens[vp].conditions;
    exists k :: ScopeStart(conds) <= k < |conds| && ConditionHit(f, vp, name, k)
  }

  /** The body of the outermost loop between `vp` and its nearest enclosing function reads `name`. */
  ghost predicate OutermostBodyReads(f: File, vp: nat, name: string)
    requires WellFormed(f) && vp < |f.tokens|
  {
    var conds := f.tokens[vp].conditions;
    exists k: nat :: OutermostLoop(conds, ScopeStart(conds), k)
      && (ConditionValidAt(f, vp, k); BodyReads(f, conds[k].pointer, name))
  }

  /**
   * Among the loops between `vp` and its nearest enclosing function, some
   * `while`/`do` condition reads `name`, or the body of the OUTERMOST of
   * those loops reads it.
   */
  ghost predicate UsedInLoop(f: File, vp: nat, name: string)
    requires WellFormed(f) && vp < |f.tokens|
  {
    AnyConditionHit(f, vp, name) || OutermostBodyReads(f, vp, name)
  }

  /** There is at most one outermost loop. */
  lemma OutermostLoopUnique(conds: seq<Condition>, s: nat, a: nat, b: nat)
    requires OutermostLoop(conds, s, a) && OutermostLoop(conds, s, b)
    ensures a == b
  {
  }

  /** `k` is where the walk from the innermost condition outwards stops: at the first function-like entry. */
  lemma ScopeStartAt(conds: seq<Condition>, k: nat)
    requires k <= |conds|
    requires forall m :: k <= m < |conds| ==> !IsFunctionCode(conds[m].code)
    requires k == 0 || IsFunctionCode(conds[k - 1].code)
    ensures ScopeStart(conds) == k
  {
  }

  /** While the walk has not reached the function-like entry, the scope starts at or before `k`. */
  lemma ScopeStartBelow(conds: seq<Condition>, k: nat)
    requires k <= |conds|
    requires forall m :: k <= m < |conds| ==> !IsFunctionCode(conds[m].code)
    ensures ScopeStart(conds) <= k
  {
  }

  /**
   * The walk over `vp`'s conditions, innermost first, up to the nearest
   * function-like entry: it stops as soon as a `while`/`do` condition reads
   * `name`, and otherwise remembers the last (outermost) loop it passed.
   */
  method WalkLoopConditions(f: File, vp: nat, name: string) returns (conditionRead: bool, loopPointer: Option<nat>)
    requires WellFormed(f) && vp < |f.tokens|
    ensures conditionRead == AnyConditionHit(f, vp, name)
    ensures !conditionRead && loopPointer.Some? ==>
      var conds := f.tokens[vp].conditions;
      exists k: nat :: OutermostLoop(conds, ScopeStart(conds), k) && loopPointer.value == conds[k].pointer
    ensures !conditionRead && loopPointer.None? ==>
      var conds := f.tokens[vp].conditions;
      forall k: nat :: !OutermostLoop(conds, ScopeStart(conds), k)
  {
    var ts := f.tokens;
    ConditionPointersInStream(f, vp);
    var conds := ts[vp].conditions;
    loopPointer := None;
    ghost var loopIndex: nat := 0;
    var k := |conds|;
    while k > 0 && !IsFunctionCode(conds[k - 1].code)
      invariant 0 <= k <= |conds|
      invariant forall m :: k <= m < |conds| ==> !IsFunctionCode(conds[m].code)
      invariant forall m :: k <= m < |conds| ==> !ConditionHit(f, vp, name, m)
      invariant loopPointer.None? ==> forall m :: k <= m < |conds| ==> !IsLoopCode(conds[m].code)
      invariant loopPointer.Some? ==>
        OutermostLoop(conds, k, loopIndex) && loopPointer.value == conds[loopIndex].pointer
    {
      k := k - 1;
      var condition := conds[k];
      ConditionValidAt(f, vp, k);
      if !IsLoopCode(condition.code) {
        continue;
      }
      loopPointer, loopIndex := Some(condition.pointer), k;
      if ts[condition.pointer].code == For || ts[condition.pointer].code == Foreach {
        continue;
      }
      if ConditionReads(f, condition, vp, name) {
        ScopeStartBelow(conds, k);
        assert ConditionHit(f, vp, name, k);
        return true, loopPointer;
      }
    }
    ScopeStartAt(conds, k);
    conditionRead := false;
  }

  method IsUsedInLoop(f: File, vp: nat, name: string) returns (used: bool)
    requires WellFormed(f) && vp < |f.tokens|
    ensures used == UsedInLoop(f, vp, name)
  {
    AllConditionsValid(f, vp);
    var conds := f.tokens[vp].conditions;
    var conditionRead, loopPointer := WalkLoopConditions(f, vp, name);
    if conditionRead {
      return true;
    }
    if loopPointer.None? {
      return false;
    }
    ghost var s := ScopeStart(conds);
    ghost var loopIndex: nat :| OutermostLoop(conds, s, loopIndex) && loopPointer.value == conds[loopIndex].pointer;
    used := ScanLoopBody(f, loopPointer.value, name);
    if !used {
      forall j: nat | OutermostLoop(conds, s, j)
        ensures !BodyReads(f, conds[j].pointer, name)
      {
        OutermostLoopUnique(conds, s, j, loopIndex);
      }
    }
  }

  /** The scan of the outermost loop's body for a same-named variable that is not itself a write. */
  method ScanLoopBody(f: File, loop: nat, name: string) returns (used: bool)
    requires WellFormed(f) && loop < |f.tokens|
    requires f.tokens[loop].scopeOpener.Some? && f.tokens[loop].scopeCloser.Some?
    ensures used == BodyReads(f, loop, name)
  {
    var ts := f.tokens;
    var opener, closer := ScopeOpener(f, loop), ScopeCloser(f, loop);
    var i := opener + 1;
    while i < closer
      invariant opener < i && (i <= closer || i == opener + 1)
      invariant forall j :: opener < j < i && j < closer ==> !(IsVariableNamed(ts, j, name) && !IsAssignment(f, j))
    {
      if IsVariableNamed(ts, i, name) && !IsAssignment(f, i) {
        return true;
      }
      i := i + 1;
    }
    return false;
  }

  // ---------------------------------------------------------------------
  // Exemptions that hold for the whole enclosing function

  /** Some variable named `name` strictly between `lo` and `hi` whose previous effective token has code `marker`. */
  ghost predicate MarkedVariableBetween(ts: seq<Token>, lo: nat, hi: nat, name: string, marker: Code)
    requires hi <= |ts|
  {
    exists i :: lo < i < hi && IsVariableNamed(ts, i, name)
      && CodeAt(ts, FindPreviousEffective(ts, i - 1)) == Some(marker)
  }

  /** The function body declares `name` as a `static` variable. */
  ghost predicate StaticDeclared(f: File, fp: nat, name: string)
    requires WellFormed(f) && fp < |f.tokens|
    requires f.tokens[fp].scopeOpener.Some? && f.tokens[fp].scopeCloser.Some?
  {
    MarkedVariableBetween(f.tokens, ScopeOpener(f, fp), ScopeCloser(f, fp), name, Static)
  }

  method IsStaticVariable(f: File, fp: nat, name: string) returns (isStatic: bool)
    requires WellFormed(f) && fp < |f.tokens|
    requires f.tokens[fp].scopeOpener.Some? && f.tokens[fp].scopeCloser.Some?
    ensures isStatic == StaticDeclared(f, fp, name)
  {
    var ts := f.tokens;
    var opener, closer := ScopeOpener(f, fp), ScopeCloser(f, fp);
    var i := opener + 1;
    while i < closer
      invariant opener < i && (i <= closer || i == opener + 1)
      invariant forall j :: opener < j < i && j < closer ==>
        !(IsVariableNamed(ts, j, name) && CodeAt(ts, FindPreviousEffective(ts, j - 1)) == Some(Static))
    {
      if IsVariableNamed(ts, i, name) {
        var pointerBeforeVariable := FindPreviousEffective(ts, i - 1);
        if CodeAt(ts, pointerBeforeVariable) == Some(Static) {
          return true;
        }
      }
      i := i + 1;
    }
    return false;
  }

  /** The function's parameter list declares `name` by reference. */
  ghost predicate ParameterByReference(f: File, fp: nat, name: string)
    requires WellFormed(f) && fp < |f.tokens|
    requires f.tokens[fp].parenthesisOpener.Some? && f.tokens[fp].parenthesisCloser.Some?
  {
    MarkedVariableBetween(f.tokens, ParenthesisOpener(f, fp), ParenthesisCloser(f, fp), name, BitwiseAnd)
  }

  method IsParameterPassedByReference(f: File, fp: nat, name: string) returns (byReference: bool)
    requires WellFormed(f) && fp < |f.tokens|
    requires f.tokens[fp].parenthesisOpener.Some? && f.tokens[fp].parenthesisCloser.Some?
    ensures byReference == ParameterByReference(f, fp, name)
  {
    var ts := f.tokens;
    var opener, closer := ParenthesisOpener(f, fp), ParenthesisCloser(f, fp);
    var i := opener + 1;
    while i < closer
      invariant opener < i && (i <= closer || i == opener + 1)
      invariant forall j :: opener < j < i && j < closer ==>
        !(IsVariableNamed(ts, j, name) && CodeAt(ts, FindPreviousEffective(ts, j - 1)) == Some(BitwiseAnd))
    {
      if IsVariableNamed(ts, i, name) {
        var pointerBeforeParameter := FindPreviousEffective(ts, i - 1);
        if CodeAt(ts, pointerBeforeParameter) == Some(BitwiseAnd) {
          return true;
        }
      }
      i := i + 1;
    }
    return false;
  }

  /** The opening parenthesis of a closure's `use (...)` list, when the closure has one. */
  function UseListOpener(f: File, fp: nat): (r: Option<nat>)
    requires WellFormed(f) && fp < |f.tokens| && f.tokens[fp].code == Closure
    ensures r.Some? ==> r.value < |f.tokens| && f.tokens[r.value].parenthesisCloser.Some?
  {
    var ts := f.tokens;
    UseListFound(f, fp);
    var usePointer := FindNextEffective(ts, ParenthesisCloser(f, fp) + 1);
    if CodeAt(ts, usePointer) != Some(Use) then None
    else FindNextEffective(ts, usePointer.value + 1)
  }

  /** When `use` follows the closure's parameter list, the search for its opening parenthesis succeeds. */
  lemma UseListFound(f: File, fp: nat)
    requires WellFormed(f) && fp < |f.tokens| && f.tokens[fp].code == Closure
    ensures f.tokens[fp].parenthesisCloser.Some?
    ensures
      var usePointer := FindNextEffective(f.tokens, f.tokens[fp].parenthesisCloser.value + 1);
      CodeAt(f.tokens, usePointer) == Some(Use) ==>
        && FindNextEffective(f.tokens, usePointer.value + 1).Some?
        && f.tokens[FindNextEffective(f.tokens, usePointer.value + 1).value].parenthesisCloser.Some?
  {
    assert ParenthesesValid(f.tokens, fp);
    assert UseClauseValid(f.tokens, fp);
  }

  /** The closure's `use (...)` list inherits `name` by reference. */
  ghost predicate InheritedByReference(f: File, fp: nat, name: string)
    requires WellFormed(f) && fp < |f.tokens| && f.tokens[fp].code == Closure
  {
    var opener := UseListOpener(f, fp);
    opener.Some? && MarkedVariableBetween(f.tokens, opener.value, ParenthesisCloser(f, opener.value), name, BitwiseAnd)
  }

  method IsInheritedVariablePassedByReference(f: File, fp: nat, name: string) returns (byReference: bool)
    requires WellFormed(f) && fp < |f.tokens| && f.tokens[fp].code == Closure
    ensures byReference == InheritedByReference(f, fp, name)
  {
    var ts := f.tokens;
    UseListFound(f, fp);
    var usePointer := FindNextEffective(ts, ParenthesisCloser(f, fp) + 1);
    if CodeAt(ts, usePointer) != Some(Use) {
      return false;
    }
    var useParenthesisOpener := FindNextEffective(ts, usePointer.value + 1).value;
    var closer := ParenthesisCloser(f, useParenthesisOpener);
    var i := useParenthesisOpener + 1;
    while i < closer
      invariant useParenthesisOpener < i && (i <= closer || i == useParenthesisOpener + 1)
      invariant forall j :: useParenthesisOpener < j < i && j < closer ==>
        !(IsVariableNamed(ts, j, name) && CodeAt(ts, FindPreviousEffective(ts, j - 1)) == Some(BitwiseAnd))
    {
      if IsVariableNamed(ts, i, name) {
        var pointerBeforeInheritedVariable := FindPreviousEffective(ts, i - 1);
        if CodeAt(ts, pointerBeforeInheritedVariable) == Some(BitwiseAnd) {
          return true;
        }
      }
      i := i + 1;
    }
    return false;
  }

  // ---------------------------------------------------------------------
  // Scope resolution and the forward scan

  /**
   * The scope owner: the innermost enclosing function-like construct, or,
   * outside every function, the nearest `<?php` open tag before the
   * occurrence.  `None` when there is neither: the search for the open tag
   * fails when only `<?=` tags precede the variable.
   */
  ghost function ScopeOwner(f: File, vp: nat): (owner: Option<nat>)
    requires WellFormed(f) && vp < |f.tokens| && f.tokens[vp].code == Variable
    ensures owner.Some? ==> owner.value < |f.tokens|
    ensures owner.Some? ==>
      || (owner.value < vp && f.tokens[owner.value].code == OpenTag)
      || (IsFunctionCode(f.tokens[owner.value].code)
          && f.tokens[owner.value].scopeOpener.Some? && f.tokens[owner.value].scopeCloser.Some?)
    ensures owner.None? ==> forall t :: 0 <= t < vp ==> !HasCode(f.tokens, OpenTag, t)
  {
    var ts := f.tokens;
    AllConditionsValid(f, vp);
    var conds := ts[vp].conditions;
    var s := ScopeStart(conds);
    if s > 0 then
      assert ValidCondition(ts, conds[s - 1]);
      Some(conds[s - 1].pointer)
    else
      FindPrevious(ts, OpenTag, vp - 1)
  }

  /**
   * The last token of the scope: the owner's closing brace, or the end of
   * the file for an open tag.  Without an owner the source's closer is null,
   * and the forward scan up to it is empty: `None`.
   */
  ghost function ScopeEnd(f: File, vp: nat): (closer: Option<nat>)
    requires WellFormed(f) && vp < |f.tokens| && f.tokens[vp].code == Variable
    ensures closer.Some? <==> ScopeOwner(f, vp).Some?
    ensures closer.Some? ==> closer.value < |f.tokens|
    ensures closer.Some? && f.tokens[ScopeOwner(f, vp).value].code == OpenTag ==> closer.value == |f.tokens| - 1
  {
    match ScopeOwner(f, vp)
    case None => None
    case Some(owner) =>
      if f.tokens[owner].code == OpenTag then Some(|f.tokens| - 1) else Some(ScopeCloser(f, owner))
  }

  /** A function-like scope owner makes `name` exempt: static, by-reference parameter, or by-reference `use`. */
  ghost predicate ExemptInFunction(f: File, owner: nat, name: string)
    requires WellFormed(f) && owner < |f.tokens|
    requires IsFunctionCode(f.tokens[owner].code) ==>
      f.tokens[owner].scopeOpener.Some? && f.tokens[owner].scopeCloser.Some?
  {
    var ts := f.tokens;
    && IsFunctionCode(ts[owner].code)
    && (|| StaticDeclared(f, owner, name)
        || (ParenthesesPresent(f, owner); ParameterByReference(f, owner, name))
        || (ts[owner].code == Closure && InheritedByReference(f, owner, name)))
  }

  /**
   * Token `p` is not hidden from `vp` by a closure: walking `p`'s conditions
   * from the innermost outwards, no closure entry is met before an entry
   * whose level is at most `vp`'s level.
   */
  ghost predicate InSameScope(f: File, vp: nat, p: nat)
    requires WellFormed(f) && vp < |f.tokens| && p < |f.tokens|
  {
    var ts := f.tokens;
    ConditionPointersInStream(f, p);
    var conds := ts[p].conditions;
    !exists k :: 0 <= k < |conds| && conds[k].code == Closure
      && forall m :: k <= m < |conds| ==> ts[conds[m].pointer].level > ts[vp].level
  }

  method IsInSameScope(f: File, vp: nat, p: nat) returns (same: bool)
    requires WellFormed(f) && vp < |f.tokens| && p < |f.tokens|
    ensures same == InSameScope(f, vp, p)
  {
    var ts := f.tokens;
    ConditionPointersInStream(f, p);
    var conds := ts[p].conditions;
    var k := |conds|;
    while k > 0
      invariant 0 <= k <= |conds|
      invariant forall m :: k <= m < |conds| ==> ts[conds[m].pointer].level > ts[vp].level
      invariant forall m :: k <= m < |conds| ==> conds[m].code != Closure
    {
      k := k - 1;
      var condition := conds[k];
      if ts[condition.pointer].level <= ts[vp].level {
        break;
      }
      if condition.code == Closure {
        return false;
      }
    }
    return true;
  }

  /** A variable named `name` after `vp`, up to and including `closer`, in the same scope as `vp`. */
  ghost predicate UsedLater(f: File, vp: nat, closer: nat, name: string)
    requires WellFormed(f) && vp < |f.tokens| && closer < |f.tokens|
  {
    exists i :: vp < i <= closer && IsVariableNamed(f.tokens, i, name) && InSameScope(f, vp, i)
  }

  /**
   * When the rule reports variable `vp`: it is a write, not a member access,
   * no exemption applies, and nothing later in its scope reads it.
   */
  ghost predicate Reportable(f: File, vp: nat)
    requires WellFormed(f) && vp < |f.tokens| && f.tokens[vp].code == Variable
  {
    var ts := f.tokens;
    var name := ts[vp].content;
    var owner := ScopeOwner(f, vp);
    var closer := ScopeEnd(f, vp);
    && IsAssignment(f, vp)
    && !AfterMemberOperator(ts, vp)
    && !UsedInForLoopCondition(f, vp, name)
    && !UsedInLoop(f, vp, name)
    && (owner.Some? ==> !ExemptInFunction(f, owner.value, name))
    && (closer.Some? ==> !UsedLater(f, vp, closer.value, name))
  }

  /**
   * The token before `vp` is `->` or `::`, so `vp` names a property.  Before
   * the first token the source reads a missing entry, which has no code.
   */
  predicate AfterMemberOperator(ts: seq<Token>, vp: nat)
    requires vp < |ts|
  {
    vp > 0 && (ts[vp - 1].code == ObjectOperator || ts[vp - 1].code == DoubleColon)
  }

  /** The walk over `vp`'s conditions, innermost first, that stops at the first function-like entry. */
  method FindScopeOwner(f: File, vp: nat) returns (scopeOwner: Option<nat>)
    requires WellFormed(f) && vp < |f.tokens| && f.tokens[vp].code == Variable
    ensures scopeOwner == ScopeOwner(f, vp)
  {
    var ts := f.tokens;
    var conds := ts[vp].conditions;
    scopeOwner := FindPrevious(ts, OpenTag, vp - 1);
    var k := |conds|;
    while k > 0
      invariant 0 <= k <= |conds|
      invariant forall m :: k <= m < |conds| ==> !IsFunctionCode(conds[m].code)
      invariant scopeOwner == FindPrevious(ts, OpenTag, vp - 1)
    {
      k := k - 1;
      if IsFunctionCode(conds[k].code) {
        ScopeStartAt(conds, k + 1);
        return Some(conds[k].pointer);
      }
    }
    ScopeStartAt(conds, 0);
  }

  /** The static, by-reference parameter and by-reference `use` checks against a function-like owner. */
  method IsExemptInFunction(f: File, scopeOwner: nat, name: string) returns (exempt: bool)
    requires WellFormed(f) && scopeOwner < |f.tokens|
    requires IsFunctionCode(f.tokens[scopeOwner].code) ==>
      f.tokens[scopeOwner].scopeOpener.Some? && f.tokens[scopeOwner].scopeCloser.Some?
    ensures exempt == ExemptInFunction(f, scopeOwner, name)
  {
    var ts := f.tokens;
    if !IsFunctionCode(ts[scopeOwner].code) {
      return false;
    }
    var isStatic := IsStaticVariable(f, scopeOwner, name);
    if isStatic {
      return true;
    }
    ParenthesesPresent(f, scopeOwner);
    var byReference := IsParameterPassedByReference(f, scopeOwner, name);
    if byReference {
      return true;
    }
    if ts[scopeOwner].code == Closure {
      exempt := IsInheritedVariablePassedByReference(f, scopeOwner, name);
    } else {
      exempt := false;
    }
  }

  /** The forward scan from `vp` to `scopeCloser` for a same-named variable in the same scope. */
  method IsUsedLater(f: File, vp: nat, scopeCloser: nat, name: string) returns (used: bool)
    requires WellFormed(f) && vp < |f.tokens| && scopeCloser < |f.tokens|
    ensures used == UsedLater(f, vp, scopeCloser, name)
  {
    var ts := f.tokens;
    var i := vp + 1;
    while i <= scopeCloser
      invariant vp < i && (i <= scopeCloser + 1 || i == vp + 1)
      invariant forall j :: vp < j < i && j <= scopeCloser ==>
        !(IsVariableNamed(ts, j, name) && InSameScope(f, vp, j))
    {
      if ts[i].code == Variable {
        var sameScope := IsInSameScope(f, vp, i);
        if sameScope && ts[i].content == name {
          return true;
        }
      }
      i := i + 1;
    }
    return false;
  }

  /** The rule applied to variable token `vp`: the error it reports, if any. */
  method Process(f: File, vp: nat) returns (error: Option<Diagnostic>)
    requires WellFormed(f) && vp < |f.tokens| && f.tokens[vp].code == Variable
    ensures error.Some? <==> Reportable(f, vp)
    ensures error.Some? ==> error.value == Diagnostic(UnusedMessage(f.tokens[vp].content), vp, CodeUnusedVariable)
  {
    var ts := f.tokens;
    if !IsAssignment(f, vp) {
      return None;
    }
    if AfterMemberOperator(ts, vp) {
      return None; // a property
    }
    var name := ts[vp].content;

    var usedInForLoopCondition := IsUsedInForLoopCondition(f, vp, name);
    if usedInForLoopCondition {
      return None;
    }
    var usedInLoop := IsUsedInLoop(f, vp, name);
    if usedInLoop {
      return None;
    }

    var scopeOwner := FindScopeOwner(f, vp);
    // Without an owner the source looks up a null pointer: its code matches
    // no function code, and the scan up to a null closer never starts.
    if scopeOwner.Some? {
      var owner := scopeOwner.value;
      var scopeCloser := if ts[owner].code == OpenTag then |ts| - 1 else ScopeCloser(f, owner);

      var exempt := IsExemptInFunction(f, owner, name);
      if exempt {
        return None;
      }

      var usedLater := IsUsedLater(f, vp, scopeCloser, name);
      if usedLater {
        return None;
      }
    }
    return Some(Diagnostic(UnusedMessage(name), vp, CodeUnusedVariable));
  }
}
