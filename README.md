# Unused variable rule

A Dafny model of the `UnusedVariable` rule of the Slevomat coding
standard for PHP_CodeSniffer. The rule is called once for every variable
token of a tokenized PHP file. It reports `Unused variable $x.` (error code
`UnusedVariable`) at that token when all of these hold:

- the token is a write: an assignment, `++`/`--`, a `foreach` binding, or a
  `list(...)`/`[...] =` destructuring target;
- it is not a property access;
- no exemption applies;
- no same-named variable follows it in its scope, unless that variable sits
  inside a nested closure.

The exemptions are:

- the variable also occurs in the same `for` header;
- an enclosing `while`/`do` condition, or the body of the outermost
  enclosing loop, reads it;
- the enclosing function declares it `static`;
- the enclosing function takes it by reference;
- the enclosing closure inherits it by reference in `use (...)`.

The model works on the token stream that PHP_CodeSniffer hands to the rule:

- `tokens.dfy`: the token record (code, content, level, enclosing
  `conditions`, enclosing parentheses, owner/opener/closer pointers) and
  the file (tokens plus the positions the property helper recognises as
  property declarations).
- `token_helper.dfy`: the token searches the rule calls (next or previous
  effective token, next token outside a set of codes, previous token of a
  code, next variable with a given name). Each search is characterised by
  what it finds and what it skips: the first such token in its range, or
  nothing when there is none. For the searches by code the model also
  proves the converse, that the token meeting the characterisation is the
  one the search returns.
- `token_stream.dfy`: the tokenizer's guarantees the rule relies on
  without checking (`WellFormed`).
- `unused_variable_sniff.dfy`: the rule itself. `IsAssignment` is a pure
  function with the same chain of branches as the source. Every index
  loop of the source is a method with a `while` loop, proved equal to a
  declarative predicate. `Process` returns the reported diagnostic, if
  any, and is proved to report exactly when `Reportable` holds.
- `unused_variable_properties.dfy`: what the classifier, the loop
  exemption, scope resolution and the shadowing test mean. These are
  stated over the token stream, independently of how the rule searches it.
- `unused_variable_scenarios.dfy`: hand-tokenized PHP snippets and what the
  rule decides for them.

A same-named variable inside a closure is hidden from the write only when
the closure sits deeper than the write. The scope test at
`UnusedVariableSniff.php:116-128` stops at the first enclosing construct
whose level is at most the write's level, before it looks at that
construct's code. A closure written as a sibling statement of the write
has the write's own level, so the variables inside it count as reads and
the outer write is not reported (`ShallowClosureDoesNotHide`,
`SiblingClosureHidesNothing`). A closure nested one level deeper does
hide its variables (`NestedClosureHides`, `NestedClosureReported`).

Outside every function the scope owner is the nearest `<?php` open tag
before the write. When only `<?=` tags precede it, that search finds
nothing, the scope has no end, and the forward scan never runs: the write
is reported even when it is read later (`NoOpenTagNoScope`, and the
"## Findings" section below).

## Model

| member | source | states |
|---|---|---|
| UnusedVariableSniff.Process | SlevomatCodingStandard/Sniffs/Variables/UnusedVariableSniff.php:68-149 | Reports at most one error. It reports one exactly when the variable is a write, is not reached through `->`/`::`, no exemption applies and no later same-named variable in the same scope exists. The error is `Unused variable <name>.` at the variable's own position with code `UnusedVariable`. |
| UnusedVariableProperties.CompoundAssignmentIsWrite | SlevomatCodingStandard/Sniffs/Variables/UnusedVariableSniff.php:155-170 | A variable whose next effective token is one of the twelve compound assignment operators is a write. |
| UnusedVariableProperties.PlainAssignmentIsWrite | SlevomatCodingStandard/Sniffs/Variables/UnusedVariableSniff.php:155-189 | Before a plain `=`, the variable is a write if and only if it is not a property declaration and its innermost parenthesis is not owned by a function or closure (a parameter default). |
| UnusedVariableProperties.IncrementIsWrite | SlevomatCodingStandard/Sniffs/Variables/UnusedVariableSniff.php:191-206 | Before `++`/`--`, the variable is a write if and only if its innermost parenthesis is not owned by a `for`. |
| UnusedVariableProperties.NextCodeNotWriteOperator | SlevomatCodingStandard/Sniffs/Variables/UnusedVariableSniff.php:155-156 | When no write operator follows the variable, the next-effective search finds nothing or a token that is not `=`, a compound assignment, `++` or `--`. |
| UnusedVariableProperties.ForeachBindingIsWrite | SlevomatCodingStandard/Sniffs/Variables/UnusedVariableSniff.php:208-211 | With no write operator after it, a variable inside a `foreach` header is a write if and only if the effective token before it is `as` or `=>`. |
| UnusedVariableProperties.DestructuringOnly | SlevomatCodingStandard/Sniffs/Variables/UnusedVariableSniff.php:213-229 | With no write operator after it and outside a `foreach` header, a variable is a write if and only if it is a `list(...)` target or a `[...] =` target. |
| UnusedVariableProperties.ListDestructuringIsWrite | SlevomatCodingStandard/Sniffs/Variables/UnusedVariableSniff.php:213-218 | Outside a `foreach` header and with no write operator after it, a variable whose innermost parenthesis follows `list` is a write. |
| UnusedVariableProperties.ShortListDestructuringIsWrite | SlevomatCodingStandard/Sniffs/Variables/UnusedVariableSniff.php:220-227 | Outside a `foreach` header, a variable followed by `]` and then `=` is a write. Only variables, commas and ineffective tokens may come between the variable and the `]`. |
| UnusedVariableProperties.OtherwiseNotWrite | SlevomatCodingStandard/Sniffs/Variables/UnusedVariableSniff.php:151-230 | In every other case the variable is not a write: no write operator after it, not in a `foreach` header, not in `list(...)`, not followed by `] =`. |
| UnusedVariableSniff.IsUsedInForLoopCondition | SlevomatCodingStandard/Sniffs/Variables/UnusedVariableSniff.php:232-267 | True exactly when the innermost parenthesis is owned by a `for` and another index strictly inside that header holds a same-named variable. The variable's own index never counts. |
| UnusedVariableSniff.WalkLoopConditions | SlevomatCodingStandard/Sniffs/Variables/UnusedVariableSniff.php:273-307 | The walk over the conditions, innermost first, stops at the first function or closure. It says whether some `while`/`do` condition on the way reads the name, at a variable other than this one. If none does, it returns the outermost loop on the way, or nothing when there is no loop. |
| UnusedVariableSniff.LoopConditionPointer | SlevomatCodingStandard/Sniffs/Variables/UnusedVariableSniff.php:289-291 | The parentheses of a `while` loop hold its condition. For a `do` loop the condition is held by the `while` token that follows the body, which has both parentheses. |
| UnusedVariableSniff.ScanLoopBody | SlevomatCodingStandard/Sniffs/Variables/UnusedVariableSniff.php:309-323 | True exactly when the loop body holds a same-named variable that is not itself a write. |
| UnusedVariableSniff.IsUsedInLoop | SlevomatCodingStandard/Sniffs/Variables/UnusedVariableSniff.php:269-324 | True exactly when, inside the nearest enclosing function, a `while`/`do` condition reads the name, or the body of the outermost loop reads it. |
| UnusedVariableSniff.OutermostLoopUnique | SlevomatCodingStandard/Sniffs/Variables/UnusedVariableSniff.php:283 | The loop the body scan uses is unique: it is the last loop the walk overwrites `$loopPointer` with. |
| UnusedVariableProperties.NoLoopNoLoopExemption | SlevomatCodingStandard/Sniffs/Variables/UnusedVariableSniff.php:305-307 | Without a loop between the variable and its nearest enclosing function, the loop exemption never applies. |
| UnusedVariableProperties.WritesAreNotReads | SlevomatCodingStandard/Sniffs/Variables/UnusedVariableSniff.php:309-321 | A loop body whose same-named variables are all writes does not read the variable, so the written occurrence never exempts itself. |
| UnusedVariableSniff.IsStaticVariable | SlevomatCodingStandard/Sniffs/Variables/UnusedVariableSniff.php:326-345 | True exactly when the function body holds a same-named variable whose previous effective token is `static`. |
| UnusedVariableSniff.IsParameterPassedByReference | SlevomatCodingStandard/Sniffs/Variables/UnusedVariableSniff.php:347-366 | True exactly when the parameter list holds a same-named variable whose previous effective token is `&`. |
| UnusedVariableSniff.UseListOpener | SlevomatCodingStandard/Sniffs/Variables/UnusedVariableSniff.php:372-377 | The `use` list of a closure, when there is one, starts at a parenthesis that has a closer. |
| UnusedVariableSniff.IsInheritedVariablePassedByReference | SlevomatCodingStandard/Sniffs/Variables/UnusedVariableSniff.php:368-393 | False when no `use` follows the closure's parameter list. Otherwise true exactly when the `use (...)` list holds a same-named variable whose previous effective token is `&`. |
| UnusedVariableSniff.IsExemptInFunction | SlevomatCodingStandard/Sniffs/Variables/UnusedVariableSniff.php:100-114 | The three function-wide exemptions are consulted only when the scope owner is a function or closure, and the `use`-list one only for a closure. |
| UnusedVariableSniff.ScopeStart | SlevomatCodingStandard/Sniffs/Variables/UnusedVariableSniff.php:92-97 | The conditions from this index on hold no function or closure, and the entry just before it, if any, is one. |
| UnusedVariableSniff.ScopeOwner | SlevomatCodingStandard/Sniffs/Variables/UnusedVariableSniff.php:91-97 | The scope owner, when there is one, is an open tag before the variable, or a function or closure with both scope braces. There is none only when no open tag precedes the variable. |
| UnusedVariableSniff.FindScopeOwner | SlevomatCodingStandard/Sniffs/Variables/UnusedVariableSniff.php:91-97 | The loop over the conditions, innermost first, returns the scope owner, or nothing when the open-tag search failed and no function encloses the variable. |
| UnusedVariableSniff.ScopeEnd | SlevomatCodingStandard/Sniffs/Variables/UnusedVariableSniff.php:98 | The scope has an end exactly when it has an owner. The end is a token of the file, and it is the last token when the owner is an open tag. |
| UnusedVariableProperties.ScopeOwnerIsInnermostFunction | SlevomatCodingStandard/Sniffs/Variables/UnusedVariableSniff.php:91-98 | Inside a function, the innermost enclosing function or closure owns the scope. The scope ends at that owner's closing brace. |
| UnusedVariableProperties.ScopeOwnerIsOpenTag | SlevomatCodingStandard/Sniffs/Variables/UnusedVariableSniff.php:91-98 | Outside every function, the nearest open tag before the variable owns the scope, and the scope runs to the last token. |
| UnusedVariableSniff.IsInSameScope | SlevomatCodingStandard/Sniffs/Variables/UnusedVariableSniff.php:116-128 | False exactly when some closure entry of the token's conditions lies below the variable's level, with every entry after it (further in) below the variable's level too. |
| UnusedVariableProperties.NoOpenTagNoScope | SlevomatCodingStandard/Sniffs/Variables/UnusedVariableSniff.php:91-142 | Outside every function and with no `<?php` tag before the variable, there is no scope owner and no scope end. The write is then reported exactly when it is a write, not a property, and neither loop exemption applies; later reads play no part. |
| UnusedVariableProperties.NestedClosureHides | SlevomatCodingStandard/Sniffs/Variables/UnusedVariableSniff.php:117-124 | A token inside a closure that is entered below the variable's level is not in the variable's scope. |
| UnusedVariableProperties.NoClosureSameScope | SlevomatCodingStandard/Sniffs/Variables/UnusedVariableSniff.php:116-128 | A token with no enclosing closure is always in the variable's scope. |
| UnusedVariableProperties.ShallowClosureDoesNotHide | SlevomatCodingStandard/Sniffs/Variables/UnusedVariableSniff.php:117-120 | When the token's innermost enclosing construct sits at the variable's level or above, the token is in the variable's scope, even when that construct is a closure. |
| UnusedVariableSniff.IsUsedLater | SlevomatCodingStandard/Sniffs/Variables/UnusedVariableSniff.php:130-142 | True exactly when a same-named variable in the same scope lies after the variable, up to and including the scope closer. |
| UnusedVariableProperties.ReadLaterSuppressesReport | SlevomatCodingStandard/Sniffs/Variables/UnusedVariableSniff.php:130-142 | A later same-named variable in the scope, not hidden by a closure, keeps the write from being reported. |
| UnusedVariableProperties.OnlyWritesReported | SlevomatCodingStandard/Sniffs/Variables/UnusedVariableSniff.php:70-79 | A reported variable is a write, and the token before it, if any, is not `->` or `::`. |
| UnusedVariableSniff.IsAssignment | SlevomatCodingStandard/Sniffs/Variables/UnusedVariableSniff.php:151-230 | A compound assignment operator after the variable always makes it a write, and a property declaration followed by `=` is never one. The remaining cases are stated by `PlainAssignmentIsWrite`, `IncrementIsWrite`, `ForeachBindingIsWrite`, `DestructuringOnly` and `OtherwiseNotWrite`. |
| UnusedVariableSniff.ListTarget | SlevomatCodingStandard/Sniffs/Variables/UnusedVariableSniff.php:213-218 | A `list(...)` target lies inside a parenthesis, and a `list` token comes before that parenthesis. |
| UnusedVariableSniff.ShortListTarget | SlevomatCodingStandard/Sniffs/Variables/UnusedVariableSniff.php:220-227 | True exactly when the first token after the variable that is not a variable, a comma or ineffective is `]`, and the first effective token after that `]` is `=`. |
| UnusedVariableSniff.ConditionReads | SlevomatCodingStandard/Sniffs/Variables/UnusedVariableSniff.php:293-302 | True exactly when the first same-named variable strictly inside the loop condition's parentheses exists and is not the written variable. |
| UnusedVariableProperties.IntendedReadLaterSuppressesReport | SlevomatCodingStandard/Sniffs/Variables/UnusedVariableSniff.php:91-142 | With the scope running to the last token when there is no owner, a later same-named variable in the scope keeps the write from being reported in every file. |
| UnusedVariableProperties.IntendedAgreesWithOwner | SlevomatCodingStandard/Sniffs/Variables/UnusedVariableSniff.php:91-142 | Whenever the source finds a scope owner, the intended rule reports exactly what the source reports. |
| UnusedVariableScenarios.EchoTagReadIgnored | SlevomatCodingStandard/Sniffs/Variables/UnusedVariableSniff.php:91-142 | In `<?= $x = 1 ?><?php echo $x;` the later `$x` is in the write's scope, yet the write is reported. The intended rule does not report it. |
| UnusedVariableScenarios.UnusedWriteReported | SlevomatCodingStandard/Sniffs/Variables/UnusedVariableSniff.php:68-149 | In `<?php $x = 1;` the write to `$x` is reported. |
| UnusedVariableScenarios.ReadLaterNotReported | SlevomatCodingStandard/Sniffs/Variables/UnusedVariableSniff.php:130-142 | In `<?php $x = 1; echo $x;` neither occurrence of `$x` is reported. |
| UnusedVariableScenarios.SiblingClosureHidesNothing | SlevomatCodingStandard/Sniffs/Variables/UnusedVariableSniff.php:116-128 | In `<?php $x = 1; $f = function () { $x = 2; };` the inner `$x` counts as in the outer scope, so the outer write is not reported. |
| UnusedVariableScenarios.SiblingClosureInnerWriteReported | SlevomatCodingStandard/Sniffs/Variables/UnusedVariableSniff.php:91-149 | In the same snippet the write inside the closure, scoped to the closure, is reported. |
| UnusedVariableScenarios.NestedClosureNoLaterRead | SlevomatCodingStandard/Sniffs/Variables/UnusedVariableSniff.php:116-142 | In `<?php $x = 1; if (true) { $f = function () { $x = 2; }; }` the forward scan finds no read of `$x`. |
| UnusedVariableScenarios.NestedClosureReported | SlevomatCodingStandard/Sniffs/Variables/UnusedVariableSniff.php:68-149 | In the same snippet the outer write is reported, because the closure one level down hides its `$x`. |

## Left out

- The PHP_CodeSniffer `File` object and its `addError` sink. `Process` returns the diagnostic it would add, as an optional value.
- `register()`, which only tells the framework to call the rule on variable tokens. `Process` requires a variable token instead.
- The tokenizer. Levels, conditions, parentheses and their owners, openers and closers are given fields of each token. The guarantees the rule relies on are stated in `WellFormed`, not derived from source text.
- The token helper and property helper. Their source is not part of this model. The searches are defined by the meaning their names and uses give them. `isProperty` is the set of token positions `File.properties`, left uninterpreted.
- Token code values. `Code` is an integer type; only the codes the rule distinguishes are named, with arbitrary distinct values.
- `nested_parenthesis` maps openers to closers in the source. The model keeps only the openers, outermost first, because the rule reads only the innermost opener.
- Lookups in the source that use a search result that found nothing, such as `$tokens[null]`, read as a token that matches no code. The model returns no code in that case, so such lookups take the same branch. The same holds for `$tokens[$variablePointer - 1]` on the first token (`AfterMemberOperator`). A scope owner that was not found has no function code, and the scan up to its null closer is empty. PHP_CodeSniffer's runner may turn the undefined-index warning of such a lookup into an internal error; that error handler is outside the rule and is not modelled.
- `scope_condition` and the remaining token fields, which the rule does not read.
- Two loops are split into helper methods: the scope-owner search and the scan after it (`FindScopeOwner`, `IsExemptInFunction`, `IsUsedLater`), and the condition walk in `isUsedInLoop` (`WalkLoopConditions`, `ScanLoopBody`). The order of the checks and the early returns are unchanged.
- IsAssignment: its own contract states only two of its cases. The other cases are stated by the `UnusedVariableProperties` lemmas.

## Findings

| source | as written | input that shows it | evidently intended | confidence | as-written member | corrected member |
|---|---|---|---|---|---|---|
| SlevomatCodingStandard/Sniffs/Variables/UnusedVariableSniff.php:91-98 | Outside every function the scope owner is the nearest `T_OPEN_TAG` before the write. When only `<?=` (`T_OPEN_TAG_WITH_ECHO`) tags precede it, the owner is null, the scope closer is null and the scan for a later read never runs. | `<?= $x = 1 ?><?php echo $x;` reports `$x` as unused although `echo $x` reads it. | Outside every function the scope runs to the last token whether or not a `<?php` tag precedes the write, so the later read suppresses the report. | not executed | UnusedVariableScenarios.EchoTagReadIgnored | UnusedVariableProperties.IntendedReadLaterSuppressesReport |
