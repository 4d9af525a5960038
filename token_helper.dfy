/**
 * The token searches the sniff delegates to its token helper.  Each one is
 * given the plain meaning of its name and characterised by its contract.
 */
module TokenHelper {
  import opened Wrappers
  import opened Tokens

  /** Token `k` has one of the `excluded` codes, so a search skips it. */
  predicate Skipped(ts: seq<Token>, excluded: set<Code>, k: nat)
    requires k < |ts|
  {
    ts[k].code in excluded
  }

  /** Token `k` has code `code` and content `content`. */
  predicate HasCodeAndContent(ts: seq<Token>, code: Code, content: string, k: nat)
    requires k < |ts|
  {
    ts[k].code == code && ts[k].content == content
  }

  /** `j` is the first index at or after `start` whose code is not in `excluded`. */
  predicate IsNextExcluding(ts: seq<Token>, excluded: set<Code>, start: nat, j: nat) {
    && start <= j < |ts|
    && !Skipped(ts, excluded, j)
    && forall k :: start <= k < j ==> Skipped(ts, excluded, k)
  }

  /** `j` is the first index at or before `start`, walking down, whose code is not in `excluded`. */
  predicate IsPreviousExcluding(ts: seq<Token>, excluded: set<Code>, start: int, j: nat) {
    && j <= start < |ts|
    && !Skipped(ts, excluded, j)
    && forall k :: j < k <= start ==> Skipped(ts, excluded, k)
  }

  /** The nearest index at or after `start` whose code is not in `excluded`. */
  function FindNextExcluding(ts: seq<Token>, excluded: set<Code>, start: nat): (r: Option<nat>)
    ensures r.Some? ==> IsNextExcluding(ts, excluded, start, r.value)
    ensures r.None? ==> forall k :: start <= k < |ts| ==> Skipped(ts, excluded, k)
    decreases |ts| - start
  {
    if start >= |ts| then None
    else if !Skipped(ts, excluded, start) then Some(start)
    else FindNextExcluding(ts, excluded, start + 1)
  }

  /** The nearest index at or before `start` whose code is not in `excluded`. */
  function FindPreviousExcluding(ts: seq<Token>, excluded: set<Code>, start: int): (r: Option<nat>)
    requires start < |ts|
    ensures r.Some? ==> IsPreviousExcluding(ts, excluded, start, r.value)
    ensures r.None? ==> forall k :: 0 <= k <= start ==> Skipped(ts, excluded, k)
    decreases start + 1
  {
    if start < 0 then None
    else if !Skipped(ts, excluded, start) then Some(start)
    else FindPreviousExcluding(ts, excluded, start - 1)
  }

  /** The nearest effective (not whitespace, not comment) token at or after `start`. */
  function FindNextEffective(ts: seq<Token>, start: nat): (r: Option<nat>)
  {
    FindNextExcluding(ts, IneffectiveCodes, start)
  }

  /** The nearest effective token at or before `start`. */
  function FindPreviousEffective(ts: seq<Token>, start: int): Option<nat>
    requires start < |ts|
  {
    FindPreviousExcluding(ts, IneffectiveCodes, start)
  }

  /** Token `k` has code `code`. */
  predicate HasCode(ts: seq<Token>, code: Code, k: nat)
    requires k < |ts|
  {
    ts[k].code == code
  }

  /** The nearest token with code `code` at or before `start`. */
  function FindPrevious(ts: seq<Token>, code: Code, start: int): (r: Option<nat>)
    requires start < |ts|
    ensures r.Some? ==>
      && r.value <= start && HasCode(ts, code, r.value)
      && forall k :: r.value < k <= start ==> !HasCode(ts, code, k)
    ensures r.None? ==> forall k :: 0 <= k <= start ==> !HasCode(ts, code, k)
    decreases start + 1
  {
    if start < 0 then None
    else if HasCode(ts, code, start) then Some(start)
    else FindPrevious(ts, code, start - 1)
  }

  /** The first token in `[start, end)` with code `code` and content `content`. */
  function FindNextContent(ts: seq<Token>, code: Code, content: string, start: nat, end: nat): (r: Option<nat>)
    requires end <= |ts|
    ensures r.Some? ==>
      && start <= r.value < end && HasCodeAndContent(ts, code, content, r.value)
      && forall k :: start <= k < r.value ==> !HasCodeAndContent(ts, code, content, k)
    ensures r.None? ==> forall k :: start <= k < end ==> !HasCodeAndContent(ts, code, content, k)
    decreases end - start
  {
    if start >= end then None
    else if HasCodeAndContent(ts, code, content, start) then Some(start)
    else FindNextContent(ts, code, content, start + 1, end)
  }

  /** The next-excluding search finds exactly the index its characterisation describes. */
  lemma {:induction false} NextExcludingUnique(ts: seq<Token>, excluded: set<Code>, start: nat, j: nat)
    requires IsNextExcluding(ts, excluded, start, j)
    ensures FindNextExcluding(ts, excluded, start) == Some(j)
    decreases j - start
  {
    if start < j {
      assert Skipped(ts, excluded, start);
      NextExcludingUnique(ts, excluded, start + 1, j);
    }
  }

  /** The previous-excluding search finds exactly the index its characterisation describes. */
  lemma {:induction false} PreviousExcludingUnique(ts: seq<Token>, excluded: set<Code>, start: int, j: nat)
    requires IsPreviousExcluding(ts, excluded, start, j)
    ensures FindPreviousExcluding(ts, excluded, start) == Some(j)
    decreases start - j
  {
    if j < start {
      assert Skipped(ts, excluded, start);
      PreviousExcludingUnique(ts, excluded, start - 1, j);
    }
  }

  /** The backward search for `code` finds exactly the nearest token with that code. */
  lemma {:induction false} PreviousUnique(ts: seq<Token>, code: Code, start: int, j: nat)
    requires j <= start < |ts| && HasCode(ts, code, j)
    requires forall k :: j < k <= start ==> !HasCode(ts, code, k)
    ensures FindPrevious(ts, code, start) == Some(j)
    decreases start - j
  {
    if j < start {
      assert !HasCode(ts, code, start);
      PreviousUnique(ts, code, start - 1, j);
    }
  }
}
