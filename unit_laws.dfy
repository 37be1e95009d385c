/** Properties of the unit resolver: how definition tags select the prefix
    rule, what `expr_unit` does with the base-unit and alias markers, and how
    `query_unit` orders the quoted form, the exact lookup and the split
    points. */
module UnitLaws {
  import opened Text
  import opened Units
  import opened Wrappers

  // ---------------------------------------------------------------------------
  // Definition tags

  /** `used` lists tag indices from `from` on, in strictly increasing order. */
  predicate IsTagRun(used: seq<nat>, from: nat)
    decreases |used|
  {
    used == [] || (from <= used[0] < |Tags| && IsTagRun(used[1..], used[0] + 1))
  }

  /** The tags listed in `used`, written one after the other. */
  function TagText(used: seq<nat>, from: nat): string
    requires IsTagRun(used, from)
    decreases |used|
  {
    if used == [] then "" else Tags[used[0]].0 + TagText(used[1..], used[0] + 1)
  }

  /** The rule a run of tags selects: the last tag's, or `initial` when there is none. */
  function RunRule(used: seq<nat>, from: nat, initial: PrefixRule): PrefixRule
    requires IsTagRun(used, from)
    decreases |used|
  {
    if used == [] then initial else RunRule(used[1..], used[0] + 1, Tags[used[0]].1)
  }

  /** The first tag index the text after the run `used` is still tested against. */
  function NextTag(used: seq<nat>, from: nat): nat
    decreases |used|
  {
    if used == [] then from else NextTag(used[1..], used[0] + 1)
  }

  /** `x` starts with none of the tags from index `from` on. */
  predicate NoTagFrom(x: string, from: nat)
    decreases |Tags| - from
  {
    from >= |Tags| || (!StartsWith(x, Tags[from].0) && NoTagFrom(x, from + 1))
  }

  /** A text that starts with a later tag never starts with an earlier one:
      the four tags differ within their first two characters. */
  lemma TagsExclusive(i: nat, j: nat, y: string)
    requires i < j < |Tags|
    ensures !StartsWith(Tags[j].0 + y, Tags[i].0)
  {
    var t := Tags[j].0 + y;
    assert t[0] == Tags[j].0[0] && t[1] == Tags[j].0[1];
  }

  /** Stacked tags are removed in the fixed test order and the last one
      removed decides the rule, provided the text after them starts with no
      tag that would still be tested. */
  lemma {:induction false} StripTagRun(i: nat, used: seq<nat>, x: string, rule: PrefixRule)
    requires i <= |Tags| && IsTagRun(used, i)
    requires NoTagFrom(x, NextTag(used, i))
    ensures StripTagsFrom(i, TagText(used, i) + x, rule) == (x, RunRule(used, i, rule))
    decreases |Tags| - i, 1
  {
    if used == [] {
      assert TagText(used, i) + x == x;
      if i < |Tags| {
        StripTagRun(i + 1, used, x, rule);
        StripStepSkipped(i, x, rule);
      }
    } else if used[0] == i {
      RunTaken(i, used, x, rule);
    } else {
      RunPassed(i, used, x, rule);
    }
  }

  /** `StripTagRun` when the run starts with tag `i`: it is removed and sets the rule. */
  lemma {:induction false} RunTaken(i: nat, used: seq<nat>, x: string, rule: PrefixRule)
    requires i < |Tags| && IsTagRun(used, i) && used != [] && used[0] == i
    requires NoTagFrom(x, NextTag(used, i))
    ensures StripTagsFrom(i, TagText(used, i) + x, rule) == (x, RunRule(used, i, rule))
    decreases |Tags| - i, 0
  {
    var tail := used[1..];
    assert used == [i] + tail;
    ConsRun(i, tail, rule);
    var text := TagText(tail, i + 1) + x;
    ConcatAssoc(Tags[i].0, TagText(tail, i + 1), x);
    StripStepTaken(i, text, rule);
    StripTagRun(i + 1, tail, x, Tags[i].1);
  }

  /** `StripTagRun` when the run starts with a later tag: tag `i` is not
      there, since the tags differ within their first two characters. */
  lemma {:induction false} RunPassed(i: nat, used: seq<nat>, x: string, rule: PrefixRule)
    requires i < |Tags| && IsTagRun(used, i) && used != [] && used[0] != i
    requires NoTagFrom(x, NextTag(used, i))
    ensures StripTagsFrom(i, TagText(used, i) + x, rule) == (x, RunRule(used, i, rule))
    decreases |Tags| - i, 0
  {
    var text := TagText(used[1..], used[0] + 1) + x;
    assert TagText(used, i) + x == Tags[used[0]].0 + text;
    TagsExclusive(i, used[0], text);
    StripStepSkipped(i, TagText(used, i) + x, rule);
    assert TagText(used, i) == TagText(used, i + 1);
    StripTagRun(i + 1, used, x, rule);
  }

  /** Concatenation is associative. */
  lemma ConcatAssoc(a: string, b: string, c: string)
    ensures (a + b) + c == a + (b + c)
  {
  }

  /** One test of the stripping, when the text starts with tag `i`. */
  lemma StripStepTaken(i: nat, text: string, rule: PrefixRule)
    requires i < |Tags|
    ensures StripTagsFrom(i, Tags[i].0 + text, rule) == StripTagsFrom(i + 1, text, Tags[i].1)
  {
    var t := Tags[i].0;
    assert (t + text)[..|t|] == t && (t + text)[|t|..] == text;
  }

  /** One test of the stripping, when the text does not start with tag `i`. */
  lemma StripStepSkipped(i: nat, x: string, rule: PrefixRule)
    requires i < |Tags| && !StartsWith(x, Tags[i].0)
    ensures StripTagsFrom(i, x, rule) == StripTagsFrom(i + 1, x, rule)
  {
  }

  /** Every result of the tag stripping is such a run: the definition is the
      text of the tags removed followed by the rest, the rule is the last
      removed tag's, and the rest starts with no tag that was still to be tested. */
  lemma {:induction false} StripTagsDecompose(i: nat, d: string, rule: PrefixRule) returns (used: seq<nat>)
    requires i <= |Tags|
    ensures IsTagRun(used, i)
    ensures d == TagText(used, i) + StripTagsFrom(i, d, rule).0
    ensures StripTagsFrom(i, d, rule).1 == RunRule(used, i, rule)
    ensures NoTagFrom(StripTagsFrom(i, d, rule).0, NextTag(used, i))
    decreases |Tags| - i, 1
  {
    if i == |Tags| {
      used := [];
      assert TagText(used, i) + d == d;
    } else if StartsWith(d, Tags[i].0) {
      used := DecomposeAfterStrip(i, d, rule);
    } else {
      used := DecomposeAfterKeep(i, d, rule);
    }
  }

  /** `StripTagsDecompose` when the tag at index `i` is there and is removed. */
  lemma {:induction false} DecomposeAfterStrip(i: nat, d: string, rule: PrefixRule) returns (used: seq<nat>)
    requires i < |Tags| && StartsWith(d, Tags[i].0)
    ensures IsTagRun(used, i)
    ensures d == TagText(used, i) + StripTagsFrom(i, d, rule).0
    ensures StripTagsFrom(i, d, rule).1 == RunRule(used, i, rule)
    ensures NoTagFrom(StripTagsFrom(i, d, rule).0, NextTag(used, i))
    decreases |Tags| - i, 0
  {
    var t := Tags[i].0;
    var rest := d[|t|..];
    var res := StripTagsFrom(i + 1, rest, Tags[i].1);
    assert StripTagsFrom(i, d, rule) == res;
    var tail := StripTagsDecompose(i + 1, rest, Tags[i].1);
    used := [i] + tail;
    ConsRun(i, tail, rule);
    PrefixThenRest(d, t, TagText(tail, i + 1), res.0);
  }

  /** `d` that starts with `t` and continues with `u + v` is `(t + u) + v`. */
  lemma PrefixThenRest(d: string, t: string, u: string, v: string)
    requires StartsWith(d, t) && d[|t|..] == u + v
    ensures d == (t + u) + v
  {
    assert d == d[..|t|] + d[|t|..];
  }

  /** A run that starts with tag `i`, unfolded once. */
  lemma ConsRun(i: nat, tail: seq<nat>, rule: PrefixRule)
    requires i < |Tags| && IsTagRun(tail, i + 1)
    ensures IsTagRun([i] + tail, i)
    ensures TagText([i] + tail, i) == Tags[i].0 + TagText(tail, i + 1)
    ensures RunRule([i] + tail, i, rule) == RunRule(tail, i + 1, Tags[i].1)
    ensures NextTag([i] + tail, i) == NextTag(tail, i + 1)
  {
    assert ([i] + tail)[0] == i && ([i] + tail)[1..] == tail;
  }

  /** `StripTagsDecompose` when the tag at index `i` is not there. */
  lemma {:induction false} DecomposeAfterKeep(i: nat, d: string, rule: PrefixRule) returns (used: seq<nat>)
    requires i < |Tags| && !StartsWith(d, Tags[i].0)
    ensures IsTagRun(used, i)
    ensures d == TagText(used, i) + StripTagsFrom(i, d, rule).0
    ensures StripTagsFrom(i, d, rule).1 == RunRule(used, i, rule)
    ensures NoTagFrom(StripTagsFrom(i, d, rule).0, NextTag(used, i))
    decreases |Tags| - i, 0
  {
    var res := StripTagsFrom(i + 1, d, rule);
    StripStepSkipped(i, d, rule);
    used := StripTagsDecompose(i + 1, d, rule);
    if used == [] {
      assert TagText(used, i + 1) + res.0 == d;
    } else {
      assert TagText(used, i) == TagText(used, i + 1);
    }
  }

  /** The tags after trimming, both ways: a definition written as a run of
      tags and a rest that starts with no tag still to be tested parses to
      that rest and the last tag's rule (no tag: `NoPrefixesAllowed`); and
      every definition parses that way. */
  lemma ParseTagsCharacterised(used: seq<nat>, x: string, d: string) returns (parsedRun: seq<nat>)
    requires IsTagRun(used, 0) && NoTagFrom(x, NextTag(used, 0))
    ensures ParseTags(TagText(used, 0) + x) == (x, RunRule(used, 0, NoPrefixesAllowed))
    ensures IsTagRun(parsedRun, 0) && d == TagText(parsedRun, 0) + ParseTags(d).0
    ensures ParseTags(d).1 == RunRule(parsedRun, 0, NoPrefixesAllowed)
    ensures NoTagFrom(ParseTags(d).0, NextTag(parsedRun, 0))
  {
    StripTagRun(0, used, x, NoPrefixesAllowed);
    parsedRun := StripTagsDecompose(0, d, NoPrefixesAllowed);
  }

  /** Each tag on its own: `l@` selects LongPrefixAllowed, `lp@` LongPrefix,
      `s@` ShortPrefixAllowed and `sp@` ShortPrefix, and the tag is removed. */
  lemma SingleTag(i: nat, x: string)
    requires i < |Tags| && NoTagFrom(x, i + 1)
    ensures ParseTags(Tags[i].0 + x) == (x, Tags[i].1)
  {
    assert TagText([i], 0) == Tags[i].0;
    StripTagRun(0, [i], x, NoPrefixesAllowed);
  }

  /** Without a tag the rule is NoPrefixesAllowed and nothing is removed. */
  lemma Untagged(x: string)
    requires NoTagFrom(x, 0)
    ensures ParseTags(x) == (x, NoPrefixesAllowed)
  {
    StripTagRun(0, [], x, NoPrefixesAllowed);
  }

  /** `r` is what tag stripping from `d` with rule `rule` may yield: a suffix
      of `d`, with the rule changed exactly when something was removed. */
  predicate StripShape(d: string, rule: PrefixRule, r: (string, PrefixRule)) {
    |r.0| <= |d| && r.0 == d[|d| - |r.0|..]
    && (r.0 == d ==> r.1 == rule)
    && (r.0 != d ==> r.1 != NoPrefixesAllowed)
  }

  /** Tag stripping only removes text from the front, and the rule changes
      exactly when something is removed. */
  lemma {:induction false} StripTagsShape(i: nat, d: string, rule: PrefixRule)
    requires i <= |Tags|
    ensures StripShape(d, rule, StripTagsFrom(i, d, rule))
    decreases |Tags| - i, 1
  {
    if i < |Tags| {
      if StartsWith(d, Tags[i].0) {
        ShapeAfterStrip(i, d, rule);
      } else {
        StripTagsShape(i + 1, d, rule);
      }
    }
  }

  /** `StripTagsShape` when the tag at index `i` is there and is removed. */
  lemma {:induction false} ShapeAfterStrip(i: nat, d: string, rule: PrefixRule)
    requires i < |Tags| && StartsWith(d, Tags[i].0)
    ensures StripShape(d, rule, StripTagsFrom(i, d, rule))
    decreases |Tags| - i, 0
  {
    var t, tagRule := Tags[i].0, Tags[i].1;
    TagIsMarker(i);
    var r := StripTagsFrom(i + 1, d[|t|..], tagRule);
    assert StripTagsFrom(i, d, rule) == r;
    StripTagsShape(i + 1, d[|t|..], tagRule);
    ShapeAfterPrefix(d, |t|, tagRule, rule, r);
  }

  /** Every tag is non-empty and selects a rule other than NoPrefixesAllowed. */
  lemma TagIsMarker(i: nat)
    requires i < |Tags|
    ensures |Tags[i].0| > 0 && Tags[i].1 != NoPrefixesAllowed
  {
  }

  /** Removing a non-empty prefix and setting a rule other than
      NoPrefixesAllowed keeps the shape of what the rest yields. */
  lemma ShapeAfterPrefix(d: string, n: nat, tagRule: PrefixRule, rule: PrefixRule, r: (string, PrefixRule))
    requires 0 < n <= |d| && tagRule != NoPrefixesAllowed
    requires StripShape(d[n..], tagRule, r)
    ensures StripShape(d, rule, r)
  {
    SuffixOfSuffix(d, n, r.0);
  }

  /** A suffix of what follows the first `n` elements of `d` is a suffix of `d`. */
  lemma SuffixOfSuffix(d: string, n: nat, x: string)
    requires n <= |d| && |x| <= |d| - n && x == d[n..][|d| - n - |x|..]
    ensures x == d[|d| - |x|..]
  {
    assert d[n..][|d| - n - |x|..] == d[|d| - |x|..];
  }

  /** The rest is what follows the removed tags, and the rule stays
      NoPrefixesAllowed exactly when no tag was removed. */
  lemma ParseTagsShape(d: string)
    ensures |ParseTags(d).0| <= |d| && ParseTags(d).0 == d[|d| - |ParseTags(d).0|..]
    ensures ParseTags(d).1 == NoPrefixesAllowed <==> ParseTags(d).0 == d
  {
    StripTagsShape(0, d, NoPrefixesAllowed);
    assert ParseTags(d) == StripTagsFrom(0, d, NoPrefixesAllowed);
  }

  /** Stacking: with `l@` in front of `s@`, both are removed and the later
      test, `s@`, decides. */
  lemma StackedTags()
    ensures ParseTags("l@s@!") == ("!", ShortPrefixAllowed)
  {
    assert TagText([0, 2], 0) == "l@s@" by {
      assert [0, 2][1..] == [2];
      assert TagText([2], 1) == "s@";
    }
    StripTagRun(0, [0, 2], "!", NoPrefixesAllowed);
  }

  /** A tag out of order is not removed: after `sp@`, the last test, `l@`
      stays in the definition. */
  lemma TagOutOfOrder()
    ensures ParseTags("sp@l@x") == ("l@x", ShortPrefix)
  {
    SingleTag(3, "l@x");
    assert Tags[3].0 + "l@x" == "sp@l@x";
  }

  // ---------------------------------------------------------------------------
  // expr_unit

  /** The base-unit marker: a definition that is exactly `!` after trimming
      and tags is a new base unit of the entry's names, and the evaluator and
      the unit-value builder are never called. */
  lemma BaseUnitMarker<N>(singular: string, plural: string, definition: string, env: Env<N>,
                          evaluate: string -> Computed<N>, createUnit: (N, string, string, string) -> Computed<N>)
    requires ParseTags(Trim(definition)).0 == "!"
    ensures DefineUnit(singular, plural, definition, env)
            == Ok(UnitDef(singular, plural, ParseTags(Trim(definition)).1, env.newBaseUnit(singular, plural)))
    ensures DefineUnit(singular, plural, definition, env.(evaluate := evaluate, createUnit := createUnit))
            == DefineUnit(singular, plural, definition, env)
  {
  }

  /** Alias and wrapping: after the tags, a leading `=` is removed before
      evaluation; the evaluated number becomes one unit named (singular,
      plural) exactly when the definition is no alias and the rule is not
      LongPrefix; otherwise it is kept as it is. */
  lemma AliasAndWrapping<N>(singular: string, plural: string, definition: string, env: Env<N>)
    requires ParseTags(Trim(definition)).0 != "!"
    requires env.evaluate(StripAlias(ParseTags(Trim(definition)).0).1).Done?
    ensures var (rest, rule) := ParseTags(Trim(definition));
            var alias := StartsWith(rest, "=");
            var num := env.evaluate(if alias then rest[1..] else rest).value;
            var r := DefineUnit(singular, plural, definition, env);
            && (!alias && rule != LongPrefix ==>
                  (r.Ok? <==> env.createUnit(num, "", singular, plural).Done?)
                  && (r.Ok? ==> Done(r.value.value) == env.createUnit(num, "", singular, plural))
                  && (r.Err? ==> r.error == Lift(env.createUnit(num, "", singular, plural)).error))
            && (alias || rule == LongPrefix ==> r == Ok(UnitDef(singular, plural, rule, num)))
  {
  }

  /** The evaluator's interrupt and errors come out of `expr_unit` unchanged. */
  lemma EvaluatorFailurePropagates<N>(singular: string, plural: string, definition: string, env: Env<N>)
    requires ParseTags(Trim(definition)).0 != "!"
    requires !env.evaluate(StripAlias(ParseTags(Trim(definition)).0).1).Done?
    ensures var c := env.evaluate(StripAlias(ParseTags(Trim(definition)).0).1);
            DefineUnit(singular, plural, definition, env) == Err(if c.Interrupted? then Interrupt else EvalError(c.message))
  {
  }

  // ---------------------------------------------------------------------------
  // query_unit

  /** A quoted literal is a base unit named by the whole identifier, and no
      table is consulted: other tables give the same answer. */
  lemma QuotedLiteral<N>(ident: string, env: Env<N>, builtin: (string, bool) -> Option<Entry>,
                         gpl: bool, builtinGnu: (string, bool) -> Option<Entry>)
    requires |ident| >= 3 && ident[0] == '\'' && ident[|ident| - 1] == '\''
    ensures NoPanic(ident, env)
    ensures Resolve(ident, env) == Ok(env.newBaseUnit(ident, ident))
    ensures Resolve(ident, env.(builtin := builtin, gpl := gpl, builtinGnu := builtinGnu)) == Resolve(ident, env)
  {
  }

  /** Exact-match precedence: when the whole identifier is in a table its
      value is the answer, whatever split would also resolve; a hard failure
      of that lookup is the answer too. */
  lemma ExactLookupFirst<N>(ident: string, env: Env<N>)
    requires !IsQuotedLiteral(ident)
    requires QueryInternal(ident, false, env).Ok? || IsHard(QueryInternal(ident, false, env).error)
    ensures NoPanic(ident, env)
    ensures QueryInternal(ident, false, env).Ok? ==> Resolve(ident, env) == Ok(QueryInternal(ident, false, env).value.value)
    ensures QueryInternal(ident, false, env).Err? ==> Resolve(ident, env) == Err(QueryInternal(ident, false, env).error)
  {
  }

  /** The split points are scanned left to right and the first one that does
      not skip decides the outcome. */
  lemma {:induction false} FirstStopDecides<N>(ident: string, i: nat, k: nat, env: Env<N>)
    requires 0 < i <= k < |ident| && ScanSafe(ident, i, env)
    requires forall j :: i <= j < k ==> Skips(ident, j, env)
    requires !Skips(ident, k, env)
    ensures ScanSafe(ident, k, env)
    ensures ScanSplits(ident, i, env) == SplitStep(ident, k, env).outcome
    decreases k - i
  {
    if i < k {
      FirstStopDecides(ident, i + 1, k, env);
    }
  }

  /** When every split point from `i` on skips, the identifier is not found,
      and the failure names the whole identifier. */
  lemma {:induction false} AllSkipNotFound<N>(ident: string, i: nat, env: Env<N>)
    requires 0 < i && ScanSafe(ident, i, env)
    requires forall j :: i <= j < |ident| ==> Skips(ident, j, env)
    ensures ScanSplits(ident, i, env) == Err(IdentifierNotFound(ident))
    decreases |ident| - i
  {
    if i < |ident| {
      AllSkipNotFound(ident, i + 1, env);
    }
  }

  /** The identifier is not found exactly: neither table has it. */
  predicate ExactMiss<N>(ident: string, env: Env<N>) {
    !IsQuotedLiteral(ident) && QueryInternal(ident, false, env) == Err(IdentifierNotFound(ident))
  }

  /** Prefix compatibility. After an exact miss, at the first split point
      where both halves resolve (every earlier one skipped), the pair is
      combined when its rules are (LongPrefix, LongPrefixAllowed) or
      (ShortPrefix, ShortPrefixAllowed), and any other pair ends the search
      with the original identifier not found. */
  lemma FirstResolvingSplit<N>(ident: string, k: nat, env: Env<N>)
    requires NoPanic(ident, env) && ExactMiss(ident, env) && 0 < k < |ident|
    requires forall j :: 1 <= j < k ==> Skips(ident, j, env)
    requires BothResolve(ident, k, env)
    ensures ScanSafe(ident, k, env)
    ensures var a := QueryInternal(ident[..k], true, env).value;
            var b := QueryInternal(ident[k..], false, env).value;
            Resolve(ident, env) ==
              if Compatible(a.prefixRule, b.prefixRule) then ConstructPrefixedUnit(a, b, env)
              else Err(IdentifierNotFound(ident))
  {
    FirstStopDecides(ident, 1, k, env);
  }

  /** Interrupts and evaluation errors of a sub-lookup at the first split
      point that does not skip end the resolution with that very failure. */
  lemma FirstHardFailure<N>(ident: string, k: nat, env: Env<N>)
    requires NoPanic(ident, env) && ExactMiss(ident, env) && 0 < k < |ident|
    requires forall j :: 1 <= j < k ==> Skips(ident, j, env)
    requires var a := QueryInternal(ident[..k], true, env);
             (a.Err? && IsHard(a.error))
             || (a.Ok? && QueryInternal(ident[k..], false, env).Err? && IsHard(QueryInternal(ident[k..], false, env).error))
    ensures var a := QueryInternal(ident[..k], true, env);
            Resolve(ident, env) == Err(if a.Err? then a.error else QueryInternal(ident[k..], false, env).error)
  {
    FirstStopDecides(ident, 1, k, env);
  }

  /** Exhausting the split points: after an exact miss, when every split
      skips the identifier is not found under its own name. */
  lemma NoSplitResolves<N>(ident: string, env: Env<N>)
    requires NoPanic(ident, env) && ExactMiss(ident, env)
    requires forall j :: 1 <= j < |ident| ==> Skips(ident, j, env)
    ensures Resolve(ident, env) == Err(IdentifierNotFound(ident))
  {
    AllSkipNotFound(ident, 1, env);
  }

  /** The converse: a successful resolution is the quoted form, the exact
      lookup, or a compatible pair at a split point before which every split
      skipped. */
  lemma {:induction false} ResolvedSplitWitness<N>(ident: string, i: nat, env: Env<N>) returns (k: nat)
    requires 0 < i && ScanSafe(ident, i, env)
    requires ScanSplits(ident, i, env).Ok?
    ensures i <= k < |ident| && forall j :: i <= j < k ==> Skips(ident, j, env)
    ensures ScanSafe(ident, k, env) && BothResolve(ident, k, env)
    ensures var a := QueryInternal(ident[..k], true, env).value;
            var b := QueryInternal(ident[k..], false, env).value;
            Compatible(a.prefixRule, b.prefixRule) && ScanSplits(ident, i, env) == ConstructPrefixedUnit(a, b, env)
    decreases |ident| - i
  {
    if SplitStep(ident, i, env).Continue? {
      assert ScanSplits(ident, i, env) == ScanSplits(ident, i + 1, env);
      k := ResolvedSplitWitness(ident, i + 1, env);
      assert Skips(ident, i, env);
      forall j | i <= j < k
        ensures Skips(ident, j, env)
      {
        if j != i {
          assert i + 1 <= j < k;
        }
      }
    } else {
      k := i;
    }
  }

  // ---------------------------------------------------------------------------
  // A worked resolution

  /** A two-row table: the short prefix `k` (1000) and the metre, a base unit
      that takes short prefixes. */
  function MetricTable(name: string, shortPrefixes: bool): Option<Entry> {
    if name == "k" && shortPrefixes then Some(Entry("k", "k", "sp@1000"))
    else if name == "m" && !shortPrefixes then Some(Entry("metre", "metres", "s@!"))
    else None
  }

  /** Magnitudes as integers: a base unit has magnitude one, the evaluator
      knows the literal `1000`, multiplication is exact and naming a unit
      keeps the magnitude. */
  function MetricEnv(): Env<int> {
    Env(MetricTable, false, (name: string, shortPrefixes: bool) => None,
        (e: string) => if e == "1000" then Done(1000) else Failed("unknown"),
        (singular: string, plural: string) => 1,
        (x: int, y: int) => Done(x * y),
        (n: int, prefix: string, singular: string, plural: string) => Done(n))
  }

  /** The prefix row: `sp@1000` is the short prefix of magnitude 1000, named after itself. */
  lemma MetricPrefix(k: string, env: Env<int>)
    requires k == "k" && env == MetricEnv()
    ensures QueryInternal(k, true, env) == Ok(UnitDef(k, k, ShortPrefix, 1000))
  {
    TrimOfTrimmed("sp@1000");
    SingleTag(3, "1000");
    assert Tags[3].0 + "1000" == "sp@1000";
    assert ParseTags(Trim("sp@1000")) == ("1000", ShortPrefix);
    assert !StartsWith("1000", "=") by {
      assert "1000"[..1][0] == '1' && "="[0] == '=';
    }
    assert StripAlias("1000") == (false, "1000");
    assert env.evaluate("1000") == Done(1000);
  }

  /** The base row: `s@!` is a base unit that takes short prefixes. */
  lemma MetricBase(m: string, env: Env<int>)
    requires m == "m" && env == MetricEnv()
    ensures QueryInternal(m, false, env) == Ok(UnitDef("metre", "metres", ShortPrefixAllowed, 1))
  {
    TrimOfTrimmed("s@!");
    SingleTag(2, "!");
    assert Tags[2].0 + "!" == "s@!";
  }

  /** `km` itself is neither quoted nor in either table. */
  lemma KilometreExactMiss(km: string, env: Env<int>)
    requires km == "km" && env == MetricEnv()
    ensures ExactMiss(km, env)
  {
    assert km[0] == 'k';
    assert !StartsWith(km, "'") by {
      assert km[..1][0] == 'k';
    }
    assert env.builtin(km, false) == None;
  }

  /** At the only split of `km` the prefix `k` has no separate plural, so
      the resolution does not panic. */
  lemma KilometreNoPanic(km: string, env: Env<int>)
    requires km == "km" && env == MetricEnv()
    ensures NoPanic(km, env)
  {
    KilometreExactMiss(km, env);
    assert km[..1] == "k";
    MetricPrefix(km[..1], env);
    assert StepSafe(km, 1, env);
    assert ScanSafe(km, 1, env);
  }

  /** `km` is not in the table, so it splits into `k` and `m`; the pair is
      (ShortPrefix, ShortPrefixAllowed) and the magnitude is 1000 times 1. */
  lemma KilometreExample(km: string, env: Env<int>)
    requires km == "km" && env == MetricEnv()
    ensures NoPanic(km, env)
    ensures Resolve(km, env) == Ok(1000)
  {
    KilometreNoPanic(km, env);
    KilometreExactMiss(km, env);
    assert km[..1] == "k" && km[1..] == "m";
    MetricPrefix(km[..1], env);
    MetricBase(km[1..], env);
    FirstResolvingSplit(km, 1, env);
  }
}
