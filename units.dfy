/** The prefix-aware unit resolver: the definition mini-language of a unit table
    entry (`expr_unit`), the construction of a prefixed unit
    (`construct_prefixed_unit`), the dispatch over the builtin table and the
    optional `gpl` table (`query_unit_internal`, `query_unit_internal_gnu`) and
    the resolution of an identifier by exact lookup and then by prefix
    splitting (`query_unit`).

    The numeric type `Number`, the expression evaluator and the unit tables are
    not part of this model: they are the function-valued fields of `Env`, and
    the number type is the type parameter `N`. */
module Units {
  import opened Text
  import opened Wrappers


  datatype PrefixRule =
    | NoPrefixesAllowed
    | LongPrefixAllowed
    | LongPrefix
    | ShortPrefixAllowed
    | ShortPrefix

  /** What a call into the numeric library or the evaluator yields: a value,
      an interrupt, or an error message (`IntErr<String, I>`). */
  datatype Computed<N> = Done(value: N) | Interrupted | Failed(message: string)

  /** `IntErr<GetIdentError, I>`: the interrupt, or one of the two kinds of `GetIdentError`. */
  datatype Failure = Interrupt | EvalError(message: string) | IdentifierNotFound(ident: string)

  datatype Result<T> = Ok(value: T) | Err(error: Failure)

  /** A resolved table entry. */
  datatype UnitDef<N> = UnitDef(singular: string, plural: string, prefixRule: PrefixRule, value: N)

  /** A row of a unit table: singular, plural and the definition text. */
  datatype Entry = Entry(singular: string, plural: string, definition: string)

  /** The collaborators of the resolver.
      `builtin` and `builtinGnu` are the lookups `builtin::query_unit` and
      `builtin_gnu::query_unit` (the latter only consulted when the `gpl`
      feature is on); `evaluate` is `evaluate_to_value` followed by
      `expect_num`; `newBaseUnit`, `mul` and `createUnit` are
      `Number::new_base_unit`, `Number::mul` and
      `Number::create_unit_value_from_value`. */
  datatype Env<!N> = Env(
    builtin: (string, bool) -> Option<Entry>,
    gpl: bool,
    builtinGnu: (string, bool) -> Option<Entry>,
    evaluate: string -> Computed<N>,
    newBaseUnit: (string, string) -> N,
    mul: (N, N) -> Computed<N>,
    createUnit: (N, string, string, string) -> Computed<N>)

  /** The `?` conversion of an `IntErr<String, I>` into an `IntErr<GetIdentError, I>`. */
  function Lift<N>(c: Computed<N>): (r: Result<N>)
    ensures r.Ok? <==> c.Done?
    ensures r.Ok? ==> r.value == c.value
    ensures r.Err? ==> (r.error.Interrupt? <==> c.Interrupted?)
    ensures c.Failed? ==> r == Err(EvalError(c.message))
  {
    match c
    case Done(v) => Ok(v)
    case Interrupted => Err(Interrupt)
    case Failed(m) => Err(EvalError(m))
  }

  /** A failure that ends the resolution at once: anything but "not found". */
  predicate IsHard(e: Failure) {
    e.Interrupt? || e.EvalError?
  }

  // ---------------------------------------------------------------------------
  // The definition mini-language

  /** The definition tags, in the order `expr_unit` tests them. */
  const Tags: seq<(string, PrefixRule)> :=
    [("l@", LongPrefixAllowed), ("lp@", LongPrefix), ("s@", ShortPrefixAllowed), ("sp@", ShortPrefix)]

  /** Tests the tags from index `i` on against the shrinking text `d`: each tag
      that `d` starts with at its turn is removed and sets the rule. */
  function StripTagsFrom(i: nat, d: string, rule: PrefixRule): (string, PrefixRule)
    requires i <= |Tags|
    decreases |Tags| - i
  {
    if i == |Tags| then (d, rule)
    else if StartsWith(d, Tags[i].0) then StripTagsFrom(i + 1, d[|Tags[i].0|..], Tags[i].1)
    else StripTagsFrom(i + 1, d, rule)
  }

  /** The text left after the tags and the prefix rule they select. */
  function ParseTags(d: string): (string, PrefixRule) {
    StripTagsFrom(0, d, NoPrefixesAllowed)
  }

  /** The alias marker `=`: whether it is there, and the text after it. */
  function StripAlias(d: string): (r: (bool, string))
    ensures r.0 <==> StartsWith(d, "=")
    ensures d == (if r.0 then "=" else "") + r.1
  {
    if StartsWith(d, "=") then (true, d[1..]) else (false, d)
  }

  /** Whether `expr_unit` wraps the evaluated number as a unit named after the entry. */
  predicate Wraps(alias: bool, rule: PrefixRule) {
    !alias && rule != LongPrefix
  }

  /** What `expr_unit` yields for a table entry. */
  function DefineUnit<N>(singular: string, plural: string, definition: string, env: Env<N>): (r: Result<UnitDef<N>>)
    ensures r.Ok? ==> r.value.singular == singular && r.value.plural == plural
    ensures r.Ok? ==> r.value.prefixRule == ParseTags(Trim(definition)).1
    ensures r.Err? ==> IsHard(r.error)
  {
    var (rest, rule) := ParseTags(Trim(definition));
    DefineTagged(singular, plural, rest, rule, env)
  }

  /** What `expr_unit` yields once the tags are stripped: `rest` is the
      definition text after them and `rule` the rule they selected. */
  function DefineTagged<N>(singular: string, plural: string, rest: string, rule: PrefixRule, env: Env<N>)
    : (r: Result<UnitDef<N>>)
    ensures r.Ok? ==> r.value.singular == singular && r.value.plural == plural && r.value.prefixRule == rule
    ensures r.Err? ==> IsHard(r.error)
  {
    if rest == "!" then
      Ok(UnitDef(singular, plural, rule, env.newBaseUnit(singular, plural)))
    else
      var (alias, expr) := StripAlias(rest);
      match env.evaluate(expr)
      case Interrupted => Err(Interrupt)
      case Failed(m) => Err(EvalError(m))
      case Done(num) =>
        if Wraps(alias, rule) then
          match Lift(env.createUnit(num, "", singular, plural))
          case Ok(unit) => Ok(UnitDef(singular, plural, rule, unit))
          case Err(e) => Err(e)
        else
          Ok(UnitDef(singular, plural, rule, num))
  }

  /** The first half of `expr_unit`: the tags are tested in their fixed order
      on the shrinking definition, and each one found sets the rule. */
  method StripDefinitionTags(definition: string) returns (def: string, rule: PrefixRule)
    ensures (def, rule) == ParseTags(definition)
  {
    def, rule := definition, NoPrefixesAllowed;
    assert Tags[0] == ("l@", LongPrefixAllowed) && Tags[1] == ("lp@", LongPrefix);
    assert Tags[2] == ("s@", ShortPrefixAllowed) && Tags[3] == ("sp@", ShortPrefix);
    if StartsWith(def, "l@") {
      def := def[2..];
      rule := LongPrefixAllowed;
    }
    assert StripTagsFrom(1, def, rule) == ParseTags(definition);
    if StartsWith(def, "lp@") {
      def := def[3..];
      rule := LongPrefix;
    }
    assert StripTagsFrom(2, def, rule) == ParseTags(definition);
    if StartsWith(def, "s@") {
      def := def[2..];
      rule := ShortPrefixAllowed;
    }
    assert StripTagsFrom(3, def, rule) == ParseTags(definition);
    if StartsWith(def, "sp@") {
      def := def[3..];
      rule := ShortPrefix;
    }
  }

  /** The second half of `expr_unit`, on the text left after the tags:
      recognise the base-unit marker, strip the alias marker, evaluate and wrap. */
  method DefineStripped<N>(singular: string, plural: string, rest: string, rule: PrefixRule, env: Env<N>)
    returns (r: Result<UnitDef<N>>)
    ensures r == DefineTagged(singular, plural, rest, rule, env)
  {
    if rest == "!" {
      return Ok(UnitDef(singular, plural, rule, env.newBaseUnit(singular, plural)));
    }
    var def, alias := rest, false;
    if StartsWith(def, "=") {
      alias := true;
      def := def[1..];
    }
    assert StripAlias(rest) == (alias, def);
    var value;
    match env.evaluate(def) {
      case Interrupted => return Err(Interrupt);
      case Failed(m) => return Err(EvalError(m));
      case Done(num) => value := num;
    }
    if !alias && rule != LongPrefix {
      var wrapped := Lift(env.createUnit(value, "", singular, plural));
      if wrapped.Err? {
        return Err(wrapped.error);
      }
      value := wrapped.value;
    }
    r := Ok(UnitDef(singular, plural, rule, value));
  }

  /** `expr_unit`: trim, strip the tags, then define the unit from what is left. */
  method ExprUnit<N>(singular: string, plural: string, definition: string, env: Env<N>)
    returns (r: Result<UnitDef<N>>)
    ensures r == DefineUnit(singular, plural, definition, env)
  {
    var def, rule := StripDefinitionTags(Trim(definition));
    r := DefineStripped(singular, plural, def, rule, env);
  }

  // ---------------------------------------------------------------------------
  // Table lookup

  /** `expr_unit` applied to a table row. */
  function DefineEntry<N>(e: Entry, env: Env<N>): (r: Result<UnitDef<N>>)
    ensures r.Err? ==> IsHard(r.error)
  {
    DefineUnit(e.singular, e.plural, e.definition, env)
  }

  /** `query_unit_internal_gnu`: the second table, present only with the `gpl` feature. */
  function QueryInternalGnu<N>(ident: string, shortPrefixes: bool, env: Env<N>): (r: Result<UnitDef<N>>)
    ensures r.Err? && !IsHard(r.error) ==> r.error == IdentifierNotFound(ident)
    ensures r == Err(IdentifierNotFound(ident)) <==> !env.gpl || env.builtinGnu(ident, shortPrefixes).None?
    ensures env.gpl && env.builtinGnu(ident, shortPrefixes).Some? ==>
              r == DefineEntry(env.builtinGnu(ident, shortPrefixes).value, env)
  {
    if env.gpl && env.builtinGnu(ident, shortPrefixes).Some? then
      DefineEntry(env.builtinGnu(ident, shortPrefixes).value, env)
    else
      Err(IdentifierNotFound(ident))
  }

  /** `query_unit_internal`: the builtin table first, then the `gpl` table. */
  function QueryInternal<N>(ident: string, shortPrefixes: bool, env: Env<N>): (r: Result<UnitDef<N>>)
    ensures r.Err? && !IsHard(r.error) ==> r.error == IdentifierNotFound(ident)
    ensures r == Err(IdentifierNotFound(ident)) <==>
              env.builtin(ident, shortPrefixes).None? && (!env.gpl || env.builtinGnu(ident, shortPrefixes).None?)
    ensures env.builtin(ident, shortPrefixes).Some? ==> r == DefineEntry(env.builtin(ident, shortPrefixes).value, env)
    ensures env.builtin(ident, shortPrefixes).None? ==> r == QueryInternalGnu(ident, shortPrefixes, env)
  {
    if env.builtin(ident, shortPrefixes).Some? then
      DefineEntry(env.builtin(ident, shortPrefixes).value, env)
    else
      QueryInternalGnu(ident, shortPrefixes, env)
  }

  // ---------------------------------------------------------------------------
  // Prefixed units

  /** The only prefix/base pairs that combine. */
  predicate Compatible(prefix: PrefixRule, base: PrefixRule)
    ensures Compatible(prefix, base) ==> (prefix == LongPrefix || prefix == ShortPrefix)
    ensures Compatible(prefix, base) ==> (prefix == LongPrefix <==> base == LongPrefixAllowed)
    ensures Compatible(prefix, base) ==> (prefix == ShortPrefix <==> base == ShortPrefixAllowed)
  {
    (prefix == LongPrefix && base == LongPrefixAllowed) || (prefix == ShortPrefix && base == ShortPrefixAllowed)
  }

  /** `construct_prefixed_unit`: the product of the two numbers, made one unit
      named by the prefix's name and the base's singular and plural. The
      prefix must have no separate plural once the product exists
      (`assert_eq!` after the multiplication). */
  function ConstructPrefixedUnit<N>(a: UnitDef<N>, b: UnitDef<N>, env: Env<N>): (r: Result<N>)
    requires env.mul(a.value, b.value).Done? ==> a.singular == a.plural
    ensures r.Ok? <==> env.mul(a.value, b.value).Done?
                       && env.createUnit(env.mul(a.value, b.value).value, a.singular, b.singular, b.plural).Done?
    ensures r.Ok? ==> env.createUnit(env.mul(a.value, b.value).value, a.singular, b.singular, b.plural) == Done(r.value)
    ensures r.Err? ==> IsHard(r.error)
    ensures !env.mul(a.value, b.value).Done? ==> r == Err(Lift(env.mul(a.value, b.value)).error)
    ensures env.mul(a.value, b.value).Done? ==>
              var c := env.createUnit(env.mul(a.value, b.value).value, a.singular, b.singular, b.plural);
              !c.Done? ==> r == Err(Lift(c).error)
  {
    match Lift(env.mul(a.value, b.value))
    case Err(e) => Err(e)
    case Ok(product) => Lift(env.createUnit(product, a.singular, b.singular, b.plural))
  }

  // ---------------------------------------------------------------------------
  // Resolution

  /** `query_unit`'s special form: a quoted name of at least three bytes.
      With a quote at both ends that is the same as at least three characters. */
  predicate IsQuotedLiteral(ident: string)
    ensures IsQuotedLiteral(ident) <==> 3 <= |ident| && ident[0] == '\'' && ident[|ident| - 1] == '\''
  {
    if StartsWith(ident, "'") && EndsWith(ident, "'") then
      QuotedByteLength(ident);
      Utf8Len(ident) >= 3
    else
      assert 3 <= |ident| && ident[0] == '\'' ==> ident[..1] == "'";
      assert 3 <= |ident| && ident[|ident| - 1] == '\'' ==> ident[|ident| - 1..] == "'";
      false
  }

  /** With a quote at both ends, at least three bytes is the same as at least
      three characters: a quote takes one byte. */
  lemma QuotedByteLength(ident: string)
    requires StartsWith(ident, "'") && EndsWith(ident, "'")
    ensures Utf8Len(ident) >= 3 <==> |ident| >= 3
  {
    if |ident| == 1 {
      assert Utf8Len(ident) == Utf8Width('\'') + Utf8Len(ident[1..]);
      assert ident[1..] == [];
    } else if |ident| == 2 {
      assert ident == "''";
      assert Utf8Len(ident) == Utf8Width('\'') + Utf8Len(ident[1..]);
      assert Utf8Len(ident[1..]) == Utf8Width('\'') + Utf8Len(ident[2..]);
      assert ident[1..][1..] == [];
    }
  }

  /** The split at `k` does not reach the `assert_eq!` of
      `construct_prefixed_unit` with a prefix that has a separate plural:
      when both halves resolve, the rules are compatible and the product
      exists, the prefix's singular is its plural. */
  predicate StepSafe<N>(ident: string, k: nat, env: Env<N>)
    requires 0 < k < |ident|
  {
    var a := QueryInternal(ident[..k], true, env);
    var b := QueryInternal(ident[k..], false, env);
    a.Ok? && b.Ok? && Compatible(a.value.prefixRule, b.value.prefixRule)
    && env.mul(a.value.value, b.value.value).Done?
    ==> a.value.singular == a.value.plural
  }

  /** The scan from split point `k` on does not panic: every split it reaches
      is safe, and it reaches the next one only when the current one moves on. */
  predicate ScanSafe<N>(ident: string, k: nat, env: Env<N>)
    requires 0 < k
    decreases |ident| - k
  {
    k >= |ident| || (StepSafe(ident, k, env) && (Skips(ident, k, env) ==> ScanSafe(ident, k + 1, env)))
  }

  /** `query_unit` does not panic on `ident`: it is a quoted literal, or its
      exact lookup ends the resolution, or the identifier is non-empty (the
      `unwrap` on its first character) and the scan over its split points
      does not panic. */
  predicate NoPanic<N>(ident: string, env: Env<N>) {
    IsQuotedLiteral(ident)
    || QueryInternal(ident, false, env) != Err(IdentifierNotFound(ident))
    || (ident != [] && ScanSafe(ident, 1, env))
  }

  /** What one split point decides: go on to the next one, or stop with an outcome. */
  datatype Step<N> = Continue | Stop(outcome: Result<N>)

  /** Splitting at `k` moves on: the prefix is not found, or it is found and
      the remainder is not. */
  predicate Skips<N>(ident: string, k: nat, env: Env<N>)
    requires 0 < k < |ident|
  {
    var a := QueryInternal(ident[..k], true, env);
    a == Err(IdentifierNotFound(ident[..k]))
    || (a.Ok? && QueryInternal(ident[k..], false, env) == Err(IdentifierNotFound(ident[k..])))
  }

  /** Both halves of the split at `k` resolve. */
  predicate BothResolve<N>(ident: string, k: nat, env: Env<N>)
    requires 0 < k < |ident|
  {
    QueryInternal(ident[..k], true, env).Ok? && QueryInternal(ident[k..], false, env).Ok?
  }

  /** One iteration of `query_unit`'s loop, at split point `k`. */
  function SplitStep<N>(ident: string, k: nat, env: Env<N>): (s: Step<N>)
    requires 0 < k < |ident| && StepSafe(ident, k, env)
    ensures s.Continue? <==> Skips(ident, k, env)
    ensures s.Stop? && s.outcome.Err? && !IsHard(s.outcome.error) ==> s.outcome.error == IdentifierNotFound(ident)
  {
    var a := QueryInternal(ident[..k], true, env);
    if a.Err? then
      if IsHard(a.error) then Stop(Err(a.error)) else Continue
    else
      var b := QueryInternal(ident[k..], false, env);
      if b.Err? then
        if IsHard(b.error) then Stop(Err(b.error)) else Continue
      else if Compatible(a.value.prefixRule, b.value.prefixRule) then
        Stop(ConstructPrefixedUnit(a.value, b.value, env))
      else
        Stop(Err(IdentifierNotFound(ident)))
  }

  /** The split points from `k` on, left to right: the first one that stops decides. */
  function ScanSplits<N>(ident: string, k: nat, env: Env<N>): (r: Result<N>)
    requires 0 < k && ScanSafe(ident, k, env)
    ensures r.Err? && !IsHard(r.error) ==> r.error == IdentifierNotFound(ident)
    decreases |ident| - k
  {
    if k >= |ident| then Err(IdentifierNotFound(ident))
    else match SplitStep(ident, k, env)
      case Continue => ScanSplits(ident, k + 1, env)
      case Stop(outcome) => outcome
  }

  /** What `query_unit` returns for `ident`. */
  function Resolve<N>(ident: string, env: Env<N>): (r: Result<N>)
    requires NoPanic(ident, env)
    ensures r.Err? && !IsHard(r.error) ==> r.error == IdentifierNotFound(ident)
  {
    if IsQuotedLiteral(ident) then Ok(env.newBaseUnit(ident, ident))
    else match QueryInternal(ident, false, env)
      case Ok(unit) => Ok(unit.value)
      case Err(e) => if IsHard(e) then Err(e) else ScanSplits(ident, 1, env)
  }

  /** `query_unit`: the quoted form, then the exact lookup, then a loop over
      the split points that leaves early. */
  method QueryUnit<N>(ident: string, env: Env<N>) returns (r: Result<N>)
    requires NoPanic(ident, env)
    ensures r == Resolve(ident, env)
  {
    if StartsWith(ident, "'") && EndsWith(ident, "'") && Utf8Len(ident) >= 3 {
      return Ok(env.newBaseUnit(ident, ident));
    }
    var exact := QueryInternal(ident, false, env);
    if exact.Ok? {
      return Ok(exact.value.value);
    } else if IsHard(exact.error) {
      return Err(exact.error);
    }
    var split := 1;
    while split < |ident|
      invariant 1 <= split <= |ident| && ScanSafe(ident, split, env)
      invariant ScanSplits(ident, split, env) == Resolve(ident, env)
    {
      var prefix, remaining := ident[..split], ident[split..];
      split := split + 1;
      var a := QueryInternal(prefix, true, env);
      if a.Err? {
        if IsHard(a.error) {
          return Err(a.error);
        }
        continue;
      }
      var b := QueryInternal(remaining, false, env);
      if b.Err? {
        if IsHard(b.error) {
          return Err(b.error);
        }
      } else {
        if Compatible(a.value.prefixRule, b.value.prefixRule) {
          assert StepSafe(ident, split - 1, env);
          return ConstructPrefixedUnit(a.value, b.value, env);
        }
        return Err(IdentifierNotFound(ident));
      }
    }
    r := Err(IdentifierNotFound(ident));
  }
}
