/**
 * The argument list that `createServicePrincipalAndAssignRole` hands to
 * `az ad sp create-for-rbac`.
 *
 * `BuildArgs` follows the source: one segment per field, each guarded by
 * JavaScript truthiness, then the caller's extra arguments. `FieldSwitch`
 * restates the same segments as a per-field table of command-line switches
 * (a flag token and its values), so that properties can be stated for any
 * field at once: where each switch lands, in which order, what it
 * contributes and how often a flag token occurs.
 */
module CreateForRbac {
  import opened Wrappers
  import Decimal

  /** The fields of `ServicePrincipalCreateParameters`; `None` is an absent property. */
  datatype CreateParameters = CreateParameters(
    name: Option<string>,
    role: Option<string>,
    scopes: Option<seq<string>>,
    years: Option<int>,
    jsonAuth: Option<bool>,
    sdkAuth: Option<bool>)

  /** The second argument, `option`; its `execaOption` only travels to the process runner. */
  datatype InvocationOptions = InvocationOptions(extraArgs: Option<seq<string>>)

  // JavaScript truthiness of each field's value (an absent property is `undefined`, hence falsy).

  predicate StringTruthy(s: Option<string>) {
    s.Some? && s.value != ""
  }

  /** Every array object is truthy, the empty one included. */
  predicate ArrayTruthy(a: Option<seq<string>>) {
    a.Some?
  }

  predicate NumberTruthy(n: Option<int>) {
    n.Some? && n.value != 0
  }

  predicate BooleanTruthy(b: Option<bool>) {
    b == Some(true)
  }

  const CommandPrefix: seq<string> := ["ad", "sp", "create-for-rbac"]

  // The segments built by the `const` bindings of the source, one per field.

  function NameArgs(config: CreateParameters): seq<string> {
    if StringTruthy(config.name) then ["--name", config.name.value] else []
  }

  function RoleArgs(config: CreateParameters): seq<string> {
    if StringTruthy(config.role) then ["--role", config.role.value] else []
  }

  function ScopesArgs(config: CreateParameters): seq<string> {
    if ArrayTruthy(config.scopes) then ["--scopes"] + config.scopes.value else []
  }

  function YearsArgs(config: CreateParameters): seq<string> {
    if NumberTruthy(config.years) then ["--years", Decimal.IntToDecimal(config.years.value)] else []
  }

  function JsonAuthArgs(config: CreateParameters): seq<string> {
    if BooleanTruthy(config.jsonAuth) then ["--json-auth"] else []
  }

  function SdkAuthArgs(config: CreateParameters): seq<string> {
    if BooleanTruthy(config.sdkAuth) then ["--sdk-auth"] else []
  }

  /** `option?.extraArgs ?? []`: the caller's list when there is one, otherwise nothing. */
  function ExtraArgs(option: Option<InvocationOptions>): (r: seq<string>)
    ensures option.Some? && option.value.extraArgs.Some? ==> r == option.value.extraArgs.value
    ensures option.None? || option.value.extraArgs.None? ==> r == []
  {
    if option.Some? && option.value.extraArgs.Some? then option.value.extraArgs.value else []
  }

  /**
   * The argument list passed to `az`: the prefix, then the switch of every
   * truthy field in field order, then the extra arguments.
   */
  function BuildArgs(config: CreateParameters, option: Option<InvocationOptions>): (r: seq<string>)
    ensures r == CommandPrefix + TableArgs(config, FieldOrder) + ExtraArgs(option)
  {
    TableArgsInFieldOrder(config);
    RegroupSegments(CommandPrefix, NameArgs(config), RoleArgs(config), ScopesArgs(config),
      YearsArgs(config), JsonAuthArgs(config), SdkAuthArgs(config), ExtraArgs(option));
    CommandPrefix + NameArgs(config) + RoleArgs(config) + ScopesArgs(config) + YearsArgs(config)
      + JsonAuthArgs(config) + SdkAuthArgs(config) + ExtraArgs(option)
  }

  // ----- The command line as a table of switches -----

  datatype Field = Name | Role | Scopes | Years | JsonAuth | SdkAuth

  /** The order in which switches appear on the command line. */
  const FieldOrder: seq<Field> := [Name, Role, Scopes, Years, JsonAuth, SdkAuth]

  function FlagToken(f: Field): string {
    match f
    case Name => "--name"
    case Role => "--role"
    case Scopes => "--scopes"
    case Years => "--years"
    case JsonAuth => "--json-auth"
    case SdkAuth => "--sdk-auth"
  }

  function FieldIndex(f: Field): (i: nat)
    ensures i < |FieldOrder| && FieldOrder[i] == f
  {
    match f
    case Name => 0
    case Role => 1
    case Scopes => 2
    case Years => 3
    case JsonAuth => 4
    case SdkAuth => 5
  }

  /** One command-line switch: a flag token followed by its value tokens. */
  datatype Switch = Switch(flag: string, values: seq<string>)

  /** The switch a field puts on the command line, if its value is truthy. */
  function FieldSwitch(config: CreateParameters, f: Field): (s: Option<Switch>)
    ensures s.Some? ==> s.value.flag == FlagToken(f)
  {
    match f
    case Name => if StringTruthy(config.name) then Some(Switch("--name", [config.name.value])) else None
    case Role => if StringTruthy(config.role) then Some(Switch("--role", [config.role.value])) else None
    case Scopes => if ArrayTruthy(config.scopes) then Some(Switch("--scopes", config.scopes.value)) else None
    case Years =>
      if NumberTruthy(config.years) then Some(Switch("--years", [Decimal.IntToDecimal(config.years.value)])) else None
    case JsonAuth => if BooleanTruthy(config.jsonAuth) then Some(Switch("--json-auth", [])) else None
    case SdkAuth => if BooleanTruthy(config.sdkAuth) then Some(Switch("--sdk-auth", [])) else None
  }

  function Tokens(s: Option<Switch>): seq<string> {
    if s.Some? then [s.value.flag] + s.value.values else []
  }

  /** The tokens of the given fields' switches, in the given order. */
  function TableArgs(config: CreateParameters, fields: seq<Field>): seq<string> {
    if fields == [] then [] else Tokens(FieldSwitch(config, fields[0])) + TableArgs(config, fields[1..])
  }

  /** Where field `f`'s tokens start in the argument list. */
  function SwitchOffset(config: CreateParameters, f: Field): nat {
    |CommandPrefix| + |TableArgs(config, FieldOrder[..FieldIndex(f)])|
  }

  /** The parameters with field `f` removed. */
  function Cleared(config: CreateParameters, f: Field): CreateParameters {
    match f
    case Name => config.(name := None)
    case Role => config.(role := None)
    case Scopes => config.(scopes := None)
    case Years => config.(years := None)
    case JsonAuth => config.(jsonAuth := None)
    case SdkAuth => config.(sdkAuth := None)
  }

  lemma {:induction false} TableArgsAppend(config: CreateParameters, a: seq<Field>, b: seq<Field>)
    ensures TableArgs(config, a + b) == TableArgs(config, a) + TableArgs(config, b)
    decreases |a|
  {
    if a != [] {
      assert (a + b)[1..] == a[1..] + b;
      TableArgsAppend(config, a[1..], b);
    } else {
      assert a + b == b;
    }
  }

  /** The source's segment for field `f`. */
  function Segment(config: CreateParameters, f: Field): seq<string> {
    match f
    case Name => NameArgs(config)
    case Role => RoleArgs(config)
    case Scopes => ScopesArgs(config)
    case Years => YearsArgs(config)
    case JsonAuth => JsonAuthArgs(config)
    case SdkAuth => SdkAuthArgs(config)
  }

  /** Each field's switch spells out exactly the segment the source builds for it. */
  lemma SwitchMatchesSegment(config: CreateParameters, f: Field)
    ensures Tokens(FieldSwitch(config, f)) == Segment(config, f)
  {
  }

  lemma TableArgsCons(config: CreateParameters, f: Field, rest: seq<Field>)
    ensures TableArgs(config, [f] + rest) == Segment(config, f) + TableArgs(config, rest)
  {
    assert ([f] + rest)[1..] == rest;
    SwitchMatchesSegment(config, f);
  }

  lemma TableArgsFront(config: CreateParameters)
    ensures TableArgs(config, [Name, Role, Scopes]) == NameArgs(config) + RoleArgs(config) + ScopesArgs(config)
  {
    TableArgsCons(config, Scopes, []);
    TableArgsCons(config, Role, [Scopes]);
    TableArgsCons(config, Name, [Role, Scopes]);
  }

  lemma TableArgsBack(config: CreateParameters)
    ensures TableArgs(config, [Years, JsonAuth, SdkAuth]) == YearsArgs(config) + JsonAuthArgs(config) + SdkAuthArgs(config)
  {
    TableArgsCons(config, SdkAuth, []);
    TableArgsCons(config, JsonAuth, [SdkAuth]);
    TableArgsCons(config, Years, [JsonAuth, SdkAuth]);
  }

  /** The table, read in field order, yields the source's six segments in turn. */
  lemma TableArgsInFieldOrder(config: CreateParameters)
    ensures TableArgs(config, FieldOrder)
         == NameArgs(config) + RoleArgs(config) + ScopesArgs(config)
          + YearsArgs(config) + JsonAuthArgs(config) + SdkAuthArgs(config)
  {
    assert FieldOrder == [Name, Role, Scopes] + [Years, JsonAuth, SdkAuth];
    TableArgsAppend(config, [Name, Role, Scopes], [Years, JsonAuth, SdkAuth]);
    TableArgsFront(config);
    TableArgsBack(config);
  }

  lemma RegroupSegments(p: seq<string>, a: seq<string>, b: seq<string>, c: seq<string>,
                        d: seq<string>, e: seq<string>, f: seq<string>, x: seq<string>)
    ensures p + a + b + c + d + e + f + x == p + (a + b + c + d + e + f) + x
  {
  }

  /** Every field occurs exactly once in `FieldOrder`, at `FieldIndex`. */
  lemma FieldOrderSplit(f: Field)
    ensures FieldOrder == FieldOrder[..FieldIndex(f)] + [f] + FieldOrder[FieldIndex(f) + 1..]
    ensures f !in FieldOrder[..FieldIndex(f)] && f !in FieldOrder[FieldIndex(f) + 1..]
  {
    var i := FieldIndex(f);
    forall k | 0 <= k < |FieldOrder| && k != i
      ensures FieldOrder[k] != f
    {
      assert FieldIndex(FieldOrder[k]) == k;
    }
  }

  lemma Regroup(p: seq<string>, b: seq<string>, t: seq<string>, a: seq<string>, e: seq<string>)
    ensures p + (b + (t + a)) + e == (p + b) + t + (a + e)
  {
  }

  lemma Splice(head: seq<string>, tail: seq<string>)
    ensures head + [] + tail == head + tail
    ensures |head| <= |head + tail| && (head + tail)[..|head|] == head && (head + tail)[|head|..] == tail
  {
  }

  lemma PairAt(r: seq<string>, off: nat, a: string, b: string)
    requires off + 2 <= |r| && r[off..off + 2] == [a, b]
    ensures r[off] == a && r[off + 1] == b
  {
    assert r[off..off + 2][0] == r[off] && r[off..off + 2][1] == r[off + 1];
  }

  lemma SliceOfConcat(a: seq<string>, t: seq<string>, b: seq<string>)
    ensures |a| + |t| <= |a + t + b| && (a + t + b)[|a|..|a| + |t|] == t
  {
  }

  /** The argument list cut around field `f`: what precedes its switch, the switch, what follows. */
  lemma BuildArgsAround(config: CreateParameters, option: Option<InvocationOptions>, f: Field)
    ensures BuildArgs(config, option)
         == (CommandPrefix + TableArgs(config, FieldOrder[..FieldIndex(f)]))
          + Tokens(FieldSwitch(config, f))
          + (TableArgs(config, FieldOrder[FieldIndex(f) + 1..]) + ExtraArgs(option))
  {
    var i := FieldIndex(f);
    var before, after := FieldOrder[..i], FieldOrder[i + 1..];
    FieldOrderSplit(f);
    assert FieldOrder == before + ([f] + after);
    TableArgsAppend(config, before, [f] + after);
    assert TableArgs(config, [f] + after) == Tokens(FieldSwitch(config, f)) + TableArgs(config, after) by {
      assert ([f] + after)[1..] == after;
    }
    Regroup(CommandPrefix, TableArgs(config, before), Tokens(FieldSwitch(config, f)), TableArgs(config, after), ExtraArgs(option));
  }

  /** Field `f`'s switch sits, contiguously, at `SwitchOffset(config, f)`. */
  lemma SwitchAt(config: CreateParameters, option: Option<InvocationOptions>, f: Field)
    ensures var r := BuildArgs(config, option);
            var t := Tokens(FieldSwitch(config, f));
            var off := SwitchOffset(config, f);
            off + |t| <= |r| && r[off..off + |t|] == t
  {
    var i := FieldIndex(f);
    BuildArgsAround(config, option, f);
    SliceOfConcat(CommandPrefix + TableArgs(config, FieldOrder[..i]), Tokens(FieldSwitch(config, f)),
      TableArgs(config, FieldOrder[i + 1..]) + ExtraArgs(option));
  }

  /** The switches do not overlap and appear in field order. */
  lemma SwitchesInOrder(config: CreateParameters, f: Field, g: Field)
    requires FieldIndex(f) < FieldIndex(g)
    ensures SwitchOffset(config, f) + |Tokens(FieldSwitch(config, f))| <= SwitchOffset(config, g)
  {
    var i, j := FieldIndex(f), FieldIndex(g);
    FieldOrderSplit(f);
    assert FieldOrder[..j] == FieldOrder[..i] + ([f] + FieldOrder[i + 1..j]);
    TableArgsAppend(config, FieldOrder[..i], [f] + FieldOrder[i + 1..j]);
    assert ([f] + FieldOrder[i + 1..j])[1..] == FieldOrder[i + 1..j];
  }

  /** The extra arguments come right after the last switch, so after every switch. */
  lemma ExtraArgsFollowSwitches(config: CreateParameters, option: Option<InvocationOptions>)
    ensures SwitchOffset(config, SdkAuth) + |Tokens(FieldSwitch(config, SdkAuth))|
         == |BuildArgs(config, option)| - |ExtraArgs(option)|
  {
    var before := FieldOrder[..5];
    assert FieldOrder == before + [SdkAuth];
    TableArgsAppend(config, before, [SdkAuth]);
    assert [SdkAuth][1..] == [];
  }

  lemma {:induction false} ClearedAgreesElsewhere(config: CreateParameters, f: Field, fields: seq<Field>)
    requires f !in fields
    ensures TableArgs(Cleared(config, f), fields) == TableArgs(config, fields)
    decreases |fields|
  {
    if fields != [] {
      assert FieldSwitch(Cleared(config, f), fields[0]) == FieldSwitch(config, fields[0]);
      ClearedAgreesElsewhere(config, f, fields[1..]);
    }
  }

  /**
   * What field `f` contributes: removing it from the parameters removes exactly
   * its switch's tokens, at its offset, and nothing else.
   */
  lemma FieldContribution(config: CreateParameters, option: Option<InvocationOptions>, f: Field)
    ensures var without := BuildArgs(Cleared(config, f), option);
            var off := SwitchOffset(config, f);
            off <= |without|
            && BuildArgs(config, option) == without[..off] + Tokens(FieldSwitch(config, f)) + without[off..]
  {
    var i := FieldIndex(f);
    var before, after := FieldOrder[..i], FieldOrder[i + 1..];
    var cleared := Cleared(config, f);
    FieldOrderSplit(f);
    ClearedAgreesElsewhere(config, f, before);
    ClearedAgreesElsewhere(config, f, after);
    assert Tokens(FieldSwitch(cleared, f)) == [];
    BuildArgsAround(config, option, f);
    BuildArgsAround(cleared, option, f);
    var head := CommandPrefix + TableArgs(config, before);
    var tail := TableArgs(config, after) + ExtraArgs(option);
    Splice(head, tail);
  }

  // ----- How often each flag token occurs -----

  const FlagTokens: set<string> := {"--name", "--role", "--scopes", "--years", "--json-auth", "--sdk-auth"}

  /** No value supplied by the caller is spelled like one of the flags. */
  predicate NoFlagLikeValues(config: CreateParameters, option: Option<InvocationOptions>) {
    (config.name.Some? ==> config.name.value !in FlagTokens)
    && (config.role.Some? ==> config.role.value !in FlagTokens)
    && (config.scopes.Some? ==> forall s :: s in config.scopes.value ==> s !in FlagTokens)
    && (forall s :: s in ExtraArgs(option) ==> s !in FlagTokens)
  }

  predicate Distinct(fields: seq<Field>) {
    forall i, j :: 0 <= i < j < |fields| ==> fields[i] != fields[j]
  }

  /** A decimal text never looks like a flag. */
  lemma DecimalIsNotFlag(s: string)
    requires Decimal.IsCanonicalInt(s)
    ensures s !in FlagTokens
  {
    assert Decimal.IsDigit(s[0]) || Decimal.IsDigit(s[1]);
    forall t | t in FlagTokens
      ensures s != t
    {
      assert t[0] == '-' && t[1] == '-';
    }
  }

  lemma FlagTokenInjective(f: Field, g: Field)
    requires f != g
    ensures FlagToken(f) != FlagToken(g)
  {
    assert FlagToken(f)[2] != FlagToken(g)[2] || |FlagToken(f)| != |FlagToken(g)|;
  }

  /** How often the flag of `f` occurs among the tokens of `g`'s switch. */
  lemma SwitchFlagCount(config: CreateParameters, option: Option<InvocationOptions>, g: Field, f: Field)
    requires NoFlagLikeValues(config, option)
    ensures multiset(Tokens(FieldSwitch(config, g)))[FlagToken(f)]
         == if g == f && FieldSwitch(config, f).Some? then 1 else 0
  {
    var sw := FieldSwitch(config, g);
    if sw.Some? {
      if g == Years {
        DecimalIsNotFlag(Decimal.IntToDecimal(config.years.value));
      }
      assert FlagToken(f) in FlagTokens;
      assert FlagToken(f) !in sw.value.values;
      if g != f {
        FlagTokenInjective(f, g);
      }
      assert multiset(Tokens(sw)) == multiset{sw.value.flag} + multiset(sw.value.values);
    }
  }

  lemma {:induction false} TableFlagCount(config: CreateParameters, option: Option<InvocationOptions>, fields: seq<Field>, f: Field)
    requires NoFlagLikeValues(config, option)
    requires Distinct(fields)
    ensures multiset(TableArgs(config, fields))[FlagToken(f)]
         == if f in fields && FieldSwitch(config, f).Some? then 1 else 0
    decreases |fields|
  {
    if fields != [] {
      var g, rest := fields[0], fields[1..];
      assert Distinct(rest) by {
        forall i, j | 0 <= i < j < |rest| ensures rest[i] != rest[j] {
          assert rest[i] == fields[i + 1] && rest[j] == fields[j + 1];
        }
      }
      TableFlagCount(config, option, rest, f);
      SwitchFlagCount(config, option, g, f);
      assert f in fields <==> f == g || f in rest;
      assert f == g ==> f !in rest;
      assert multiset(TableArgs(config, fields))
          == multiset(Tokens(FieldSwitch(config, g))) + multiset(TableArgs(config, rest));
    }
  }

  /**
   * Unless a caller-supplied value is itself spelled like a flag, each flag token
   * occurs exactly once when its field is truthy and never otherwise.
   */
  lemma FlagCount(config: CreateParameters, option: Option<InvocationOptions>, f: Field)
    requires NoFlagLikeValues(config, option)
    ensures multiset(BuildArgs(config, option))[FlagToken(f)] == if FieldSwitch(config, f).Some? then 1 else 0
  {
    FieldOrderDistinct();
    TableFlagCount(config, option, FieldOrder, f);
    assert f in FieldOrder by {
      FieldOrderSplit(f);
    }
    var t := FlagToken(f);
    assert t in FlagTokens;
    assert t !in CommandPrefix by {
      PrefixHasNoFlag(t);
    }
    assert t !in ExtraArgs(option);
    CountInMiddle(CommandPrefix, TableArgs(config, FieldOrder), ExtraArgs(option), FlagToken(f));
  }

  lemma PrefixHasNoFlag(t: string)
    requires t in FlagTokens
    ensures t !in CommandPrefix
  {
    assert |t| > 2 && t[0] == '-';
  }

  lemma FieldOrderDistinct()
    ensures Distinct(FieldOrder)
  {
    forall i, j | 0 <= i < j < |FieldOrder|
      ensures FieldOrder[i] != FieldOrder[j]
    {
      assert FieldIndex(FieldOrder[i]) == i && FieldIndex(FieldOrder[j]) == j;
    }
  }

  lemma CountInMiddle(p: seq<string>, m: seq<string>, e: seq<string>, t: string)
    requires t !in p && t !in e
    ensures multiset(p + m + e)[t] == multiset(m)[t]
  {
    assert multiset(p + m + e) == multiset(p) + multiset(m) + multiset(e);
  }

  // ----- The source's promises, field by field -----

  /** Length is the prefix, plus two per string or number switch, one plus the scopes, one per auth flag, plus the extra arguments. */
  lemma BuildArgsLength(config: CreateParameters, option: Option<InvocationOptions>)
    ensures |BuildArgs(config, option)|
         == |CommandPrefix|
          + (if StringTruthy(config.name) then 2 else 0)
          + (if StringTruthy(config.role) then 2 else 0)
          + (if config.scopes.Some? then 1 + |config.scopes.value| else 0)
          + (if NumberTruthy(config.years) then 2 else 0)
          + (if config.jsonAuth == Some(true) then 1 else 0)
          + (if config.sdkAuth == Some(true) then 1 else 0)
          + |ExtraArgs(option)|
  {
  }

  /** The list always opens with `ad sp create-for-rbac` and closes with the extra arguments, verbatim. */
  lemma PrefixAndSuffix(config: CreateParameters, option: Option<InvocationOptions>)
    ensures var r := BuildArgs(config, option);
            |CommandPrefix| + |ExtraArgs(option)| <= |r|
            && r[..|CommandPrefix|] == ["ad", "sp", "create-for-rbac"]
            && r[|r| - |ExtraArgs(option)|..] == ExtraArgs(option)
  {
    PrefixAndSuffixOf(CommandPrefix, TableArgs(config, FieldOrder), ExtraArgs(option));
  }

  lemma PrefixAndSuffixOf(p: seq<string>, m: seq<string>, e: seq<string>)
    ensures |p + m + e| == |p| + |m| + |e|
    ensures (p + m + e)[..|p|] == p && (p + m + e)[|p + m + e| - |e|..] == e
  {
  }

  /** A non-empty name follows the prefix directly; an absent or empty one leaves no trace. */
  lemma NameAfterPrefix(config: CreateParameters, option: Option<InvocationOptions>)
    ensures var r := BuildArgs(config, option);
            if config.name.Some? && config.name.value != "" then
              |r| >= 5 && r[3..5] == ["--name", config.name.value]
            else
              r == BuildArgs(config.(name := None), option)
  {
    if config.name.Some? && config.name.value != "" {
      SwitchAt(config, option, Name);
      assert FieldOrder[..0] == [];
    } else {
      FieldContribution(config, option, Name);
    }
  }

  /** An empty scopes list is truthy: it still yields a lone `--scopes`. */
  lemma EmptyScopesKeepFlag(config: CreateParameters, option: Option<InvocationOptions>)
    requires config.scopes == Some([])
    ensures var r := BuildArgs(config, option);
            var off := SwitchOffset(config, Scopes);
            off < |r| && r[off] == "--scopes"
            && |r| == |BuildArgs(config.(scopes := None), option)| + 1
  {
    SwitchAt(config, option, Scopes);
    FieldContribution(config, option, Scopes);
  }

  /** A non-zero `years` is followed by its decimal text, which reads back as the same number. */
  lemma YearsAsDecimal(config: CreateParameters, option: Option<InvocationOptions>)
    requires config.years.Some? && config.years.value != 0
    ensures var r := BuildArgs(config, option);
            var off := SwitchOffset(config, Years);
            off + 2 <= |r| && r[off] == "--years"
            && Decimal.IsCanonicalInt(r[off + 1]) && Decimal.DecimalValue(r[off + 1]) == config.years.value
  {
    var text := Decimal.IntToDecimal(config.years.value);
    assert Decimal.IsCanonicalInt(text) && Decimal.DecimalValue(text) == config.years.value;
    YearsSwitchAt(config, option);
  }

  lemma YearsSwitchAt(config: CreateParameters, option: Option<InvocationOptions>)
    requires config.years.Some? && config.years.value != 0
    ensures var r := BuildArgs(config, option);
            var off := SwitchOffset(config, Years);
            off + 2 <= |r| && r[off] == "--years" && r[off + 1] == Decimal.IntToDecimal(config.years.value)
  {
    var text := Decimal.IntToDecimal(config.years.value);
    assert Tokens(FieldSwitch(config, Years)) == ["--years", text];
    SwitchAt(config, option, Years);
    PairAt(BuildArgs(config, option), SwitchOffset(config, Years), "--years", text);
  }

  /** `jsonAuth` and `sdkAuth` are tested independently: both set emits both flags, back to back, before the extra arguments. */
  lemma BothAuthFlags(config: CreateParameters, option: Option<InvocationOptions>)
    requires config.jsonAuth == Some(true) && config.sdkAuth == Some(true)
    ensures var r := BuildArgs(config, option);
            var end := |r| - |ExtraArgs(option)|;
            2 <= end && r[end - 2..end] == ["--json-auth", "--sdk-auth"]
  {
    var front, auth := FieldOrder[..4], [JsonAuth, SdkAuth];
    assert FieldOrder == front + auth;
    TableArgsAppend(config, front, auth);
    TableArgsCons(config, SdkAuth, []);
    TableArgsCons(config, JsonAuth, [SdkAuth]);
    var flags := ["--json-auth", "--sdk-auth"];
    assert TableArgs(config, auth) == flags;
    var head := CommandPrefix + TableArgs(config, front);
    assert CommandPrefix + (TableArgs(config, front) + flags) == head + flags;
    JustBeforeTail(head, flags, ExtraArgs(option));
  }

  lemma JustBeforeTail(x: seq<string>, t: seq<string>, e: seq<string>)
    ensures var r := x + t + e;
            |t| <= |r| - |e| && r[|r| - |e| - |t|..|r| - |e|] == t
  {
    var r := x + t + e;
    assert r[|x|..|x| + |t|] == t;
  }

  /** Only a non-empty name and no extra arguments: exactly the prefix and the name switch. */
  lemma OnlyName(n: string, option: Option<InvocationOptions>)
    requires n != "" && ExtraArgs(option) == []
    ensures BuildArgs(CreateParameters(Some(n), None, None, None, None, None), option)
         == ["ad", "sp", "create-for-rbac", "--name", n]
  {
  }
}
