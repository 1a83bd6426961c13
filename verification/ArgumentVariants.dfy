/**
  Typed argument vectors: a variant is a fixed template with one placeholder per field, checked once
  when the credentials document is validated, and rendered with values its caller supplies.
 */
module ArgumentVariants {
  import opened Outcomes

  datatype Field = Field(position: int, pattern: Option<string>)

  /** `fields` holds the object's entries in their order, so no name occurs twice. */
  datatype Variant = Variant(template: seq<string>, fields: seq<(string, Field)>)

  datatype Harness = Harness(rawArgvAllowed: bool, controlTokens: seq<string>, variants: map<string, Variant>)

  /** A supplied field value: text, or something that is not a string. */
  datatype Value = Text(text: string) | NotText

  ghost predicate ProperObject(fields: seq<(string, Field)>) {
    forall i, j | 0 <= i < j < |fields| :: fields[i].0 != fields[j].0
  }

  predicate IsPlaceholder(token: string) {
    |token| >= 2 && token[0] == '{' && token[|token| - 1] == '}'
  }

  function NameOf(token: string): string
    requires IsPlaceholder(token)
  {
    token[1..|token| - 1]
  }

  /** A placeholder is its name in braces. */
  lemma PlaceholderIsBracedName(token: string, name: string)
    ensures IsPlaceholder(token) && NameOf(token) == name <==> token == "{" + name + "}"
  {
    if IsPlaceholder(token) {
      assert token == "{" + NameOf(token) + "}";
    }
    assert ("{" + name + "}")[1..|name| + 1] == name;
  }

  // ----- Validation

  /** Field `k`'s placeholder stands where the field says. */
  predicate InPlace(v: Variant, k: nat)
    requires k < |v.fields|
  {
    var (name, field) := v.fields[k];
    && 0 <= field.position < |v.template|
    && IsPlaceholder(v.template[field.position]) && NameOf(v.template[field.position]) == name
  }

  /** Some field is placed at `i`. */
  ghost predicate Filled(v: Variant, i: nat) {
    exists k | 0 <= k < |v.fields| :: v.fields[k].1.position == i
  }

  /** Fields and placeholders correspond one to one, each field at its declared position. */
  ghost predicate OneToOne(v: Variant) {
    && (forall k | 0 <= k < |v.fields| :: InPlace(v, k))
    && (forall i | 0 <= i < |v.template| && IsPlaceholder(v.template[i]) :: Filled(v, i))
  }

  /** The placeholder names down the template. */
  function PlaceholderAt(template: seq<string>, i: nat): Option<string>
    requires i < |template|
  {
    if IsPlaceholder(template[i]) then Some(NameOf(template[i])) else None
  }

  function Placeholders(template: seq<string>): seq<Option<string>> {
    seq(|template|, i requires 0 <= i < |template| => PlaceholderAt(template, i))
  }

  ghost predicate NoRepeat(names: seq<Option<string>>, n: nat)
    requires n <= |names|
  {
    forall i, j | 0 <= i < j < n && names[i].Some? :: names[i] != names[j]
  }

  /** `positions` maps each name in `names[..n]` to where it was last seen, and nothing else. */
  ghost predicate LastSeen(names: seq<Option<string>>, n: nat, positions: map<string, int>)
    requires n <= |names|
  {
    && (forall name | name in positions :: 0 <= positions[name] < n && names[positions[name]] == Some(name))
    && (forall i | 0 <= i < n && names[i].Some? :: names[i].value in positions && i <= positions[names[i].value])
  }

  /** `count` placeholders, more than there are names exactly when one repeats. */
  ghost predicate Counted(names: seq<Option<string>>, n: nat, distinct: nat, count: nat)
    requires n <= |names|
  {
    distinct <= count && (distinct == count <==> NoRepeat(names, n))
  }

  lemma SeeNone(names: seq<Option<string>>, n: nat, positions: map<string, int>, count: nat)
    requires n < |names| && names[n].None?
    requires LastSeen(names, n, positions) && Counted(names, n, |positions|, count)
    ensures LastSeen(names, n + 1, positions) && Counted(names, n + 1, |positions|, count)
  {
  }

  lemma SeeOne(names: seq<Option<string>>, n: nat, positions: map<string, int>, count: nat)
    requires n < |names| && names[n].Some?
    requires LastSeen(names, n, positions) && Counted(names, n, |positions|, count)
    ensures LastSeen(names, n + 1, positions[names[n].value := n])
    ensures Counted(names, n + 1, |positions[names[n].value := n]|, count + 1)
  {
    var name := names[n].value;
    var after := positions[name := n];
    if name in positions {
      assert after.Keys == positions.Keys;
      assert names[positions[name]] == names[n];
    } else {
      assert after.Keys == positions.Keys + {name};
      forall i | 0 <= i < n && names[i].Some?
        ensures names[i] != names[n]
      {
        assert names[i].value in positions;
      }
    }
    assert |after| == |after.Keys| && |positions| == |positions.Keys|;
  }

  ghost function Names(fields: seq<(string, Field)>): set<string> {
    set k | 0 <= k < |fields| :: fields[k].0
  }

  lemma {:induction false} NamesCount(fields: seq<(string, Field)>)
    requires ProperObject(fields)
    ensures |Names(fields)| == |fields|
  {
    if fields == [] {
      assert Names(fields) == {};
    } else {
      var last := |fields| - 1;
      NamesCount(fields[..last]);
      assert Names(fields) == Names(fields[..last]) + {fields[last].0};
    }
  }

  /** What the scan of the whole template knows. */
  ghost predicate Tallied(template: seq<string>, positions: map<string, int>, count: nat) {
    var names := Placeholders(template);
    LastSeen(names, |template|, positions) && Counted(names, |template|, |positions|, count)
  }

  /** The names found in the template are the field names once each field is at its placeholder and the counts agree. */
  lemma CountsForceOneToOne(v: Variant, positions: map<string, int>, count: nat)
    requires ProperObject(v.fields) && Tallied(v.template, positions, count)
    requires count == |positions| == |v.fields|
    requires forall k | 0 <= k < |v.fields| ::
               v.fields[k].0 in positions && positions[v.fields[k].0] == v.fields[k].1.position
    ensures OneToOne(v)
  {
    NamesCount(v.fields);
    assert Names(v.fields) <= positions.Keys;
    SubsetOfSameSize(Names(v.fields), positions.Keys);
    forall i | 0 <= i < |v.template| && IsPlaceholder(v.template[i])
      ensures Filled(v, i)
    {
      var name := NameOf(v.template[i]);
      assert Placeholders(v.template)[i] == Some(name);
      assert name in Names(v.fields);
      var k :| 0 <= k < |v.fields| && v.fields[k].0 == name;
      assert v.fields[k].1.position == i;
    }
  }

  lemma {:induction false} SubsetOfSameSize(a: set<string>, b: set<string>)
    requires a <= b && |a| == |b|
    ensures a == b
  {
    assert |b - a| == |b| - |a|;
  }

  lemma OneToOneNamesDiffer(v: Variant, i: nat, j: nat)
    requires OneToOne(v) && ProperObject(v.fields)
    requires i < j < |v.template| && IsPlaceholder(v.template[i]) && IsPlaceholder(v.template[j])
    ensures NameOf(v.template[i]) != NameOf(v.template[j])
  {
    assert Filled(v, i) && Filled(v, j);
    var k :| 0 <= k < |v.fields| && v.fields[k].1.position == i;
    var l :| 0 <= l < |v.fields| && v.fields[l].1.position == j;
    assert InPlace(v, k) && InPlace(v, l);
  }

  lemma OneToOneNamed(v: Variant, i: nat)
    requires OneToOne(v) && i < |v.template| && IsPlaceholder(v.template[i])
    ensures NameOf(v.template[i]) in Names(v.fields)
  {
    assert Filled(v, i);
    var k :| 0 <= k < |v.fields| && v.fields[k].1.position == i;
    assert InPlace(v, k);
  }

  lemma OneToOnePlaced(v: Variant, positions: map<string, int>, count: nat, k: nat)
    requires ProperObject(v.fields) && Tallied(v.template, positions, count)
    requires OneToOne(v) && k < |v.fields|
    ensures v.fields[k].0 in positions && positions[v.fields[k].0] == v.fields[k].1.position
  {
    var name, here := v.fields[k].0, v.fields[k].1.position;
    assert InPlace(v, k) && Placeholders(v.template)[here] == Some(name);
    var seen := positions[name];
    assert Placeholders(v.template)[seen] == Some(name);
    if here < seen {
      OneToOneNamesDiffer(v, here, seen);
    }
  }

  /** The converse: a one-to-one variant passes every comparison. */
  lemma OneToOneCounts(v: Variant, positions: map<string, int>, count: nat)
    requires ProperObject(v.fields) && Tallied(v.template, positions, count)
    requires OneToOne(v)
    ensures count == |positions| == |v.fields|
    ensures forall k | 0 <= k < |v.fields| ::
              v.fields[k].0 in positions && positions[v.fields[k].0] == v.fields[k].1.position
  {
    var names := Placeholders(v.template);
    forall i, j | 0 <= i < j < |names| && names[i].Some?
      ensures names[i] != names[j]
    {
      if names[j].Some? {
        OneToOneNamesDiffer(v, i, j);
      }
    }
    assert NoRepeat(names, |names|);
    forall name | name in positions
      ensures name in Names(v.fields)
    {
      assert names[positions[name]] == Some(name);
      OneToOneNamed(v, positions[name]);
    }
    forall k | 0 <= k < |v.fields|
      ensures v.fields[k].0 in positions && positions[v.fields[k].0] == v.fields[k].1.position
    {
      OneToOnePlaced(v, positions, count, k);
    }
    assert Names(v.fields) == positions.Keys;
    NamesCount(v.fields);
  }

  /** Count placeholder occurrences, and index names by position. */
  method TallyPlaceholders(template: seq<string>) returns (positions: map<string, int>, count: nat)
    ensures Tallied(template, positions, count)
  {
    positions, count := map[], 0;
    ghost var names := Placeholders(template);
    for i := 0 to |template|
      invariant LastSeen(names, i, positions) && Counted(names, i, |positions|, count)
    {
      if IsPlaceholder(template[i]) {
        SeeOne(names, i, positions, count);
        count := count + 1;
        positions := positions[NameOf(template[i]) := i];
      } else {
        SeeNone(names, i, positions, count);
      }
    }
  }

  /** The argument-variant part of `validateCredentialsDoc`, for one variant. */
  method CheckVariant(v: Variant) returns (ok: bool)
    requires ProperObject(v.fields)
    ensures ok <==> OneToOne(v)
  {
    var positions, count := TallyPlaceholders(v.template);
    if OneToOne(v) {
      OneToOneCounts(v, positions, count);
    }
    if count != |v.fields| || |positions| != |v.fields| {
      return false;
    }
    for k := 0 to |v.fields|
      invariant forall m | 0 <= m < k ::
                  v.fields[m].0 in positions && positions[v.fields[m].0] == v.fields[m].1.position
    {
      var (name, field) := v.fields[k];
      if name !in positions || positions[name] != field.position {
        return false;
      }
    }
    CountsForceOneToOne(v, positions, count);
    return true;
  }

  /** The argument-variant part of `validateCredentialsDoc`, for one harness. */
  method CheckHarness(harness: Harness) returns (ok: bool)
    requires forall name | name in harness.variants :: ProperObject(harness.variants[name].fields)
    ensures ok <==> Accepted(harness)
  {
    if harness.rawArgvAllowed {
      return false;
    }
    var names := harness.variants.Keys;
    while names != {}
      invariant names <= harness.variants.Keys
      invariant forall name | name in harness.variants && name !in names :: OneToOne(harness.variants[name])
    {
      var name :| name in names;
      var fine := CheckVariant(harness.variants[name]);
      if !fine {
        return false;
      }
      names := names - {name};
    }
    return true;
  }

  ghost predicate Accepted(harness: Harness) {
    !harness.rawArgvAllowed && forall name | name in harness.variants :: OneToOne(harness.variants[name])
  }

  // ----- Rendering

  datatype Fault = UnknownVariant | WrongFields | NotNonEmptyText(name: string) | ControlBytes(name: string)
    | ParsesAsFlag(name: string) | HostOwned(name: string) | FailsPattern(name: string)

  /** How regular expressions match is not modelled: `matches(pattern, value)`. */
  type Matcher = (string, string) -> bool

  predicate IsFlag(value: string) {
    |value| > 0 && value[0] == '-'
  }

  predicate IsLiteral(token: string) {
    token == "" || token[0] != '{'
  }

  predicate HasControl(value: string) {
    exists i | 0 <= i < |value| :: value[i] in {'\0', '\r', '\n'}
  }

  function Literals(template: seq<string>): set<string> {
    set i | 0 <= i < |template| && IsLiteral(template[i]) :: template[i]
  }

  /** The first thing wrong with what is supplied for a field. */
  function FaultOf(v: Variant, controlTokens: seq<string>, matches: Matcher, name: string, field: Field,
                   value: Value): Option<Fault>
  {
    if value.NotText? || value.text == "" then Some(NotNonEmptyText(name))
    else if HasControl(value.text) then Some(ControlBytes(name))
    else if IsFlag(value.text) then Some(ParsesAsFlag(name))
    else if value.text in Literals(v.template) || value.text in controlTokens then Some(HostOwned(name))
    else if field.pattern.Some? && !matches(field.pattern.value, value.text) then Some(FailsPattern(name))
    else None
  }

  /** What a supplied value must be. */
  ghost predicate Suits(v: Variant, controlTokens: seq<string>, matches: Matcher, field: Field, value: Value) {
    && value.Text? && value.text != ""
    && (forall i | 0 <= i < |value.text| :: value.text[i] != '\0' && value.text[i] != '\r' && value.text[i] != '\n')
    && value.text[0] != '-'
    && value.text !in controlTokens
    && (forall i | 0 <= i < |v.template| && v.template[i] == value.text :: v.template[i][0] == '{')
    && (field.pattern.Some? ==> matches(field.pattern.value, value.text))
  }

  lemma FaultlessSuits(v: Variant, controlTokens: seq<string>, matches: Matcher, name: string, field: Field,
                       value: Value)
    ensures FaultOf(v, controlTokens, matches, name, field, value).None?
       <==> Suits(v, controlTokens, matches, field, value)
  {
    if value.Text? {
      assert value.text in Literals(v.template) <==>
             exists i | 0 <= i < |v.template| && v.template[i] == value.text :: IsLiteral(v.template[i]);
    }
  }

  /** A fault names its field and what is wrong with the value. */
  lemma FaultsAreReal(v: Variant, controlTokens: seq<string>, matches: Matcher, name: string, field: Field,
                      value: Value)
    ensures
      match FaultOf(v, controlTokens, matches, name, field, value)
      case None => true
      case Some(NotNonEmptyText(n)) => n == name && (value.Text? ==> value.text == "")
      case Some(ControlBytes(n)) =>
        n == name && value.Text? && ('\0' in value.text || '\r' in value.text || '\n' in value.text)
      case Some(ParsesAsFlag(n)) => n == name && value.Text? && "-" <= value.text
      case Some(HostOwned(n)) => n == name && value.Text? && value.text in v.template + controlTokens
      case Some(FailsPattern(n)) =>
        n == name && value.Text? && field.pattern.Some? && !matches(field.pattern.value, value.text)
      case Some(_) => false
  {
  }

  /** Every field is supplied with a suitable value and nothing else is supplied. */
  ghost predicate SuitsAll(v: Variant, controlTokens: seq<string>, matches: Matcher, supplied: map<string, Value>) {
    && Names(v.fields) == supplied.Keys
    && forall k | 0 <= k < |v.fields| :: SuitsAt(v, controlTokens, matches, supplied, k)
  }

  ghost predicate SuitsAt(v: Variant, controlTokens: seq<string>, matches: Matcher, supplied: map<string, Value>,
                          k: nat)
    requires k < |v.fields|
  {
    && v.fields[k].0 in supplied
    && Suits(v, controlTokens, matches, v.fields[k].1, supplied[v.fields[k].0])
  }

  /** `argv` has the first `n` fields' values at their positions and is otherwise the template. */
  ghost predicate RenderedTo(v: Variant, supplied: map<string, Value>, n: nat, argv: seq<string>)
    requires n <= |v.fields|
  {
    && |argv| == |v.template|
    && (forall k | 0 <= k < n :: RenderedField(v, supplied, k, argv))
    && (forall i | 0 <= i < |argv| && argv[i] != v.template[i] :: exists k | 0 <= k < n :: v.fields[k].1.position == i)
  }

  ghost predicate RenderedField(v: Variant, supplied: map<string, Value>, k: nat, argv: seq<string>)
    requires k < |v.fields|
  {
    var (name, field) := v.fields[k];
    0 <= field.position < |argv| && name in supplied && Text(argv[field.position]) == supplied[name]
  }

  lemma RenderOne(v: Variant, supplied: map<string, Value>, n: nat, argv: seq<string>)
    requires n < |v.fields| && ProperObject(v.fields) && OneToOne(v)
    requires RenderedTo(v, supplied, n, argv)
    requires v.fields[n].0 in supplied && supplied[v.fields[n].0].Text?
    ensures InPlace(v, n)
    ensures RenderedTo(v, supplied, n + 1, argv[v.fields[n].1.position := supplied[v.fields[n].0].text])
  {
    var position := v.fields[n].1.position;
    assert InPlace(v, n);
    var after := argv[position := supplied[v.fields[n].0].text];
    forall k | 0 <= k < n + 1
      ensures RenderedField(v, supplied, k, after)
    {
      if k < n {
        assert InPlace(v, k) && RenderedField(v, supplied, k, argv);
        assert v.fields[k].0 != v.fields[n].0;
      }
    }
    forall i | 0 <= i < |after| && after[i] != v.template[i]
      ensures exists k | 0 <= k < n + 1 :: v.fields[k].1.position == i
    {
      if i == position {
        assert v.fields[n].1.position == i;
      } else {
        var k :| 0 <= k < n && v.fields[k].1.position == i;
      }
    }
  }

  /** `fault` is what is wrong with field `k`, the first that has anything wrong. */
  ghost predicate FirstFault(v: Variant, controlTokens: seq<string>, matches: Matcher, supplied: map<string, Value>,
                             k: nat, fault: Fault)
  {
    && k < |v.fields| && v.fields[k].0 in supplied
    && FaultOf(v, controlTokens, matches, v.fields[k].0, v.fields[k].1, supplied[v.fields[k].0]) == Some(fault)
    && forall m | 0 <= m < k :: SuitsAt(v, controlTokens, matches, supplied, m)
  }

  /** What a caller gets: the template with each placeholder replaced by its field's value, in host control. */
  ghost predicate HostControlled(v: Variant, controlTokens: seq<string>, supplied: map<string, Value>,
                                 argv: seq<string>)
  {
    && |argv| == |v.template|
    && (forall i | 0 <= i < |argv| && !IsPlaceholder(v.template[i]) :: argv[i] == v.template[i])
    && (forall i | 0 <= i < |argv| && IsPlaceholder(v.template[i]) ::
          NameOf(v.template[i]) in supplied && supplied[NameOf(v.template[i])] == Text(argv[i]))
    && (forall i | 0 <= i < |argv| && argv[i] != "" && argv[i][0] == '-' :: argv[i] == v.template[i])
    && (forall i | 0 <= i < |argv| && IsPlaceholder(v.template[i]) ::
          argv[i] != "" && argv[i] !in controlTokens && (argv[i] in v.template ==> argv[i][0] == '{'))
  }

  lemma RenderedIsHostControlled(v: Variant, controlTokens: seq<string>, matches: Matcher,
                                 supplied: map<string, Value>, argv: seq<string>)
    requires ProperObject(v.fields) && OneToOne(v) && SuitsAll(v, controlTokens, matches, supplied)
    requires RenderedTo(v, supplied, |v.fields|, argv)
    ensures HostControlled(v, controlTokens, supplied, argv)
  {
    forall i | 0 <= i < |argv|
      ensures if IsPlaceholder(v.template[i]) then
                && NameOf(v.template[i]) in supplied && supplied[NameOf(v.template[i])] == Text(argv[i])
                && argv[i] != "" && argv[i][0] != '-' && argv[i] !in controlTokens
                && (argv[i] in v.template ==> argv[i][0] == '{')
              else argv[i] == v.template[i]
    {
      if IsPlaceholder(v.template[i]) {
        assert Filled(v, i);
        var k :| 0 <= k < |v.fields| && v.fields[k].1.position == i;
        assert InPlace(v, k) && RenderedField(v, supplied, k, argv) && SuitsAt(v, controlTokens, matches, supplied, k);
      } else {
        forall k | 0 <= k < |v.fields|
          ensures v.fields[k].1.position != i
        {
          assert InPlace(v, k);
        }
      }
    }
  }

  /** Two renderings of one variant agree only when every supplied value does. */
  lemma RenderingLosesNothing(v: Variant, controlTokens: seq<string>, one: map<string, Value>,
                              two: map<string, Value>, argv: seq<string>)
    requires OneToOne(v) && one.Keys == two.Keys == Names(v.fields)
    requires HostControlled(v, controlTokens, one, argv) && HostControlled(v, controlTokens, two, argv)
    ensures one == two
  {
    forall name | name in one
      ensures one[name] == two[name]
    {
      var k :| 0 <= k < |v.fields| && v.fields[k].0 == name;
      assert InPlace(v, k);
    }
  }

  /**
    `renderArgumentVariant` on an accepted variant. A rendering is produced exactly when every field
    and nothing else is supplied suitably; a refusal names the first fault in field order.
   */
  method RenderArgumentVariant(harness: Harness, matches: Matcher, variantName: string, supplied: map<string, Value>)
    returns (r: Result<seq<string>, Fault>)
    requires variantName in harness.variants ==>
               ProperObject(harness.variants[variantName].fields) && OneToOne(harness.variants[variantName])
    ensures r.Ok? <==> variantName in harness.variants
                       && SuitsAll(harness.variants[variantName], harness.controlTokens, matches, supplied)
    ensures r.Ok? ==> HostControlled(harness.variants[variantName], harness.controlTokens, supplied, r.value)
    ensures r == Err(UnknownVariant) <==> variantName !in harness.variants
    ensures r == Err(WrongFields) <==>
              variantName in harness.variants && Names(harness.variants[variantName].fields) != supplied.Keys
    ensures r.Err? && !r.error.UnknownVariant? && !r.error.WrongFields? ==>
              exists k ::
                FirstFault(harness.variants[variantName], harness.controlTokens, matches, supplied, k, r.error)
  {
    if variantName !in harness.variants {
      return Err(UnknownVariant);
    }
    var v := harness.variants[variantName];
    var expected := set k | 0 <= k < |v.fields| :: v.fields[k].0;
    if expected != supplied.Keys {
      return Err(WrongFields);
    }
    var argv := v.template;
    for k := 0 to |v.fields|
      invariant RenderedTo(v, supplied, k, argv)
      invariant forall m | 0 <= m < k :: SuitsAt(v, harness.controlTokens, matches, supplied, m)
    {
      var (name, field) := v.fields[k];
      assert name in expected;
      var value := supplied[name];
      var fault := FaultOf(v, harness.controlTokens, matches, name, field, value);
      FaultlessSuits(v, harness.controlTokens, matches, name, field, value);
      if fault.Some? {
        assert !SuitsAt(v, harness.controlTokens, matches, supplied, k);
        assert FirstFault(v, harness.controlTokens, matches, supplied, k, fault.value);
        return Err(fault.value);
      }
      RenderOne(v, supplied, k, argv);
      argv := argv[field.position := value.text];
    }
    RenderedIsHostControlled(v, harness.controlTokens, matches, supplied, argv);
    return Ok(argv);
  }
}
