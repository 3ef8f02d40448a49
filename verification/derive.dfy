/** `#[derive(Constitution)]`: collect every `#[invariant(...)]` of a named-field
    struct in declaration order, reject the whole derive on the first
    condition that does not parse, and describe what the generated impls
    contain. */
module Derive {
  import opened Wrappers
  import opened Syntax
  import opened Provider
  import opened Enforce

  /** The three parsers the derive consults, as opaque predicates:
      `parse_args::<syn::Expr>` on the attribute's tokens, `syn::parse_str`
      on a string literal's content, and the prover's `ExpressionParser::parse`
      on the recorded condition text. */
  datatype Parsers = Parsers(
    parseArgs: Payload -> bool,
    parseStr: string -> bool,
    proverParse: string -> bool)

  /** The compile errors the derive emits instead of any impl, located by the
      field whose attribute caused them. */
  datatype DeriveError =
    | ArgsSyntaxError(field: string)
    | LiteralSyntaxError(field: string, literal: string)
    | ProverSyntaxError(field: string, condition: string)

  /** `FieldInfo { name, ty, invariants }`. */
  datatype FieldInfo = FieldInfo(name: string, ty: Type, invariants: seq<string>)

  /** What the derive emits: the `INVARIANTS` array and its length, the
      field infos, the fields fed to the hash, the provider's match arms and
      the runtime checks of `enforce_law`. */
  datatype Expansion = Expansion(
    ident: string,
    invariants: seq<string>,
    invariantCount: nat,
    fieldInfos: seq<FieldInfo>,
    hashFields: seq<string>,
    arms: seq<ProviderArm>,
    checks: seq<RuntimeCheck>)

  /** One `#[invariant(...)]` payload of field `field`, through the three
      parse stages in order. */
  function Condition(field: string, p: Payload, ps: Parsers): (r: Result<string, DeriveError>)
    ensures r.Ok? <==>
      ps.parseArgs(p) && (p.StrLit? ==> ps.parseStr(p.content)) && ps.proverParse(ConditionText(p))
    ensures r.Ok? ==> r.value == ConditionText(p)
    ensures r.Err? ==> r.error.field == field
    ensures (r.Err? && r.error.ArgsSyntaxError?) <==> !ps.parseArgs(p)
    ensures (r.Err? && r.error.LiteralSyntaxError?) <==>
      ps.parseArgs(p) && p.StrLit? && !ps.parseStr(p.content)
    ensures r.Err? && r.error.LiteralSyntaxError? ==> r.error.literal == p.content
    ensures r.Err? && r.error.ProverSyntaxError? ==> r.error.condition == ConditionText(p)
  {
    if !ps.parseArgs(p) then Err(ArgsSyntaxError(field))
    else match p
      case StrLit(s) =>
        if !ps.parseStr(s) then Err(LiteralSyntaxError(field, s))
        else if !ps.proverParse(s) then Err(ProverSyntaxError(field, s))
        else Ok(s)
      case ExprTokens(t) =>
        if !ps.proverParse(t) then Err(ProverSyntaxError(field, t))
        else Ok(t)
  }

  // ---------------------------------------------------------------------
  // The attributes of a struct, flattened in visiting order
  // ---------------------------------------------------------------------

  /** An attribute together with the field it is attached to. */
  datatype Site = Site(field: string, attr: Attribute)

  function AttrSites(field: string, attrs: seq<Attribute>): (ss: seq<Site>)
    ensures |ss| == |attrs|
    ensures forall j :: 0 <= j < |attrs| ==> ss[j] == Site(field, attrs[j])
  {
    seq(|attrs|, j requires 0 <= j < |attrs| => Site(field, attrs[j]))
  }

  /** Every attribute of every field: fields in declaration order, then each
      field's attributes in attribute order. */
  function Sites(fs: seq<Field>): seq<Site>
  {
    if fs == [] then []
    else Sites(fs[..|fs| - 1]) + AttrSites(Last(fs).name, Last(fs).attrs)
  }

  /** An invariant attribute whose condition fails to parse. */
  predicate SiteFails(s: Site, ps: Parsers)
  {
    IsInvariantAttr(s.attr) && Condition(s.field, s.attr.meta.payload, ps).Err?
  }

  function SiteError(s: Site, ps: Parsers): DeriveError
    requires SiteFails(s, ps)
  {
    Condition(s.field, s.attr.meta.payload, ps).error
  }

  /** Site `k` is where the derive stops: it fails and no earlier site does. */
  predicate FirstFailingSite(ss: seq<Site>, ps: Parsers, k: int)
  {
    && 0 <= k < |ss|
    && SiteFails(ss[k], ps)
    && forall j :: 0 <= j < k ==> !SiteFails(ss[j], ps)
  }

  /** The condition texts of the invariant attributes among `ss`, in order;
      this depends on the payloads only, not on any parser. */
  function FlatTexts(ss: seq<Site>): seq<string>
  {
    if ss == [] then []
    else
      var s := Last(ss);
      FlatTexts(ss[..|ss| - 1])
        + (if IsInvariantAttr(s.attr) then [ConditionText(s.attr.meta.payload)] else [])
  }

  lemma {:induction false} FlatTextsAppend(a: seq<Site>, b: seq<Site>)
    ensures FlatTexts(a + b) == FlatTexts(a) + FlatTexts(b)
    decreases |b|
  {
    if b != [] {
      var init := b[..|b| - 1];
      assert (a + b)[..|a + b| - 1] == a + init;
      assert Last(a + b) == Last(b);
      FlatTextsAppend(a, init);
    } else {
      assert a + b == a;
    }
  }

  function Concat(xss: seq<seq<string>>): seq<string>
  {
    if xss == [] then [] else Concat(xss[..|xss| - 1]) + Last(xss)
  }

  // ---------------------------------------------------------------------
  // The collection loops of `derive_constitution`
  // ---------------------------------------------------------------------

  /** The inner loop over one field's attributes: the field's conditions, or
      the first error. Non-list attributes and attributes whose path is not
      `invariant` contribute nothing. */
  function FieldConditions(field: string, attrs: seq<Attribute>, ps: Parsers)
    : (r: Result<seq<string>, DeriveError>)
    ensures r.Ok? <==> forall a :: a in attrs ==> !SiteFails(Site(field, a), ps)
    ensures r.Ok? ==> r.value == FlatTexts(AttrSites(field, attrs))
    decreases |attrs|
  {
    if attrs == [] then Ok([])
    else
      var init := attrs[..|attrs| - 1];
      var a := Last(attrs);
      assert attrs == init + [a];
      assert AttrSites(field, attrs)[..|attrs| - 1] == AttrSites(field, init);
      match FieldConditions(field, init, ps)
      case Err(e) => Err(e)
      case Ok(acc) =>
        if !IsInvariantAttr(a) then Ok(acc)
        else match Condition(field, a.meta.payload, ps)
          case Err(e) => Err(e)
          case Ok(s) => Ok(acc + [s])
  }

  /** The outer loop over the named fields: every field's conditions, or the
      first error. */
  function CollectFields(fs: seq<Field>, ps: Parsers): (r: Result<seq<seq<string>>, DeriveError>)
    ensures r.Ok? <==> forall s :: s in Sites(fs) ==> !SiteFails(s, ps)
    ensures r.Ok? ==> |r.value| == |fs|
    ensures r.Ok? ==>
      forall i :: 0 <= i < |fs| ==> r.value[i] == FlatTexts(AttrSites(fs[i].name, fs[i].attrs))
    decreases |fs|
  {
    if fs == [] then Ok([])
    else
      var init := fs[..|fs| - 1];
      var f := Last(fs);
      assert Sites(fs) == Sites(init) + AttrSites(f.name, f.attrs);
      match CollectFields(init, ps)
      case Err(e) =>
        assert exists s :: s in Sites(init) && SiteFails(s, ps);
        Err(e)
      case Ok(acc) =>
        match FieldConditions(f.name, f.attrs, ps)
        case Err(e) =>
          assert exists a :: a in f.attrs && SiteFails(Site(f.name, a), ps);
          Err(e)
        case Ok(c) =>
          assert forall s :: s in AttrSites(f.name, f.attrs) ==> !SiteFails(s, ps);
          Ok(acc + [c])
  }

  /** The per-field lists laid end to end are every invariant text, fields in
      declaration order, then attributes in attribute order. */
  lemma {:induction false} CollectFieldsConcat(fs: seq<Field>, ps: Parsers)
    requires CollectFields(fs, ps).Ok?
    ensures Concat(CollectFields(fs, ps).value) == FlatTexts(Sites(fs))
    decreases |fs|
  {
    if fs != [] {
      var init := fs[..|fs| - 1];
      var f := Last(fs);
      var acc := CollectFields(init, ps).value;
      var c := FieldConditions(f.name, f.attrs, ps).value;
      assert CollectFields(fs, ps).value == acc + [c];
      assert (acc + [c])[..|acc|] == acc;
      CollectFieldsConcat(init, ps);
      FlatTextsAppend(Sites(init), AttrSites(f.name, f.attrs));
    }
  }

  /** The field infos: one per field that collected at least one condition. */
  function Infos(fs: seq<Field>, perField: seq<seq<string>>): seq<FieldInfo>
    requires |fs| == |perField|
  {
    if fs == [] then []
    else
      var n := |fs| - 1;
      Infos(fs[..n], perField[..n])
        + (if perField[n] != [] then [FieldInfo(fs[n].name, fs[n].ty, perField[n])] else [])
  }

  function ChecksOf(invariants: seq<string>): (cs: seq<RuntimeCheck>)
    ensures |cs| == |invariants|
    ensures forall i :: 0 <= i < |cs| ==> cs[i].expression == invariants[i]
  {
    seq(|invariants|, i requires 0 <= i < |invariants| => RuntimeCheck(invariants[i]))
  }

  /** The integer-typed fields, in declaration order. */
  function IntegerFields(fs: seq<Field>): (r: seq<Field>)
    ensures forall f :: f in r <==> f in fs && IsIntegerType(f.ty)
    ensures |r| <= |fs|
  {
    if fs == [] then []
    else
      var f := Last(fs);
      assert fs == fs[..|fs| - 1] + [f];
      IntegerFields(fs[..|fs| - 1]) + (if IsIntegerType(f.ty) then [f] else [])
  }

  /** The fields whose `to_le_bytes` go into the data hash. */
  function HashFields(fs: seq<Field>): seq<string>
  {
    var ints := IntegerFields(fs);
    seq(|ints|, i requires 0 <= i < |ints| => ints[i].name)
  }

  /** The provider's match arms, one per integer field. */
  function Arms(fs: seq<Field>): seq<ProviderArm>
  {
    var ints := IntegerFields(fs);
    seq(|ints|, i requires 0 <= i < |ints| => ProviderArm(ints[i].name, KindOf(ints[i].ty)))
  }

  /** `derive_constitution`: the expansion, or the compile error that
      replaces all of it. */
  function Expand(input: DeriveInput, ps: Parsers): (r: Result<Expansion, DeriveError>)
    ensures r.Ok? ==> r.value.ident == input.ident
    ensures r.Ok? ==> r.value.invariantCount == |r.value.invariants| == |r.value.checks|
    ensures r.Ok? ==>
      forall i :: 0 <= i < |r.value.checks| ==> r.value.checks[i].expression == r.value.invariants[i]
    ensures r.Ok? <==> forall s :: s in Sites(FieldsOf(input)) ==> !SiteFails(s, ps)
    ensures r.Ok? ==> r.value.invariants == FlatTexts(Sites(FieldsOf(input)))
    ensures !input.data.NamedStruct? ==>
      r.Ok? && r.value.invariants == [] && r.value.checks == [] && r.value.fieldInfos == []
        && r.value.hashFields == [] && r.value.arms == []
  {
    var fields := FieldsOf(input);
    match CollectFields(fields, ps)
    case Err(e) => Err(e)
    case Ok(perField) =>
      CollectFieldsConcat(fields, ps);
      var invariants := Concat(perField);
      Ok(Expansion(input.ident, invariants, |invariants|, Infos(fields, perField),
                   HashFields(fields), Arms(fields), ChecksOf(invariants)))
  }

  // ---------------------------------------------------------------------
  // Properties of the expansion
  // ---------------------------------------------------------------------

  lemma FirstFailingSiteInPrefix(head: seq<Site>, tail: seq<Site>, ps: Parsers, k: int)
    requires FirstFailingSite(head, ps, k)
    ensures FirstFailingSite(head + tail, ps, k)
  {
  }

  lemma FirstFailingSiteAfterPrefix(head: seq<Site>, tail: seq<Site>, ps: Parsers, k: int)
    requires forall s :: s in head ==> !SiteFails(s, ps)
    requires FirstFailingSite(tail, ps, k)
    ensures FirstFailingSite(head + tail, ps, |head| + k)
  {
    var ss := head + tail;
    forall j | 0 <= j < |head| + k
      ensures !SiteFails(ss[j], ps)
    {
      if j < |head| {
        assert ss[j] in head;
      } else {
        assert ss[j] == tail[j - |head|];
      }
    }
  }

  lemma {:induction false} FieldConditionsFirstFailure(field: string, attrs: seq<Attribute>, ps: Parsers)
    requires FieldConditions(field, attrs, ps).Err?
    ensures exists k ::
        && FirstFailingSite(AttrSites(field, attrs), ps, k)
        && FieldConditions(field, attrs, ps).error == SiteError(AttrSites(field, attrs)[k], ps)
    decreases |attrs|
  {
    var init := attrs[..|attrs| - 1];
    var ss := AttrSites(field, attrs);
    assert attrs == init + [Last(attrs)];
    if FieldConditions(field, init, ps).Err? {
      FieldConditionsFirstFailure(field, init, ps);
      var k :| FirstFailingSite(AttrSites(field, init), ps, k)
        && FieldConditions(field, init, ps).error == SiteError(AttrSites(field, init)[k], ps);
      assert FirstFailingSite(ss, ps, k);
    } else {
      var k := |attrs| - 1;
      forall j | 0 <= j < k
        ensures !SiteFails(ss[j], ps)
      {
        assert attrs[j] in init;
      }
      assert FirstFailingSite(ss, ps, k);
    }
  }

  lemma {:induction false} CollectFieldsFirstFailure(fs: seq<Field>, ps: Parsers)
    requires CollectFields(fs, ps).Err?
    ensures exists k ::
        && FirstFailingSite(Sites(fs), ps, k)
        && CollectFields(fs, ps).error == SiteError(Sites(fs)[k], ps)
    decreases |fs|
  {
    var init := fs[..|fs| - 1];
    var f := Last(fs);
    var head := Sites(init);
    var tail := AttrSites(f.name, f.attrs);
    assert Sites(fs) == head + tail;
    if CollectFields(init, ps).Err? {
      assert CollectFields(fs, ps).error == CollectFields(init, ps).error;
      CollectFieldsFirstFailure(init, ps);
      var k :| FirstFailingSite(head, ps, k)
        && CollectFields(init, ps).error == SiteError(head[k], ps);
      FirstFailingSiteInPrefix(head, tail, ps, k);
    } else {
      assert CollectFields(fs, ps).error == FieldConditions(f.name, f.attrs, ps).error;
      FieldConditionsFirstFailure(f.name, f.attrs, ps);
      var k :| FirstFailingSite(tail, ps, k)
        && FieldConditions(f.name, f.attrs, ps).error == SiteError(tail[k], ps);
      FirstFailingSiteAfterPrefix(head, tail, ps, k);
      assert (head + tail)[|head| + k] == tail[k];
    }
  }

  /** A parse failure at any stage aborts the whole derive: the result is
      the compile error of the first failing invariant attribute, in field
      order then attribute order, and nothing else is emitted. */
  lemma ExpandStopsAtFirstFailure(input: DeriveInput, ps: Parsers)
    requires Expand(input, ps).Err?
    ensures exists k ::
        && FirstFailingSite(Sites(FieldsOf(input)), ps, k)
        && Expand(input, ps).error == SiteError(Sites(FieldsOf(input))[k], ps)
  {
    CollectFieldsFirstFailure(FieldsOf(input), ps);
  }

  /** A field carries at least one `#[invariant(...)]` attribute. */
  predicate HasInvariant(f: Field)
  {
    exists a :: a in f.attrs && IsInvariantAttr(a)
  }

  /** The texts a field's attributes record, independent of any parser. */
  function FieldTexts(f: Field): seq<string>
  {
    FlatTexts(AttrSites(f.name, f.attrs))
  }

  /** The field infos as the documentation describes them: one per field
      that carries an invariant attribute, in declaration order, holding that
      field's texts. */
  function InfosSpec(fs: seq<Field>): seq<FieldInfo>
  {
    if fs == [] then []
    else
      var f := Last(fs);
      InfosSpec(fs[..|fs| - 1]) + (if HasInvariant(f) then [FieldInfo(f.name, f.ty, FieldTexts(f))] else [])
  }

  function ConcatInfos(infos: seq<FieldInfo>): seq<string>
  {
    if infos == [] then [] else ConcatInfos(infos[..|infos| - 1]) + Last(infos).invariants
  }

  lemma {:induction false} FieldTextsNonEmpty(field: string, attrs: seq<Attribute>)
    ensures FlatTexts(AttrSites(field, attrs)) != [] <==> exists a :: a in attrs && IsInvariantAttr(a)
    decreases |attrs|
  {
    if attrs != [] {
      var init := attrs[..|attrs| - 1];
      assert attrs == init + [Last(attrs)];
      assert AttrSites(field, attrs)[..|attrs| - 1] == AttrSites(field, init);
      FieldTextsNonEmpty(field, init);
    }
  }

  lemma {:induction false} InfosMatchSpec(fs: seq<Field>, perField: seq<seq<string>>)
    requires |fs| == |perField|
    requires forall i :: 0 <= i < |fs| ==> perField[i] == FieldTexts(fs[i])
    ensures Infos(fs, perField) == InfosSpec(fs)
    decreases |fs|
  {
    if fs != [] {
      var n := |fs| - 1;
      var f := fs[n];
      InfosMatchSpec(fs[..n], perField[..n]);
      FieldTextsNonEmpty(f.name, f.attrs);
      assert HasInvariant(f) <==> perField[n] != [];
    }
  }

  lemma {:induction false} InfosConcat(fs: seq<Field>, perField: seq<seq<string>>)
    requires |fs| == |perField|
    ensures ConcatInfos(Infos(fs, perField)) == Concat(perField)
    decreases |fs|
  {
    if fs != [] {
      var n := |fs| - 1;
      InfosConcat(fs[..n], perField[..n]);
      var prev := Infos(fs[..n], perField[..n]);
      assert Concat(perField) == Concat(perField[..n]) + perField[n];
      if perField[n] != [] {
        var info := FieldInfo(fs[n].name, fs[n].ty, perField[n]);
        assert Infos(fs, perField) == prev + [info];
        assert (prev + [info])[..|prev|] == prev;
        assert ConcatInfos(prev + [info]) == ConcatInfos(prev) + perField[n];
      } else {
        assert Infos(fs, perField) == prev + [];
        assert prev + [] == prev;
        assert Concat(perField[..n]) + perField[n] == Concat(perField[..n]);
      }
    }
  }

  lemma {:induction false} InfosNonEmpty(fs: seq<Field>, perField: seq<seq<string>>)
    requires |fs| == |perField|
    ensures forall i :: 0 <= i < |Infos(fs, perField)| ==> Infos(fs, perField)[i].invariants != []
    decreases |fs|
  {
    if fs != [] {
      var n := |fs| - 1;
      InfosNonEmpty(fs[..n], perField[..n]);
    }
  }

  /** A `FieldInfo` is produced exactly for the fields that carry an
      invariant attribute, keeps that field's invariant list, and the lists
      laid end to end are `INVARIANTS`. */
  lemma ExpandFieldInfos(input: DeriveInput, ps: Parsers)
    requires Expand(input, ps).Ok?
    ensures Expand(input, ps).value.fieldInfos == InfosSpec(FieldsOf(input))
    ensures ConcatInfos(Expand(input, ps).value.fieldInfos) == Expand(input, ps).value.invariants
    ensures forall i :: 0 <= i < |Expand(input, ps).value.fieldInfos| ==>
      Expand(input, ps).value.fieldInfos[i].invariants != []
  {
    var fields := FieldsOf(input);
    InfosMatchSpec(fields, CollectFields(fields, ps).value);
    InfosConcat(fields, CollectFields(fields, ps).value);
    InfosNonEmpty(fields, CollectFields(fields, ps).value);
  }

  lemma {:induction false} IntegerFieldsAppend(a: seq<Field>, b: seq<Field>)
    ensures IntegerFields(a + b) == IntegerFields(a) + IntegerFields(b)
    decreases |b|
  {
    if b == [] {
      assert a + b == a;
    } else {
      var init := b[..|b| - 1];
      assert (a + b)[..|a + b| - 1] == a + init;
      assert Last(a + b) == Last(b);
      IntegerFieldsAppend(a, init);
    }
  }

  /** Two field lists with the same names and types, whatever their
      attributes. */
  predicate SameShape(fs: seq<Field>, gs: seq<Field>)
  {
    && |fs| == |gs|
    && forall i :: 0 <= i < |fs| ==> fs[i].name == gs[i].name && fs[i].ty == gs[i].ty
  }

  lemma {:induction false} IntegerFieldsSameShape(fs: seq<Field>, gs: seq<Field>)
    requires SameShape(fs, gs)
    ensures SameShape(IntegerFields(fs), IntegerFields(gs))
    decreases |fs|
  {
    if fs != [] {
      IntegerFieldsSameShape(fs[..|fs| - 1], gs[..|gs| - 1]);
    }
  }

  /** The hash-field and arm lists are the integer-field filter, named and
      classed field by field. */
  lemma IntegerFieldsHashAndArms(fs: seq<Field>)
    ensures var ints := IntegerFields(fs);
      && |Arms(fs)| == |HashFields(fs)| == |ints|
      && (forall n :: n in HashFields(fs) <==> exists f :: f in fs && IsIntegerType(f.ty) && f.name == n)
      && (forall i :: 0 <= i < |ints| ==>
            && Arms(fs)[i].name == HashFields(fs)[i] == ints[i].name
            && (Arms(fs)[i].kind == UIntKind <==> Last(ints[i].ty.segments) in UnsignedTypeNames))
  {
    var ints := IntegerFields(fs);
    var hash := HashFields(fs);
    var arms := Arms(fs);
    forall i | 0 <= i < |ints|
      ensures arms[i].kind == UIntKind <==> Last(ints[i].ty.segments) in UnsignedTypeNames
    {
      assert ints[i] in ints;
      UnsignedClassification(ints[i].ty);
    }
    forall n | n in hash
      ensures exists f :: f in fs && IsIntegerType(f.ty) && f.name == n
    {
      var i :| 0 <= i < |hash| && hash[i] == n;
      assert ints[i] in ints;
    }
    forall n | exists f :: f in fs && IsIntegerType(f.ty) && f.name == n
      ensures n in hash
    {
      var f :| f in fs && IsIntegerType(f.ty) && f.name == n;
      var i :| 0 <= i < |ints| && ints[i] == f;
      assert hash[i] == n;
    }
  }

  /** The hash fields and the provider arms cover exactly the integer-typed
      fields, in declaration order, with each arm classed `UInt` exactly for
      the six unsigned type names. */
  lemma ExpandHashAndArms(input: DeriveInput, ps: Parsers)
    requires Expand(input, ps).Ok?
    ensures var e := Expand(input, ps).value;
      var ints := IntegerFields(FieldsOf(input));
      && |e.arms| == |e.hashFields| == |ints|
      && (forall n :: n in e.hashFields <==>
            exists f :: f in FieldsOf(input) && IsIntegerType(f.ty) && f.name == n)
      && (forall i :: 0 <= i < |e.arms| ==>
            && e.arms[i].name == e.hashFields[i] == ints[i].name
            && (e.arms[i].kind == UIntKind <==> Last(ints[i].ty.segments) in UnsignedTypeNames))
  {
    ExpandUsesIntegerFields(input, ps);
    IntegerFieldsHashAndArms(FieldsOf(input));
  }

  lemma SameShapeSameHashAndArms(fs: seq<Field>, gs: seq<Field>)
    requires SameShape(IntegerFields(fs), IntegerFields(gs))
    ensures HashFields(fs) == HashFields(gs)
    ensures Arms(fs) == Arms(gs)
  {
  }

  lemma ExpandUsesIntegerFields(input: DeriveInput, ps: Parsers)
    requires Expand(input, ps).Ok?
    ensures Expand(input, ps).value.hashFields == HashFields(FieldsOf(input))
    ensures Expand(input, ps).value.arms == Arms(FieldsOf(input))
  {
  }

  /** Hash fields and arms do not depend on which fields carry invariants:
      two structs whose fields agree on names and types get the same ones. */
  lemma HashAndArmsIgnoreInvariants(input: DeriveInput, other: DeriveInput, ps: Parsers, qs: Parsers)
    requires SameShape(FieldsOf(input), FieldsOf(other))
    requires Expand(input, ps).Ok? && Expand(other, qs).Ok?
    ensures Expand(input, ps).value.hashFields == Expand(other, qs).value.hashFields
    ensures Expand(input, ps).value.arms == Expand(other, qs).value.arms
  {
    IntegerFieldsSameShape(FieldsOf(input), FieldsOf(other));
    SameShapeSameHashAndArms(FieldsOf(input), FieldsOf(other));
    ExpandUsesIntegerFields(input, ps);
    ExpandUsesIntegerFields(other, qs);
  }

  /** The generated provider answers exactly for the integer-typed fields
      and reports every other name as an unknown field. */
  lemma ProviderAnswersIntegerFields(input: DeriveInput, ps: Parsers, name: string, valueOf: string -> int)
    requires Expand(input, ps).Ok?
    ensures var r := GetFieldValue(Expand(input, ps).value.arms, name, valueOf);
      && (r.Err? <==> !exists f :: f in FieldsOf(input) && IsIntegerType(f.ty) && f.name == name)
      && (r.Err? ==> r.error == UnknownField(name))
  {
    var e := Expand(input, ps).value;
    ExpandHashAndArms(input, ps);
    if exists f :: f in FieldsOf(input) && IsIntegerType(f.ty) && f.name == name {
      assert name in e.hashFields;
      var i :| 0 <= i < |e.hashFields| && e.hashFields[i] == name;
      assert e.arms[i].name == name;
    }
  }

  /** Checks built from a list of texts fail at the first text that does not
      hold. */
  lemma EnforceChecksOf(texts: seq<string>, holds: Instance)
    ensures var r := EnforceLaw(ChecksOf(texts), holds);
      && (r.Ok? <==> forall i :: 0 <= i < |texts| ==> holds(texts[i]))
      && (r.Err? ==>
            exists k :: 0 <= k < |texts| && !holds(texts[k])
              && (forall j :: 0 <= j < k ==> holds(texts[j]))
              && r.error == InvariantViolation(texts[k], map[]))
  {
    var checks := ChecksOf(texts);
    var r := EnforceLaw(checks, holds);
    if r.Err? {
      var k :| FirstFailureAt(checks, holds, k) && r.error == InvariantViolation(checks[k].expression, map[]);
      assert !holds(texts[k]);
    }
  }

  /** The generated `enforce_law` accepts an instance exactly when every
      collected invariant holds, and otherwise reports the first one that
      fails in declaration order, with an empty `values` map. */
  lemma EnforceExpanded(input: DeriveInput, ps: Parsers, holds: Instance)
    requires Expand(input, ps).Ok?
    ensures var e := Expand(input, ps).value;
      var r := EnforceLaw(e.checks, holds);
      && (r.Ok? <==> forall i :: 0 <= i < |e.invariants| ==> holds(e.invariants[i]))
      && (r.Err? ==>
            exists k :: 0 <= k < |e.invariants| && !holds(e.invariants[k])
              && (forall j :: 0 <= j < k ==> holds(e.invariants[j]))
              && r.error == InvariantViolation(e.invariants[k], map[]))
  {
    var e := Expand(input, ps).value;
    assert e.checks == ChecksOf(e.invariants);
    EnforceChecksOf(e.invariants, holds);
  }

  // ---------------------------------------------------------------------
  // The loops as written
  // ---------------------------------------------------------------------

  lemma {:induction false} FieldConditionsErrorPersists(field: string, attrs: seq<Attribute>, ps: Parsers, k: nat)
    requires k <= |attrs|
    requires FieldConditions(field, attrs[..k], ps).Err?
    ensures FieldConditions(field, attrs, ps) == FieldConditions(field, attrs[..k], ps)
    decreases |attrs|
  {
    if k < |attrs| {
      var init := attrs[..|attrs| - 1];
      assert init[..k] == attrs[..k];
      FieldConditionsErrorPersists(field, init, ps, k);
    } else {
      assert attrs[..k] == attrs;
    }
  }

  lemma {:induction false} CollectFieldsErrorPersists(fs: seq<Field>, ps: Parsers, k: nat)
    requires k <= |fs|
    requires CollectFields(fs[..k], ps).Err?
    ensures CollectFields(fs, ps) == CollectFields(fs[..k], ps)
    decreases |fs|
  {
    if k < |fs| {
      var init := fs[..|fs| - 1];
      assert init[..k] == fs[..k];
      CollectFieldsErrorPersists(init, ps, k);
    } else {
      assert fs[..k] == fs;
    }
  }

  /** Processing attribute `j` after an error-free prefix either keeps the
      texts, appends its condition, or stops with that condition's error. */
  lemma FieldConditionsStep(field: string, attrs: seq<Attribute>, ps: Parsers, j: nat, acc: seq<string>)
    requires j < |attrs|
    requires FieldConditions(field, attrs[..j], ps) == Ok(acc)
    ensures FieldConditions(field, attrs[..j + 1], ps) ==
      if !IsInvariantAttr(attrs[j]) then Ok(acc)
      else match Condition(field, attrs[j].meta.payload, ps)
        case Err(e) => Err(e)
        case Ok(c) => Ok(acc + [c])
  {
    assert attrs[..j + 1][..j] == attrs[..j];
  }

  /** The inner loop of `derive_constitution` over one field's attributes,
      returning the compile error from inside the loop at the first
      condition that does not parse. */
  method FieldLoop(field: Field, ps: Parsers) returns (r: Result<seq<string>, DeriveError>)
    ensures r == FieldConditions(field.name, field.attrs, ps)
  {
    var fieldInvariants: seq<string> := [];
    var j := 0;
    while j < |field.attrs|
      invariant 0 <= j <= |field.attrs|
      invariant FieldConditions(field.name, field.attrs[..j], ps) == Ok(fieldInvariants)
    {
      var attr := field.attrs[j];
      FieldConditionsStep(field.name, field.attrs, ps, j, fieldInvariants);
      if attr.meta.MetaList? && attr.path == ["invariant"] {
        var p := attr.meta.payload;
        if !ps.parseArgs(p) {
          r := Err(ArgsSyntaxError(field.name));
          FieldConditionsErrorPersists(field.name, field.attrs, ps, j + 1);
          return;
        }
        var conditionStr: string;
        match p {
          case StrLit(lit) =>
            if !ps.parseStr(lit) {
              r := Err(LiteralSyntaxError(field.name, lit));
              FieldConditionsErrorPersists(field.name, field.attrs, ps, j + 1);
              return;
            }
            conditionStr := lit;
          case ExprTokens(tokens) =>
            conditionStr := tokens;
        }
        if !ps.proverParse(conditionStr) {
          r := Err(ProverSyntaxError(field.name, conditionStr));
          FieldConditionsErrorPersists(field.name, field.attrs, ps, j + 1);
          return;
        }
        fieldInvariants := fieldInvariants + [conditionStr];
      }
      j := j + 1;
    }
    assert field.attrs[..j] == field.attrs;
    r := Ok(fieldInvariants);
  }

  /** One more field processed without error extends every accumulator by
      that field's contribution. */
  lemma CollectStep(fields: seq<Field>, ps: Parsers, i: nat, c: seq<string>)
    requires i < |fields|
    requires CollectFields(fields[..i], ps).Ok?
    requires FieldConditions(fields[i].name, fields[i].attrs, ps) == Ok(c)
    ensures var before := CollectFields(fields[..i], ps).value;
      && CollectFields(fields[..i + 1], ps) == Ok(before + [c])
      && Concat(before + [c]) == Concat(before) + c
      && Infos(fields[..i + 1], before + [c]) ==
           Infos(fields[..i], before) + (if c != [] then [FieldInfo(fields[i].name, fields[i].ty, c)] else [])
  {
    var before := CollectFields(fields[..i], ps).value;
    assert fields[..i + 1][..i] == fields[..i];
    assert (before + [c])[..i] == before;
  }

  lemma ChecksOfAppend(a: seq<string>, b: seq<string>)
    ensures ChecksOf(a + b) == ChecksOf(a) + ChecksOf(b)
  {
  }

  /** The outer loop of `derive_constitution` over the named fields: pushes
      into the invariant, runtime-check and field-info vectors, and returns
      the compile error of the first condition that does not parse. */
  method FieldsLoop(fields: seq<Field>, ps: Parsers)
    returns (r: Result<(seq<string>, seq<RuntimeCheck>, seq<FieldInfo>), DeriveError>)
    ensures CollectFields(fields, ps).Err? ==> r == Err(CollectFields(fields, ps).error)
    ensures CollectFields(fields, ps).Ok? ==>
      var perField := CollectFields(fields, ps).value;
      r == Ok((Concat(perField), ChecksOf(Concat(perField)), Infos(fields, perField)))
  {
    var runtimeChecks: seq<RuntimeCheck> := [];
    var invariantStrings: seq<string> := [];
    var fieldInfos: seq<FieldInfo> := [];
    var i := 0;
    while i < |fields|
      invariant 0 <= i <= |fields|
      invariant CollectFields(fields[..i], ps).Ok?
      invariant invariantStrings == Concat(CollectFields(fields[..i], ps).value)
      invariant runtimeChecks == ChecksOf(invariantStrings)
      invariant fieldInfos == Infos(fields[..i], CollectFields(fields[..i], ps).value)
    {
      var field := fields[i];
      var conditions := FieldLoop(field, ps);
      if conditions.Err? {
        assert fields[..i + 1][..i] == fields[..i];
        CollectFieldsErrorPersists(fields, ps, i + 1);
        return Err(conditions.error);
      }
      var fieldInvariants := conditions.value;
      CollectStep(fields, ps, i, fieldInvariants);
      ChecksOfAppend(invariantStrings, fieldInvariants);
      invariantStrings := invariantStrings + fieldInvariants;
      runtimeChecks := runtimeChecks + ChecksOf(fieldInvariants);
      if fieldInvariants != [] {
        fieldInfos := fieldInfos + [FieldInfo(field.name, field.ty, fieldInvariants)];
      }
      i := i + 1;
    }
    assert fields[..i] == fields;
    r := Ok((invariantStrings, runtimeChecks, fieldInfos));
  }

  /** `derive_constitution` as written: the field loop when the input is a
      struct with named fields, then `INVARIANTS` and the integer-field
      filters over all of its fields. */
  method DeriveConstitution(input: DeriveInput, ps: Parsers) returns (r: Result<Expansion, DeriveError>)
    ensures r == Expand(input, ps)
  {
    var allFields: seq<Field> := [];
    var collected: Result<(seq<string>, seq<RuntimeCheck>, seq<FieldInfo>), DeriveError> := Ok(([], [], []));
    if input.data.NamedStruct? {
      allFields := input.data.fields;
      collected := FieldsLoop(allFields, ps);
    }
    if collected.Err? {
      return Err(collected.error);
    }
    var (invariantStrings, runtimeChecks, fieldInfos) := collected.value;
    var invariantCount := |invariantStrings|;
    r := Ok(Expansion(input.ident, invariantStrings, invariantCount, fieldInfos,
                      HashFields(allFields), Arms(allFields), runtimeChecks));
  }
}
