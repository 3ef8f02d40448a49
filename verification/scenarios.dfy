/** The structs of the repository's tests and module documentation, stated
    in the model. */
module Scenarios {
  import opened Wrappers
  import opened Syntax
  import opened Provider
  import opened Enforce
  import opened Derive

  function InvariantAttr(p: Payload): Attribute
  {
    Attribute(["invariant"], MetaList(p))
  }

  /** Parsers that accept everything they are given. */
  function AcceptAll(): Parsers
  {
    Parsers(_ => true, _ => true, _ => true)
  }

  /** `struct TestStruct { #[invariant(self.val > 10)] val: i32 }`. */
  function TestStruct(): DeriveInput
  {
    DeriveInput("TestStruct", NamedStruct([
      Field("val", PathType(["i32"]), [InvariantAttr(ExprTokens("self.val > 10"))])]))
  }

  /** A `TestStruct` instance whose `val` field holds `v`. */
  function TestStructWith(v: int): Instance
  {
    e => if e == "self.val > 10" then v > 10 else true
  }

  /** The expansion of `TestStruct`, computed step by step. */
  lemma TestStructExpansion()
    ensures Expand(TestStruct(), AcceptAll()) == Ok(Expansion(
      "TestStruct", ["self.val > 10"], 1,
      [FieldInfo("val", PathType(["i32"]), ["self.val > 10"])],
      ["val"], [ProviderArm("val", IntKind)], [RuntimeCheck("self.val > 10")]))
  {
    var ps := AcceptAll();
    var attr := InvariantAttr(ExprTokens("self.val > 10"));
    var f := Field("val", PathType(["i32"]), [attr]);
    assert FieldsOf(TestStruct()) == [f];
    assert [attr][..0] == [];
    assert Condition("val", ExprTokens("self.val > 10"), ps) == Ok("self.val > 10");
    assert IsInvariantAttr(attr) && Last([attr]) == attr;
    assert FieldConditions("val", [], ps) == Ok([]);
    assert [] + ["self.val > 10"] == ["self.val > 10"];
    assert FieldConditions("val", [attr], ps) == Ok(["self.val > 10"]);
    assert [f][..0] == [];
    assert CollectFields([], ps) == Ok([]);
    assert [] + [["self.val > 10"]] == [["self.val > 10"]];
    assert CollectFields([f], ps) == Ok([["self.val > 10"]]);
    assert [["self.val > 10"]][..0] == [];
    assert Concat([["self.val > 10"]]) == ["self.val > 10"];
    assert Infos([f], [["self.val > 10"]]) == [FieldInfo("val", PathType(["i32"]), ["self.val > 10"])];
    assert IntegerFields([f]) == [f];
    assert KindOf(f.ty) == IntKind;
    assert HashFields([f]) == ["val"];
    assert Arms([f]) == [ProviderArm("val", IntKind)];
    assert ChecksOf(["self.val > 10"]) == [RuntimeCheck("self.val > 10")];
  }

  /** `val: 5` is rejected with the violated expression and an empty value
      map; `val: 15` passes; `val` is the one hashed, provided field. */
  lemma NoPanicTest()
    ensures Expand(TestStruct(), AcceptAll()).Ok?
    ensures var e := Expand(TestStruct(), AcceptAll()).value;
      && e.invariants == ["self.val > 10"]
      && e.hashFields == ["val"]
      && e.arms == [ProviderArm("val", IntKind)]
      && EnforceLaw(e.checks, TestStructWith(5)) == Err(InvariantViolation("self.val > 10", map[]))
      && EnforceLaw(e.checks, TestStructWith(15)) == Ok(())
  {
    TestStructExpansion();
    var checks := [RuntimeCheck("self.val > 10")];
    assert !TestStructWith(5)("self.val > 10");
    assert TestStructWith(15)("self.val > 10");
    assert checks[1..] == [];
  }

  /** `struct BoundedValue { #[invariant("self.value > 0")] value: i32 }`
      from the module documentation: the literal's content is recorded. */
  function BoundedValue(): DeriveInput
  {
    DeriveInput("BoundedValue", NamedStruct([
      Field("value", PathType(["i32"]), [InvariantAttr(StrLit("self.value > 0"))])]))
  }

  /** The literal's content becomes the invariant when all three parsers
      accept it, and a content that `syn::parse_str` rejects becomes a
      literal syntax error. */
  lemma BoundedValueExample(ps: Parsers)
    requires ps.parseArgs(StrLit("self.value > 0"))
    ensures ps.parseStr("self.value > 0") && ps.proverParse("self.value > 0") ==>
      Expand(BoundedValue(), ps).Ok?
        && Expand(BoundedValue(), ps).value.invariants == ["self.value > 0"]
    ensures !ps.parseStr("self.value > 0") ==>
      Expand(BoundedValue(), ps) == Err(LiteralSyntaxError("value", "self.value > 0"))
  {
    var attr := InvariantAttr(StrLit("self.value > 0"));
    var f := Field("value", PathType(["i32"]), [attr]);
    assert FieldsOf(BoundedValue()) == [f];
    assert [attr][..0] == [];
    assert [f][..0] == [];
    if ps.parseStr("self.value > 0") && ps.proverParse("self.value > 0") {
      assert Condition("value", StrLit("self.value > 0"), ps) == Ok("self.value > 0");
      assert IsInvariantAttr(attr) && Last([attr]) == attr;
      assert FieldConditions("value", [], ps) == Ok([]);
      assert [] + ["self.value > 0"] == ["self.value > 0"];
      assert FieldConditions("value", [attr], ps) == Ok(["self.value > 0"]);
      assert CollectFields([], ps) == Ok([]);
      assert [] + [["self.value > 0"]] == [["self.value > 0"]];
      assert CollectFields([f], ps) == Ok([["self.value > 0"]]);
      assert [["self.value > 0"]][..0] == [];
      assert Concat([["self.value > 0"]]) == ["self.value > 0"];
    }
    if !ps.parseStr("self.value > 0") {
      var e := LiteralSyntaxError("value", "self.value > 0");
      assert Condition("value", StrLit("self.value > 0"), ps) == Err(e);
      assert FieldConditions("value", [attr], ps) == Err(e);
      assert CollectFields([f], ps) == Err(e);
    }
  }

  /** `struct BadInvariant { #[invariant(this is not a valid expression >>>)] value: i32 }`. */
  function BadInvariant(): DeriveInput
  {
    DeriveInput("BadInvariant", NamedStruct([
      Field("value", PathType(["i32"]),
            [InvariantAttr(ExprTokens("this is not a valid expression >>>"))])]))
  }

  /** Tokens that `parse_args` rejects make the derive a compile error. */
  lemma InvalidSyntaxRejected(ps: Parsers)
    requires !ps.parseArgs(ExprTokens("this is not a valid expression >>>"))
    ensures Expand(BadInvariant(), ps) == Err(ArgsSyntaxError("value"))
  {
    var attr := InvariantAttr(ExprTokens("this is not a valid expression >>>"));
    var f := Field("value", PathType(["i32"]), [attr]);
    assert FieldsOf(BadInvariant()) == [f];
    assert [attr][..0] == [];
    assert [f][..0] == [];
    assert FieldConditions("value", [attr], ps) == Err(ArgsSyntaxError("value"));
    assert CollectFields([f], ps) == Err(ArgsSyntaxError("value"));
  }
}
