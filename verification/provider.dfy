/** The field provider generated inside `get_field_provider`: a `match` on the
    field name whose arms read one integer field of `self` and convert it with
    `as u64` or `as i64`; any other name is an "Unknown field" error. */
module Provider {
  import opened Wrappers
  import opened Syntax

  datatype ValueKind = IntKind | UIntKind

  /** One generated match arm: the field's name and how its value is cast. */
  datatype ProviderArm = ProviderArm(name: string, kind: ValueKind)

  /** `FieldValue::Int(i64)` and `FieldValue::UInt(u64)`. */
  datatype FieldValue = Int(i: int) | UInt(u: int)

  /** `ProofError::ParseError(format!("Unknown field: {}", name))`. */
  datatype ProofError = UnknownField(name: string)

  const TwoTo63: int := 0x8000_0000_0000_0000
  const TwoTo64: int := 0x1_0000_0000_0000_0000

  /** Rust's `v as u64`: keep the low 64 bits. The range and the congruence
      together determine the result: the unique value in [0, 2^64) that
      differs from `v` by a multiple of 2^64. */
  function AsU64(v: int): (r: int)
    ensures 0 <= r < TwoTo64
    ensures (v - r) % TwoTo64 == 0
    ensures 0 <= v < TwoTo64 ==> r == v
  {
    v % TwoTo64
  }

  /** Rust's `v as i64`: keep the low 64 bits, read as two's complement. The
      range and the congruence together determine the result: the unique
      value in [-2^63, 2^63) that differs from `v` by a multiple of 2^64. */
  function AsI64(v: int): (r: int)
    ensures -TwoTo63 <= r < TwoTo63
    ensures (v - r) % TwoTo64 == 0
    ensures -TwoTo63 <= v < TwoTo63 ==> r == v
  {
    (v + TwoTo63) % TwoTo64 - TwoTo63
  }

  /** Two values in one window of width 2^64 that agree modulo 2^64 are
      equal. */
  lemma SameResidueInWindow(lo: int, a: int, b: int)
    requires lo <= a < lo + TwoTo64 && lo <= b < lo + TwoTo64
    requires (a - b) % TwoTo64 == 0
    ensures a == b
  {
    var q := (a - b) / TwoTo64;
    assert a - b == q * TwoTo64;
  }

  /** `as u64` is the only value in [0, 2^64) congruent to `v`: any such
      value is the cast's result. */
  lemma AsU64Unique(v: int, r: int)
    requires 0 <= r < TwoTo64
    requires (v - r) % TwoTo64 == 0
    ensures r == AsU64(v)
  {
    var c := AsU64(v);
    assert (c - r) % TwoTo64 == 0 by {
      assert c - r == (v - r) - (v - c);
    }
    SameResidueInWindow(0, c, r);
  }

  /** `as i64` is the only value in [-2^63, 2^63) congruent to `v`: any such
      value is the cast's result. */
  lemma AsI64Unique(v: int, r: int)
    requires -TwoTo63 <= r < TwoTo63
    requires (v - r) % TwoTo64 == 0
    ensures r == AsI64(v)
  {
    var c := AsI64(v);
    assert (c - r) % TwoTo64 == 0 by {
      assert c - r == (v - r) - (v - c);
    }
    SameResidueInWindow(-TwoTo63, c, r);
  }

  /** The value an arm produces from the field's current value. */
  function ArmValue(arm: ProviderArm, v: int): FieldValue
  {
    match arm.kind
    case UIntKind => UInt(AsU64(v))
    case IntKind => Int(AsI64(v))
  }

  /** Arm `i` is the first arm named `name`: the one a Rust `match` picks. */
  predicate FirstArmNamed(arms: seq<ProviderArm>, name: string, i: int)
  {
    && 0 <= i < |arms|
    && arms[i].name == name
    && forall j :: 0 <= j < i ==> arms[j].name != name
  }

  /** `get_field_value(name)`: the first arm whose name matches, applied to the
      field's value `valueOf(name)`; no matching arm is an "Unknown field"
      error naming the request. */
  function GetFieldValue(arms: seq<ProviderArm>, name: string, valueOf: string -> int)
    : (r: Result<FieldValue, ProofError>)
    ensures r.Err? <==> forall i :: 0 <= i < |arms| ==> arms[i].name != name
    ensures r.Err? ==> r.error == UnknownField(name)
    ensures r.Ok? ==>
      exists i :: FirstArmNamed(arms, name, i) && r.value == ArmValue(arms[i], valueOf(name))
  {
    if arms == [] then Err(UnknownField(name))
    else if arms[0].name == name then
      assert FirstArmNamed(arms, name, 0);
      Ok(ArmValue(arms[0], valueOf(name)))
    else
      var r := GetFieldValue(arms[1..], name, valueOf);
      assert r.Ok? ==>
          exists i :: FirstArmNamed(arms, name, i) && r.value == ArmValue(arms[i], valueOf(name)) by {
        if r.Ok? {
          var k :| FirstArmNamed(arms[1..], name, k) && r.value == ArmValue(arms[1..][k], valueOf(name));
          assert FirstArmNamed(arms, name, k + 1);
        }
      }
      r
  }

  /** The cast an integer field's arm uses: `UInt` for a last type segment
      starting with 'u', `Int` otherwise. */
  function KindOf(t: Type): ValueKind
  {
    if IsUnsigned(t) then UIntKind else IntKind
  }

  /** The values a primitive integer type holds, with `isize`/`usize` taken
      as 64-bit (the usual target). */
  predicate InTypeRange(n: string, v: int)
  {
    match n
    case "i8" => -0x80 <= v < 0x80
    case "i16" => -0x8000 <= v < 0x8000
    case "i32" => -0x8000_0000 <= v < 0x8000_0000
    case "i64" => -TwoTo63 <= v < TwoTo63
    case "isize" => -TwoTo63 <= v < TwoTo63
    case "i128" => -0x8000_0000_0000_0000_0000_0000_0000_0000 <= v < 0x8000_0000_0000_0000_0000_0000_0000_0000
    case "u8" => 0 <= v < 0x100
    case "u16" => 0 <= v < 0x1_0000
    case "u32" => 0 <= v < 0x1_0000_0000
    case "u64" => 0 <= v < TwoTo64
    case "usize" => 0 <= v < TwoTo64
    case "u128" => 0 <= v < 0x1_0000_0000_0000_0000_0000_0000_0000_0000
    case _ => false
  }

  /** For every integer field type narrower than 128 bits, the value handed
      to the solver is the field's value, with the sign the type gives it. */
  lemma NarrowFieldsExact(t: Type, name: string, v: int)
    requires IsIntegerType(t)
    requires Last(t.segments) != "i128" && Last(t.segments) != "u128"
    requires InTypeRange(Last(t.segments), v)
    ensures ArmValue(ProviderArm(name, KindOf(t)), v) ==
      (if Last(t.segments) in UnsignedTypeNames then UInt(v) else Int(v))
  {
    UnsignedClassification(t);
  }

  /** The `as u64` / `as i64` casts lose 128-bit values: a `u128` field
      holding 2^64 is reported as 0, and an `i128` field holding 2^63 as
      -2^63. */
  lemma WideFieldsWrap()
    ensures InTypeRange("u128", TwoTo64)
    ensures ArmValue(ProviderArm("x", KindOf(PathType(["u128"]))), TwoTo64) == UInt(0)
    ensures InTypeRange("i128", TwoTo63)
    ensures ArmValue(ProviderArm("x", KindOf(PathType(["i128"]))), TwoTo63) == Int(-TwoTo63)
  {
  }
}
