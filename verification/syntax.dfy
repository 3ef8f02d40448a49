/** The part of a `syn::DeriveInput` that `#[derive(Constitution)]` looks at:
    the struct's named fields, each field's type and its attributes. */
module Syntax {

  /** A field type. Only path types (`u32`, `core::primitive::i64`, `Vec<u8>`)
      carry segment names; every other form of type (reference, array, tuple,
      ...) is never an integer type. */
  datatype Type =
    | PathType(segments: seq<string>)
    | OtherType(text: string)

  /** The tokens inside `#[invariant(...)]`, after `parse_args::<syn::Expr>`:
      either a string literal (its content, unescaped) or any other expression
      (its token rendering). */
  datatype Payload =
    | StrLit(content: string)
    | ExprTokens(tokens: string)

  /** `syn::Meta`: `#[p]`, `#[p(...)]` or `#[p = ...]`. Only the list form
      carries a payload the derive reads. */
  datatype Meta =
    | MetaPath
    | MetaList(payload: Payload)
    | MetaNameValue(value: string)

  datatype Attribute = Attribute(path: seq<string>, meta: Meta)

  datatype Field = Field(name: string, ty: Type, attrs: seq<Attribute>)

  /** Named-field structs are the only input whose fields are visited; tuple
      and unit structs, enums and unions are `OtherData`. */
  datatype Data =
    | NamedStruct(fields: seq<Field>)
    | OtherData

  datatype DeriveInput = DeriveInput(ident: string, data: Data)

  /** The fields the derive visits: none unless the input is a struct with
      named fields. */
  function FieldsOf(input: DeriveInput): seq<Field>
  {
    if input.data.NamedStruct? then input.data.fields else []
  }

  function Last<T>(s: seq<T>): T
    requires |s| > 0
  {
    s[|s| - 1]
  }

  /** The twelve primitive integer names `is_integer_type` accepts. */
  const IntegerTypeNames: set<string> :=
    {"i8", "i16", "i32", "i64", "i128", "isize",
     "u8", "u16", "u32", "u64", "u128", "usize"}

  const UnsignedTypeNames: set<string> :=
    {"u8", "u16", "u32", "u64", "u128", "usize"}

  const SignedTypeNames: set<string> :=
    {"i8", "i16", "i32", "i64", "i128", "isize"}

  /** The width suffixes of Rust's primitive integers. */
  const Widths: set<string> := {"8", "16", "32", "64", "128", "size"}

  /** `is_integer_type`: a path type whose last segment names a primitive
      integer. */
  predicate IsIntegerType(t: Type)
  {
    match t
    case PathType(segments) => |segments| > 0 && Last(segments) in IntegerTypeNames
    case OtherType(_) => false
  }

  /** The signedness test of the field provider: the last segment of a path
      type starts with 'u'; anything else is signed. */
  predicate IsUnsigned(t: Type)
  {
    match t
    case PathType(segments) =>
      |segments| > 0 && |Last(segments)| > 0 && Last(segments)[0] == 'u'
    case OtherType(_) => false
  }

  /** An integer name is a sign letter followed by a width. */
  lemma IntegerNameShape(n: string)
    ensures n in IntegerTypeNames <==>
      |n| >= 2 && (n[0] == 'i' || n[0] == 'u') && n[1..] in Widths
  {
    if |n| >= 2 && (n[0] == 'i' || n[0] == 'u') && n[1..] in Widths {
      assert n == [n[0]] + n[1..];
      SignAndWidth(n[0], n[1..]);
    }
  }

  lemma SignAndWidth(c: char, w: string)
    requires c == 'i' || c == 'u'
    requires w in Widths
    ensures [c] + w in IntegerTypeNames
  {
    if w == "8" {
      if c == 'i' {
        assert [c] + w == "i8";
      } else {
        assert [c] + w == "u8";
      }
    } else if w == "16" {
      if c == 'i' {
        assert [c] + w == "i16";
      } else {
        assert [c] + w == "u16";
      }
    } else if w == "32" {
      if c == 'i' {
        assert [c] + w == "i32";
      } else {
        assert [c] + w == "u32";
      }
    } else if w == "64" {
      if c == 'i' {
        assert [c] + w == "i64";
      } else {
        assert [c] + w == "u64";
      }
    } else if w == "128" {
      if c == 'i' {
        assert [c] + w == "i128";
      } else {
        assert [c] + w == "u128";
      }
    } else {
      if c == 'i' {
        assert [c] + w == "isize";
      } else {
        assert [c] + w == "usize";
      }
    }
  }

  /** `is_integer_type` holds exactly of path types whose last segment is a
      sign letter followed by a width; every non-path type is rejected. */
  lemma IntegerTypeShape(t: Type)
    ensures IsIntegerType(t) <==>
      && t.PathType?
      && |t.segments| > 0
      && |Last(t.segments)| >= 2
      && (Last(t.segments)[0] == 'i' || Last(t.segments)[0] == 'u')
      && Last(t.segments)[1..] in Widths
    ensures t.OtherType? ==> !IsIntegerType(t)
  {
    if t.PathType? && |t.segments| > 0 {
      IntegerNameShape(Last(t.segments));
    }
  }

  /** On integer types the "starts with 'u'" test separates the six unsigned
      names from the six signed ones. */
  lemma UnsignedClassification(t: Type)
    requires IsIntegerType(t)
    ensures IsUnsigned(t) <==> Last(t.segments) in UnsignedTypeNames
    ensures !IsUnsigned(t) <==> Last(t.segments) in SignedTypeNames
  {
    IntegerNameShape(Last(t.segments));
    var n := Last(t.segments);
    if n[0] == 'u' {
      assert n == ['u'] + n[1..];
    } else {
      assert n == ['i'] + n[1..];
    }
  }

  /** `meta_list.path.is_ident("invariant")` on a list-form attribute. */
  predicate IsInvariantAttr(a: Attribute)
  {
    a.meta.MetaList? && a.path == ["invariant"]
  }

  /** The text recorded for an invariant: a string literal's content, or the
      token rendering of any other expression. It does not depend on any
      parser. */
  function ConditionText(p: Payload): string
  {
    match p
    case StrLit(s) => s
    case ExprTokens(t) => t
  }
}
