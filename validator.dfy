/**
 * The validator of src/validator.rs: every entry of a schema must name a
 * leaf of the parameter tree whose value fits the entry's type.
 */
module Validator {
  import opened Wrappers
  import opened Strings
  import opened LineSyntax
  import opened HashMap
  import opened Schema

  /** The largest `u64`. */
  const U64_MAX: nat := 0xFFFF_FFFF_FFFF_FFFF

  predicate IsDigit(c: char) {
    '0' <= c <= '9'
  }

  /** The value of a string of decimal digits, most significant first. */
  function DigitsValue(s: string): nat
    requires forall i :: 0 <= i < |s| ==> IsDigit(s[i])
  {
    if s == [] then 0
    else
      assert IsDigit(s[|s| - 1]);
      DigitsValue(s[..|s| - 1]) * 10 + (s[|s| - 1] as int - '0' as int)
  }

  /** The digits after an optional leading `+`. */
  function Unsigned(value: string): string {
    if value != [] && value[0] == '+' then value[1..] else value
  }

  /**
   * Rust's `u64` parsing accepts the value: an optional `+`, then at least
   * one ASCII digit, and a number no larger than `U64_MAX`.
   */
  predicate IsU64Literal(value: string) {
    var digits := Unsigned(value);
    && digits != []
    && (forall i :: 0 <= i < |digits| ==> IsDigit(digits[i]))
    && DigitsValue(digits) <= U64_MAX
  }

  /** Rust's `bool` parsing accepts the value. */
  predicate IsBoolLiteral(value: string) {
    value == "true" || value == "false"
  }

  function NotBool(path: string, value: string): string {
    "'" + path + "' has not a bool value '" + value + "'"
  }

  function NotInteger(path: string, value: string): string {
    "'" + path + "' has not a integer value '" + value + "'"
  }

  function IsSubmap(path: string): string {
    "'" + path + "' is not a literal value, is a submap"
  }

  function NotFound(path: string): string {
    "'" + path + "' is not found"
  }

  /**
   * `validate_value`: a string entry takes any value, a bool entry exactly
   * `true` and `false`, an integer entry exactly the `u64` literals; the
   * error names the schema path and the value.
   */
  function ValidateValue(path: string, value: string, schemaType: SchemaType): (r: Outcome<string>)
    ensures schemaType == String ==> r == Pass
    ensures schemaType == Bool ==> r == if IsBoolLiteral(value) then Pass else Fail(NotBool(path, value))
    ensures schemaType == Integer ==> r == if IsU64Literal(value) then Pass else Fail(NotInteger(path, value))
  {
    match schemaType
    case Bool => if IsBoolLiteral(value) then Pass else Fail(NotBool(path, value))
    case Integer => if IsU64Literal(value) then Pass else Fail(NotInteger(path, value))
    case String => Pass
  }

  /**
   * One iteration of `validate`: the schema key split at `.` is looked up
   * in the tree; a leaf is checked against the type, a node or nothing is an
   * error naming the key.
   */
  function CheckEntry(items: Items, key: string, schemaType: SchemaType): (r: Outcome<string>)
    ensures Lookup(items, Split(key, '.')) == None ==> r == Fail(NotFound(key))
    ensures Lookup(items, Split(key, '.')).Some? && Lookup(items, Split(key, '.')).value.M? ==>
              r == Fail(IsSubmap(key))
    ensures forall value :: Lookup(items, Split(key, '.')) == Some(V(value)) ==> r == ValidateValue(key, value, schemaType)
    ensures r.Pass? ==>
              exists value :: Lookup(items, Split(key, '.')) == Some(V(value)) && ValidateValue(key, value, schemaType).Pass?
  {
    match Lookup(items, Split(key, '.'))
    case Some(V(value)) => ValidateValue(key, value, schemaType)
    case Some(M(_)) => Fail(IsSubmap(key))
    case None => Fail(NotFound(key))
  }

  /** Every entry of the schema passes. */
  predicate Conforms(items: Items, schema: SchemaHashMap) {
    forall key :: key in schema ==> CheckEntry(items, key, schema[key]).Pass?
  }

  /**
   * `validate`: the schema entries are visited in an order the source leaves
   * to its hash map, and the first failing one ends the walk. The result
   * passes exactly when every entry does; otherwise it is the error of some
   * failing entry.
   */
  method Validate(config: SysctlParameterHashMap, schema: SchemaHashMap) returns (r: Outcome<string>)
    ensures r.Pass? <==> Conforms(config.items, schema)
    ensures r.Fail? ==> exists key :: key in schema && CheckEntry(config.items, key, schema[key]) == r
  {
    var remaining := schema.Keys;
    while remaining != {}
      invariant remaining <= schema.Keys
      invariant forall key :: key in schema && key !in remaining ==> CheckEntry(config.items, key, schema[key]).Pass?
      decreases remaining
    {
      var key :| key in remaining;
      var checked := CheckEntry(config.items, key, schema[key]);
      if checked.Fail? {
        return checked;
      }
      remaining := remaining - {key};
    }
    return Pass;
  }

  /** The decimal digits of `n`, most significant first, without leading zeros. */
  function Decimal(n: nat): (r: string)
    ensures r != [] && forall i :: 0 <= i < |r| ==> IsDigit(r[i])
  {
    var last := ['0' + (n % 10) as char];
    if n < 10 then last else Decimal(n / 10) + last
  }

  /** Reading back the digits of `n` gives `n`. */
  lemma {:induction false} DecimalValue(n: nat)
    ensures DigitsValue(Decimal(n)) == n
  {
    var d := Decimal(n);
    if n >= 10 {
      DecimalValue(n / 10);
      assert d[..|d| - 1] == Decimal(n / 10);
    }
  }

  /**
   * An integer entry accepts the decimal form of a number exactly when the
   * number fits in a `u64`, with or without a leading `+`; a minus sign and
   * an empty value are never accepted.
   */
  lemma DecimalU64(n: nat)
    ensures IsU64Literal(Decimal(n)) <==> n <= U64_MAX
    ensures IsU64Literal("+" + Decimal(n)) <==> n <= U64_MAX
    ensures !IsU64Literal("-" + Decimal(n))
    ensures !IsU64Literal("") && !IsU64Literal("+")
  {
    DecimalValue(n);
    var d := Decimal(n);
    assert Unsigned("+" + d) == d;
    assert !IsDigit(d[0]) ==> false;
    assert Unsigned("-" + d) == "-" + d && !IsDigit(("-" + d)[0]);
  }

  /** A bool entry accepts exactly the two literals. */
  lemma BoolLiterals(path: string, value: string)
    ensures ValidateValue(path, value, Bool).Pass? <==> value == "true" || value == "false"
    ensures !IsBoolLiteral("True") && !IsBoolLiteral("1") && !IsBoolLiteral("")
  {
    assert "True"[0] != "true"[0];
  }

  /** An empty schema passes on every tree, and one failing entry makes the whole schema fail. */
  lemma ConformsEntries(items: Items, schema: SchemaHashMap, key: string)
    ensures Conforms(items, map[])
    ensures key in schema && CheckEntry(items, key, schema[key]).Fail? ==> !Conforms(items, schema)
    ensures Conforms(items, schema) ==> forall sub: SchemaHashMap :: sub.Items <= schema.Items ==> Conforms(items, sub)
  {
    if Conforms(items, schema) {
      forall sub: SchemaHashMap | sub.Items <= schema.Items ensures Conforms(items, sub) {
        forall k | k in sub ensures CheckEntry(items, k, sub[k]).Pass? {
          assert (k, sub[k]) in schema.Items;
        }
      }
    }
  }

  /**
   * The parser and the validator agree: after a well-formed non-empty token
   * has been inserted into an empty tree, a string entry for that token
   * passes, and so does an entry of any type its value fits.
   */
  lemma InsertedTokenConforms(token: string, value: string, schemaType: SchemaType)
    requires token != [] && HasValidHierarchy(token)
    ensures var items := Inserted(map[], Split(token, '.'), value);
      CheckEntry(items, token, schemaType) == ValidateValue(token, value, schemaType)
    ensures Conforms(Inserted(map[], Split(token, '.'), value), map[token := String])
  {
    var path := Split(token, '.');
    var items := Inserted(map[], path, value);
    forall i | 1 <= i < |path| ensures Lookup(map[], path[..i]) == None {
      LookupEmpty(path[..i]);
    }
    InsertedLookup(map[], path, value);
    assert Lookup(items, path) == Some(V(value));
  }
}
