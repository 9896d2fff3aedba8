/**
 * The identifier helpers of the code generator: PascalCase conversion, the
 * pluralisation heuristic and the mapping from a data-type token to a C# type.
 */
module Naming {
  import opened Strings

  /**
   * The culture's title-casing (`TextInfo.ToTitleCase`). It is culture
   * dependent, so the model takes it as a parameter.
   */
  type CaseMapping = string -> string

  /** What the model relies on about title-casing: it does not introduce an underscore into a string that has none. */
  ghost predicate KeepsUnderscoresOut(titleCase: CaseMapping) {
    forall s :: '_' !in s ==> '_' !in titleCase(s)
  }

  /** `s.Replace(from, to)` for one-character strings. */
  function ReplaceChar(s: string, from: char, to: char): (r: string)
    ensures |r| == |s|
    ensures forall i :: 0 <= i < |s| ==> r[i] == (if s[i] == from then to else s[i])
  {
    if s == "" then "" else [if s[0] == from then to else s[0]] + ReplaceChar(s[1..], from, to)
  }

  /** `s.Replace(c, "")`: every occurrence of `c` removed, the rest kept in order. */
  function RemoveChar(s: string, c: char): (r: string)
    ensures c !in r
    ensures forall x :: x in r <==> x in s && x != c
    ensures IsSubsequence(r, s)
  {
    if s == "" then ""
    else
      var rest := RemoveChar(s[..|s| - 1], c);
      assert s == s[..|s| - 1] + [s[|s| - 1]];
      if s[|s| - 1] == c then rest else rest + [s[|s| - 1]]
  }

  /** Every character other than `c` is kept as often as it occurs. */
  lemma {:induction false} RemoveCharCount(s: string, c: char, x: char)
    ensures multiset(RemoveChar(s, c))[x] == if x == c then 0 else multiset(s)[x]
  {
    if s != "" {
      var init := s[..|s| - 1];
      assert s == init + [s[|s| - 1]];
      RemoveCharCount(init, c, x);
    }
  }

  /**
   * `ToPascalCase`: underscores become spaces, the result is title-cased and
   * the spaces are removed. Null and empty names come back unchanged.
   */
  function ToPascalCase(titleCase: CaseMapping, name: string): string {
    if name == "" then name
    else
      RemoveChar(titleCase(ReplaceChar(name, '_', ' ')), ' ')
  }

  /**
   * The empty name comes back unchanged; any other result holds no space, and
   * no underscore as long as title-casing introduces none.
   */
  lemma ToPascalCaseSpec(titleCase: CaseMapping, name: string)
    ensures name == "" ==> ToPascalCase(titleCase, name) == ""
    ensures ' ' !in ToPascalCase(titleCase, name)
    ensures KeepsUnderscoresOut(titleCase) ==> '_' !in ToPascalCase(titleCase, name)
  {
    if name != "" {
      var spaced := ReplaceChar(name, '_', ' ');
      assert '_' !in spaced;
    }
  }

  /** `ToPascalCase` on a nullable string: null stays null. */
  function ToPascalCaseOrNull(titleCase: CaseMapping, name: Option<string>): (r: Option<string>)
    ensures r.None? <==> name.None?
    ensures r.Some? ==> r.value == ToPascalCase(titleCase, name.value)
  {
    if name.None? then None else Some(ToPascalCase(titleCase, name.value))
  }

  /** `c` is the letter `lower` in either case. */
  predicate IsLetterIgnoreCase(c: char, lower: char) {
    ToLowerAscii(c) == lower
  }

  /** `name` ends in s, x, z, ch or sh, ignoring case. */
  predicate EndsWithSibilant(name: string) {
    && |name| > 0
    && var last := name[|name| - 1];
       || IsLetterIgnoreCase(last, 's')
       || IsLetterIgnoreCase(last, 'x')
       || IsLetterIgnoreCase(last, 'z')
       || (|name| > 1 && IsLetterIgnoreCase(last, 'h')
           && (IsLetterIgnoreCase(name[|name| - 2], 'c') || IsLetterIgnoreCase(name[|name| - 2], 's')))
  }

  /** `name` is longer than one character and ends in a y after a letter other than a vowel. */
  predicate EndsWithConsonantY(name: string) {
    && |name| > 1
    && IsLetterIgnoreCase(name[|name| - 1], 'y')
    && ToLowerAscii(name[|name| - 2]) !in "aeiou"
  }

  /**
   * `Pluralize`: the suffix heuristic. The sibilant rule is tried before the
   * y rule, so a name that already ends in s gets "es" once more.
   */
  function Pluralize(name: string): (r: string)
    ensures name == "" ==> r == ""
    ensures name != "" ==> |name| < |r| <= |name| + 2 && r[|r| - 1] == 's'
    ensures name != "" ==> name[..|name| - 1] == r[..|name| - 1]
  {
    if name == "" then name
    else if EndsWithSibilant(name) then name + "es"
    else if EndsWithConsonantY(name) then name[..|name| - 1] + "ies"
    else name + "s"
  }

  /** Pluralising a plural adds "es" again: the heuristic is not idempotent. */
  lemma {:induction false} PluralizeTwice(name: string)
    requires name != ""
    ensures Pluralize(Pluralize(name)) == Pluralize(name) + "es"
  {
    var p := Pluralize(name);
    assert p != "" && IsLetterIgnoreCase(p[|p| - 1], 's');
    assert EndsWithSibilant(p);
  }

  /** The documented examples, including the double suffix on a name already in the plural. */
  lemma PluralizeExamples()
    ensures Pluralize("Box") == "Boxes"
    ensures Pluralize("Category") == "Categories"
    ensures Pluralize("Products") == "Productses"
  {
    assert EndsWithSibilant("Box");
    assert !EndsWithSibilant("Category") && EndsWithConsonantY("Category");
    assert EndsWithSibilant("Products");
  }

  /** The C# type names a data-type token can map to. */
  const BaseTypeNames: set<string> :=
    {"int", "long", "string", "bool", "DateTime", "decimal", "double", "float", "Guid", "byte[]", "object"}

  /** The C# type for a data-type token, compared case-insensitively; unknown tokens give "object". */
  function BaseCSharpType(dataType: string): string {
    TypeOfLoweredToken(LowerAscii(dataType))
  }

  /** The switch on the lower-cased token. */
  function TypeOfLoweredToken(token: string): string {
    match token
    case "int" => "int"
    case "long" => "long"
    case "string" => "string"
    case "bool" => "bool"
    case "datetime" => "DateTime"
    case "decimal" => "decimal"
    case "double" => "double"
    case "float" => "float"
    case "guid" => "Guid"
    case "byte[]" => "byte[]"
    case _ => "object"
  }

  /** The lower-cased tokens the mapping knows. */
  const KnownTokens: set<string> :=
    {"int", "long", "string", "bool", "datetime", "decimal", "double", "float", "guid", "byte[]"}

  /** Every token maps to one of the listed type names; a token the switch does not know maps to "object". */
  lemma TypeOfLoweredTokenRange(token: string)
    ensures TypeOfLoweredToken(token) in BaseTypeNames
    ensures token !in KnownTokens ==> TypeOfLoweredToken(token) == "object"
    ensures token in KnownTokens ==> TypeOfLoweredToken(token) != "object"
    ensures var t := TypeOfLoweredToken(token); |t| > 0 && t[|t| - 1] != '?' && t[0] != 'v'
  {
  }

  /** Whether a nullable property of this C# type gets a "?" suffix. */
  predicate TakesNullableSuffix(baseType: string) {
    baseType != "string" && baseType != "byte[]"
  }

  /**
   * `GetCSharpDataType`: the mapped type, with "?" appended when the property
   * is nullable and the type is neither string nor byte[].
   */
  function GetCSharpDataType(dataType: string, isNullable: bool): string {
    var b := BaseCSharpType(dataType);
    if isNullable && TakesNullableSuffix(b) then b + "?" else b
  }

  /** Every mapped type is one of the listed names: non-empty, without a trailing "?", not starting with 'v'. */
  lemma BaseCSharpTypeRange(dataType: string)
    ensures var b := BaseCSharpType(dataType);
      && b in BaseTypeNames
      && |b| > 0 && b[|b| - 1] != '?' && b[0] != 'v'
      && (LowerAscii(dataType) !in KnownTokens ==> b == "object")
  {
    TypeOfLoweredTokenRange(LowerAscii(dataType));
  }

  /**
   * The result is the mapped type, followed by "?" exactly when the property is
   * nullable and the type is neither string nor byte[].
   */
  lemma GetCSharpDataTypeSpec(dataType: string, isNullable: bool)
    ensures var r := GetCSharpDataType(dataType, isNullable);
      var b := BaseCSharpType(dataType);
      && b in BaseTypeNames
      && StartsWith(r, b)
      && (r == b + "?" <==> isNullable && TakesNullableSuffix(b))
      && (r == b <==> !(isNullable && TakesNullableSuffix(b)))
      && (r[|r| - 1] == '?' <==> isNullable && TakesNullableSuffix(b))
  {
    BaseCSharpTypeRange(dataType);
  }

  /** A token the switch does not know gives "object", or "object?" for a nullable property. */
  lemma GetCSharpDataTypeUnknown(dataType: string, isNullable: bool)
    ensures LowerAscii(dataType) !in KnownTokens ==>
      GetCSharpDataType(dataType, isNullable) == if isNullable then "object?" else "object"
  {
    BaseCSharpTypeRange(dataType);
    assert "object" + "?" == "object?";
  }

  /** Every mapped type is a non-empty name that does not begin with 'v' (no type reads as `virtual`). */
  lemma GetCSharpDataTypeInitial(dataType: string, isNullable: bool)
    ensures |GetCSharpDataType(dataType, isNullable)| > 0
    ensures GetCSharpDataType(dataType, isNullable)[0] != 'v'
  {
    BaseCSharpTypeRange(dataType);
  }

  /** Under the culture-invariant lower-casing the model fixes, the type mapping ignores the case of the token. */
  lemma {:induction false} GetCSharpDataTypeIgnoresCase(a: string, b: string, isNullable: bool)
    requires LowerAscii(a) == LowerAscii(b)
    ensures GetCSharpDataType(a, isNullable) == GetCSharpDataType(b, isNullable)
  {
    assert BaseCSharpType(a) == TypeOfLoweredToken(LowerAscii(a));
  }
}
