/**
 * The parts of PHP's value and string semantics that the package relies on:
 * truthiness of strings (`?:`), `strpos`, integer-to-string conversion and
 * `var_export` for the values a command can return.
 */
module Php {
  import opened Wrappers

  /**
   * A PHP value as it reaches the package: a command's return value or an
   * argument/option value. Arrays, objects and floats are carried as the text
   * `var_export` renders for them. PHP integers are 64-bit; `Int` does not
   * bound them.
   */
  datatype Value = Null | Bool(b: bool) | Int(i: int) | Str(s: string) | Other(exported: string)

  /** The strings PHP treats as false: `''` and `'0'`. */
  predicate Falsy(s: string) {
    s == "" || s == "0"
  }

  /** `$m ?: ''` for a string-or-null `$m`. */
  function OrEmpty(m: Option<string>): string {
    match m
    case None => ""
    case Some(s) => if Falsy(s) then "" else s
  }

  lemma OrEmptyKeepsTruthy(m: Option<string>)
    ensures OrEmpty(m) == "" <==> m.None? || Falsy(m.value)
    ensures OrEmpty(m) != "" ==> m == Some(OrEmpty(m))
  {
  }

  // ---------------------------------------------------------------------
  // Integer to string, as PHP's string conversion and concatenation do it

  function Digit(d: nat): char
    requires d < 10
  {
    "0123456789"[d]
  }

  predicate IsDigits(s: string) {
    forall k :: 0 <= k < |s| ==> '0' <= s[k] <= '9'
  }

  /** The decimal text of `n`, without leading zeros. */
  function NatToString(n: nat): (s: string)
    ensures |s| >= 1 && IsDigits(s)
    ensures |s| > 1 ==> s[0] != '0'
  {
    if n < 10 then [Digit(n)] else NatToString(n / 10) + [Digit(n % 10)]
  }

  function IntToString(i: int): string {
    if i < 0 then "-" + NatToString(-i) else NatToString(i)
  }

  /** The value of a string of decimal digits (reads the text back). */
  function ParseNat(s: string): nat
    requires IsDigits(s)
  {
    if s == [] then 0 else ParseNat(s[..|s| - 1]) * 10 + ((s[|s| - 1] as int) - ('0' as int))
  }

  lemma {:induction false} ParseNatToString(n: nat)
    ensures ParseNat(NatToString(n)) == n
  {
    var s := NatToString(n);
    if n >= 10 {
      ParseNatToString(n / 10);
      assert s[..|s| - 1] == NatToString(n / 10);
      assert (s[|s| - 1] as int) - ('0' as int) == n % 10;
      assert ParseNat(s) == (n / 10) * 10 + n % 10;
    }
  }

  /** Only zero is rendered as the falsy string `'0'`, and no integer as `''`. */
  lemma IntToStringFalsy(i: int)
    ensures Falsy(IntToString(i)) <==> i == 0
  {
    if i >= 0 && IntToString(i) == "0" {
      ParseNatToString(i);
      assert ParseNat("0") == 0;
    }
  }

  // ---------------------------------------------------------------------
  // var_export($v, true)

  /** PHP's smallest integer, which `var_export` cannot write as one literal. */
  const PhpIntMin := -0x8000_0000_0000_0000

  /**
   * `var_export` of a value that is not a string (strings never reach it:
   * `stringFromMessage` passes them through). The smallest integer is written
   * as a subtraction, because its magnitude is not itself an integer.
   */
  function VarExport(v: Value): (s: string)
    requires !v.Str?
    ensures v.Int? && v.i != PhpIntMin ==> s == IntToString(v.i)
  {
    match v
    case Null => "NULL"
    case Bool(b) => if b then "true" else "false"
    case Int(i) => if i == PhpIntMin then "-9223372036854775807-1" else IntToString(i)
    case Other(e) => e
  }

  // ---------------------------------------------------------------------
  // strpos($haystack, $needle)

  predicate OccursAt(haystack: string, needle: string, j: int) {
    0 <= j && j + |needle| <= |haystack| && haystack[j..j + |needle|] == needle
  }

  ghost predicate Contains(haystack: string, needle: string) {
    exists j :: OccursAt(haystack, needle, j)
  }

  /** The first position at or after `from` where `needle` occurs. */
  function StrPosFrom(haystack: string, needle: string, from: nat): (r: Option<nat>)
    decreases |haystack| - from
    ensures r.Some? ==> from <= r.value && OccursAt(haystack, needle, r.value)
    ensures r.Some? ==> forall j :: from <= j < r.value ==> !OccursAt(haystack, needle, j)
    ensures r.None? ==> forall j :: from <= j ==> !OccursAt(haystack, needle, j)
  {
    if from + |needle| > |haystack| then None
    else if haystack[from..from + |needle|] == needle then Some(from)
    else StrPosFrom(haystack, needle, from + 1)
  }

  /** `strpos`: the first occurrence of `needle`, or `false` (here None). */
  function StrPos(haystack: string, needle: string): (r: Option<nat>)
    ensures r.None? <==> !Contains(haystack, needle)
    ensures r.Some? ==> OccursAt(haystack, needle, r.value)
    ensures r.Some? ==> forall j :: 0 <= j < r.value ==> !OccursAt(haystack, needle, j)
  {
    StrPosFrom(haystack, needle, 0)
  }
}
