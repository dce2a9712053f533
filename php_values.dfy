/** PHP values as the plugin sees them once a JSON document has been decoded
    with `json_decode(..., true)`, and the PHP built-ins the core applies to
    them (`isset`, `empty`, `is_array`, `is_numeric`, `intval`, `rtrim`,
    integer-to-string conversion). WordPress helpers the core calls but whose
    code is not part of this model are bundled in `WordPress` and passed in. */
module PhpValues {

  datatype Option<+T> = None | Some(value: T)

  /** A decoded JSON value. PHP has one array type; a JSON list decodes to a
      list-shaped array and a JSON object to a string-keyed one. */
  datatype Value =
    | Null
    | Bool(b: bool)
    | Int(i: int)
    | Str(s: string)
    | List(items: seq<Value>)
    | Obj(fields: map<string, Value>)

  /** A string-keyed PHP array: a product, a category, a variation. */
  type Doc = map<string, Value>

  /** WordPress and PHP functions whose code is outside this model:
      `sanitize_text_field`, `sanitize_title`, `sanitize_url`,
      `filter_var(..., FILTER_VALIDATE_URL)` and `base64_encode`. */
  datatype WordPress = WordPress(
    sanitizeTextField: Value -> string,
    sanitizeTitle: Value -> string,
    sanitizeUrl: Value -> string,
    isValidUrl: string -> bool,
    base64Encode: string -> string)

  /** `$doc[$key]`: reading an absent key yields null. */
  function Get(d: Doc, key: string): Value {
    if key in d then d[key] else Null
  }

  /** `isset($doc[$key])`: the key is present and not null. */
  predicate IsSet(d: Doc, key: string) {
    key in d && d[key] != Null
  }

  /** `isset($v[$key])` for any value: only a string-keyed array has such a key. */
  predicate HasKey(v: Value, key: string) {
    v.Obj? && IsSet(v.fields, key)
  }

  /** `is_array($v)`. */
  predicate IsArray(v: Value) {
    v.List? || v.Obj?
  }

  /** The values a `foreach` over `v` visits. Only list-shaped arrays are
      iterated; the order of a string-keyed array is not modelled. */
  function Elements(v: Value): seq<Value> {
    if v.List? then v.items else []
  }

  /** PHP `empty()` on a string: both "" and "0" are empty. */
  predicate EmptyString(s: string) {
    s == "" || s == "0"
  }

  /** PHP `empty()`. */
  predicate IsEmpty(v: Value) {
    match v
    case Null => true
    case Bool(b) => !b
    case Int(i) => i == 0
    case Str(s) => EmptyString(s)
    case List(items) => items == []
    case Obj(fields) => fields == map[]
  }

  predicate IsDigit(c: char) {
    '0' <= c <= '9'
  }

  /** The characters PHP skips around a numeric string. */
  predicate IsWhitespace(c: char) {
    c == ' ' || c == '\t' || c == '\n' || c == '\r' || c as int == 11 || c as int == 12
  }

  /** The number of whitespace characters at the start of `s`. */
  function LeadingWhitespace(s: string): (n: nat)
    ensures n <= |s|
    ensures forall i :: 0 <= i < n ==> IsWhitespace(s[i])
    ensures n == |s| || !IsWhitespace(s[n])
  {
    if s == [] || !IsWhitespace(s[0]) then 0 else 1 + LeadingWhitespace(s[1..])
  }

  /** The number of whitespace characters at the end of `s`. */
  function TrailingWhitespace(s: string): (n: nat)
    ensures n <= |s|
    ensures forall i :: |s| - n <= i < |s| ==> IsWhitespace(s[i])
    ensures n == |s| || !IsWhitespace(s[|s| - 1 - n])
  {
    if s == [] || !IsWhitespace(s[|s| - 1]) then 0 else 1 + TrailingWhitespace(s[..|s| - 1])
  }

  /** The end of the run of digits in `s` that starts at `i`. */
  function DigitRun(s: string, i: nat): (j: nat)
    requires i <= |s|
    ensures i <= j <= |s|
    ensures forall k :: i <= k < j ==> IsDigit(s[k])
    ensures j == |s| || !IsDigit(s[j])
    decreases |s| - i
  {
    if i == |s| || !IsDigit(s[i]) then i else DigitRun(s, i + 1)
  }

  /** The natural number a string of decimal digits denotes. */
  function DigitsValue(s: string): nat
    requires forall k :: 0 <= k < |s| ==> IsDigit(s[k])
  {
    if s == [] then 0
    else
      assert IsDigit(s[|s| - 1]);
      DigitsValue(s[..|s| - 1]) * 10 + ((s[|s| - 1] as int) - ('0' as int))
  }

  /** `intval($s)` for a string: optional leading whitespace, an optional sign
      and the longest run of digits that follows; 0 when there are none. */
  function StringToInt(s: string): int {
    var t := s[LeadingWhitespace(s)..];
    var start := if |t| > 0 && (t[0] == '-' || t[0] == '+') then 1 else 0;
    var end := DigitRun(t, start);
    var n: int := DigitsValue(t[start..end]);
    if |t| > 0 && t[0] == '-' then -n else n
  }

  /** `intval($v)`. */
  function IntVal(v: Value): int {
    match v
    case Null => 0
    case Bool(b) => if b then 1 else 0
    case Int(i) => i
    case Str(s) => StringToInt(s)
    case List(items) => if items == [] then 0 else 1
    case Obj(fields) => if fields == map[] then 0 else 1
  }

  /** An optional exponent `e[+-]digits` that ends the string, starting at `k`. */
  predicate ExponentTail(u: string, k: nat)
    requires k <= |u|
  {
    k == |u| ||
    ((u[k] == 'e' || u[k] == 'E') &&
     var m := if k + 1 < |u| && (u[k + 1] == '+' || u[k + 1] == '-') then k + 2 else k + 1;
     var e := DigitRun(u, m);
     e > m && e == |u|)
  }

  /** A decimal number without surrounding whitespace: sign, digits with an
      optional fraction (at least one digit in all), optional exponent. */
  predicate NumericBody(u: string) {
    var i := if |u| > 0 && (u[0] == '+' || u[0] == '-') then 1 else 0;
    var j := DigitRun(u, i);
    if j < |u| && u[j] == '.' then
      var k := DigitRun(u, j + 1);
      (j > i || k > j + 1) && ExponentTail(u, k)
    else
      j > i && ExponentTail(u, j)
  }

  /** `is_numeric($s)` for a string: surrounding whitespace is allowed. */
  predicate IsNumericString(s: string) {
    var t := s[LeadingWhitespace(s)..];
    NumericBody(t[..|t| - TrailingWhitespace(t)])
  }

  /** `is_numeric($v)`: integers and numeric strings (floats are not modelled). */
  predicate IsNumeric(v: Value) {
    match v
    case Int(_) => true
    case Str(s) => IsNumericString(s)
    case _ => false
  }

  /** The decimal digits of `n`, most significant first. */
  function NatToString(n: nat): (r: string)
    ensures |r| > 0
    ensures forall k :: 0 <= k < |r| ==> IsDigit(r[k])
  {
    var d := [(('0' as int) + n % 10) as char];
    if n < 10 then d else NatToString(n / 10) + d
  }

  /** PHP's conversion of an integer to a string, as in `"{$n} errors"`. */
  function IntToString(n: int): string {
    if n < 0 then "-" + NatToString(-n) else NatToString(n)
  }

  /** `rtrim($s, '/')`. */
  function TrimTrailingSlashes(s: string): (r: string)
    ensures |r| <= |s| && r == s[..|r|]
    ensures r == [] || r[|r| - 1] != '/'
    ensures forall k :: |r| <= k < |s| ==> s[k] == '/'
  {
    if s == [] || s[|s| - 1] != '/' then s else TrimTrailingSlashes(s[..|s| - 1])
  }

  /** One more trailing slash is trimmed away. */
  lemma TrimAppendSlash(s: string)
    ensures TrimTrailingSlashes(s + "/") == TrimTrailingSlashes(s)
  {
    assert (s + "/")[..|s|] == s;
  }

  /** A non-empty string of digits is numeric. */
  lemma {:induction false} DigitStringIsNumeric(s: string)
    requires |s| > 0 && forall k :: 0 <= k < |s| ==> IsDigit(s[k])
    ensures IsNumericString(s)
    ensures StringToInt(s) == DigitsValue(s)
  {
    assert LeadingWhitespace(s) == 0;
    assert s[0..] == s;
    assert TrailingWhitespace(s) == 0;
    assert s[..|s|] == s;
    AllDigitsRun(s, 0);
    assert s[0..|s|] == s;
  }

  /** Over a string of digits, the digit run reaches the end. */
  lemma {:induction false} AllDigitsRun(s: string, i: nat)
    requires i <= |s| && forall k :: i <= k < |s| ==> IsDigit(s[k])
    ensures DigitRun(s, i) == |s|
    decreases |s| - i
  {
    if i < |s| {
      AllDigitsRun(s, i + 1);
    }
  }

  /** `DigitsValue` inverts `NatToString`. */
  lemma {:induction false} DigitsValueOfNatToString(n: nat)
    ensures DigitsValue(NatToString(n)) == n
  {
    var d := [(('0' as int) + n % 10) as char];
    if n >= 10 {
      DigitsValueOfNatToString(n / 10);
      var r := NatToString(n / 10) + d;
      assert r[..|r| - 1] == NatToString(n / 10);
    }
  }

  /** `intval` reads back the string PHP writes for an integer. */
  lemma IntToStringRoundTrip(n: int)
    ensures StringToInt(IntToString(n)) == n
  {
    var m: nat := if n < 0 then -n else n;
    var digits := NatToString(m);
    DigitsValueOfNatToString(m);
    if n >= 0 {
      DigitStringIsNumeric(digits);
    } else {
      var s := "-" + digits;
      assert LeadingWhitespace(s) == 0;
      assert s[0..] == s;
      AllDigitsRun(s, 1);
      assert s[1..|s|] == digits;
    }
  }
}
