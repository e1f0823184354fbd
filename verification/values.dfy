/** Shared vocabulary for the model: optional and failing results, the
    JSON-like values stored in the browser's key-value storage, JavaScript
    truthiness, and the handful of string operations the application uses
    (`includes`, `startsWith`, ASCII lower-casing, decimal rendering). */
module Values {

  /** A present or absent value; `None` plays JavaScript's `undefined`/`null`. */
  datatype Option<+T> = None | Some(value: T)

  /** A successful value or a failure value. */
  datatype Result<+R, +E> = Success(value: R) | Failure(error: E)

  /** A scalar field value of a persisted record. */
  datatype Value = Null | Bool(b: bool) | Num(n: int) | Str(s: string)

  /** A persisted record: field name to value; an absent key reads as `undefined`. */
  type Fields = map<string, Value>

  /** `record.key`: the value of the field, or None when the key is absent. */
  function Get(f: Fields, k: string): (r: Option<Value>)
    ensures r.Some? <==> k in f
    ensures r.Some? ==> r.value == f[k]
  {
    if k in f then Some(f[k]) else None
  }

  /** `record.key = v`; assigning `undefined` drops the key once persisted. */
  function Put(f: Fields, k: string, v: Option<Value>): (r: Fields)
    ensures Get(r, k) == v
    ensures forall j :: j != k ==> Get(r, j) == Get(f, j)
  {
    match v
    case None => f - {k}
    case Some(x) => f[k := x]
  }

  /** JavaScript truthiness of a possibly undefined value. */
  predicate Truthy(v: Option<Value>)
  {
    match v
    case None => false
    case Some(x) =>
      match x
      case Null => false
      case Bool(b) => b
      case Num(n) => n != 0
      case Str(s) => s != ""
  }

  /** `a || b` in JavaScript. */
  function Or(a: Option<Value>, b: Option<Value>): (r: Option<Value>)
    ensures Truthy(a) ==> r == a
    ensures !Truthy(a) ==> r == b
  {
    if Truthy(a) then a else b
  }

  /** `v || d` for a default d that is itself present. */
  function OrElse(v: Option<Value>, d: Value): (r: Value)
    ensures Truthy(v) ==> Some(r) == v
    ensures !Truthy(v) ==> r == d
  {
    if Truthy(v) then v.value else d
  }

  /** The text of a field when it holds a string, as in `r.key && r.key.includes(…)`. */
  function Text(v: Option<Value>): (r: Option<string>)
    ensures r.Some? <==> v.Some? && v.value.Str?
    ensures r.Some? ==> v == Some(Str(r.value))
  {
    if v.Some? && v.value.Str? then Some(v.value.s) else None
  }

  /** `s.startsWith(p)`. */
  predicate IsPrefix(p: string, s: string)
  {
    |p| <= |s| && s[..|p|] == p
  }

  /** `s.includes(t)`: t occurs as a contiguous block of s. */
  predicate Includes(s: string, t: string)
    decreases |s|
  {
    IsPrefix(t, s) || (|s| > 0 && Includes(s[1..], t))
  }

  /** Every string includes itself, so an exact match is always a substring match. */
  lemma IncludesSelf(s: string)
    ensures Includes(s, s)
  {
  }

  /** Lower-casing of the ASCII capitals; other characters are kept. */
  function LowerChar(c: char): (r: char)
    ensures 'A' <= c <= 'Z' ==> 'a' <= r <= 'z' && r as int - c as int == 32
    ensures !('A' <= c <= 'Z') ==> r == c
  {
    if 'A' <= c <= 'Z' then (c as int + 32) as char else c
  }

  /** `toLowerCase` restricted to ASCII letters (Arabic script has no case). */
  function ToLower(s: string): (r: string)
    ensures |r| == |s|
    ensures forall i :: 0 <= i < |s| ==> r[i] == LowerChar(s[i])
  {
    if s == [] then [] else [LowerChar(s[0])] + ToLower(s[1..])
  }

  /** JavaScript's string comparison `a <= b`: lexicographic by code unit. */
  predicate LexLe(a: string, b: string)
    decreases |a|
  {
    a == [] || (b != [] && (a[0] < b[0] || (a[0] == b[0] && LexLe(a[1..], b[1..]))))
  }

  /** The decimal digit character for 0..9. */
  function DigitChar(d: int): (c: char)
    requires 0 <= d <= 9
    ensures '0' <= c <= '9'
    ensures c as int - '0' as int == d
  {
    ('0' as int + d) as char
  }

  /** Decimal rendering of a natural number without leading zeros (`String(n)`). */
  function NatToString(n: nat): (r: string)
    ensures |r| >= 1
    ensures forall i :: 0 <= i < |r| ==> '0' <= r[i] <= '9'
    ensures r[0] == '0' ==> n == 0
    decreases n
  {
    if n < 10 then [DigitChar(n)] else NatToString(n / 10) + [DigitChar(n % 10)]
  }

  /** Decimal rendering of an integer, with a leading '-' when negative. */
  function IntToString(n: int): (r: string)
    ensures n >= 0 ==> r == NatToString(n)
    ensures n < 0 ==> r == "-" + NatToString(-n)
  {
    if n < 0 then "-" + NatToString(-n) else NatToString(n)
  }

  /** `String(v)`: how a value becomes an object key or a template-literal part. */
  function ValueToString(v: Value): string
  {
    match v
    case Null => "null"
    case Bool(b) => if b then "true" else "false"
    case Num(n) => IntToString(n)
    case Str(s) => s
  }

  /** `String(v)` for a property read: how the value becomes an object key or a
      template-literal part (an absent property reads "undefined"). */
  function KeyOf(v: Option<Value>): string
  {
    match v
    case None => "undefined"
    case Some(x) => ValueToString(x)
  }

  /** The number of decimal digits of n. */
  function DigitCount(n: nat): nat
    decreases n
  {
    if n < 10 then 1 else 1 + DigitCount(n / 10)
  }

  lemma {:induction false} NatToStringLength(n: nat)
    ensures |NatToString(n)| == DigitCount(n)
    decreases n
  {
    if n >= 10 {
      NatToStringLength(n / 10);
    }
  }

  /** The numeric value of a string of decimal digits (leading zeros allowed). */
  function DigitsValue(s: string): nat
    requires forall i :: 0 <= i < |s| ==> '0' <= s[i] <= '9'
    decreases |s|
  {
    if s == [] then 0
    else DigitsValue(s[..|s| - 1]) * 10 + (s[|s| - 1] as int - '0' as int)
  }

  /** Reading back a rendered number yields the number. */
  lemma {:induction false} DigitsValueOfNatToString(n: nat)
    ensures DigitsValue(NatToString(n)) == n
    decreases n
  {
    if n >= 10 {
      var s := NatToString(n);
      DigitsValueOfNatToString(n / 10);
      assert s[..|s| - 1] == NatToString(n / 10);
    }
  }

  /** k copies of the character c. */
  function Repeat(c: char, k: nat): (r: string)
    ensures |r| == k
    ensures forall i :: 0 <= i < k ==> r[i] == c
  {
    if k == 0 then [] else [c] + Repeat(c, k - 1)
  }

  /** `s.padStart(width, c)`. */
  function PadStart(s: string, width: nat, c: char): (r: string)
    ensures |s| >= width ==> r == s
    ensures |s| < width ==> |r| == width
    ensures r[|r| - |s|..] == s
    ensures forall i :: 0 <= i < |r| - |s| ==> r[i] == c
  {
    if |s| >= width then s else Repeat(c, width - |s|) + s
  }

  /** Leading zeros do not change a digit string's value. */
  lemma {:induction false} DigitsValueLeadingZero(s: string)
    requires forall i :: 0 <= i < |s| ==> '0' <= s[i] <= '9'
    ensures DigitsValue("0" + s) == DigitsValue(s)
    decreases |s|
  {
    if s != [] {
      var t := "0" + s;
      assert t[..|t| - 1] == "0" + s[..|s| - 1];
      DigitsValueLeadingZero(s[..|s| - 1]);
    }
  }

  lemma {:induction false} DigitsValueZeros(k: nat, s: string)
    requires forall i :: 0 <= i < |s| ==> '0' <= s[i] <= '9'
    ensures forall i :: 0 <= i < k + |s| ==> '0' <= (Repeat('0', k) + s)[i] <= '9'
    ensures DigitsValue(Repeat('0', k) + s) == DigitsValue(s)
    decreases k
  {
    if k > 0 {
      DigitsValueZeros(k - 1, s);
      var rest := Repeat('0', k - 1) + s;
      assert Repeat('0', k) + s == "0" + rest;
      DigitsValueLeadingZero(rest);
    } else {
      assert Repeat('0', k) + s == s;
    }
  }

  /** Reading back a zero-padded rendering yields the number. */
  lemma DigitsValueOfPadded(n: nat, width: nat)
    ensures forall i :: 0 <= i < |PadStart(NatToString(n), width, '0')| ==>
              '0' <= PadStart(NatToString(n), width, '0')[i] <= '9'
    ensures DigitsValue(PadStart(NatToString(n), width, '0')) == n
  {
    var s := NatToString(n);
    DigitsValueOfNatToString(n);
    if |s| < width {
      DigitsValueZeros(width - |s|, s);
    }
  }
}
