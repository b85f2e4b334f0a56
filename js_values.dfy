/** The JavaScript values the upload handler and the referral helpers work
    with: a sheet cell or a property holds a string or a number, and a missing
    property reads as `undefined`, written here as `None`. */
module JsValues {

  datatype Option<+T> = None | Some(value: T) {
    /** `x ?? d`, the default for an absent value. */
    function GetOr(d: T): T {
      if Some? then value else d
    }
  }

  /** A cell or property value. Numbers are integral in this model. */
  datatype Value = Str(s: string) | Num(n: int)

  /** JavaScript truthiness: `undefined`, `''` and `0` are falsy, everything else truthy. */
  predicate Truthy(v: Option<Value>) {
    match v
    case None => false
    case Some(Str(s)) => s != ""
    case Some(Num(n)) => n != 0
  }

  /** `a || b`: the left operand when it is truthy, otherwise the right one. */
  function Or(a: Option<Value>, b: Option<Value>): Option<Value> {
    if Truthy(a) then a else b
  }

  /** `x || null` for an optional field: the value when truthy, otherwise absent. */
  function OrNull(a: Option<Value>): (r: Option<Value>)
    ensures r.None? || Truthy(r)
    ensures Truthy(a) <==> r == a && r.Some?
  {
    if Truthy(a) then a else None
  }

  predicate IsDigit(c: char) { '0' <= c <= '9' }

  function DigitChar(d: nat): (c: char)
    requires d < 10
    ensures IsDigit(c) && c as int - '0' as int == d
  {
    ('0' as int + d) as char
  }

  /** The decimal text of a natural number, as `String(n)` writes it. */
  function NatToString(n: nat): (r: string)
    ensures |r| >= 1
    ensures forall k | 0 <= k < |r| :: IsDigit(r[k])
    ensures n < 10 <==> |r| == 1
    decreases n
  {
    if n < 10 then [DigitChar(n)] else NatToString(n / 10) + [DigitChar(n % 10)]
  }

  /** Reads back a string of decimal digits (the inverse of NatToString). */
  function DigitsValue(s: string): nat
    requires forall k | 0 <= k < |s| :: IsDigit(s[k])
  {
    if s == [] then 0
    else
      var last := s[|s| - 1];
      assert IsDigit(last);
      10 * DigitsValue(s[..|s| - 1]) + (last as int - '0' as int)
  }

  lemma {:induction false} NatToStringRoundTrip(n: nat)
    ensures DigitsValue(NatToString(n)) == n
    decreases n
  {
    if n >= 10 {
      var r := NatToString(n);
      assert r[..|r| - 1] == NatToString(n / 10);
      NatToStringRoundTrip(n / 10);
    }
  }

  /** `String(n)` for an integral number. */
  function IntToString(n: int): (r: string)
    ensures |r| >= 1
    ensures forall k | 0 <= k < |r| :: IsDigit(r[k]) || (k == 0 && r[k] == '-')
  {
    if n < 0 then "-" + NatToString(-n) else NatToString(n)
  }

  /** `String(v)` / `v.toString()` / a template-literal hole. */
  function ToStr(v: Value): string {
    match v
    case Str(s) => s
    case Num(n) => IntToString(n)
  }

  lemma TruthyToStrNonEmpty(v: Value)
    requires Truthy(Some(v))
    ensures ToStr(v) != ""
  {
  }

  predicate IsUpperLetter(c: char) { 'A' <= c <= 'Z' }
  predicate IsLowerLetter(c: char) { 'a' <= c <= 'z' }

  function LowerChar(c: char): (d: char)
    ensures !IsUpperLetter(d)
    ensures !IsUpperLetter(c) && !IsLowerLetter(c) ==> d == c
  {
    if IsUpperLetter(c) then (c as int + 32) as char else c
  }

  function UpperChar(c: char): (d: char)
    ensures !IsLowerLetter(d)
    ensures !IsUpperLetter(c) && !IsLowerLetter(c) ==> d == c
  {
    if IsLowerLetter(c) then (c as int - 32) as char else c
  }

  /** `s.toLowerCase()`, on the ASCII letters. */
  function Lower(s: string): string {
    if s == [] then [] else [LowerChar(s[0])] + Lower(s[1..])
  }

  /** Lower-casing maps every character on its own, leaving no upper-case letter. */
  lemma {:induction false} LowerAt(s: string)
    ensures |Lower(s)| == |s|
    ensures forall k | 0 <= k < |s| :: Lower(s)[k] == LowerChar(s[k]) && !IsUpperLetter(Lower(s)[k])
  {
    if s != [] {
      LowerAt(s[1..]);
      assert forall k | 1 <= k < |s| :: Lower(s)[k] == Lower(s[1..])[k - 1];
    }
  }

  /** `s.toUpperCase()`, on the ASCII letters. */
  function Upper(s: string): string {
    if s == [] then [] else [UpperChar(s[0])] + Upper(s[1..])
  }

  /** Upper-casing maps every character on its own, leaving no lower-case letter. */
  lemma {:induction false} UpperAt(s: string)
    ensures |Upper(s)| == |s|
    ensures forall k | 0 <= k < |s| :: Upper(s)[k] == UpperChar(s[k]) && !IsLowerLetter(Upper(s)[k])
  {
    if s != [] {
      UpperAt(s[1..]);
      assert forall k | 1 <= k < |s| :: Upper(s)[k] == Upper(s[1..])[k - 1];
    }
  }

  /** The characters JavaScript's `\s` and `String.prototype.trim` treat as
      white space: WhiteSpace and LineTerminator of the language standard. */
  predicate IsSpace(c: char) {
    var n := c as int;
    (9 <= n <= 13) || n == 32 || n == 0xA0 || n == 0x1680 || (0x2000 <= n <= 0x200A)
    || n == 0x2028 || n == 0x2029 || n == 0x202F || n == 0x205F || n == 0x3000 || n == 0xFEFF
  }

  /** `s.trimStart()` */
  function TrimStart(s: string): string {
    if s != [] && IsSpace(s[0]) then TrimStart(s[1..]) else s
  }

  /** `s.trimEnd()` */
  function TrimEnd(s: string): string {
    if s != [] && IsSpace(s[|s| - 1]) then TrimEnd(s[..|s| - 1]) else s
  }

  /** `s.trim()` */
  function Trim(s: string): string { TrimEnd(TrimStart(s)) }

  /** Trimming the start cuts a prefix of white space and stops at the first
      other character. */
  lemma {:induction false} TrimStartSpec(s: string)
    ensures var r, a := TrimStart(s), |s| - |TrimStart(s)|;
      && |r| <= |s|
      && (forall i | 0 <= i < |r| :: r[i] == s[a + i])
      && (forall k | 0 <= k < a :: IsSpace(s[k]))
      && (r != [] ==> !IsSpace(r[0]))
  {
    if s != [] && IsSpace(s[0]) {
      TrimStartSpec(s[1..]);
      var r := TrimStart(s);
      assert r == TrimStart(s[1..]);
      forall k | 1 <= k < |s| - |r| ensures IsSpace(s[k]) {
        assert s[k] == s[1..][k - 1];
      }
    }
  }

  /** Trimming the end cuts a suffix of white space and stops at the last
      other character. */
  lemma {:induction false} TrimEndSpec(s: string)
    ensures var r := TrimEnd(s);
      && |r| <= |s|
      && (forall i | 0 <= i < |r| :: r[i] == s[i])
      && (forall k | |r| <= k < |s| :: IsSpace(s[k]))
      && (r != [] ==> !IsSpace(r[|r| - 1]))
  {
    if s != [] && IsSpace(s[|s| - 1]) {
      var t := s[..|s| - 1];
      TrimEndSpec(t);
      assert TrimEnd(s) == TrimEnd(t);
      forall k | |TrimEnd(s)| <= k < |s| - 1 ensures IsSpace(s[k]) {
        assert s[k] == t[k];
      }
    }
  }

  /** `s.trim()` keeps the longest slice without white space at either end,
      everything it cuts away being white space. */
  lemma TrimSpec(s: string)
    ensures var r, a := Trim(s), |s| - |TrimStart(s)|;
      && 0 <= a && a + |r| <= |s|
      && (forall i | 0 <= i < |r| :: r[i] == s[a + i])
      && (forall k | 0 <= k < a :: IsSpace(s[k]))
      && (forall k | a + |r| <= k < |s| :: IsSpace(s[k]))
      && (r != [] ==> !IsSpace(r[0]) && !IsSpace(r[|r| - 1]))
  {
    var t := TrimStart(s);
    TrimStartSpec(s);
    TrimEndSpec(t);
    var a := |s| - |t|;
    forall k | a + |Trim(s)| <= k < |s| ensures IsSpace(s[k]) {
      assert s[k] == t[k - a];
    }
  }
}
