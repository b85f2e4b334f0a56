/** The referral code of src/utils/referralUtils.js, lines 4-7: six random
    bytes written as hexadecimal and upper-cased. The bytes are an input;
    drawing them is the random source's business. */
module ReferralCode {
  import opened JsValues

  type Byte = b: int | 0 <= b < 256

  /** A digit of `Buffer.toString('hex')`: `0-9`, then `a-f`. */
  function HexDigit(d: int): char
    requires 0 <= d < 16
  {
    if d < 10 then ('0' as int + d) as char else ('a' as int + d - 10) as char
  }

  /** `Buffer.toString('hex')`: two digits per byte, high nibble first. */
  function Hex(bytes: seq<Byte>): string {
    if bytes == [] then [] else [HexDigit(bytes[0] / 16), HexDigit(bytes[0] % 16)] + Hex(bytes[1..])
  }

  /** Line 6 for the bytes `crypto.randomBytes(6)` returned. */
  function GenerateReferralCode(bytes: seq<Byte>): string {
    Upper(Hex(bytes))
  }

  /** A character of an upper-case hex code. */
  predicate IsCodeChar(c: char) {
    '0' <= c <= '9' || 'A' <= c <= 'F'
  }

  /** Reads an upper-case hex digit back. */
  function CodeCharValue(c: char): int
    requires IsCodeChar(c)
  {
    if c <= '9' then c as int - '0' as int else c as int - 'A' as int + 10
  }

  /** Reads a code back into bytes, two characters per byte. */
  function Decode(code: string): seq<int>
    requires |code| % 2 == 0 && forall k | 0 <= k < |code| :: IsCodeChar(code[k])
  {
    if code == [] then []
    else
      assert IsCodeChar(code[0]) && IsCodeChar(code[1]);
      assert forall k | 0 <= k < |code| - 2 :: code[2..][k] == code[k + 2];
      [16 * CodeCharValue(code[0]) + CodeCharValue(code[1])] + Decode(code[2..])
  }

  /** The upper-cased hex digit of a nibble, and its value back. */
  lemma UpperDigit(d: int)
    requires 0 <= d < 16
    ensures IsCodeChar(UpperChar(HexDigit(d))) && CodeCharValue(UpperChar(HexDigit(d))) == d
  {
  }

  /** The code has two characters per byte, each of `0-9A-F`: twelve for
      the six bytes of line 6. */
  lemma {:induction false} CodeShape(bytes: seq<Byte>)
    ensures var code := GenerateReferralCode(bytes);
      && |code| == 2 * |bytes|
      && (forall k | 0 <= k < |code| :: IsCodeChar(code[k]))
  {
    var h := Hex(bytes);
    HexShape(bytes);
    UpperAt(h);
    forall k | 0 <= k < |h| ensures IsCodeChar(UpperChar(h[k])) {
      UpperDigit(HexNibble(bytes, k));
    }
  }

  /** The nibble the `k`-th hex digit writes. */
  function HexNibble(bytes: seq<Byte>, k: nat): int
    requires k < 2 * |bytes|
  {
    if k % 2 == 0 then bytes[k / 2] / 16 else bytes[k / 2] % 16
  }

  lemma {:induction false} HexShape(bytes: seq<Byte>)
    ensures |Hex(bytes)| == 2 * |bytes|
    ensures forall k | 0 <= k < 2 * |bytes| :: 0 <= HexNibble(bytes, k) < 16 && Hex(bytes)[k] == HexDigit(HexNibble(bytes, k))
  {
    if bytes != [] {
      var rest := bytes[1..];
      HexShape(rest);
      forall k | 2 <= k < 2 * |bytes|
        ensures Hex(bytes)[k] == HexDigit(HexNibble(bytes, k))
      {
        assert Hex(bytes)[k] == Hex(rest)[k - 2];
        assert HexNibble(bytes, k) == HexNibble(rest, k - 2);
      }
    }
  }

  /** The code determines the bytes: reading it back gives them again. */
  lemma {:induction false} CodeRoundTrip(bytes: seq<Byte>)
    ensures var code := GenerateReferralCode(bytes);
      |code| % 2 == 0 && (forall k | 0 <= k < |code| :: IsCodeChar(code[k])) && Decode(code) == bytes
  {
    CodeShape(bytes);
    if bytes != [] {
      var rest := bytes[1..];
      CodeRoundTrip(rest);
      var d0, d1 := HexDigit(bytes[0] / 16), HexDigit(bytes[0] % 16);
      var h := Hex(bytes);
      assert h[1..] == [d1] + Hex(rest) && h[1..][1..] == Hex(rest);
      assert h == [d0, d1] + Hex(rest);
      assert Upper(h) == [UpperChar(d0)] + Upper(h[1..]);
      assert Upper(h[1..]) == [UpperChar(d1)] + Upper(Hex(rest));
      var code := GenerateReferralCode(bytes);
      assert code[2..] == GenerateReferralCode(rest);
      UpperDigit(bytes[0] / 16);
      UpperDigit(bytes[0] % 16);
    }
  }

  /** Validation upper-cases what the user types, so a code typed in lower
      case is still found: upper-casing its lower-case form gives it back. */
  lemma {:induction false} CodeCaseInsensitive(bytes: seq<Byte>)
    ensures Upper(Lower(GenerateReferralCode(bytes))) == GenerateReferralCode(bytes)
  {
    var code := GenerateReferralCode(bytes);
    CodeShape(bytes);
    LowerAt(code);
    UpperAt(Lower(code));
    assert forall k | 0 <= k < |code| :: Upper(Lower(code))[k] == code[k];
  }
}
