/** Hexadecimal text for the 24-byte time field: Python's `bytes.hex()`
    (lower-case, two digits per byte) and `bytes.fromhex()` (either case,
    ASCII whitespace allowed between byte pairs). */
module Hex {
  import opened Wrappers
  import opened Bytes

  /** The lower-case digit for a value below 16. */
  function HexDigit(n: nat): (c: char)
    requires n < 16
    ensures IsLowerHexDigit(c)
  {
    if n < 10 then ('0' as int + n) as char else ('a' as int + n - 10) as char
  }

  predicate IsLowerHexDigit(c: char) {
    '0' <= c <= '9' || 'a' <= c <= 'f'
  }

  /** Lower-case spelling of a digit; other characters are unchanged. */
  function Lower(c: char): char {
    if 'A' <= c <= 'F' then (c as int - 'A' as int + 'a' as int) as char else c
  }

  /** The value of a hexadecimal digit of either case, or None. */
  function HexValue(c: char): (r: Option<nat>)
    ensures r.Some? ==> r.value < 16
  {
    if '0' <= c <= '9' then Some(c as int - '0' as int)
    else if 'a' <= c <= 'f' then Some(c as int - 'a' as int + 10)
    else if 'A' <= c <= 'F' then Some(c as int - 'A' as int + 10)
    else None
  }

  /** The characters CPython's `Py_ISSPACE` accepts. */
  predicate IsSpace(c: char) {
    c == ' ' || c == '\t' || c == '\n' || c == '\r' || c as int == 0x0B || c as int == 0x0C
  }

  /** `bytes.hex()`. */
  function ToHex(b: Bytes): (s: string)
    ensures |s| == 2 * |b|
    ensures forall i :: 0 <= i < |s| ==> IsLowerHexDigit(s[i])
  {
    if |b| == 0 then ""
    else [HexDigit(b[0] / 16), HexDigit(b[0] % 16)] + ToHex(b[1..])
  }

  /** `bytes.fromhex()`: whitespace is skipped before each byte pair; a
      non-digit, a dangling digit or whitespace inside a pair is an error
      (None here, `ValueError` in Python). */
  function FromHex(s: string): (r: Option<Bytes>)
    ensures r.Some? ==> 2 * |r.value| <= |s|
  {
    if |s| == 0 then Some([])
    else if IsSpace(s[0]) then FromHex(s[1..])
    else if |s| < 2 then None
    else
      var top := HexValue(s[0]);
      var bot := HexValue(s[1]);
      if top.None? || bot.None? then None
      else
        match FromHex(s[2..])
        case None => None
        case Some(rest) => Some([16 * top.value + bot.value] + rest)
  }

  /** The text `bytes.hex()` would produce for what `fromhex` accepts:
      whitespace dropped, upper-case digits lowered. */
  function Canonical(s: string): string {
    if |s| == 0 then ""
    else if IsSpace(s[0]) then Canonical(s[1..])
    else [Lower(s[0])] + Canonical(s[1..])
  }

  lemma HexDigitValue(n: nat)
    requires n < 16
    ensures HexValue(HexDigit(n)) == Some(n)
  {
  }

  lemma HexValueDigit(c: char)
    requires HexValue(c).Some?
    ensures HexDigit(HexValue(c).value) == Lower(c)
  {
  }

  /** `fromhex` inverts `hex`: the dumped time field parses back unchanged. */
  lemma {:induction false} FromHexToHex(b: Bytes)
    ensures FromHex(ToHex(b)) == Some(b)
  {
    if |b| > 0 {
      var s := ToHex(b);
      HexDigitValue(b[0] / 16);
      HexDigitValue(b[0] % 16);
      assert s[0] == HexDigit(b[0] / 16) && s[1] == HexDigit(b[0] % 16);
      assert !IsSpace(s[0]);
      assert s[2..] == ToHex(b[1..]);
      FromHexToHex(b[1..]);
      assert 16 * (b[0] / 16) + b[0] % 16 == b[0];
      assert [b[0]] + b[1..] == b;
    }
  }

  /** Conversely, whatever `fromhex` accepts is the canonical spelling of
      its result. */
  lemma {:induction false} ToHexFromHex(s: string)
    requires FromHex(s).Some?
    ensures ToHex(FromHex(s).value) == Canonical(s)
  {
    if |s| > 0 {
      if IsSpace(s[0]) {
        ToHexFromHex(s[1..]);
      } else {
        var r := FromHex(s).value;
        var top := HexValue(s[0]).value;
        var bot := HexValue(s[1]).value;
        ToHexFromHex(s[2..]);
        assert r[0] == 16 * top + bot;
        assert r[0] / 16 == top && r[0] % 16 == bot;
        assert r[1..] == FromHex(s[2..]).value;
        HexValueDigit(s[0]);
        HexValueDigit(s[1]);
        assert !IsSpace(s[1]);
        assert s[1..][1..] == s[2..];
        assert Canonical(s[1..]) == [Lower(s[1])] + Canonical(s[2..]);
      }
    }
  }
}
