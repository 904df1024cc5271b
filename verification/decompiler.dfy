/** The text clean-up of the Lua decompiler wrapper
    (`script/decompiler.py`): `decode_decimal_escapes`, which turns the
    decompiler's `\ddd` decimal escapes back into raw bytes, and the
    newline normalisation applied to the result. Decoding the bytes with
    the target text encoding is not modelled: the escape decoder returns
    the byte buffer. */
module Decompiler {
  import opened Wrappers
  import opened Bytes

  const BACKSLASH: byte := 0x5C
  /** What Latin-1 encoding with errors="replace" writes for a character
      outside Latin-1. */
  const QUESTION: byte := 0x3F
  const MAX_DIGITS: nat := 3

  /** `str.isdigit`, restricted to the ASCII digits. */
  predicate IsDigit(c: char) {
    '0' <= c <= '9'
  }

  /** `ch.encode("latin-1", errors="replace")`: one byte per character. */
  function Latin1(c: char): (b: byte)
    ensures c as int < 256 ==> b == c as int
    ensures c as int >= 256 ==> b == QUESTION
  {
    if c as int < 256 then c as int else QUESTION
  }

  /** How many digits the escape at `j` consumes: the run of digits from
      `j`, cut off at three. */
  function DigitCount(s: string, j: nat, n: nat): (k: nat)
    requires j <= |s| && n <= MAX_DIGITS
    ensures k <= MAX_DIGITS - n && j + k <= |s|
    decreases MAX_DIGITS - n
  {
    if n == MAX_DIGITS || j == |s| || !IsDigit(s[j]) then 0
    else 1 + DigitCount(s, j + 1, n + 1)
  }

  /** The characters counted are digits, and the run stops at a non-digit
      unless the end of the text or the third digit comes first. */
  lemma {:induction false} DigitCountSpec(s: string, j: nat, n: nat)
    requires j <= |s| && n <= MAX_DIGITS
    ensures var k := DigitCount(s, j, n);
            && (forall t :: j <= t < j + k ==> IsDigit(s[t]))
            && (n + k < MAX_DIGITS && j + k < |s| ==> !IsDigit(s[j + k]))
    decreases MAX_DIGITS - n
  {
    if !(n == MAX_DIGITS || j == |s| || !IsDigit(s[j])) {
      DigitCountSpec(s, j + 1, n + 1);
    }
  }

  /** The value of an ASCII digit; other characters never reach it. */
  function DigitValue(c: char): (v: nat)
    ensures v < 10
  {
    if IsDigit(c) then c as int - '0' as int else 0
  }

  function Digit(v: nat): (c: char)
    requires v < 10
    ensures IsDigit(c) && DigitValue(c) == v
  {
    ('0' as int + v) as char
  }

  /** `int(digits)` for a string of ASCII digits. */
  function DecimalValue(ds: string): nat {
    if |ds| == 0 then 0
    else 10 * DecimalValue(ds[..|ds| - 1]) + DigitValue(ds[|ds| - 1])
  }

  /** The two-character escapes kept in their literal two-byte form. */
  predicate KeptEscape(c: char) {
    c == 'n' || c == 'r' || c == 't' || c == '\\'
  }

  /** What one step of the decoder reads: the bytes it appends and how
      many characters it consumes. */
  datatype Token = Token(out: Bytes, used: nat)

  /** One step of `decode_decimal_escapes` at the start of the text `u`
      still to be read. A backslash with a character after it starts an
      escape: up to three digits give one byte (an error above 255), and
      \n, \r, \t and \\ are kept as their two bytes. Every other character,
      a lone trailing backslash included, is one Latin-1 byte. */
  function Scan(u: string): (r: Result<Token>)
    requires |u| > 0
    ensures r.Failure? ==> r.error == ByteOutOfRange
    ensures r.Success? ==> 0 < r.value.used <= |u| && |r.value.out| <= r.value.used
  {
    if u[0] == '\\' && 1 < |u| then
      var n := DigitCount(u, 1, 0);
      if n > 0 then
        var v := DecimalValue(u[1..1 + n]);
        if v > 255 then Failure(ByteOutOfRange)
        else Success(Token([v as byte], 1 + n))
      else if KeptEscape(u[1]) then
        Success(Token([BACKSLASH, Latin1(u[1])], 2))
      else
        Success(Token([Latin1(u[0])], 1))
    else
      Success(Token([Latin1(u[0])], 1))
  }

  /** `decode_decimal_escapes`, the reference definition: the steps' bytes
      in order, or the first step's error. */
  function Decode(u: string): (r: Result<Bytes>)
    ensures r.Failure? ==> r.error == ByteOutOfRange
    ensures r.Success? ==> |r.value| <= |u|
    decreases |u|
  {
    if |u| == 0 then Success([])
    else
      var tok :- Scan(u);
      var rest :- Decode(u[tok.used..]);
      Success(tok.out + rest)
  }

  /** Bytes in front of a decoding outcome. */
  function Prefixed(out: Bytes, r: Result<Bytes>): Result<Bytes> {
    match r
    case Failure(err) => Failure(err)
    case Success(more) => Success(out + more)
  }

  /** `decode_decimal_escapes` as the source writes it: an index loop over
      the text that stops at the first byte out of range. */
  method DecodeDecimalEscapes(s: string) returns (r: Result<Bytes>)
    ensures r == Decode(s)
  {
    var buf: Bytes := [];
    var i := 0;
    assert s[i..] == s;
    PrefixedNil(Decode(s));
    while i < |s|
      invariant 0 <= i <= |s|
      invariant Decode(s) == Prefixed(buf, Decode(s[i..]))
      decreases |s| - i
    {
      var step := ScanAt(s, i);
      if step.Failure? {
        DecodeFailsAt(s, i);
        return Failure(step.error);
      }
      var tok := step.value;
      DecodeAt(s, i, tok);
      PrefixedStep(buf, tok.out, Decode(s[i + tok.used..]));
      buf := buf + tok.out;
      i := i + tok.used;
    }
    assert s[i..] == [] && buf + [] == buf;
    return Success(buf);
  }

  /** The body of the source's loop at index i, with its inner loop
      collecting at most three digits. */
  method ScanAt(s: string, i: nat) returns (r: Result<Token>)
    requires i < |s|
    ensures r == Scan(s[i..])
  {
    var u := s[i..];
    var ch := u[0];
    if ch == '\\' && 1 < |u| {
      var j := 1;
      var digits := 0;
      while j < |u| && digits < MAX_DIGITS && IsDigit(u[j])
        invariant 1 <= j <= |u| && digits == j - 1 <= MAX_DIGITS
        invariant DigitCount(u, 1, 0) == digits + DigitCount(u, j, digits)
        decreases MAX_DIGITS - digits
      {
        j := j + 1;
        digits := digits + 1;
      }
      if digits > 0 {
        var v := DecimalValue(u[1..j]);
        if v > 255 {
          return Failure(ByteOutOfRange);
        }
        return Success(Token([v as byte], j));
      }
      var nxt := u[1];
      if KeptEscape(nxt) {
        return Success(Token([BACKSLASH, Latin1(nxt)], 2));
      }
    }
    return Success(Token([Latin1(ch)], 1));
  }

  /** One step of the reference decoder at index i of the text. */
  lemma DecodeAt(s: string, i: nat, tok: Token)
    requires i < |s| && Scan(s[i..]) == Success(tok)
    ensures i + tok.used <= |s|
    ensures Decode(s[i..]) == Prefixed(tok.out, Decode(s[i + tok.used..]))
  {
    assert s[i..][tok.used..] == s[i + tok.used..];
  }

  lemma DecodeFailsAt(s: string, i: nat)
    requires i < |s| && Scan(s[i..]).Failure?
    ensures Decode(s[i..]) == Failure(ByteOutOfRange)
  {
  }

  lemma PrefixedNil(r: Result<Bytes>)
    ensures Prefixed([], r) == r
  {
    if r.Success? {
      assert [] + r.value == r.value;
    }
  }

  lemma PrefixedStep(buf: Bytes, out: Bytes, r: Result<Bytes>)
    ensures Prefixed(buf, Prefixed(out, r)) == Prefixed(buf + out, r)
  {
    if r.Success? {
      assert buf + (out + r.value) == buf + out + r.value;
    }
  }

  /** A run of k digits that ends where the escape must end is consumed
      whole. */
  lemma {:induction false} DigitRun(s: string, j: nat, n: nat, k: nat)
    requires j + k <= |s| && n + k <= MAX_DIGITS
    requires forall t :: j <= t < j + k ==> IsDigit(s[t])
    requires n + k == MAX_DIGITS || j + k == |s| || !IsDigit(s[j + k])
    ensures DigitCount(s, j, n) == k
    decreases k
  {
    if k > 0 {
      DigitRun(s, j + 1, n + 1, k - 1);
    }
  }

  /** A backslash and one to three digits, not followed by a further digit
      unless three were read, decode to the byte they spell, or fail when
      that number is above 255. */
  lemma DecimalEscape(ds: string, rest: string)
    requires 1 <= |ds| <= MAX_DIGITS
    requires forall t :: 0 <= t < |ds| ==> IsDigit(ds[t])
    requires |ds| < MAX_DIGITS && |rest| > 0 ==> !IsDigit(rest[0])
    ensures DecimalValue(ds) > 255 ==>
              Decode(['\\'] + ds + rest) == Failure(ByteOutOfRange)
    ensures DecimalValue(ds) <= 255 ==>
              Decode(['\\'] + ds + rest) == Prefixed([DecimalValue(ds) as byte], Decode(rest))
  {
    var s := ['\\'] + ds + rest;
    assert s[1..1 + |ds|] == ds;
    DigitRun(s, 1, 0, |ds|);
    assert s[1 + |ds|..] == rest;
  }

  /** \n, \r, \t and \\ come out as their own two bytes. */
  lemma KeptEscapeDecodes(c: char, rest: string)
    requires KeptEscape(c)
    ensures Decode(['\\', c] + rest) == Prefixed([BACKSLASH, c as int as byte], Decode(rest))
  {
    assert (['\\', c] + rest)[2..] == rest;
  }

  /** A backslash that ends the text, or stands before a character that
      starts no escape, is one byte 0x5C; the character after it is read
      on its own. */
  lemma LoneBackslash(rest: string)
    requires |rest| > 0 ==> !IsDigit(rest[0]) && !KeptEscape(rest[0])
    ensures Decode(['\\'] + rest) == Prefixed([BACKSLASH], Decode(rest))
  {
    assert (['\\'] + rest)[1..] == rest;
  }

  /** Text without a backslash. */
  predicate Plain(s: string) {
    forall k :: 0 <= k < |s| ==> s[k] != '\\'
  }

  /** Each character's Latin-1 byte, in order. */
  function Latin1All(s: string): (bs: Bytes)
    ensures |bs| == |s|
    ensures forall k :: 0 <= k < |s| ==> bs[k] == Latin1(s[k])
  {
    if |s| == 0 then [] else [Latin1(s[0])] + Latin1All(s[1..])
  }

  /** Text without a backslash decodes character by character. */
  lemma {:induction false} PlainText(s: string)
    requires Plain(s)
    ensures Decode(s) == Success(Latin1All(s))
    decreases |s|
  {
    if |s| > 0 {
      assert Plain(s[1..]);
      PlainText(s[1..]);
    }
  }

  /** The `\ddd` form with exactly three digits, as the decompiler writes a
      byte it cannot print. */
  function EscapeByte(b: byte): (t: string)
    ensures |t| == 4 && t[0] == '\\'
    ensures forall k :: 1 <= k < 4 ==> IsDigit(t[k])
  {
    ['\\', Digit(b as nat / 100), Digit(b as nat / 10 % 10), Digit(b as nat % 10)]
  }

  function Escape(bs: Bytes): (t: string)
    ensures |t| == 4 * |bs|
  {
    if |bs| == 0 then [] else EscapeByte(bs[0]) + Escape(bs[1..])
  }

  /** Escaping every byte and decoding gives the bytes back. */
  lemma {:induction false} EscapeRoundTrip(bs: Bytes)
    ensures Decode(Escape(bs)) == Success(bs)
    decreases |bs|
  {
    if |bs| > 0 {
      var b := bs[0];
      var t := EscapeByte(b);
      var ds := t[1..];
      assert t == ['\\'] + ds;
      EscapeDigits(b, ds);
      EscapeRoundTrip(bs[1..]);
      DecimalEscape(ds, Escape(bs[1..]));
      assert [b] + bs[1..] == bs;
    }
  }

  lemma EscapeDigits(b: byte, ds: string)
    requires ds == EscapeByte(b)[1..]
    ensures forall t :: 0 <= t < |ds| ==> IsDigit(ds[t])
    ensures DecimalValue(ds) == b as nat
  {
    var v := b as nat;
    assert ds[..2][..1] == ds[..1];
    assert DecimalValue(ds[..1]) == v / 100;
    assert DecimalValue(ds[..2]) == 10 * (v / 100) + v / 10 % 10;
    ThreeDigits(v);
  }

  /** A number below 1000 is rebuilt from its three decimal digits. */
  lemma ThreeDigits(v: nat)
    requires v < 1000
    ensures 10 * (10 * (v / 100) + v / 10 % 10) + v % 10 == v
  {
  }

  const CR: char := '\r'
  const LF: char := '\n'

  /** `text.replace("\r\n", "\n")`: each pair, taken left to right, becomes
      one LF. */
  function ReplaceCRLF(s: string): (t: string)
    ensures |t| <= |s|
  {
    if |s| == 0 then []
    else if s[0] == CR && |s| >= 2 && s[1] == LF then [LF] + ReplaceCRLF(s[2..])
    else [s[0]] + ReplaceCRLF(s[1..])
  }

  /** `text.replace("\r", "\n")`. */
  function ReplaceCR(s: string): (t: string)
    ensures |t| == |s|
    ensures forall k :: 0 <= k < |s| ==> t[k] == if s[k] == CR then LF else s[k]
  {
    if |s| == 0 then [] else [if s[0] == CR then LF else s[0]] + ReplaceCR(s[1..])
  }

  /** The newline normalisation applied to every decompiled text. */
  function Normalize(s: string): (t: string)
    ensures CR !in t
    ensures |t| <= |s|
  {
    ReplaceCR(ReplaceCRLF(s))
  }

  /** Line breaks read in one pass: CR LF and a lone CR are each one line
      break, written as LF. */
  function OnePass(s: string): string {
    if |s| == 0 then []
    else if s[0] == CR then [LF] + OnePass(if |s| >= 2 && s[1] == LF then s[2..] else s[1..])
    else [s[0]] + OnePass(s[1..])
  }

  /** The two replacements in a row are the one-pass reading, so CR CR LF
      is two line breaks and not three. */
  lemma {:induction false} NormalizeOnePass(s: string)
    ensures Normalize(s) == OnePass(s)
    decreases |s|
  {
    if |s| > 0 {
      if s[0] == CR && |s| >= 2 && s[1] == LF {
        NormalizeOnePass(s[2..]);
        ReplaceCRCons(LF, ReplaceCRLF(s[2..]));
      } else {
        NormalizeOnePass(s[1..]);
        ReplaceCRCons(s[0], ReplaceCRLF(s[1..]));
      }
    }
  }

  lemma ReplaceCRCons(c: char, s: string)
    ensures ReplaceCR([c] + s) == [if c == CR then LF else c] + ReplaceCR(s)
  {
    assert ([c] + s)[1..] == s;
  }

  /** Text without CR is left as it is. */
  lemma {:induction false} NormalizeNoCR(s: string)
    requires CR !in s
    ensures Normalize(s) == s
    decreases |s|
  {
    if |s| > 0 {
      assert s[0] != CR && CR !in s[1..];
      NormalizeNoCR(s[1..]);
      ReplaceCRCons(s[0], ReplaceCRLF(s[1..]));
      assert [s[0]] + s[1..] == s;
    }
  }

  /** Normalising twice is normalising once. */
  lemma NormalizeIdempotent(s: string)
    ensures Normalize(Normalize(s)) == Normalize(s)
  {
    NormalizeNoCR(Normalize(s));
  }

  /** The text with its line-break characters removed. */
  function Strip(s: string): (t: string)
    ensures CR !in t && LF !in t
  {
    if |s| == 0 then []
    else (if s[0] == CR || s[0] == LF then [] else [s[0]]) + Strip(s[1..])
  }

  /** Only line breaks change: every other character stays, in order. */
  lemma {:induction false} NormalizeKeepsText(s: string)
    ensures Strip(Normalize(s)) == Strip(s)
    decreases |s|
  {
    NormalizeOnePass(s);
    OnePassKeepsText(s);
  }

  lemma {:induction false} OnePassKeepsText(s: string)
    ensures Strip(OnePass(s)) == Strip(s)
    decreases |s|
  {
    if |s| > 0 {
      var o := OnePass(s);
      if s[0] == CR {
        var rest := if |s| >= 2 && s[1] == LF then s[2..] else s[1..];
        OnePassKeepsText(rest);
        assert o == [LF] + OnePass(rest) && o[1..] == OnePass(rest);
        if |s| >= 2 && s[1] == LF {
          assert s[1..][1..] == s[2..];
        }
      } else {
        OnePassKeepsText(s[1..]);
        assert o[1..] == OnePass(s[1..]);
      }
    }
  }
}
