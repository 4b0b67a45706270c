/**
  `VMBytes.__repr__`: a byte string shown as `VMBytes(b"...")`.

  Each byte in the printable ASCII range 32..126 stands for itself; every
  other byte becomes `\x` and two lower-case hex digits.  The backslash
  (byte 92) is printable and so is emitted bare, which makes the rendering
  ambiguous; `ReprEscaped` is the variant that escapes it and can be parsed
  back.
 */
module BytesRepr {
  import opened Wrappers

  type byte = b: int | 0 <= b < 256

  const PREFIX: string := "VMBytes(b\""
  const SUFFIX: string := "\")"
  const HEX_DIGITS: string := "0123456789abcdef"
  const BACKSLASH: byte := 92

  predicate Printable(b: byte)
  {
    32 <= b <= 126
  }

  /** A lower-case hex digit, as `{:02x}` writes it. */
  function HexDigit(d: int): char
    requires 0 <= d < 16
  {
    HEX_DIGITS[d]
  }

  /** The value of a lower-case hex digit, if `c` is one. */
  function HexValue(c: char): (r: Option<int>)
    ensures r.Some? ==> 0 <= r.value < 16 && HexDigit(r.value) == c
  {
    if '0' <= c <= '9' then Some(c as int - '0' as int)
    else if 'a' <= c <= 'f' then Some(c as int - 'a' as int + 10)
    else None
  }

  lemma HexValueOfDigit(d: int)
    requires 0 <= d < 16
    ensures HexValue(HexDigit(d)) == Some(d)
  {
  }

  /**
    The piece one byte contributes: a printable byte is the single
    character with that code; any other byte is `\x` then its two hex
    digits, high nibble first.
   */
  function EscapeByte(b: byte): (s: string)
    ensures Printable(b) ==> s == [b as char]
    ensures !Printable(b) ==>
      && |s| == 4
      && s[..2] == "\\x"
      && HexValue(s[2]) == Some(b / 16)
      && HexValue(s[3]) == Some(b % 16)
  {
    HexValueOfDigit(b / 16);
    HexValueOfDigit(b % 16);
    if Printable(b) then [b as char] else ['\\', 'x', HexDigit(b / 16), HexDigit(b % 16)]
  }

  /** The number of printable bytes in `bs`. */
  function PrintableCount(bs: seq<byte>): (n: nat)
    ensures n <= |bs|
  {
    if |bs| == 0 then 0 else (if Printable(bs[0]) then 1 else 0) + PrintableCount(bs[1..])
  }

  /** The text between the quotes: the pieces of the bytes, in order. */
  function Body(bs: seq<byte>): (s: string)
    ensures |s| == PrintableCount(bs) + 4 * (|bs| - PrintableCount(bs))
  {
    if |bs| == 0 then "" else EscapeByte(bs[0]) + Body(bs[1..])
  }

  /** `VMBytes.__repr__` as written. */
  function Repr(bs: seq<byte>): (s: string)
    ensures |s| == 12 + PrintableCount(bs) + 4 * (|bs| - PrintableCount(bs))
    ensures s[..|PREFIX|] == PREFIX && s[|s| - |SUFFIX|..] == SUFFIX
    ensures s[|PREFIX|..|s| - |SUFFIX|] == Body(bs)
  {
    PREFIX + Body(bs) + SUFFIX
  }

  /** The body of a concatenation is the concatenation of the bodies: the pieces come out in order. */
  lemma {:induction false} BodyAppend(xs: seq<byte>, ys: seq<byte>)
    ensures Body(xs + ys) == Body(xs) + Body(ys)
    decreases |xs|
  {
    if |xs| == 0 {
      assert xs + ys == ys;
    } else {
      assert (xs + ys)[1..] == xs[1..] + ys;
      BodyAppend(xs[1..], ys);
    }
  }

  /** Reads a body back into bytes; `None` if `s` is not a well-formed body. */
  function Unescape(s: string): (r: Option<seq<byte>>)
    decreases |s|
  {
    if |s| == 0 then Some([])
    else if s[0] == '\\' then
      if 4 <= |s| && s[1] == 'x' && HexValue(s[2]).Some? && HexValue(s[3]).Some? then
        match Unescape(s[4..])
        case Some(rest) => Some([HexValue(s[2]).value * 16 + HexValue(s[3]).value] + rest)
        case None => None
      else None
    else if 32 <= s[0] as int <= 126 then
      match Unescape(s[1..])
      case Some(rest) => Some([s[0] as int as byte] + rest)
      case None => None
    else None
  }

  /** Reads a whole `VMBytes(b"...")` rendering back into bytes. */
  function Parse(s: string): (r: Option<seq<byte>>)
  {
    if |PREFIX| + |SUFFIX| <= |s| && s[..|PREFIX|] == PREFIX && s[|s| - |SUFFIX|..] == SUFFIX
    then Unescape(s[|PREFIX|..|s| - |SUFFIX|])
    else None
  }

  /** Reading back one piece in front of a readable rest yields the byte in front of the rest's bytes. */
  lemma UnescapePiece(b: byte, rest: string, tail: seq<byte>)
    requires b != BACKSLASH
    requires Unescape(rest) == Some(tail)
    ensures Unescape(EscapeByte(b) + rest) == Some([b] + tail)
  {
    var s := EscapeByte(b) + rest;
    if Printable(b) {
      assert s[0] == b as char && s[1..] == rest;
    } else {
      assert s[0] == '\\' && s[1] == 'x' && s[4..] == rest;
    }
  }

  lemma {:induction false} UnescapeBody(bs: seq<byte>)
    requires BACKSLASH !in bs
    ensures Unescape(Body(bs)) == Some(bs)
    decreases |bs|
  {
    if |bs| > 0 {
      assert BACKSLASH !in bs[1..] by {
        assert forall i :: 0 <= i < |bs[1..]| ==> bs[1..][i] == bs[i + 1];
      }
      UnescapeBody(bs[1..]);
      UnescapePiece(bs[0], Body(bs[1..]), bs[1..]);
      assert [bs[0]] + bs[1..] == bs;
    }
  }

  /**
    A byte string without a backslash survives the round trip through its
    rendering.  (With a backslash it need not: see `ReprAmbiguous`.)
   */
  lemma ReprRoundTrip(bs: seq<byte>)
    requires BACKSLASH !in bs
    ensures Parse(Repr(bs)) == Some(bs)
  {
    UnescapeBody(bs);
  }

  /**
    As written, two different byte strings render identically: the single
    byte 0 and the four bytes `\`, `x`, `0`, `0` both give `VMBytes(b"\x00")`.
   */
  lemma ReprAmbiguous()
    ensures var one: seq<byte>, four: seq<byte> := [0], [92, 120, 48, 48];
      one != four && Repr(one) == Repr(four)
  {
    assert Body([0]) == EscapeByte(0);
    assert Body([92, 120, 48, 48]) == EscapeByte(92) + Body([120, 48, 48]);
    assert Body([120, 48, 48]) == EscapeByte(120) + Body([48, 48]);
    assert Body([48, 48]) == EscapeByte(48) + Body([48]);
    assert Body([48]) == EscapeByte(48) + Body([]);
  }

  /** The corrected piece: a backslash is written `\\`, every other byte as before. */
  function EscapeByteEscaped(b: byte): (s: string)
    ensures b != BACKSLASH ==> s == EscapeByte(b)
    ensures b == BACKSLASH ==> s == "\\\\"
  {
    if b == BACKSLASH then "\\\\" else EscapeByte(b)
  }

  function BodyEscaped(bs: seq<byte>): (s: string)
    ensures BACKSLASH !in bs ==> s == Body(bs)
  {
    if |bs| == 0 then "" else EscapeByteEscaped(bs[0]) + BodyEscaped(bs[1..])
  }

  /** The corrected rendering; on bytes without a backslash it agrees with `Repr`. */
  function ReprEscaped(bs: seq<byte>): (s: string)
    ensures BACKSLASH !in bs ==> s == Repr(bs)
  {
    PREFIX + BodyEscaped(bs) + SUFFIX
  }

  /** `Unescape` that also reads `\\` as a backslash. */
  function UnescapeEscaped(s: string): (r: Option<seq<byte>>)
    decreases |s|
  {
    if |s| == 0 then Some([])
    else if s[0] == '\\' then
      if 2 <= |s| && s[1] == '\\' then
        match UnescapeEscaped(s[2..])
        case Some(rest) => Some([BACKSLASH] + rest)
        case None => None
      else if 4 <= |s| && s[1] == 'x' && HexValue(s[2]).Some? && HexValue(s[3]).Some? then
        match UnescapeEscaped(s[4..])
        case Some(rest) => Some([HexValue(s[2]).value * 16 + HexValue(s[3]).value] + rest)
        case None => None
      else None
    else if 32 <= s[0] as int <= 126 then
      match UnescapeEscaped(s[1..])
      case Some(rest) => Some([s[0] as int as byte] + rest)
      case None => None
    else None
  }

  function ParseEscaped(s: string): (r: Option<seq<byte>>)
  {
    if |PREFIX| + |SUFFIX| <= |s| && s[..|PREFIX|] == PREFIX && s[|s| - |SUFFIX|..] == SUFFIX
    then UnescapeEscaped(s[|PREFIX|..|s| - |SUFFIX|])
    else None
  }

  /** The corrected reader takes back one corrected piece in front of a readable rest. */
  lemma UnescapePieceEscaped(b: byte, rest: string, tail: seq<byte>)
    requires UnescapeEscaped(rest) == Some(tail)
    ensures UnescapeEscaped(EscapeByteEscaped(b) + rest) == Some([b] + tail)
  {
    var s := EscapeByteEscaped(b) + rest;
    if b == BACKSLASH {
      assert s[0] == '\\' && s[1] == '\\' && s[2..] == rest;
    } else if Printable(b) {
      assert s[0] == b as char && s[1..] == rest;
    } else {
      assert s[0] == '\\' && s[1] == 'x' && s[4..] == rest;
    }
  }

  lemma {:induction false} UnescapeBodyEscaped(bs: seq<byte>)
    ensures UnescapeEscaped(BodyEscaped(bs)) == Some(bs)
    decreases |bs|
  {
    if |bs| > 0 {
      UnescapeBodyEscaped(bs[1..]);
      UnescapePieceEscaped(bs[0], BodyEscaped(bs[1..]), bs[1..]);
      assert [bs[0]] + bs[1..] == bs;
    }
  }

  /** Every byte string survives the round trip through the corrected rendering. */
  lemma ReprEscapedRoundTrip(bs: seq<byte>)
    ensures ParseEscaped(ReprEscaped(bs)) == Some(bs)
  {
    var s := ReprEscaped(bs);
    assert s[..|PREFIX|] == PREFIX;
    assert s[|s| - |SUFFIX|..] == SUFFIX;
    assert s[|PREFIX|..|s| - |SUFFIX|] == BodyEscaped(bs);
    UnescapeBodyEscaped(bs);
  }

  /** Hence the corrected rendering tells all byte strings apart. */
  lemma ReprEscapedInjective(xs: seq<byte>, ys: seq<byte>)
    ensures ReprEscaped(xs) == ReprEscaped(ys) ==> xs == ys
  {
    ReprEscapedRoundTrip(xs);
    ReprEscapedRoundTrip(ys);
  }
}
