/**
 * The typed codecs layered over the string store: byte arrays as lowercase hexadecimal, booleans as
 * `"1"`/`"0"`, and integers in the invariant decimal format.
 */
module Codec {
  import opened Wrappers

  newtype byte = x: int | 0 <= x < 256

  // ---------------------------------------------------------------- hexadecimal byte arrays

  /** The lowercase digit `Convert.ToString(_, 16)` writes for `d`. */
  function HexDigit(d: int): (c: char)
    requires 0 <= d < 16
    ensures IsLowerHex(c)
  {
    if d < 10 then ('0' as int + d) as char else ('a' as int + d - 10) as char
  }

  predicate IsLowerHex(c: char)
  {
    ('0' <= c <= '9') || ('a' <= c <= 'f')
  }

  /** `Convert.ToString(b, 16)`: one or two lowercase digits, without leading zero. */
  function ToHex(b: byte): (r: string)
    ensures 1 <= |r| <= 2
  {
    if b < 16 then [HexDigit(b as int)] else [HexDigit(b as int / 16), HexDigit(b as int % 16)]
  }

  /** The two characters the encoder writes for one byte. */
  function HexPair(b: byte): string
  {
    [HexDigit(b as int / 16), HexDigit(b as int % 16)]
  }

  /** The reference encoding: two lowercase hexadecimal digits per byte, high digit first. */
  function HexString(bs: seq<byte>): string
  {
    if bs == [] then [] else HexString(bs[..|bs| - 1]) + HexPair(bs[|bs| - 1])
  }

  /** `EncodeByteArray`: append the hexadecimal digits of each byte, padded to two with a leading `0`. */
  method EncodeByteArray(value: seq<byte>) returns (r: string)
    ensures r == HexString(value)
    ensures |r| == 2 * |value|
  {
    r := [];
    var i := 0;
    while i < |value|
      invariant 0 <= i <= |value|
      invariant r == HexString(value[..i])
    {
      var hex := ToHex(value[i]);
      var l := |hex|;
      if l > 2 {
        // `Convert.ToString` writes at most two digits for a byte: the source's `Substring` branch is dead
        assert false;
      } else {
        if l < 2 {
          r := r + "0";
        }
        r := r + hex;
      }
      assert value[..i + 1][..i] == value[..i];
      i := i + 1;
    }
    assert value[..i] == value;
    HexStringLength(value);
  }

  lemma {:induction false} HexStringLength(bs: seq<byte>)
    ensures |HexString(bs)| == 2 * |bs|
  {
    if bs != [] {
      HexStringLength(bs[..|bs| - 1]);
    }
  }

  /** Every character of an encoding is a lowercase hexadecimal digit. */
  lemma {:induction false} HexStringIsLowerHex(bs: seq<byte>)
    ensures forall i :: 0 <= i < |HexString(bs)| ==> IsLowerHex(HexString(bs)[i])
  {
    if bs != [] {
      HexStringIsLowerHex(bs[..|bs| - 1]);
    }
  }

  /** The value of one hexadecimal digit as `Convert.ToByte(_, 16)` reads it (either case). */
  function HexValue(c: char): (r: Option<int>)
    ensures r.Some? ==> 0 <= r.value < 16
  {
    if '0' <= c <= '9' then Some(c as int - '0' as int)
    else if 'a' <= c <= 'f' then Some(c as int - 'a' as int + 10)
    else if 'A' <= c <= 'F' then Some(c as int - 'A' as int + 10)
    else None
  }

  /**
   * `Convert.ToByte(s, 16)` on the two characters `hi`, `lo`: a leading `+` is skipped, so `+a` is 10;
   * `None` stands for the `FormatException`.
   */
  function PairValue(hi: char, lo: char): (r: Option<byte>)
    ensures hi == '+' ==> (r.Some? <==> HexValue(lo).Some?)
    ensures hi == '+' && r.Some? ==> r.value as int == HexValue(lo).value
    ensures hi != '+' ==> (r.Some? <==> HexValue(hi).Some? && HexValue(lo).Some?)
    ensures hi != '+' && r.Some? ==> r.value as int == 16 * HexValue(hi).value + HexValue(lo).value
  {
    if hi == '+' then
      match HexValue(lo)
      case Some(l) => Some(l as byte)
      case None => None
    else
      match (HexValue(hi), HexValue(lo))
      case (Some(h), Some(l)) => Some((16 * h + l) as byte)
      case _ => None
  }

  /** The first `n` pairs of `s` decoded, or `None` when one of them is not hexadecimal. */
  function DecodePairs(s: string, n: nat): Option<seq<byte>>
    requires 2 * n <= |s|
  {
    if n == 0 then Some([])
    else
      match DecodePairs(s, n - 1)
      case None => None
      case Some(prefix) =>
        match PairValue(s[2 * n - 2], s[2 * n - 1])
        case None => None
        case Some(b) => Some(prefix + [b])
  }

  /** The reference decoding: every whole pair of characters is a byte; a last odd character is ignored. */
  function HexDecode(s: string): Option<seq<byte>>
  {
    DecodePairs(s, |s| / 2)
  }

  /**
   * `DecodeByteArray`: fewer than two characters decode to no bytes; otherwise each of the |s|/2
   * pairs is converted in turn and the first one that is not hexadecimal fails the decoding.
   */
  method DecodeByteArray(value: string) returns (r: Option<seq<byte>>)
    ensures r == HexDecode(value)
  {
    var l := |value|;
    if l < 2 {
      return Some([]);
    }
    l := l / 2;
    var result := new byte[l];
    var i := 0;
    while i < l
      invariant 0 <= i <= l
      invariant DecodePairs(value, i) == Some(result[..i])
    {
      var b := PairValue(value[i * 2], value[i * 2 + 1]);
      if b.None? {
        assert DecodePairs(value, i + 1).None?;
        NoneStaysNone(value, i + 1, l);
        return None;
      }
      result[i] := b.value;
      assert result[..i + 1] == result[..i] + [b.value];
      i := i + 1;
    }
    assert result[..] == result[..i];
    return Some(result[..]);
  }

  /** Once a pair fails, every longer prefix fails. */
  lemma {:induction false} NoneStaysNone(s: string, m: nat, n: nat)
    requires m <= n && 2 * n <= |s|
    requires DecodePairs(s, m).None?
    ensures DecodePairs(s, n).None?
    decreases n - m
  {
    if m < n {
      NoneStaysNone(s, m + 1, n);
    }
  }

  lemma {:induction false} HexValueOfDigit(d: int)
    requires 0 <= d < 16
    ensures HexValue(HexDigit(d)) == Some(d)
  {
  }

  lemma PairRoundTrip(b: byte)
    ensures PairValue(HexPair(b)[0], HexPair(b)[1]) == Some(b)
  {
    HexValueOfDigit(b as int / 16);
    HexValueOfDigit(b as int % 16);
  }

  /** Decoding all the pairs of an encoding gives back the bytes. */
  lemma {:induction false} DecodePairsOfHex(bs: seq<byte>)
    ensures |HexString(bs)| == 2 * |bs|
    ensures DecodePairs(HexString(bs), |bs|) == Some(bs)
  {
    HexStringLength(bs);
    if bs != [] {
      DecodePairsOfHex(bs[..|bs| - 1]);
      DecodeLastPair(bs);
    }
  }

  /** The last pair of an encoding decodes to the last byte, after the pairs of the others. */
  lemma DecodeLastPair(bs: seq<byte>)
    requires bs != []
    requires |HexString(bs[..|bs| - 1])| == 2 * (|bs| - 1)
    requires DecodePairs(HexString(bs[..|bs| - 1]), |bs| - 1) == Some(bs[..|bs| - 1])
    ensures |HexString(bs)| == 2 * |bs|
    ensures DecodePairs(HexString(bs), |bs|) == Some(bs)
  {
    var n := |bs|;
    var init, last := bs[..n - 1], bs[n - 1];
    assert HexString(bs) == HexString(init) + HexPair(last);
    DecodeAppendHex(HexString(init), n - 1, init, last);
    assert init + [last] == bs;
  }

  /** The encoding of one more byte, after decoded pairs, decodes to that byte. */
  lemma DecodeAppendHex(a: string, n: nat, init: seq<byte>, last: byte)
    requires |a| == 2 * n && DecodePairs(a, n) == Some(init)
    ensures DecodePairs(a + HexPair(last), n + 1) == Some(init + [last])
  {
    PairRoundTrip(last);
    DecodeAppendPair(a, HexPair(last), n, init, last);
  }

  lemma DecodeAppendPair(a: string, p: string, n: nat, init: seq<byte>, last: byte)
    requires |a| == 2 * n && |p| == 2
    requires DecodePairs(a, n) == Some(init) && PairValue(p[0], p[1]) == Some(last)
    ensures DecodePairs(a + p, n + 1) == Some(init + [last])
  {
    DecodePairsPrefix(a, p, n);
    LastTwo(a, p);
    DecodePairsSnoc(a + p, n + 1, init, last);
  }

  lemma LastTwo(a: string, p: string)
    requires |p| == 2
    ensures (a + p)[|a|] == p[0] && (a + p)[|a| + 1] == p[1]
  {
  }

  /** One more pair that decodes extends the decoded prefix by its byte. */
  lemma DecodePairsSnoc(s: string, n: nat, prefix: seq<byte>, b: byte)
    requires 0 < n && 2 * n <= |s|
    requires DecodePairs(s, n - 1) == Some(prefix)
    requires PairValue(s[2 * n - 2], s[2 * n - 1]) == Some(b)
    ensures DecodePairs(s, n) == Some(prefix + [b])
  {
  }

  /** Decoding pairs only looks at the characters it decodes. */
  lemma {:induction false} DecodePairsPrefix(s: string, t: string, n: nat)
    requires 2 * n <= |s|
    ensures DecodePairs(s + t, n) == DecodePairs(s, n)
  {
    if n > 0 {
      DecodePairsPrefix(s, t, n - 1);
      assert (s + t)[2 * n - 2] == s[2 * n - 2] && (s + t)[2 * n - 1] == s[2 * n - 1];
    }
  }

  /** Byte arrays round-trip: `DecodeByteArray(EncodeByteArray(b)) == b`. */
  lemma HexRoundTrip(bs: seq<byte>)
    ensures HexDecode(HexString(bs)) == Some(bs)
  {
    var s := HexString(bs);
    HexStringLength(bs);
    assert |s| / 2 == |bs|;
    DecodePairsOfHex(bs);
  }

  /** A trailing odd character is ignored by the decoder. */
  lemma HexDecodeIgnoresOddTail(s: string, c: char)
    requires |s| % 2 == 0
    ensures HexDecode(s + [c]) == HexDecode(s)
  {
    assert (|s| + 1) / 2 == |s| / 2;
    DecodePairsPrefix(s, [c], |s| / 2);
  }

  // ---------------------------------------------------------------- integers

  /** The white space `NumberStyles.AllowLeadingWhite`/`AllowTrailingWhite` skip. */
  predicate IsNumberWhite(c: char)
  {
    ('\t' <= c <= '\r') || c == ' '
  }

  predicate IsDigit(c: char)
  {
    '0' <= c <= '9'
  }

  predicate AllDigits(ds: string)
  {
    forall i :: 0 <= i < |ds| ==> IsDigit(ds[i])
  }

  /** The value of a string of decimal digits. */
  function DigitsValue(ds: string): (n: nat)
    requires forall i :: 0 <= i < |ds| ==> IsDigit(ds[i])
  {
    if ds == [] then 0
    else
      var last := ds[|ds| - 1];
      assert IsDigit(last);
      10 * DigitsValue(ds[..|ds| - 1]) + (last as int - '0' as int)
  }

  /** The decimal digits of `n`, without leading zeros. */
  function Digits(n: nat): (ds: string)
    ensures ds != []
    ensures forall i :: 0 <= i < |ds| ==> IsDigit(ds[i])
  {
    if n < 10 then [DigitChar(n)] else Digits(n / 10) + [DigitChar(n % 10)]
  }

  /** The decimal digit for `d`. */
  function DigitChar(d: int): (c: char)
    requires 0 <= d < 10
    ensures IsDigit(c) && c as int - '0' as int == d
  {
    ('0' as int + d) as char
  }

  /** `ToString(CultureInfo.InvariantCulture)` of an integer: an optional `-` and the decimal digits. */
  function FormatInteger(n: int): (s: string)
    ensures s != [] && (s[0] == '-' || IsDigit(s[0]))
  {
    if n < 0 then "-" + Digits(-n) else Digits(n)
  }

  function SkipLeadingWhite(s: string): (r: string)
    ensures |r| <= |s|
  {
    if |s| > 0 && IsNumberWhite(s[0]) then SkipLeadingWhite(s[1..]) else s
  }

  function SkipTrailingWhite(s: string): (r: string)
    ensures |r| <= |s|
  {
    if |s| > 0 && IsNumberWhite(s[|s| - 1]) then SkipTrailingWhite(s[..|s| - 1]) else s
  }

  /** The text without its final run of NUL characters, which the .NET number parser accepts in every style. */
  function SkipTrailingNul(s: string): (r: string)
    ensures |r| <= |s| && r == s[..|r|]
    ensures r == [] || r[|r| - 1] != '\0'
    ensures forall i :: |r| <= i < |s| ==> s[i] == '\0'
  {
    if |s| > 0 && s[|s| - 1] == '\0' then SkipTrailingNul(s[..|s| - 1]) else s
  }

  /**
   * The number styles the getters pass to `TryParse`: `NumberStyles.Integer` (the bool getter) and
   * `NumberStyles.Any` (the integer getters), of which the model covers the sign and white space.
   */
  datatype NumberStyle = IntegerStyle | AnyStyle

  /**
   * `TryParse` of an integer: optional white space, an optional `+` or `-`, at least one decimal digit,
   * optional white space, and any number of NUL characters at the very end. In `AnyStyle` the sign may also follow the digits, with white space before
   * it (`5-` and `5 -` are -5). `None` when the text has another shape or the value lies outside
   * `lo..hi`, the range of the target type.
   */
  function ParseInteger(s: string, lo: int, hi: int, style: NumberStyle): (r: Option<int>)
    ensures r.Some? ==> lo <= r.value <= hi
  {
    var t := SkipTrailingWhite(SkipLeadingWhite(SkipTrailingNul(s)));
    var lead := |t| > 0 && (t[0] == '-' || t[0] == '+');
    var trail := style == AnyStyle && !lead && |t| > 0 && (t[|t| - 1] == '-' || t[|t| - 1] == '+');
    var negative := (lead && t[0] == '-') || (trail && t[|t| - 1] == '-');
    var body := if lead then t[1..] else if trail then SkipTrailingWhite(t[..|t| - 1]) else t;
    if body == [] || !AllDigits(body) then None
    else
      var v: int := DigitsValue(body);
      var n := if negative then -v else v;
      if lo <= n <= hi then Some(n) else None
  }

  lemma {:induction false} DigitsRoundTrip(n: nat)
    ensures DigitsValue(Digits(n)) == n
  {
    if n >= 10 {
      DigitsRoundTrip(n / 10);
      var ds := Digits(n);
      assert ds[..|ds| - 1] == Digits(n / 10);
    }
  }

  lemma SkipNoWhite(s: string)
    requires s != [] && !IsNumberWhite(s[0]) && !IsNumberWhite(s[|s| - 1]) && s[|s| - 1] != '\0'
    ensures SkipTrailingWhite(SkipLeadingWhite(SkipTrailingNul(s))) == s
  {
  }

  /** NUL characters at the end of the text do not change what it parses to: `5\0` is 5. */
  lemma TrailingNulIgnored(s: string, lo: int, hi: int, style: NumberStyle)
    ensures ParseInteger(s + "\0", lo, hi, style) == ParseInteger(s, lo, hi, style)
  {
    assert (s + "\0")[..|s|] == s;
  }

  /** Integers round-trip through their invariant format, within the range of the target type. */
  lemma IntegerRoundTrip(n: int, lo: int, hi: int, style: NumberStyle)
    requires lo <= n <= hi
    ensures ParseInteger(FormatInteger(n), lo, hi, style) == Some(n)
  {
    if n < 0 {
      NegativeRoundTrip(-n, lo, hi, style);
    } else {
      NaturalRoundTrip(n, lo, hi, style);
    }
  }

  lemma NaturalRoundTrip(n: nat, lo: int, hi: int, style: NumberStyle)
    requires lo <= n <= hi
    ensures ParseInteger(Digits(n), lo, hi, style) == Some(n)
  {
    var ds := Digits(n);
    SkipNoWhite(ds);
    assert IsDigit(ds[0]) && IsDigit(ds[|ds| - 1]);
    DigitsRoundTrip(n);
  }

  lemma NegativeRoundTrip(n: nat, lo: int, hi: int, style: NumberStyle)
    requires lo <= -(n as int) <= hi
    ensures ParseInteger("-" + Digits(n), lo, hi, style) == Some(-(n as int))
  {
    var ds := Digits(n);
    var s := "-" + ds;
    assert s[|s| - 1] == ds[|ds| - 1];
    SkipNoWhite(s);
    assert s[1..] == ds;
    DigitsRoundTrip(n);
  }

  /**
   * A sign after the digits: `NumberStyles.Any` reads `5-` as -5, and `NumberStyles.Integer` rejects
   * it, so the integer getters and the bool getter disagree on such a text.
   */
  lemma TrailingSign(n: nat, lo: int, hi: int)
    requires lo <= -(n as int) <= hi
    ensures ParseInteger(Digits(n) + "-", lo, hi, AnyStyle) == Some(-(n as int))
    ensures ParseInteger(Digits(n) + "-", lo, hi, IntegerStyle) == None
  {
    TrailingSignAny(n, lo, hi);
    TrailingSignInteger(n, lo, hi);
  }

  lemma TrailingSignAny(n: nat, lo: int, hi: int)
    requires lo <= -(n as int) <= hi
    ensures ParseInteger(Digits(n) + "-", lo, hi, AnyStyle) == Some(-(n as int))
  {
    var ds := Digits(n);
    DigitsRoundTrip(n);
    assert AllDigits(ds) && DigitsValue(ds) == n;
    TrailingMinus(ds, lo, hi);
  }

  lemma TrailingMinus(ds: string, lo: int, hi: int)
    requires ds != [] && AllDigits(ds) && lo <= -(DigitsValue(ds) as int) <= hi
    ensures ParseInteger(ds + "-", lo, hi, AnyStyle) == Some(-(DigitsValue(ds) as int))
  {
    var s := ds + "-";
    assert IsDigit(ds[0]) && s[0] == ds[0];
    SkipNoWhite(s);
    assert s[..|s| - 1] == ds;
    assert IsDigit(ds[|ds| - 1]);
    assert SkipTrailingWhite(ds) == ds;
  }

  lemma TrailingSignInteger(n: nat, lo: int, hi: int)
    ensures ParseInteger(Digits(n) + "-", lo, hi, IntegerStyle) == None
  {
    var ds := Digits(n);
    var s := ds + "-";
    assert IsDigit(ds[0]) && s[0] == ds[0];
    SkipNoWhite(s);
    assert !IsDigit(s[|s| - 1]);
  }

  /** The integer types the typed getters and setters cover. */
  datatype IntKind = Int32 | UInt32 | Int64 | UInt64 | Byte {
    function Min(): int
    {
      match this
      case Int32 => -0x8000_0000
      case Int64 => -0x8000_0000_0000_0000
      case _ => 0
    }

    function Max(): int
    {
      match this
      case Int32 => 0x7FFF_FFFF
      case UInt32 => 0xFFFF_FFFF
      case Int64 => 0x7FFF_FFFF_FFFF_FFFF
      case UInt64 => 0xFFFF_FFFF_FFFF_FFFF
      case Byte => 0xFF
    }

    predicate Holds(n: int)
    {
      Min() <= n <= Max()
    }
  }

  /** `TryParse` for one of the integer types. */
  function ParseAs(kind: IntKind, s: string): (r: Option<int>)
    ensures r.Some? ==> kind.Holds(r.value)
  {
    ParseInteger(s, kind.Min(), kind.Max(), AnyStyle)
  }

  /** The integer getter's conversion: the parsed value, or the default when parsing fails. */
  function DecodeInteger(kind: IntKind, s: string, default: int): (r: int)
    requires kind.Holds(default)
    ensures kind.Holds(r)
    ensures ParseAs(kind, s).Some? ==> r == ParseAs(kind, s).value
    ensures ParseAs(kind, s).None? ==> r == default
  {
    ParseAs(kind, s).GetOr(default)
  }

  lemma DecodeIntegerRoundTrip(kind: IntKind, n: int, default: int)
    requires kind.Holds(n) && kind.Holds(default)
    ensures DecodeInteger(kind, FormatInteger(n), default) == n
  {
    IntegerRoundTrip(n, kind.Min(), kind.Max(), AnyStyle);
  }

  // ---------------------------------------------------------------- booleans

  /** The bool setter's format: `"1"` for true, `"0"` for false. */
  function EncodeBool(b: bool): string
  {
    if b then "1" else "0"
  }

  /** `int.TryParse` with its default style, as the bool getter calls it. */
  function ParseInt32(s: string): (r: Option<int>)
    ensures r.Some? ==> Int32.Holds(r.value)
  {
    ParseInteger(s, Int32.Min(), Int32.Max(), IntegerStyle)
  }

  /** The bool getter's conversion: a 32-bit integer is true when it is not 0; otherwise the default. */
  function DecodeBool(s: string, default: bool): (r: bool)
    ensures ParseInt32(s).Some? ==> (r <==> ParseInt32(s).value != 0)
    ensures ParseInt32(s).None? ==> r == default
  {
    match ParseInt32(s)
    case Some(v) => v != 0
    case None => default
  }

  /** `bool.ToString()`, the default text the bool getter passes to the string getter. */
  function BoolText(b: bool): string
  {
    if b then "True" else "False"
  }

  /** A bool round-trips through its stored form. */
  lemma BoolRoundTrip(b: bool, default: bool)
    ensures DecodeBool(EncodeBool(b), default) == b
  {
    IntegerRoundTrip(if b then 1 else 0, Int32.Min(), Int32.Max(), IntegerStyle);
  }

  /** `bool.ToString()` is not an integer, so a missing entry yields the caller's default. */
  lemma BoolTextIsNoInteger(b: bool, default: bool)
    ensures DecodeBool(BoolText(b), default) == default
  {
    var t := BoolText(b);
    assert SkipTrailingNul(t) == t;
    assert SkipLeadingWhite(t) == t;
    assert SkipTrailingWhite(t) == t;
    assert !AllDigits(t) by { assert !IsDigit(t[0]); }
  }
}
