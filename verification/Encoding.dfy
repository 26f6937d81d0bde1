/** Decimal and base16 text, as written by strconv and encoding/hex. */
module Numerals {
  import opened Options

  newtype byte = x: int | 0 <= x < 256

  predicate IsDigit(c: char) {
    '0' <= c <= '9'
  }

  function Digit(d: int): (c: char)
    requires 0 <= d < 10
    ensures IsDigit(c) && c as int - '0' as int == d
  {
    (d + '0' as int) as char
  }

  predicate AllDigits(s: string) {
    forall i :: 0 <= i < |s| ==> IsDigit(s[i])
  }

  /** Shortest decimal form of a natural number. */
  function Decimal(n: nat): (s: string)
    ensures |s| > 0 && AllDigits(s)
  {
    if n < 10 then [Digit(n)] else Decimal(n / 10) + [Digit(n % 10)]
  }

  function DecimalValue(s: string): (n: nat)
    requires AllDigits(s)
  {
    if s == "" then 0
    else 10 * DecimalValue(s[..|s| - 1]) + (s[|s| - 1] as int - '0' as int)
  }

  lemma {:induction false} DecimalRoundTrip(n: nat)
    ensures DecimalValue(Decimal(n)) == n
  {
    if n >= 10 {
      DecimalRoundTrip(n / 10);
      var s := Decimal(n);
      assert s[..|s| - 1] == Decimal(n / 10);
    } else {
      assert [Digit(n)][..0] == "";
    }
  }

  function Pow10(k: nat): nat {
    if k == 0 then 1 else 10 * Pow10(k - 1)
  }

  /** The form is shortest: no leading zero, and as many digits as the number needs. */
  lemma {:induction false} DecimalIsShortest(n: nat)
    ensures Decimal(n)[0] == '0' ==> n == 0
    ensures n < Pow10(|Decimal(n)|) && (|Decimal(n)| > 1 ==> Pow10(|Decimal(n)| - 1) <= n)
  {
    if n >= 10 { DecimalIsShortest(n / 10); }
  }

  /** strconv.FormatInt in base 10. */
  function FormatInt(n: int): string {
    if n < 0 then "-" + Decimal(-n) else Decimal(n)
  }

  /** Only negative numbers carry a sign. */
  lemma FormatIntSign(n: int)
    ensures if n < 0 then FormatInt(n)[0] == '-' && FormatInt(n)[1..] == Decimal(-n) else AllDigits(FormatInt(n))
  {}

  /** strconv.ParseInt in base 10 with 64 bits: an optional sign, at least one digit, and a value in range. */
  function ParseInt(s: string): Option<int> {
    if s != "" && s[0] == '-' then ParseMagnitude(true, s[1..])
    else if s != "" && s[0] == '+' then ParseMagnitude(false, s[1..])
    else ParseMagnitude(false, s)
  }

  /** Exactly what ParseInt reads: one sign or none, then at least one digit, for a value of 64 bits. */
  lemma ParsesExactly(sign: string, digits: string)
    requires sign == "" || sign == "+" || sign == "-"
    requires AllDigits(digits)
    ensures var magnitude: int := DecimalValue(digits);
            var n := if sign == "-" then -magnitude else magnitude;
            ParseInt(sign + digits) == if digits != "" && IsInt64(n) then Some(n) else None
  {
    var s := sign + digits;
    if sign == "" {
      assert s == digits && (s != "" ==> IsDigit(s[0]));
    } else {
      assert s[0] == sign[0] && s[1..] == digits;
    }
  }

  lemma ParsesNothingElse(s: string)
    requires ParseInt(s).Some?
    ensures AllDigits(s) || (s != "" && (s[0] == '-' || s[0] == '+') && AllDigits(s[1..]))
  {}

  function ParseMagnitude(neg: bool, digits: string): Option<int> {
    if digits == "" || !AllDigits(digits) then None
    else
      var magnitude: int := DecimalValue(digits);
      var n := if neg then -magnitude else magnitude;
      if IsInt64(n) then Some(n) else None
  }

  predicate IsInt64(n: int) {
    -0x8000_0000_0000_0000 <= n < 0x8000_0000_0000_0000
  }

  /** What FormatInt writes, ParseInt reads back, exactly for the 64-bit integers. */
  lemma ParseFormat(n: int)
    ensures ParseInt(FormatInt(n)) == if IsInt64(n) then Some(n) else None
  {
    if n < 0 {
      DecimalRoundTrip(-n);
      ParsesExactly("-", Decimal(-n));
    } else {
      DecimalRoundTrip(n);
      ParsesExactly("", Decimal(n));
      assert "" + Decimal(n) == Decimal(n);
    }
  }

  function HexDigit(d: int): (c: char)
    requires 0 <= d < 16
  {
    if d < 10 then (d + '0' as int) as char else (d - 10 + 'a' as int) as char
  }

  /** fromHexChar: both cases are read. */
  function HexValue(c: char): (r: Option<int>)
    ensures r.Some? ==> 0 <= r.value < 16
  {
    if '0' <= c <= '9' then Some(c as int - '0' as int)
    else if 'a' <= c <= 'f' then Some(c as int - 'a' as int + 10)
    else if 'A' <= c <= 'F' then Some(c as int - 'A' as int + 10)
    else None
  }

  /** hex.EncodeToString. */
  function HexEncode(bs: seq<byte>): (s: string)
    ensures |s| == 2 * |bs|
  {
    if bs == [] then ""
    else [HexDigit(bs[0] as int / 16), HexDigit(bs[0] as int % 16)] + HexEncode(bs[1..])
  }

  /** hex.DecodeString: an odd length or a non-hexadecimal character is an error. */
  function HexDecode(s: string): Option<seq<byte>> {
    if s == "" then Some([])
    else if |s| == 1 then None
    else
      match (HexValue(s[0]), HexValue(s[1]), HexDecode(s[2..]))
      case (Some(hi), Some(lo), Some(rest)) => Some([(16 * hi + lo) as byte] + rest)
      case _ => None
  }

  /** The digits in order. */
  lemma HexAlphabet(d: int)
    requires 0 <= d < 16
    ensures HexDigit(d) == "0123456789abcdef"[d]
  {}

  /** Each byte is written as two digits, the high one first. */
  lemma {:induction false} HexEncodeAt(bs: seq<byte>, i: nat)
    requires i < |bs|
    ensures HexEncode(bs)[2 * i] == HexDigit(bs[i] as int / 16) && HexEncode(bs)[2 * i + 1] == HexDigit(bs[i] as int % 16)
  {
    if i > 0 { HexEncodeAt(bs[1..], i - 1); }
  }

  predicate IsHexChar(c: char) {
    '0' <= c <= '9' || 'a' <= c <= 'f' || 'A' <= c <= 'F'
  }

  /** Text decodes exactly if its length is even and its characters are hexadecimal digits of either case. */
  lemma {:induction false} HexDecodesExactly(s: string)
    ensures HexDecode(s).Some? <==> |s| % 2 == 0 && forall i :: 0 <= i < |s| ==> IsHexChar(s[i])
  {
    if |s| >= 2 {
      HexDecodesExactly(s[2..]);
      assert forall i :: 2 <= i < |s| ==> s[i] == s[2..][i - 2];
    }
  }

  lemma {:induction false} HexRoundTrip(bs: seq<byte>)
    ensures HexDecode(HexEncode(bs)) == Some(bs)
  {
    if bs != [] {
      var s := HexEncode(bs);
      HexRoundTrip(bs[1..]);
      assert s[2..] == HexEncode(bs[1..]);
      assert [bs[0]] + bs[1..] == bs;
    }
  }

  function Lower(c: char): char {
    if 'A' <= c <= 'F' then (c as int + 32) as char else c
  }

  /** A digit is read and written back in lower case. */
  lemma HexDigitOfValue(c: char)
    requires HexValue(c).Some?
    ensures HexDigit(HexValue(c).value) == Lower(c)
  {}

  lemma HexPair(hi: int, lo: int)
    requires 0 <= hi < 16 && 0 <= lo < 16
    ensures (16 * hi + lo) / 16 == hi && (16 * hi + lo) % 16 == lo
  {}

  function LowerAll(s: string): (r: string)
    ensures |r| == |s| && forall i :: 0 <= i < |s| ==> r[i] == Lower(s[i])
  {
    seq(|s|, i requires 0 <= i < |s| => Lower(s[i]))
  }

  /** What decodes is the encoding of the bytes, up to letter case. */
  lemma {:induction false} HexDecodeIgnoresCase(s: string)
    requires HexDecode(s).Some?
    ensures HexEncode(HexDecode(s).value) == LowerAll(s)
  {
    if s != "" {
      HexDecodeIgnoresCase(s[2..]);
      HexDigitOfValue(s[0]);
      HexDigitOfValue(s[1]);
      HexPair(HexValue(s[0]).value, HexValue(s[1]).value);
      assert HexDecode(s).value[1..] == HexDecode(s[2..]).value;
      assert LowerAll(s) == [Lower(s[0]), Lower(s[1])] + LowerAll(s[2..]);
    }
  }

  lemma HexEncodeInjective(a: seq<byte>, b: seq<byte>)
    requires HexEncode(a) == HexEncode(b)
    ensures a == b
  {
    HexRoundTrip(a);
    HexRoundTrip(b);
  }

  /** Two texts decode to the same bytes exactly when they agree up to letter case. */
  lemma SameBytesExactly(s: string, t: string)
    requires HexDecode(s).Some? && HexDecode(t).Some?
    ensures HexDecode(s) == HexDecode(t) <==> LowerAll(s) == LowerAll(t)
  {
    HexDecodeIgnoresCase(s);
    HexDecodeIgnoresCase(t);
    if LowerAll(s) == LowerAll(t) { HexEncodeInjective(HexDecode(s).value, HexDecode(t).value); }
  }
}

/** The byte string that is authenticated: every field is preceded by its length in decimal. */
module Framing {
  import opened Options
  import opened Numerals

  function Frame(field: string): string {
    Decimal(|field|) + "|" + field
  }

  function Frames(fields: seq<string>): string {
    if fields == [] then "" else "|" + Frame(fields[0]) + Frames(fields[1..])
  }

  /** All but the first frame are preceded by a separator. */
  function Message(fields: seq<string>): string
    requires fields != []
  {
    Frame(fields[0]) + Frames(fields[1..])
  }

  lemma {:induction false} FramesAppend(fields: seq<string>, last: string)
    ensures Frames(fields + [last]) == Frames(fields) + "|" + Frame(last)
  {
    if fields == [] {
      assert fields + [last] == [last];
    } else {
      assert (fields + [last])[1..] == fields[1..] + [last];
      FramesAppend(fields[1..], last);
    }
  }

  /** The message grows by one frame when a field is added. */
  lemma MessageAppend(fields: seq<string>, last: string)
    requires fields != []
    ensures Message(fields + [last]) == Message(fields) + "|" + Frame(last)
  {
    assert (fields + [last])[1..] == fields[1..] + [last];
    FramesAppend(fields[1..], last);
  }

  lemma {:induction false} FramesConcat(a: seq<string>, b: seq<string>)
    ensures Frames(a + b) == Frames(a) + Frames(b)
  {
    if a == [] {
      assert a + b == b;
    } else {
      assert (a + b)[1..] == a[1..] + b;
      FramesConcat(a[1..], b);
    }
  }

  lemma MessageExtend(fields: seq<string>, more: seq<string>)
    requires fields != []
    ensures Message(fields + more) == Message(fields) + Frames(more)
  {
    assert (fields + more)[1..] == fields[1..] + more;
    FramesConcat(fields[1..], more);
  }

  /** How many characters at the start are digits. */
  function DigitCount(s: string): (n: nat)
    ensures n <= |s| && AllDigits(s[..n]) && (n < |s| ==> !IsDigit(s[n]))
  {
    if s == "" || !IsDigit(s[0]) then 0
    else
      var n := DigitCount(s[1..]);
      assert s[1..][..n] == s[..n + 1][1..];
      n + 1
  }

  /** Reads one frame off the front: its field and what follows. */
  function ParseFrame(s: string): (r: Option<(string, string)>)
    ensures r.Some? ==> |r.value.1| < |s|
  {
    var d := DigitCount(s);
    if d == 0 || d == |s| || s[d] != '|' then None
    else
      var n := DecimalValue(s[..d]);
      if d + 1 + n > |s| then None else Some((s[d + 1..d + 1 + n], s[d + 1 + n..]))
  }

  function ParseFrames(s: string): Option<seq<string>>
    decreases |s|
  {
    if s == "" then Some([])
    else if s[0] != '|' then None
    else
      match ParseFrame(s[1..])
      case None => None
      case Some((field, rest)) =>
        match ParseFrames(rest)
        case None => None
        case Some(fields) => Some([field] + fields)
  }

  function ParseMessage(s: string): Option<seq<string>> {
    ParseFrames("|" + s)
  }

  lemma {:induction false} DigitCountOfPrefix(digits: string, s: string)
    requires AllDigits(digits) && s != "" && !IsDigit(s[0])
    ensures DigitCount(digits + s) == |digits|
  {
    if digits == "" {
      assert digits + s == s;
    } else {
      assert (digits + s)[1..] == digits[1..] + s;
      DigitCountOfPrefix(digits[1..], s);
    }
  }

  /** A frame is read back whatever its field holds and whatever follows it. */
  lemma FrameRoundTrip(field: string, rest: string)
    ensures ParseFrame(Frame(field) + rest) == Some((field, rest))
  {
    var d, s := Decimal(|field|), Frame(field) + rest;
    assert s == d + ("|" + field + rest);
    DigitCountOfPrefix(d, "|" + field + rest);
    DecimalRoundTrip(|field|);
    assert s[..|d|] == d;
    assert s[|d| + 1..|d| + 1 + |field|] == field;
    assert s[|d| + 1 + |field|..] == rest;
  }

  lemma {:induction false} FramesRoundTrip(fields: seq<string>)
    ensures ParseFrames(Frames(fields)) == Some(fields)
  {
    if fields != [] {
      var s := Frames(fields);
      assert s[1..] == Frame(fields[0]) + Frames(fields[1..]);
      FrameRoundTrip(fields[0], Frames(fields[1..]));
      FramesRoundTrip(fields[1..]);
      assert [fields[0]] + fields[1..] == fields;
    }
  }

  /** The whole field list is recovered from the message. */
  lemma MessageRoundTrip(fields: seq<string>)
    requires fields != []
    ensures ParseMessage(Message(fields)) == Some(fields)
  {
    assert "|" + Message(fields) == Frames(fields);
    FramesRoundTrip(fields);
  }

  /** What a signature covers; the route is present when verb and URI are signed. */
  datatype Signed = Signed(timestamp: string, nonce: string, body: string, route: Option<(string, string)>, headers: seq<string>)

  function Fields(m: Signed): (fs: seq<string>)
    ensures |fs| >= 3
  {
    [m.timestamp, m.nonce, m.body] + (if m.route.Some? then [m.route.value.0, m.route.value.1] else []) + m.headers
  }

  function SignedText(m: Signed): string {
    Message(Fields(m))
  }

  /** The text as it is written piece by piece. */
  lemma SignedTextWritten(m: Signed)
    ensures var framed := (field: string) => Decimal(|field|) + "|" + field;
            var fixed := framed(m.timestamp) + "|" + framed(m.nonce) + "|" + framed(m.body);
            SignedText(m) ==
            (if m.route.Some? then fixed + "|" + framed(m.route.value.0) + "|" + framed(m.route.value.1) else fixed) + Frames(m.headers)
  {
    var fields := [m.timestamp, m.nonce, m.body];
    assert Message([m.timestamp]) == Frame(m.timestamp);
    MessageAppend([m.timestamp], m.nonce);
    MessageAppend([m.timestamp, m.nonce], m.body);
    assert fields == [m.timestamp, m.nonce] + [m.body] && [m.timestamp, m.nonce] == [m.timestamp] + [m.nonce];
    if m.route.Some? {
      MessageAppend(fields, m.route.value.0);
      MessageAppend(fields + [m.route.value.0], m.route.value.1);
      fields := fields + [m.route.value.0] + [m.route.value.1];
    }
    MessageExtend(fields, m.headers);
    assert Fields(m) == fields + m.headers;
  }

  function FromFields(withRoute: bool, fs: seq<string>): Option<Signed> {
    if |fs| < 3 then None
    else if !withRoute then Some(Signed(fs[0], fs[1], fs[2], None, fs[3..]))
    else if |fs| < 5 then None
    else Some(Signed(fs[0], fs[1], fs[2], Some((fs[3], fs[4])), fs[5..]))
  }

  /** Reads a signed text back, for a service that does or does not sign verb and URI. */
  function ParseSigned(withRoute: bool, s: string): Option<Signed> {
    match ParseMessage(s)
    case None => None
    case Some(fs) => FromFields(withRoute, fs)
  }

  /** Under a fixed verb-and-URI setting the authenticated bytes determine every signed field. */
  lemma SignedTextRoundTrip(m: Signed)
    ensures ParseSigned(m.route.Some?, SignedText(m)) == Some(m)
  {
    MessageRoundTrip(Fields(m));
  }

  /** Across the two settings two texts coincide exactly when one's first two headers are the other's route. */
  lemma RouteConfusion(a: Signed, b: Signed)
    requires a.route.Some? && b.route.None?
    ensures SignedText(a) == SignedText(b) <==>
      a.(route := None, headers := [a.route.value.0, a.route.value.1] + a.headers) == b
  {
    SignedTextRoundTrip(b);
    var a' := a.(route := None, headers := [a.route.value.0, a.route.value.1] + a.headers);
    assert Fields(a) == Fields(a');
    SignedTextRoundTrip(a');
  }
}
