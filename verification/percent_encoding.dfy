/**
 Percent-encoding of query values as the loader request writes them: the text
 is encoded as UTF-8 and every byte outside the unreserved set
 `A-Z a-z 0-9 - _ . ! ~ * ' ( )` becomes `%` followed by two upper-case hex
 digits (the escaping of `encodeURIComponent` and Node's `querystring`).
 `Unescape` is the decoder, the partner against which `Escape` is proved.
 */
module PercentEncoding {
  import opened Results

  type byte = b: int | 0 <= b < 256

  /** Characters written as themselves. */
  predicate Unreserved(c: char) {
    || ('A' <= c <= 'Z')
    || ('a' <= c <= 'z')
    || ('0' <= c <= '9')
    || c == '-' || c == '_' || c == '.' || c == '!' || c == '~'
    || c == '*' || c == '\'' || c == '(' || c == ')'
  }

  const HexDigits: string := "0123456789ABCDEF"

  /** Value of a hex digit, either case. */
  function HexValue(c: char): (r: Option<nat>)
    ensures r.Some? ==> r.value < 16
  {
    if '0' <= c <= '9' then Some(c as int - '0' as int)
    else if 'A' <= c <= 'F' then Some(c as int - 'A' as int + 10)
    else if 'a' <= c <= 'f' then Some(c as int - 'a' as int + 10)
    else None
  }

  lemma HexDigitValue(k: nat)
    requires k < 16
    ensures HexValue(HexDigits[k]) == Some(k)
  {
  }

  // ---------------------------------------------------------------- UTF-8

  /** The UTF-8 encoding of one Unicode scalar value. */
  function Utf8Char(c: char): (r: seq<byte>)
    ensures 1 <= |r| <= 4
    ensures (|r| == 1) <==> (c as int < 0x80)
  {
    var cp := c as int;
    if cp < 0x80 then [cp]
    else if cp < 0x800 then [0xC0 + cp / 64, 0x80 + cp % 64]
    else if cp < 0x10000 then [0xE0 + cp / 4096, 0x80 + cp / 64 % 64, 0x80 + cp % 64]
    else [0xF0 + cp / 0x40000, 0x80 + cp / 4096 % 64, 0x80 + cp / 64 % 64, 0x80 + cp % 64]
  }

  function Utf8(s: string): seq<byte>
    decreases |s|
  {
    if |s| == 0 then [] else Utf8Char(s[0]) + Utf8(s[1..])
  }

  predicate Continuation(b: byte) {
    0x80 <= b < 0xC0
  }

  /** Decodes the scalar value at the head of `bs` and the number of bytes it took. */
  function DecodeFirst(bs: seq<byte>): (r: Option<(char, nat)>)
    requires |bs| > 0
    ensures r.Some? ==> 1 <= r.value.1 <= |bs|
  {
    var b0: int := bs[0];
    if b0 < 0x80 then Some((b0 as char, 1))
    else if 0xC0 <= b0 < 0xE0 then
      if |bs| < 2 || !Continuation(bs[1]) then None
      else
        var cp := Payload2(b0, bs[1]);
        if cp < 0x80 then None else Some((cp as char, 2))
    else if 0xE0 <= b0 < 0xF0 then
      if |bs| < 3 || !Continuation(bs[1]) || !Continuation(bs[2]) then None
      else
        var cp := Payload3(b0, bs[1], bs[2]);
        if cp < 0x800 || (0xD800 <= cp < 0xE000) then None else Some((cp as char, 3))
    else if 0xF0 <= b0 < 0xF8 then
      if |bs| < 4 || !Continuation(bs[1]) || !Continuation(bs[2]) || !Continuation(bs[3]) then None
      else
        var cp := Payload4(b0, bs[1], bs[2], bs[3]);
        if cp < 0x10000 || cp >= 0x110000 then None else Some((cp as char, 4))
    else None
  }

  // The code point carried by a lead byte and its continuation bytes.
  function Payload2(b0: int, b1: int): int {
    (b0 - 0xC0) * 64 + (b1 - 0x80)
  }

  function Payload3(b0: int, b1: int, b2: int): int {
    (b0 - 0xE0) * 4096 + (b1 - 0x80) * 64 + (b2 - 0x80)
  }

  function Payload4(b0: int, b1: int, b2: int, b3: int): int {
    (b0 - 0xF0) * 0x40000 + (b1 - 0x80) * 4096 + (b2 - 0x80) * 64 + (b3 - 0x80)
  }

  function Utf8Decode(bs: seq<byte>): Option<string>
    decreases |bs|
  {
    if |bs| == 0 then Some("")
    else
      match DecodeFirst(bs)
      case None => None
      case Some((c, n)) =>
        match Utf8Decode(bs[n..])
        case None => None
        case Some(rest) => Some([c] + rest)
  }

  lemma Payload2Inverse(cp: int)
    requires 0x80 <= cp < 0x800
    ensures Payload2(0xC0 + cp / 64, 0x80 + cp % 64) == cp
  {
  }

  lemma Payload3Inverse(cp: int)
    requires 0x800 <= cp < 0x10000
    ensures Payload3(0xE0 + cp / 4096, 0x80 + cp / 64 % 64, 0x80 + cp % 64) == cp
  {
    var q := cp / 64;
    assert (q / 64) * 64 + q % 64 == q;
    assert q / 64 == cp / 4096;
  }

  lemma Payload4Inverse(cp: int)
    requires 0x10000 <= cp < 0x110000
    ensures Payload4(0xF0 + cp / 0x40000, 0x80 + cp / 4096 % 64, 0x80 + cp / 64 % 64, 0x80 + cp % 64) == cp
  {
    var q := cp / 64;
    var q2 := q / 64;
    assert q2 == cp / 4096;
    assert q2 / 64 == cp / 0x40000;
    assert (q2 / 64) * 64 + q2 % 64 == q2;
    assert q2 * 64 + q % 64 == q;
  }

  lemma DecodeFirstUtf8Char(c: char, rest: seq<byte>)
    ensures DecodeFirst(Utf8Char(c) + rest) == Some((c, |Utf8Char(c)|))
  {
    var cp := c as int;
    if 0x80 <= cp < 0x800 {
      Payload2Inverse(cp);
    } else if 0x800 <= cp < 0x10000 {
      Payload3Inverse(cp);
    } else if 0x10000 <= cp {
      Payload4Inverse(cp);
    }
  }

  /** UTF-8 decoding undoes UTF-8 encoding. */
  lemma {:induction false} Utf8RoundTrip(s: string)
    ensures Utf8Decode(Utf8(s)) == Some(s)
    decreases |s|
  {
    if |s| > 0 {
      var head := Utf8Char(s[0]);
      var bs := head + Utf8(s[1..]);
      assert Utf8(s) == bs;
      DecodeFirstUtf8Char(s[0], Utf8(s[1..]));
      assert bs[|head|..] == Utf8(s[1..]);
      Utf8RoundTrip(s[1..]);
      assert s == [s[0]] + s[1..];
    }
  }

  // ------------------------------------------------------- percent escapes

  function EscapeByte(b: byte): string {
    if b < 0x80 && Unreserved(b as char) then [b as char]
    else ['%', HexDigits[b / 16], HexDigits[b % 16]]
  }

  function EscapeBytes(bs: seq<byte>): string
    decreases |bs|
  {
    if |bs| == 0 then "" else EscapeByte(bs[0]) + EscapeBytes(bs[1..])
  }

  /** `encodeURIComponent(s)`. */
  function Escape(s: string): string {
    EscapeBytes(Utf8(s))
  }

  /** Reads `%XX` escapes and unreserved characters back into bytes; any other character is malformed. */
  function PercentDecode(t: string): Option<seq<byte>>
    decreases |t|
  {
    if |t| == 0 then Some([])
    else if t[0] == '%' then
      if |t| < 3 then None
      else
        match (HexValue(t[1]), HexValue(t[2]), PercentDecode(t[3..]))
        case (Some(hi), Some(lo), Some(rest)) => Some([hi * 16 + lo] + rest)
        case _ => None
    else if Unreserved(t[0]) then
      match PercentDecode(t[1..])
      case None => None
      case Some(rest) => Some([t[0] as int] + rest)
    else None
  }

  /**
    `decodeURIComponent(t)` restricted to text made only of unreserved
    characters and `%XX` escapes, the alphabet `Escape` writes: any other
    character (such as a literal `/`, which `decodeURIComponent` keeps) is
    rejected here, as is an escape sequence that is not well-formed UTF-8.
   */
  function Unescape(t: string): Option<string> {
    match PercentDecode(t)
    case None => None
    case Some(bs) => Utf8Decode(bs)
  }

  lemma PercentDecodeEscapeByte(b: byte, t: string)
    ensures PercentDecode(EscapeByte(b) + t) ==
      match PercentDecode(t) case None => None case Some(rest) => Some([b] + rest)
  {
    var u := EscapeByte(b) + t;
    if b < 0x80 && Unreserved(b as char) {
      assert u[1..] == t;
    } else {
      HexDigitValue(b / 16);
      HexDigitValue(b % 16);
      assert u[1] == HexDigits[b / 16] && u[2] == HexDigits[b % 16];
      assert u[3..] == t;
    }
  }

  lemma {:induction false} PercentRoundTrip(bs: seq<byte>)
    ensures PercentDecode(EscapeBytes(bs)) == Some(bs)
    decreases |bs|
  {
    if |bs| > 0 {
      assert EscapeBytes(bs) == EscapeByte(bs[0]) + EscapeBytes(bs[1..]);
      PercentRoundTrip(bs[1..]);
      PercentDecodeEscapeByte(bs[0], EscapeBytes(bs[1..]));
      assert bs == [bs[0]] + bs[1..];
    }
  }

  /** The `file` value of a loader request decodes back to the identifier it was built from. */
  lemma EscapeRoundTrip(s: string)
    ensures Unescape(Escape(s)) == Some(s)
  {
    PercentRoundTrip(Utf8(s));
    Utf8RoundTrip(s);
  }

  /** Escaped text only holds unreserved characters and `%`; in particular no `&`, `=`, `?` or `/`. */
  lemma {:induction false} EscapeBytesAlphabet(bs: seq<byte>)
    ensures forall i :: 0 <= i < |EscapeBytes(bs)| ==> Unreserved(EscapeBytes(bs)[i]) || EscapeBytes(bs)[i] == '%'
    decreases |bs|
  {
    if |bs| > 0 {
      EscapeBytesAlphabet(bs[1..]);
      var head := EscapeByte(bs[0]);
      assert forall k :: 0 <= k < |HexDigits| ==> Unreserved(HexDigits[k]);
      assert forall i :: 0 <= i < |head| ==> Unreserved(head[i]) || head[i] == '%';
      assert EscapeBytes(bs) == head + EscapeBytes(bs[1..]);
    }
  }

  lemma EscapeAlphabet(s: string)
    ensures forall i :: 0 <= i < |Escape(s)| ==> Unreserved(Escape(s)[i]) || Escape(s)[i] == '%'
  {
    EscapeBytesAlphabet(Utf8(s));
  }

  /** Text made only of unreserved characters is written unchanged. */
  lemma {:induction false} EscapeUnreservedIdentity(s: string)
    requires forall i :: 0 <= i < |s| ==> Unreserved(s[i])
    ensures Escape(s) == s
    decreases |s|
  {
    if |s| > 0 {
      EscapeUnreservedChar(s[0]);
      assert Utf8(s) == [s[0] as int] + Utf8(s[1..]);
      assert EscapeBytes(Utf8(s)) == [s[0]] + EscapeBytes(Utf8(s[1..]));
      EscapeUnreservedIdentity(s[1..]);
      assert s == [s[0]] + s[1..];
    }
  }

  lemma EscapeUnreservedChar(c: char)
    requires Unreserved(c)
    ensures Utf8Char(c) == [c as int]
    ensures EscapeByte(c as int) == [c]
  {
  }

  lemma {:induction false} Utf8Append(a: string, b: string)
    ensures Utf8(a + b) == Utf8(a) + Utf8(b)
    decreases |a|
  {
    if |a| == 0 {
      assert a + b == b;
    } else {
      assert (a + b)[0] == a[0] && (a + b)[1..] == a[1..] + b;
      Utf8Append(a[1..], b);
    }
  }

  lemma {:induction false} EscapeBytesAppend(a: seq<byte>, b: seq<byte>)
    ensures EscapeBytes(a + b) == EscapeBytes(a) + EscapeBytes(b)
    decreases |a|
  {
    if |a| == 0 {
      assert a + b == b;
    } else {
      assert (a + b)[0] == a[0] && (a + b)[1..] == a[1..] + b;
      EscapeBytesAppend(a[1..], b);
    }
  }

  /** Escaping works character by character, so it distributes over concatenation. */
  lemma EscapeAppend(a: string, b: string)
    ensures Escape(a + b) == Escape(a) + Escape(b)
  {
    Utf8Append(a, b);
    EscapeBytesAppend(Utf8(a), Utf8(b));
  }
}
