/** URI component encoding as `encodeURIComponent` performs it (section 19.2.6 of
    ECMA-262, URI Handling Functions): letters, digits and the marks
    `- _ . ! ~ * ' ( )` pass through; every other character is written as the UTF-8
    bytes of its code point, each as a `%XX` triple with upper-case hex digits
    (section 2.1 of RFC 3986). `Decode` is `decodeURIComponent`, the inverse, used
    here as the reference the encoder is proved against. Characters are Unicode
    scalar values, so the lone surrogates on which `encodeURIComponent` throws do
    not arise. */
module UriEncoding {
  import opened Util

  type Byte = b: int | 0 <= b < 256

  predicate IsAlpha(c: char) { 'A' <= c <= 'Z' || 'a' <= c <= 'z' }

  predicate IsDigit(c: char) { '0' <= c <= '9' }

  predicate IsMark(c: char)
  {
    c == '-' || c == '_' || c == '.' || c == '!' || c == '~' || c == '*' || c == '\'' || c == '(' || c == ')'
  }

  /** The characters `encodeURIComponent` leaves unescaped. */
  predicate IsUnreserved(c: char) { IsAlpha(c) || IsDigit(c) || IsMark(c) }

  predicate IsUpperHex(c: char) { '0' <= c <= '9' || 'A' <= c <= 'F' }

  /** Hex digits as a decoder accepts them, in either case. */
  predicate IsHexDigit(c: char) { IsUpperHex(c) || 'a' <= c <= 'f' }

  function HexDigit(n: int): (c: char)
    requires 0 <= n < 16
    ensures IsUpperHex(c) && HexValue(c) == n
  {
    if n < 10 then ('0' as int + n) as char else ('A' as int + n - 10) as char
  }

  function HexValue(c: char): (n: int)
    requires IsHexDigit(c)
    ensures 0 <= n < 16
  {
    if '0' <= c <= '9' then c as int - '0' as int
    else if 'A' <= c <= 'F' then c as int - 'A' as int + 10
    else c as int - 'a' as int + 10
  }

  /** One `%XX` triple. */
  function Percent(b: Byte): string
  {
    ['%', HexDigit(b / 16), HexDigit(b % 16)]
  }

  function PercentAll(bs: seq<Byte>): (s: string)
    ensures |s| == 3 * |bs|
  {
    if bs == [] then [] else Percent(bs[0]) + PercentAll(bs[1..])
  }

  /** The UTF-8 encoding of a Unicode scalar value (section 3 of RFC 3629). */
  function Utf8(c: char): (bs: seq<Byte>)
    ensures 1 <= |bs| <= 4
  {
    var cp := c as int;
    if cp < 0x80 then [cp]
    else if cp < 0x800 then [0xC0 + cp / 64, 0x80 + cp % 64]
    else if cp < 0x1_0000 then [0xE0 + cp / 64 / 64, 0x80 + cp / 64 % 64, 0x80 + cp % 64]
    else [0xF0 + cp / 64 / 64 / 64, 0x80 + cp / 64 / 64 % 64, 0x80 + cp / 64 % 64, 0x80 + cp % 64]
  }

  function EncodeChar(c: char): string
  {
    if IsUnreserved(c) then [c] else PercentAll(Utf8(c))
  }

  /** `encodeURIComponent(s)`: every character is kept or replaced by at least one
      `%XX` triple, so the result is never shorter. */
  function Encode(s: string): (r: string)
    ensures |r| >= |s|
  {
    if s == [] then [] else EncodeChar(s[0]) + Encode(s[1..])
  }

  /** The encoder's output is always well formed: unreserved characters and
      complete `%XX` triples only. */
  lemma {:induction false} EncodeWellFormed(s: string)
    ensures IsEncoded(Encode(s))
  {
    if s != [] {
      EncodeWellFormed(s[1..]);
      EncodeCharPrefix(s[0], Encode(s[1..]));
    }
  }

  /** Well-formed output: each character is unreserved or starts a `%XX` triple
      with upper-case hex digits. */
  predicate IsEncoded(r: string)
    decreases |r|
  {
    if r == [] then true
    else if IsUnreserved(r[0]) then IsEncoded(r[1..])
    else |r| >= 3 && r[0] == '%' && IsUpperHex(r[1]) && IsUpperHex(r[2]) && IsEncoded(r[3..])
  }

  lemma EncodeCharPrefix(c: char, b: string)
    requires IsEncoded(b)
    ensures IsEncoded(EncodeChar(c) + b)
  {
    if IsUnreserved(c) {
      assert ([c] + b)[1..] == b;
    } else {
      EncodedPrefix(Utf8(c), b);
    }
  }

  lemma {:induction false} EncodedPrefix(bs: seq<Byte>, b: string)
    requires IsEncoded(b)
    ensures IsEncoded(PercentAll(bs) + b)
  {
    if bs != [] {
      EncodedPrefix(bs[1..], b);
      var rest := PercentAll(bs[1..]) + b;
      EncodedTriple(Percent(bs[0]), rest);
      assert PercentAll(bs) + b == Percent(bs[0]) + rest;
    } else {
      assert PercentAll(bs) + b == b;
    }
  }

  lemma EncodedTriple(p: string, rest: string)
    requires |p| == 3 && p[0] == '%' && IsUpperHex(p[1]) && IsUpperHex(p[2]) && IsEncoded(rest)
    ensures IsEncoded(p + rest)
  {
    var r := p + rest;
    assert r[0] == '%' && !IsUnreserved(r[0]);
    assert r[1] == p[1] && r[2] == p[2] && r[3..] == rest;
  }

  /** An encoded string holds none of the characters that delimit a URI query or
      fragment. */
  lemma {:induction false} EncodedHasNoDelimiters(r: string)
    requires IsEncoded(r)
    ensures forall k :: 0 <= k < |r| ==> r[k] != '&' && r[k] != '=' && r[k] != '?' && r[k] != '#'
    decreases |r|
  {
    if r != [] {
      if IsUnreserved(r[0]) {
        EncodedHasNoDelimiters(r[1..]);
        assert forall k :: 1 <= k < |r| ==> r[k] == r[1..][k - 1];
      } else {
        EncodedHasNoDelimiters(r[3..]);
        assert forall k :: 3 <= k < |r| ==> r[k] == r[3..][k - 3];
      }
    }
  }

  /** The byte a `%XX` triple at the front of `s` stands for. */
  function ParsePercent(s: string): Option<Byte>
  {
    if |s| >= 3 && s[0] == '%' && IsHexDigit(s[1]) && IsHexDigit(s[2])
    then Some(HexValue(s[1]) * 16 + HexValue(s[2]))
    else None
  }

  /** The bytes of a string made only of `%XX` triples. */
  function ParseTriples(s: string): Option<seq<Byte>>
    decreases |s|
  {
    if s == [] then Some([])
    else match ParsePercent(s)
      case None => None
      case Some(b) =>
        match ParseTriples(s[3..])
        case None => None
        case Some(bs) => Some([b] + bs)
  }

  predicate IsContinuation(b: Byte) { 0x80 <= b < 0xC0 }

  /** The length of the UTF-8 sequence a lead byte announces; 0 for a byte that
      cannot start one (a continuation byte, or more than four leading ones). */
  function SequenceLength(b: Byte): nat
  {
    if b < 0x80 then 1
    else if b < 0xC0 then 0
    else if b < 0xE0 then 2
    else if b < 0xF0 then 3
    else if b < 0xF8 then 4
    else 0
  }

  /** The scalar value a complete UTF-8 sequence encodes, rejecting overlong
      forms, surrogates and values above U+10FFFF. */
  function Utf8Decode(bs: seq<Byte>): Option<char>
  {
    if |bs| == 1 && bs[0] < 0x80 then Some(bs[0] as char)
    else if |bs| == 2 && 0xC0 <= bs[0] < 0xE0 && IsContinuation(bs[1]) then
      var cp := (bs[0] as int - 0xC0) * 64 + (bs[1] as int - 0x80);
      if 0x80 <= cp then Some(cp as char) else None
    else if |bs| == 3 && 0xE0 <= bs[0] < 0xF0 && IsContinuation(bs[1]) && IsContinuation(bs[2]) then
      var cp := ((bs[0] as int - 0xE0) * 64 + (bs[1] as int - 0x80)) * 64 + (bs[2] as int - 0x80);
      if 0x800 <= cp && !(0xD800 <= cp < 0xE000) then Some(cp as char) else None
    else if |bs| == 4 && 0xF0 <= bs[0] < 0xF8 && IsContinuation(bs[1]) && IsContinuation(bs[2]) && IsContinuation(bs[3]) then
      var cp := (((bs[0] as int - 0xF0) * 64 + (bs[1] as int - 0x80)) * 64 + (bs[2] as int - 0x80)) * 64 + (bs[3] as int - 0x80);
      if 0x1_0000 <= cp < 0x11_0000 then Some(cp as char) else None
    else None
  }

  function Prepend(c: char, r: Option<string>): Option<string>
  {
    match r
    case Some(t) => Some([c] + t)
    case None => None
  }

  /** `decodeURIComponent(s)`: `None` where it throws a `URIError` (a `%` not
      followed by two hex digits, a byte sequence that is not UTF-8). */
  function Decode(s: string): Option<string>
    decreases |s|
  {
    if s == [] then Some([])
    else if s[0] != '%' then Prepend(s[0], Decode(s[1..]))
    else match ParsePercent(s)
      case None => None
      case Some(lead) =>
        var n := SequenceLength(lead);
        if n == 0 || |s| < 3 * n then None
        else match ParseTriples(s[..3 * n])
          case None => None
          case Some(bs) =>
            match Utf8Decode(bs)
            case None => None
            case Some(c) => Prepend(c, Decode(s[3 * n..]))
  }

  lemma HexRoundTrip(b: Byte)
    ensures ParsePercent(Percent(b)) == Some(b)
  {
  }

  lemma {:induction false} ParseTriplesRoundTrip(bs: seq<Byte>, t: string)
    ensures ParseTriples(PercentAll(bs)) == Some(bs)
    ensures bs != [] ==> ParsePercent(PercentAll(bs) + t) == Some(bs[0])
  {
    if bs != [] {
      ParseTriplesRoundTrip(bs[1..], t);
      var s := PercentAll(bs);
      HexRoundTrip(bs[0]);
      assert s[..3] == Percent(bs[0]);
      assert ParsePercent(s) == Some(bs[0]);
      assert [bs[0]] + bs[1..] == bs;
      assert s[3..] == PercentAll(bs[1..]);
      assert (s + t)[..3] == Percent(bs[0]);
    }
  }

  /** UTF-8 decoding undoes UTF-8 encoding, and the lead byte announces the length. */
  lemma Utf8RoundTrip(c: char)
    ensures SequenceLength(Utf8(c)[0]) == |Utf8(c)|
    ensures Utf8Decode(Utf8(c)) == Some(c)
  {
    var cp := c as int;
    if cp < 0x80 {
    } else if cp < 0x800 {
      Utf8Two(cp);
    } else if cp < 0x1_0000 {
      Utf8Three(cp);
    } else {
      Utf8Four(cp);
    }
  }

  lemma Utf8Two(cp: int)
    requires 0x80 <= cp < 0x800
    ensures 0xC0 <= 0xC0 + cp / 64 < 0xE0 && 0 <= cp % 64 < 64
    ensures (0xC0 + cp / 64 - 0xC0) * 64 + (0x80 + cp % 64 - 0x80) == cp
  {
  }

  lemma Utf8Three(cp: int)
    requires 0x800 <= cp < 0x1_0000
    ensures 0xE0 <= 0xE0 + cp / 64 / 64 < 0xF0 && 0 <= cp / 64 % 64 < 64 && 0 <= cp % 64 < 64
    ensures ((cp / 64 / 64) * 64 + cp / 64 % 64) * 64 + cp % 64 == cp
  {
    var q1 := cp / 64;
    assert cp == q1 * 64 + cp % 64;
    assert q1 == q1 / 64 * 64 + q1 % 64;
  }

  lemma Utf8Four(cp: int)
    requires 0x1_0000 <= cp < 0x11_0000
    ensures 0xF0 <= 0xF0 + cp / 64 / 64 / 64 < 0xF8
    ensures 0 <= cp / 64 / 64 % 64 < 64 && 0 <= cp / 64 % 64 < 64 && 0 <= cp % 64 < 64
    ensures (((cp / 64 / 64 / 64) * 64 + cp / 64 / 64 % 64) * 64 + cp / 64 % 64) * 64 + cp % 64 == cp
  {
    var q1 := cp / 64;
    var q2 := q1 / 64;
    assert cp == q1 * 64 + cp % 64;
    assert q1 == q2 * 64 + q1 % 64;
    assert q2 == q2 / 64 * 64 + q2 % 64;
  }

  /** Decoding one encoded character in front of any rest yields that character. */
  lemma DecodeEncodedChar(c: char, t: string)
    ensures Decode(EncodeChar(c) + t) == Prepend(c, Decode(t))
  {
    var s := EncodeChar(c) + t;
    if IsUnreserved(c) {
      assert s[1..] == t;
    } else {
      var bs := Utf8(c);
      Utf8RoundTrip(c);
      ParseTriplesRoundTrip(bs, t);
      var n := |bs|;
      assert s[..3 * n] == PercentAll(bs);
      assert s[3 * n..] == t;
    }
  }

  /** `decodeURIComponent(encodeURIComponent(s)) == s` for every string. */
  lemma {:induction false} DecodeEncode(s: string)
    ensures Decode(Encode(s)) == Some(s)
  {
    if s != [] {
      DecodeEncode(s[1..]);
      DecodeEncodedChar(s[0], Encode(s[1..]));
      assert [s[0]] + s[1..] == s;
    }
  }

  /** Encoding is injective: different strings never encode alike. */
  lemma EncodeInjective(s: string, t: string)
    requires Encode(s) == Encode(t)
    ensures s == t
  {
    DecodeEncode(s);
    DecodeEncode(t);
  }

  /** Encoding distributes over concatenation. */
  lemma {:induction false} EncodeConcat(a: string, b: string)
    ensures Encode(a + b) == Encode(a) + Encode(b)
  {
    if a != [] {
      calc {
        Encode(a + b);
      == { assert (a + b)[0] == a[0] && (a + b)[1..] == a[1..] + b; }
        EncodeChar(a[0]) + Encode(a[1..] + b);
      == { EncodeConcat(a[1..], b); }
        EncodeChar(a[0]) + (Encode(a[1..]) + Encode(b));
      }
    } else {
      assert a + b == b;
    }
  }

  /** A string of unreserved characters encodes as itself. */
  lemma {:induction false} EncodeUnreservedIdentity(s: string)
    requires AllUnreserved(s)
    ensures Encode(s) == s
  {
    if s != [] {
      EncodeUnreservedIdentity(s[1..]);
    }
  }

  predicate AllUnreserved(s: string)
  {
    forall k :: 0 <= k < |s| ==> IsUnreserved(s[k])
  }

  /** Encoding a string that starts with one character escapes that character
      and goes on with the rest. */
  lemma EncodeCharThen(c: char, rest: string)
    ensures Encode([c] + rest) == EncodeChar(c) + Encode(rest)
  {
    assert ([c] + rest)[1..] == rest;
  }

  /** A leading run of unreserved characters is copied through. */
  lemma EncodeWordThen(w: string, rest: string)
    requires AllUnreserved(w)
    ensures Encode(w + rest) == w + Encode(rest)
  {
    EncodeConcat(w, rest);
    EncodeUnreservedIdentity(w);
  }

  /** A string without `%` decodes as itself. */
  lemma {:induction false} DecodePlain(s: string)
    requires forall k :: 0 <= k < |s| ==> s[k] != '%'
    ensures Decode(s) == Some(s)
  {
    if s != [] {
      DecodePlain(s[1..]);
      assert [s[0]] + s[1..] == s;
    }
  }

  /** An ASCII character outside the unreserved set becomes one upper-case `%XX`
      triple: `%20` for a space, `%0A` for a line feed. */
  lemma EncodeAsciiChar(c: char)
    requires c < 128 as char && !IsUnreserved(c)
    ensures EncodeChar(c) == Percent(c as int)
    ensures EncodeChar(' ') == "%20" && EncodeChar('\n') == "%0A"
  {
    assert PercentAll([c as int]) == Percent(c as int) + PercentAll([]);
    assert PercentAll([32]) == Percent(32) + PercentAll([]);
    assert PercentAll([10]) == Percent(10) + PercentAll([]);
  }
}
