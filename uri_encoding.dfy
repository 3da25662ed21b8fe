/**
 * `encodeURIComponent` on strings of BMP code units: unreserved ASCII is kept,
 * every other unit becomes the percent-encoded bytes of its UTF-8 form, with
 * upper-case hexadecimal digits.
 */
module UriEncoding {
  import opened Wrappers
  import opened JsStrings

  /** The characters `encodeURIComponent` leaves alone: letters, digits and
      `- _ . ! ~ * ' ( )`. */
  predicate IsUnreserved(c: CodeUnit) {
    || ('A' <= c <= 'Z') || ('a' <= c <= 'z') || ('0' <= c <= '9')
    || c == '-' || c == '_' || c == '.' || c == '!' || c == '~' || c == '*'
    || c == '\'' || c == '(' || c == ')'
  }

  type Byte = b: int | 0 <= b < 256

  /** The UTF-8 bytes of one code unit that is not a surrogate. */
  function Utf8(c: CodeUnit): (bytes: seq<Byte>)
    ensures 1 <= |bytes| <= 3
  {
    var n := c as int;
    if n < 0x80 then [n]
    else if n < 0x800 then [0xC0 + n / 64, 0x80 + n % 64]
    else [0xE0 + n / 4096, 0x80 + (n / 64) % 64, 0x80 + n % 64]
  }

  const UpperHex: JsString := "0123456789ABCDEF"

  /** `%` followed by the two upper-case hex digits of a byte. */
  function PercentByte(b: Byte): (r: JsString)
    ensures |r| == 3 && r[0] == '%'
  {
    ['%', UpperHex[b / 16], UpperHex[b % 16]]
  }

  function PercentBytes(bytes: seq<Byte>): (r: JsString)
    ensures |r| == 3 * |bytes|
  {
    if bytes == [] then [] else PercentByte(bytes[0]) + PercentBytes(bytes[1..])
  }

  /** Only unreserved characters and `%` appear in an encoded string. */
  predicate UriSafe(s: JsString) {
    forall i | 0 <= i < |s| :: IsUnreserved(s[i]) || s[i] == '%'
  }

  /** The hex digits of `%XY` are unreserved characters. */
  lemma PercentByteSafe(b: Byte)
    ensures UriSafe(PercentByte(b))
  {
    var r := PercentByte(b);
    assert IsUnreserved(UpperHex[b / 16]) && IsUnreserved(UpperHex[b % 16]);
  }

  lemma {:induction false} PercentBytesSafe(bytes: seq<Byte>)
    ensures UriSafe(PercentBytes(bytes))
  {
    if bytes != [] {
      PercentByteSafe(bytes[0]);
      PercentBytesSafe(bytes[1..]);
      SafeConcat(PercentByte(bytes[0]), PercentBytes(bytes[1..]));
    }
  }

  function EncodeUnit(c: CodeUnit): JsString {
    if IsUnreserved(c) then [c] else PercentBytes(Utf8(c))
  }

  /** `encodeURIComponent(s)`. */
  function Encode(s: JsString): JsString {
    if s == [] then [] else EncodeUnit(s[0]) + Encode(s[1..])
  }

  lemma SafeConcat(a: JsString, b: JsString)
    requires UriSafe(a) && UriSafe(b)
    ensures UriSafe(a + b)
  {
    forall i | 0 <= i < |a + b| ensures IsUnreserved((a + b)[i]) || (a + b)[i] == '%' {
      if i >= |a| {
        assert (a + b)[i] == b[i - |a|];
      }
    }
  }

  lemma {:induction false} EncodeSafe(s: JsString)
    ensures UriSafe(Encode(s))
  {
    if s != [] {
      EncodeSafe(s[1..]);
      if !IsUnreserved(s[0]) {
        PercentBytesSafe(Utf8(s[0]));
      }
      SafeConcat(EncodeUnit(s[0]), Encode(s[1..]));
    }
  }

  /** An encoded component never holds the characters that separate query
      parameters or start a fragment. */
  lemma EncodedHasNoDelimiters(s: JsString)
    ensures '=' !in Encode(s) && '&' !in Encode(s) && '#' !in Encode(s) && '?' !in Encode(s)
  {
    var e := Encode(s);
    EncodeSafe(s);
    SafeHasNoDelimiters(e);
  }

  lemma SafeHasNoDelimiters(e: JsString)
    requires UriSafe(e)
    ensures '=' !in e && '&' !in e && '#' !in e && '?' !in e
  {
    forall i | 0 <= i < |e| ensures e[i] != '=' && e[i] != '&' && e[i] != '#' && e[i] != '?' {
      assert IsUnreserved(e[i]) || e[i] == '%';
    }
  }

  // ---------------------------------------------------------------------
  // The inverse, `decodeURIComponent` on what Encode produces
  // ---------------------------------------------------------------------

  function HexValue(c: CodeUnit): (r: Option<nat>)
    ensures r.Some? ==> r.value < 16
  {
    if '0' <= c <= '9' then Some(c as int - '0' as int)
    else if 'A' <= c <= 'F' then Some(c as int - 'A' as int + 10)
    else if 'a' <= c <= 'f' then Some(c as int - 'a' as int + 10)
    else None
  }

  /** The byte `%XY` at index i, if there is one. */
  function ByteAt(s: JsString, i: nat): (r: Option<Byte>)
    ensures r.Some? ==> i + 3 <= |s|
  {
    if i + 3 <= |s| && s[i] == '%' && HexValue(s[i + 1]).Some? && HexValue(s[i + 2]).Some? then
      Some(HexValue(s[i + 1]).value * 16 + HexValue(s[i + 2]).value)
    else None
  }

  predicate IsContinuation(b: Option<Byte>) {
    b.Some? && 0x80 <= b.value < 0xC0
  }

  /** A decoded scalar below 0x10000 as a code unit, unless it is a
      surrogate. */
  function AsUnit(n: int): Option<CodeUnit> {
    if 0 <= n < 0xD800 || 0xE000 <= n < 0x1_0000 then Some(n as char) else None
  }

  /** Reads one unit at the front of s: a plain character, or one, two or
      three percent-encoded UTF-8 bytes. Returns the unit and how many
      characters it took. */
  function DecodeUnit(s: JsString): (r: Option<(CodeUnit, nat)>)
    requires s != []
    ensures r.Some? ==> 1 <= r.value.1 <= |s|
  {
    if s[0] != '%' then Some((s[0], 1))
    else
      var b0 := ByteAt(s, 0);
      if b0.None? then None
      else if b0.value < 0x80 then Some((b0.value as char, 3))
      else if 0xC0 <= b0.value < 0xE0 then
        var b1 := ByteAt(s, 3);
        if !IsContinuation(b1) then None
        else match AsUnit((b0.value - 0xC0) * 64 + (b1.value - 0x80))
          case None => None
          case Some(u) => Some((u, 6))
      else if 0xE0 <= b0.value < 0xF0 then
        var b1 := ByteAt(s, 3);
        var b2 := ByteAt(s, 6);
        if !IsContinuation(b1) || !IsContinuation(b2) then None
        else match AsUnit((b0.value - 0xE0) * 4096 + (b1.value - 0x80) * 64 + (b2.value - 0x80))
          case None => None
          case Some(u) => Some((u, 9))
      else None
  }

  function Decode(s: JsString): Option<JsString>
    decreases |s|
  {
    if s == [] then Some([])
    else match DecodeUnit(s)
      case None => None
      case Some((u, n)) =>
        match Decode(s[n..])
        case None => None
        case Some(rest) => Some([u] + rest)
  }

  lemma HexDigitValue(d: nat)
    requires d < 16
    ensures HexValue(UpperHex[d]) == Some(d)
  {
  }

  lemma PercentByteValue(b: Byte)
    ensures ByteAt(PercentByte(b), 0) == Some(b)
  {
    HexDigitValue(b / 16);
    HexDigitValue(b % 16);
  }

  /** ByteAt looks at three characters only. */
  lemma ByteAtWindow(s: JsString, i: nat)
    requires i + 3 <= |s|
    ensures ByteAt(s, i) == ByteAt(s[i..i + 3], 0)
  {
  }

  lemma SliceOfFront(a: JsString, b: JsString, i: nat, j: nat)
    requires i <= j <= |a|
    ensures (a + b)[i..j] == a[i..j]
  {
  }

  lemma SliceOfBack(a: JsString, b: JsString, i: nat, j: nat)
    requires |a| <= i <= j <= |a| + |b|
    ensures (a + b)[i..j] == b[i - |a| .. j - |a|]
  {
  }

  lemma {:induction false} PercentBytesWindow(bytes: seq<Byte>, k: nat)
    requires k < |bytes|
    ensures PercentBytes(bytes)[3 * k .. 3 * k + 3] == PercentByte(bytes[k])
  {
    var head := PercentByte(bytes[0]);
    var t := PercentBytes(bytes[1..]);
    assert PercentBytes(bytes) == head + t;
    if k == 0 {
      SliceOfFront(head, t, 0, 3);
    } else {
      PercentBytesWindow(bytes[1..], k - 1);
      SliceOfBack(head, t, 3 * k, 3 * k + 3);
    }
  }

  /** A `%XY` window of a string is read as its byte. */
  lemma ByteAtPercent(s: JsString, i: nat, b: Byte)
    requires i + 3 <= |s| && s[i..i + 3] == PercentByte(b)
    ensures ByteAt(s, i) == Some(b)
  {
    ByteAtWindow(s, i);
    PercentByteValue(b);
  }

  lemma ByteAtOfWindow(p: JsString, rest: JsString, i: nat, b: Byte)
    requires i + 3 <= |p| && p[i..i + 3] == PercentByte(b)
    ensures ByteAt(p + rest, i) == Some(b)
  {
    SliceOfFront(p, rest, i, i + 3);
    ByteAtPercent(p + rest, i, b);
  }

  lemma PercentBytesAt(bytes: seq<Byte>, rest: JsString, k: nat)
    requires k < |bytes|
    ensures ByteAt(PercentBytes(bytes) + rest, 3 * k) == Some(bytes[k])
  {
    PercentBytesWindow(bytes, k);
    ByteAtOfWindow(PercentBytes(bytes), rest, 3 * k, bytes[k]);
  }

  lemma Utf8TwoBytes(n: int)
    requires 0x80 <= n < 0x800
    ensures (0xC0 + n / 64 - 0xC0) * 64 + (0x80 + n % 64 - 0x80) == n
    ensures 0xC0 <= 0xC0 + n / 64 < 0xE0
  {
  }

  lemma Utf8ThreeBytes(n: int)
    requires 0x800 <= n < 0x1_0000
    ensures (0xE0 + n / 4096 - 0xE0) * 4096 + (0x80 + (n / 64) % 64 - 0x80) * 64 + (0x80 + n % 64 - 0x80) == n
    ensures 0xE0 <= 0xE0 + n / 4096 < 0xF0
  {
    assert n / 64 == (n / 4096) * 64 + (n / 64) % 64;
  }

  lemma DecodeOneByte(c: CodeUnit, rest: JsString)
    requires !IsUnreserved(c) && c as int < 0x80
    ensures DecodeUnit(EncodeUnit(c) + rest) == Some((c, 3))
  {
    PercentBytesAt(Utf8(c), rest, 0);
  }

  /** DecodeUnit on two well-formed percent-encoded bytes. */
  lemma DecodeTwoOf(s: JsString, b0: Byte, b1: Byte)
    requires s != [] && s[0] == '%'
    requires ByteAt(s, 0) == Some(b0) && ByteAt(s, 3) == Some(b1)
    requires 0xC0 <= b0 < 0xE0 && 0x80 <= b1 < 0xC0
    ensures DecodeUnit(s) == match AsUnit((b0 - 0xC0) * 64 + (b1 - 0x80))
                             case None => None
                             case Some(u) => Some((u, 6))
  {
  }

  lemma DecodeTwoBytes(c: CodeUnit, rest: JsString)
    requires 0x80 <= c as int < 0x800
    ensures DecodeUnit(EncodeUnit(c) + rest) == Some((c, 6))
  {
    var bytes := Utf8(c);
    var s := EncodeUnit(c) + rest;
    PercentBytesAt(bytes, rest, 0);
    PercentBytesAt(bytes, rest, 1);
    Utf8TwoBytes(c as int);
    assert s[0] == '%';
    DecodeTwoOf(s, bytes[0], bytes[1]);
    assert AsUnit(c as int) == Some(c);
  }

  /** DecodeUnit on three well-formed percent-encoded bytes. */
  lemma DecodeThreeOf(s: JsString, b0: Byte, b1: Byte, b2: Byte)
    requires s != [] && s[0] == '%'
    requires ByteAt(s, 0) == Some(b0) && ByteAt(s, 3) == Some(b1) && ByteAt(s, 6) == Some(b2)
    requires 0xE0 <= b0 < 0xF0 && 0x80 <= b1 < 0xC0 && 0x80 <= b2 < 0xC0
    ensures DecodeUnit(s) == match AsUnit((b0 - 0xE0) * 4096 + (b1 - 0x80) * 64 + (b2 - 0x80))
                             case None => None
                             case Some(u) => Some((u, 9))
  {
  }

  lemma DecodeThreeBytes(c: CodeUnit, rest: JsString)
    requires 0x800 <= c as int
    ensures DecodeUnit(EncodeUnit(c) + rest) == Some((c, 9))
  {
    var n := c as int;
    var b0, b1, b2 := 0xE0 + n / 4096, 0x80 + (n / 64) % 64, 0x80 + n % 64;
    var bytes := Utf8(c);
    assert bytes == [b0, b1, b2];
    var s := EncodeUnit(c) + rest;
    PercentBytesAt(bytes, rest, 0);
    PercentBytesAt(bytes, rest, 1);
    PercentBytesAt(bytes, rest, 2);
    Utf8ThreeBytes(n);
    assert s[0] == '%';
    DecodeThreeOf(s, b0, b1, b2);
    var value := (b0 - 0xE0) * 4096 + (b1 - 0x80) * 64 + (b2 - 0x80);
    assert value == n;
    assert AsUnit(value) == Some(c);
  }

  /** Decoding reads back the unit EncodeUnit wrote and leaves the rest. */
  lemma DecodeUnitOfEncoded(c: CodeUnit, rest: JsString)
    ensures DecodeUnit(EncodeUnit(c) + rest) == Some((c, |EncodeUnit(c)|))
  {
    var n := c as int;
    if IsUnreserved(c) {
    } else if n < 0x80 {
      DecodeOneByte(c, rest);
    } else if n < 0x800 {
      DecodeTwoBytes(c, rest);
    } else {
      DecodeThreeBytes(c, rest);
    }
  }

  /** decodeURIComponent undoes encodeURIComponent. */
  lemma {:induction false} DecodeEncode(s: JsString)
    ensures Decode(Encode(s)) == Some(s)
  {
    if s != [] {
      var e := Encode(s);
      var head := EncodeUnit(s[0]);
      assert e == head + Encode(s[1..]);
      DecodeUnitOfEncoded(s[0], Encode(s[1..]));
      assert e[|head|..] == Encode(s[1..]);
      DecodeEncode(s[1..]);
      assert [s[0]] + s[1..] == s;
    }
  }

  /** So two different strings never encode alike. */
  lemma EncodeInjective(a: JsString, b: JsString)
    ensures Encode(a) == Encode(b) <==> a == b
  {
    DecodeEncode(a);
    DecodeEncode(b);
  }
}
