/**
 * The three helpers at the top of the public comment function: the IP hash
 * used for rate limiting, the markup sanitiser applied before storage, and
 * the e-mail shape check.
 */
module CommentHelpers {
  import opened Wrappers
  import opened JsStrings

  // ---------------------------------------------------------------------
  // 32-bit integers
  // ---------------------------------------------------------------------

  const TwoTo31: int := 0x8000_0000
  const TwoTo32: int := 0x1_0000_0000

  predicate IsInt32(x: int) { -TwoTo31 <= x < TwoTo31 }

  /** ECMAScript ToInt32 on an integral number: the unique signed 32-bit
      value congruent to x modulo 2^32. */
  function ToInt32(x: int): (r: int)
    ensures IsInt32(r)
    ensures (r - x) % TwoTo32 == 0
  {
    (x + TwoTo31) % TwoTo32 - TwoTo31
  }

  lemma ToInt32Periodic(x: int, k: int)
    ensures ToInt32(x + k * TwoTo32) == ToInt32(x)
  {
    assert (x + k * TwoTo32 + TwoTo31) % TwoTo32 == (x + TwoTo31) % TwoTo32;
  }

  lemma ToInt32Identity(x: int)
    requires IsInt32(x)
    ensures ToInt32(x) == x
  {
  }

  // ---------------------------------------------------------------------
  // hashIP
  // ---------------------------------------------------------------------

  /** One step of the rolling hash: h * 31 + c, wrapped to 32 bits. */
  function HashStep(h: int, c: CodeUnit): int {
    ToInt32(31 * h + c as int)
  }

  /** The hash of a string, folding its code units from left to right
      starting from 0; always a signed 32-bit value. */
  function Hash(s: JsString): (h: int)
    ensures IsInt32(h)
  {
    if s == [] then 0 else HashStep(Hash(s[..|s| - 1]), s[|s| - 1])
  }

  /** The loop body as written, `((hash << 5) - hash) + char` followed by
      `hash & hash`, is the step h * 31 + c wrapped to 32 bits. */
  lemma ShiftSubtractIsStep(h: int, c: CodeUnit)
    requires IsInt32(h)
    ensures ToInt32(ToInt32(h * 32) - h + c as int) == HashStep(h, c)
  {
    var shifted := ToInt32(h * 32);
    var k := (shifted - h * 32) / TwoTo32;
    assert shifted == h * 32 + k * TwoTo32;
    assert shifted - h + c as int == (31 * h + c as int) + k * TwoTo32;
    ToInt32Periodic(31 * h + c as int, k);
  }

  /** The hash depends on the order of the code units: two distinct code
      units give different hashes in the two orders. */
  lemma HashOrderMatters(a: CodeUnit, b: CodeUnit)
    requires a != b
    ensures Hash([a, b]) != Hash([b, a])
  {
    assert [a, b][..1] == [a] && [b, a][..1] == [b];
    assert [a][..0] == [] && [b][..0] == [];
    assert Hash([a]) == a as int && Hash([b]) == b as int;
    ToInt32Identity(31 * (a as int) + b as int);
    ToInt32Identity(31 * (b as int) + a as int);
  }

  /** `Number.prototype.toString(16)` of an integer. */
  const HexDigits: JsString := "0123456789abcdef"

  function HexDigit(d: nat): CodeUnit
    requires d < 16
  {
    HexDigits[d]
  }

  function HexNat(n: nat): (s: JsString)
    ensures s != [] && s[0] != '-'
  {
    if n < 16 then [HexDigit(n)] else HexNat(n / 16) + [HexDigit(n % 16)]
  }

  function HexString(n: int): JsString {
    if n < 0 then ['-'] + HexNat(-n) else HexNat(n)
  }

  /** Reading hexadecimal back, the partner of HexString. */
  function DigitValue(c: CodeUnit): nat {
    if '0' <= c <= '9' then c as int - '0' as int
    else if 'a' <= c <= 'f' then c as int - 'a' as int + 10
    else 0
  }

  function ParseHexNat(s: JsString): nat {
    if s == [] then 0 else 16 * ParseHexNat(s[..|s| - 1]) + DigitValue(s[|s| - 1])
  }

  function ParseHex(s: JsString): int {
    if s != [] && s[0] == '-' then -(ParseHexNat(s[1..]) as int) else ParseHexNat(s)
  }

  lemma DigitRoundTrip(d: nat)
    requires d < 16
    ensures DigitValue(HexDigit(d)) == d
  {
  }

  lemma {:induction false} HexNatRoundTrip(n: nat)
    ensures ParseHexNat(HexNat(n)) == n
  {
    if n < 16 {
      DigitRoundTrip(n);
      assert [HexDigit(n)][..0] == [];
    } else {
      HexNatRoundTrip(n / 16);
      DigitRoundTrip(n % 16);
      var s := HexNat(n);
      assert s[..|s| - 1] == HexNat(n / 16);
      assert s[|s| - 1] == HexDigit(n % 16);
    }
  }

  /** toString(16) loses nothing: it can be read back. */
  lemma HexRoundTrip(n: int)
    ensures ParseHex(HexString(n)) == n
  {
    if n < 0 {
      HexNatRoundTrip(-n);
      assert (['-'] + HexNat(-n))[1..] == HexNat(-n);
    } else {
      HexNatRoundTrip(n);
    }
  }

  /** Two stored `ip_hash` strings are equal exactly when the hashes are. */
  lemma HexInjective(a: int, b: int)
    ensures HexString(a) == HexString(b) <==> a == b
  {
    HexRoundTrip(a);
    HexRoundTrip(b);
  }

  /** `hashIP`: the for loop over the code units, as written. */
  method HashIP(ip: JsString) returns (hex: JsString)
    ensures hex == HexString(Hash(ip))
  {
    var hash := 0;
    for i := 0 to |ip|
      invariant hash == Hash(ip[..i])
    {
      var code := ip[i] as int;
      ShiftSubtractIsStep(hash, ip[i]);
      hash := ToInt32(hash * 32) - hash + code;
      hash := ToInt32(hash);
      assert ip[..i + 1][..i] == ip[..i];
    }
    assert ip[..|ip|] == ip;
    hex := HexString(hash);
  }

  // ---------------------------------------------------------------------
  // sanitizeInput
  // ---------------------------------------------------------------------

  /** The four characters the sanitiser escapes. `&` is not among them. */
  predicate IsEscaped(c: CodeUnit) {
    c == '<' || c == '>' || c == '"' || c == '\''
  }

  predicate FreeOfEscaped(s: JsString) {
    forall i | 0 <= i < |s| :: !IsEscaped(s[i])
  }

  /** `s.replace(/c/g, rep)`. */
  function ReplaceAll(s: JsString, c: CodeUnit, rep: JsString): JsString {
    if s == [] then [] else (if s[0] == c then rep else [s[0]]) + ReplaceAll(s[1..], c, rep)
  }

  /** The replacement chain of `sanitizeInput`, in the order written. */
  function ReplaceChain(t: JsString): JsString {
    ReplaceAll(ReplaceAll(ReplaceAll(ReplaceAll(t, '<', "&lt;"), '>', "&gt;"), '"', "&quot;"), '\'', "&#x27;")
  }

  /** `sanitizeInput`: a falsy input becomes `''`; otherwise the trimmed
      string with the replacement chain applied. */
  function Sanitize(s: Option<JsString>): (r: JsString)
    ensures !Truthy(s) ==> r == []
    ensures FreeOfEscaped(r) && NoEdgeSpaces(r)
    ensures Truthy(s) ==> |r| <= 6 * |s.value|
  {
    if !Truthy(s) then []
    else
      var t := Trim(s.value);
      ChainIsSinglePass(t);
      EscapeFacts(t);
      ReplaceChain(t)
  }

  /** Single-pass reference for the chain: each code unit is mapped on its
      own. */
  function Entity(c: CodeUnit): JsString {
    if c == '<' then "&lt;"
    else if c == '>' then "&gt;"
    else if c == '"' then "&quot;"
    else if c == '\'' then "&#x27;"
    else [c]
  }

  function EscapeEach(t: JsString): JsString {
    if t == [] then [] else Entity(t[0]) + EscapeEach(t[1..])
  }

  lemma {:induction false} ReplaceAllAppend(a: JsString, b: JsString, c: CodeUnit, rep: JsString)
    ensures ReplaceAll(a + b, c, rep) == ReplaceAll(a, c, rep) + ReplaceAll(b, c, rep)
  {
    if a != [] {
      assert (a + b)[1..] == a[1..] + b;
      ReplaceAllAppend(a[1..], b, c, rep);
    } else {
      assert a + b == b;
    }
  }

  lemma ReplaceChainAppend(a: JsString, b: JsString)
    ensures ReplaceChain(a + b) == ReplaceChain(a) + ReplaceChain(b)
  {
    var a1, b1 := ReplaceAll(a, '<', "&lt;"), ReplaceAll(b, '<', "&lt;");
    ReplaceAllAppend(a, b, '<', "&lt;");
    var a2, b2 := ReplaceAll(a1, '>', "&gt;"), ReplaceAll(b1, '>', "&gt;");
    ReplaceAllAppend(a1, b1, '>', "&gt;");
    var a3, b3 := ReplaceAll(a2, '"', "&quot;"), ReplaceAll(b2, '"', "&quot;");
    ReplaceAllAppend(a2, b2, '"', "&quot;");
    ReplaceAllAppend(a3, b3, '\'', "&#x27;");
  }

  lemma ReplaceAllOfOne(x: CodeUnit, c: CodeUnit, rep: JsString)
    ensures ReplaceAll([x], c, rep) == if x == c then rep else [x]
  {
    assert [x][1..] == [];
  }

  lemma {:induction false} ReplaceAllAbsent(s: JsString, c: CodeUnit, rep: JsString)
    requires c !in s
    ensures ReplaceAll(s, c, rep) == s
  {
    if s != [] {
      ReplaceAllAbsent(s[1..], c, rep);
      assert [s[0]] + s[1..] == s;
    }
  }

  /** The chain on one code unit that is not escaped leaves it alone. */
  lemma ChainOfPlain(x: CodeUnit)
    requires !IsEscaped(x)
    ensures ReplaceChain([x]) == [x]
  {
    ReplaceAllOfOne(x, '<', "&lt;");
    ReplaceAllOfOne(x, '>', "&gt;");
    ReplaceAllOfOne(x, '"', "&quot;");
    ReplaceAllOfOne(x, '\'', "&#x27;");
  }

  /** Once a code unit is replaced, the later calls find nothing in its
      replacement. */
  lemma ChainAfterReplacement(rep: JsString)
    requires FreeOfEscaped(rep)
    ensures ReplaceAll(ReplaceAll(ReplaceAll(rep, '>', "&gt;"), '"', "&quot;"), '\'', "&#x27;") == rep
    ensures ReplaceAll(ReplaceAll(rep, '"', "&quot;"), '\'', "&#x27;") == rep
    ensures ReplaceAll(rep, '\'', "&#x27;") == rep
  {
    ReplaceAllAbsent(rep, '>', "&gt;");
    ReplaceAllAbsent(rep, '"', "&quot;");
    ReplaceAllAbsent(rep, '\'', "&#x27;");
  }

  lemma ReplaceChainOfOne(x: CodeUnit)
    ensures ReplaceChain([x]) == Entity(x)
  {
    if !IsEscaped(x) {
      ChainOfPlain(x);
    } else {
      ReplaceAllOfOne(x, '<', "&lt;");
      if x == '<' {
        ChainAfterReplacement("&lt;");
      } else {
        ReplaceAllOfOne(x, '>', "&gt;");
        if x == '>' {
          ChainAfterReplacement("&gt;");
        } else {
          ReplaceAllOfOne(x, '"', "&quot;");
          if x == '"' {
            ChainAfterReplacement("&quot;");
          } else {
            ReplaceAllOfOne(x, '\'', "&#x27;");
          }
        }
      }
    }
  }

  /** The four chained `replace` calls act as one pass over the code units:
      no replacement text contains a character that a later call looks for. */
  lemma {:induction false} ChainIsSinglePass(t: JsString)
    ensures ReplaceChain(t) == EscapeEach(t)
  {
    if t != [] {
      assert t == [t[0]] + t[1..];
      ReplaceChainAppend([t[0]], t[1..]);
      ReplaceChainOfOne(t[0]);
      ChainIsSinglePass(t[1..]);
    }
  }

  lemma FreeConcat(a: JsString, b: JsString)
    requires FreeOfEscaped(a) && FreeOfEscaped(b)
    ensures FreeOfEscaped(a + b)
  {
    forall i | 0 <= i < |a + b| ensures !IsEscaped((a + b)[i]) {
      if i >= |a| {
        assert (a + b)[i] == b[i - |a|];
      }
    }
  }

  lemma {:induction false} EscapeFree(t: JsString)
    ensures FreeOfEscaped(EscapeEach(t))
  {
    if t != [] {
      EscapeFree(t[1..]);
      FreeConcat(Entity(t[0]), EscapeEach(t[1..]));
    }
  }

  lemma {:induction false} EscapeLength(t: JsString)
    ensures (EscapeEach(t) == []) == (t == [])
    ensures |EscapeEach(t)| <= 6 * |t|
  {
    if t != [] {
      EscapeLength(t[1..]);
    }
  }

  lemma {:induction false} EscapeKeepsFree(t: JsString)
    requires FreeOfEscaped(t)
    ensures EscapeEach(t) == t
  {
    if t != [] {
      assert FreeOfEscaped(t[1..]) by {
        forall i | 0 <= i < |t| - 1 ensures !IsEscaped(t[1..][i]) {
          assert t[1..][i] == t[i + 1];
        }
      }
      EscapeKeepsFree(t[1..]);
      assert Entity(t[0]) == [t[0]];
      assert [t[0]] + t[1..] == t;
    }
  }

  lemma EscapeEdges(t: JsString)
    requires NoEdgeSpaces(t)
    ensures NoEdgeSpaces(EscapeEach(t))
  {
    if t != [] {
      var e := Entity(t[0]);
      assert EscapeEach(t) == e + EscapeEach(t[1..]);
      assert EscapeEach(t)[0] == e[0];
      EscapeLast(t);
    }
  }

  /** What the single pass produces: none of the four characters, the same
      edges as far as whitespace goes, at most six code units per input code
      unit, and nothing changed where there was nothing to escape. */
  lemma EscapeFacts(t: JsString)
    ensures FreeOfEscaped(EscapeEach(t))
    ensures NoEdgeSpaces(t) ==> NoEdgeSpaces(EscapeEach(t))
    ensures (EscapeEach(t) == []) == (t == [])
    ensures |EscapeEach(t)| <= 6 * |t|
    ensures FreeOfEscaped(t) ==> EscapeEach(t) == t
  {
    EscapeFree(t);
    EscapeLength(t);
    if NoEdgeSpaces(t) {
      EscapeEdges(t);
    }
    if FreeOfEscaped(t) {
      EscapeKeepsFree(t);
    }
  }

  /** The last code unit of the escaped string is whitespace exactly when
      the input's last one is. */
  lemma {:induction false} EscapeLast(t: JsString)
    requires t != []
    ensures EscapeEach(t) != []
    ensures IsSpace(EscapeEach(t)[|EscapeEach(t)| - 1]) == IsSpace(t[|t| - 1])
  {
    var e := Entity(t[0]);
    if |t| == 1 {
      assert EscapeEach(t) == e + [];
    } else {
      EscapeLast(t[1..]);
      var rest := EscapeEach(t[1..]);
      var whole := EscapeEach(t);
      assert whole == e + rest;
      assert whole[|whole| - 1] == rest[|rest| - 1];
      assert t[1..][|t| - 2] == t[|t| - 1];
    }
  }

  /** Sanitising twice is sanitising once. */
  lemma SanitizeIdempotent(s: Option<JsString>)
    ensures Sanitize(Some(Sanitize(s))) == Sanitize(s)
  {
    var r := Sanitize(s);
    if r != [] {
      TrimOfTrimmed(r);
      ChainIsSinglePass(r);
      EscapeFacts(r);
    }
  }

  /** `&` is left alone, so the sanitiser cannot be undone: a literal `<` and
      the text `&lt;` are stored alike. */
  lemma SanitizeMergesAmpersand()
    ensures Sanitize(Some("<")) == Sanitize(Some("&lt;")) == "&lt;"
  {
    SanitizeLessThan();
    SanitizeEntityText();
  }

  lemma SanitizeLessThan()
    ensures Sanitize(Some("<")) == "&lt;"
  {
    var lt: JsString := "<";
    SanitizeTrimmed(lt);
    assert EscapeEach(lt) == Entity('<') + EscapeEach([]);
  }

  lemma SanitizeEntityText()
    ensures Sanitize(Some("&lt;")) == "&lt;"
  {
    var ent: JsString := "&lt;";
    assert NoEdgeSpaces(ent);
    assert FreeOfEscaped(ent) by {
      forall i | 0 <= i < 4 ensures !IsEscaped(ent[i]) {
        assert ent[i] in {'&', 'l', 't', ';'};
      }
    }
    SanitizeOfFree(ent);
  }

  /** A string with nothing to escape and no surrounding white space comes
      through the sanitiser unchanged. */
  lemma SanitizeOfFree(t: JsString)
    requires t != [] && NoEdgeSpaces(t) && FreeOfEscaped(t)
    ensures Sanitize(Some(t)) == t
  {
    SanitizeTrimmed(t);
    EscapeKeepsFree(t);
  }

  /** On a non-empty string without surrounding white space the sanitiser
      is the single pass. */
  lemma SanitizeTrimmed(t: JsString)
    requires t != [] && NoEdgeSpaces(t)
    ensures Sanitize(Some(t)) == EscapeEach(t)
  {
    TrimOfTrimmed(t);
    ChainIsSinglePass(t);
  }

  // ---------------------------------------------------------------------
  // isValidEmail
  // ---------------------------------------------------------------------

  /** A run matched by `[^\s@]+`. */
  predicate Plain(s: JsString) {
    s != [] && forall k | 0 <= k < |s| :: !IsSpace(s[k]) && s[k] != '@'
  }

  /** `/^[^\s@]+@[^\s@]+\.[^\s@]+$/.test(s)`: s splits at an `@` (index i)
      and a later `.` (index j) into three non-empty runs. */
  predicate MatchesEmailPattern(s: JsString) {
    exists i, j | 0 < i && i + 1 < j && j + 1 < |s| ::
      s[i] == '@' && s[j] == '.' && Plain(s[..i]) && Plain(s[i + 1..j]) && Plain(s[j + 1..])
  }

  /** `isValidEmail`: an absent or empty address is accepted. */
  function IsValidEmail(email: Option<JsString>): (ok: bool)
    ensures !Truthy(email) ==> ok
    ensures Truthy(email) && ok ==> |email.value| >= 5 && !HasSpace(email.value)
  {
    if !Truthy(email) then true
    else
      EmailShapeLength(email.value);
      MatchesEmailPattern(email.value)
  }

  lemma EmailShapeLength(s: JsString)
    ensures MatchesEmailPattern(s) ==> |s| >= 5 && !HasSpace(s)
  {
    if MatchesEmailPattern(s) {
      var i, j :| 0 < i && i + 1 < j && j + 1 < |s| &&
        s[i] == '@' && s[j] == '.' && Plain(s[..i]) && Plain(s[i + 1..j]) && Plain(s[j + 1..]);
      PartsArePlain(s, i, j);
    }
  }

  /** The three runs of a matched address hold no white space and no `@`. */
  lemma PartsArePlain(s: JsString, i: int, j: int)
    requires 0 < i && i + 1 < j && j + 1 < |s| && s[i] == '@' && s[j] == '.'
    requires Plain(s[..i]) && Plain(s[i + 1..j]) && Plain(s[j + 1..])
    ensures forall k | 0 <= k < |s| :: !IsSpace(s[k]) && (k != i ==> s[k] != '@')
  {
    forall k | 0 <= k < i ensures !IsSpace(s[k]) && s[k] != '@' {
      assert s[..i][k] == s[k];
    }
    forall k | i < k < j ensures !IsSpace(s[k]) && s[k] != '@' {
      assert s[i + 1..j][k - i - 1] == s[k];
    }
    forall k | j < k < |s| ensures !IsSpace(s[k]) && s[k] != '@' {
      assert s[j + 1..][k - j - 1] == s[k];
    }
  }

  /** The only `@` of s is at index i. */
  predicate OnlyAtAt(s: JsString, i: int) {
    0 <= i < |s| && s[i] == '@' && forall k | 0 <= k < |s| && k != i :: s[k] != '@'
  }

  /** The domain has a `.` with something on both sides. */
  predicate DotInside(d: JsString) {
    exists j | 0 < j < |d| - 1 :: d[j] == '.'
  }

  predicate PlainWords(s: JsString) {
    !HasSpace(s) && exists i | 0 < i < |s| :: OnlyAtAt(s, i) && DotInside(s[i + 1..])
  }

  lemma PatternGivesPlainWords(s: JsString)
    requires MatchesEmailPattern(s)
    ensures PlainWords(s)
  {
    var i, j :| 0 < i && i + 1 < j && j + 1 < |s| &&
      s[i] == '@' && s[j] == '.' && Plain(s[..i]) && Plain(s[i + 1..j]) && Plain(s[j + 1..]);
    PartsArePlain(s, i, j);
    assert OnlyAtAt(s, i);
    assert s[i + 1..][j - i - 1] == '.';
    assert DotInside(s[i + 1..]);
    EmailShapeLength(s);
  }

  lemma PlainWordsGivePattern(s: JsString)
    requires PlainWords(s)
    ensures MatchesEmailPattern(s)
  {
    var i :| 0 < i < |s| && OnlyAtAt(s, i) && DotInside(s[i + 1..]);
    var d := s[i + 1..];
    var jd :| 0 < jd < |d| - 1 && d[jd] == '.';
    var j := i + 1 + jd;
    assert s[j] == '.';
    assert Plain(s[..i]);
    assert Plain(s[i + 1..j]);
    assert Plain(s[j + 1..]);
  }

  /** The pattern in plain words: no whitespace, exactly one `@` and it is not
      the first code unit, and a `.` inside the part after it. */
  lemma EmailPatternMeans(s: JsString)
    ensures MatchesEmailPattern(s) <==>
      !HasSpace(s) && exists i | 0 < i < |s| :: OnlyAtAt(s, i) && DotInside(s[i + 1..])
  {
    if MatchesEmailPattern(s) {
      PatternGivesPlainWords(s);
    }
    if PlainWords(s) {
      PlainWordsGivePattern(s);
    }
  }
}
