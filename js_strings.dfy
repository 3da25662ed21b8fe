/**
 * JavaScript strings as sequences of UTF-16 code units, and the handful of
 * `String.prototype` operations the blog's server functions and scripts use:
 * `trim`, `toLowerCase`, `includes` and `split`.
 */
module JsStrings {
  import opened Wrappers

  /** One UTF-16 code unit. Dafny's `char` excludes the surrogate range, so a
      lone surrogate cannot be written down in this model. */
  type CodeUnit = c: char | c as int < 0x1_0000

  type JsString = seq<CodeUnit>

  /** JavaScript truthiness of a value that is either a string or absent. */
  predicate Truthy(s: Option<JsString>) {
    s.Some? && s.value != []
  }

  /** `String(v)` or a template `${v}` for a value that is a string or
      undefined. */
  function StringOf(v: Option<JsString>): JsString {
    if v.Some? then v.value else "undefined"
  }

  /** `v || fallback` for a value that is a string or undefined. */
  function OrElse(v: Option<JsString>, fallback: JsString): JsString {
    if Truthy(v) then v.value else fallback
  }

  // ---------------------------------------------------------------------
  // Whitespace and trim
  // ---------------------------------------------------------------------

  /** WhiteSpace and LineTerminator of ECMAScript: the set that `trim`
      removes and that the regular-expression class `\s` matches. */
  predicate IsSpace(c: CodeUnit) {
    var n := c as int;
    n == 0x09 || n == 0x0A || n == 0x0B || n == 0x0C || n == 0x0D || n == 0x20
    || n == 0xA0 || n == 0x1680 || (0x2000 <= n <= 0x200A) || n == 0x2028
    || n == 0x2029 || n == 0x202F || n == 0x205F || n == 0x3000 || n == 0xFEFF
  }

  predicate AllSpaces(s: JsString) {
    forall i | 0 <= i < |s| :: IsSpace(s[i])
  }

  predicate HasSpace(s: JsString) {
    exists i | 0 <= i < |s| :: IsSpace(s[i])
  }

  /** Neither the first nor the last code unit is whitespace. */
  predicate NoEdgeSpaces(s: JsString) {
    s == [] || (!IsSpace(s[0]) && !IsSpace(s[|s| - 1]))
  }

  /** The length of the longest all-whitespace prefix. */
  function LeadingSpaces(s: JsString): (n: nat)
    ensures n <= |s| && AllSpaces(s[..n])
    ensures n < |s| ==> !IsSpace(s[n])
  {
    if s != [] && IsSpace(s[0]) then
      var m := LeadingSpaces(s[1..]);
      assert s[..m + 1] == [s[0]] + s[1..][..m];
      m + 1
    else 0
  }

  /** The length of the longest all-whitespace suffix. */
  function TrailingSpaces(s: JsString): (n: nat)
    ensures n <= |s| && AllSpaces(s[|s| - n..])
    ensures n < |s| ==> !IsSpace(s[|s| - n - 1])
  {
    if s != [] && IsSpace(s[|s| - 1]) then
      var init := s[..|s| - 1];
      var m := TrailingSpaces(init);
      assert s[|s| - (m + 1)..] == init[|init| - m..] + [s[|s| - 1]];
      m + 1
    else 0
  }

  /** `String.prototype.trim`: r is s with every leading whitespace code unit
      removed and a whitespace suffix removed, and r starts and ends with a
      non-whitespace code unit. */
  function Trim(s: JsString): (r: JsString)
    ensures NoEdgeSpaces(r)
    ensures var lo := LeadingSpaces(s);
            lo + |r| <= |s| && r == s[lo..lo + |r|] && AllSpaces(s[lo + |r|..])
  {
    var t := s[LeadingSpaces(s)..];
    t[..|t| - TrailingSpaces(t)]
  }

  /** Trimming a string without edge whitespace changes nothing. */
  lemma TrimOfTrimmed(s: JsString)
    requires NoEdgeSpaces(s)
    ensures Trim(s) == s
  {
    assert LeadingSpaces(s) == 0;
    assert TrailingSpaces(s) == 0;
  }

  // ---------------------------------------------------------------------
  // Letter case
  // ---------------------------------------------------------------------

  predicate IsUpper(c: CodeUnit) { 'A' <= c <= 'Z' }

  predicate IsLower(c: CodeUnit) { 'a' <= c <= 'z' }

  function LowerUnit(c: CodeUnit): CodeUnit {
    if IsUpper(c) then (c as int + 32) as char else c
  }

  /** `String.prototype.toLowerCase` on the ASCII letters. */
  function Lower(s: JsString): JsString {
    seq(|s|, i requires 0 <= i < |s| => LowerUnit(s[i]))
  }

  /** Two code units are the same letter up to case, or simply equal. */
  predicate SameIgnoringCase(x: CodeUnit, y: CodeUnit) {
    x == y
    || (IsUpper(x) && IsLower(y) && y as int == x as int + 32)
    || (IsLower(x) && IsUpper(y) && x as int == y as int + 32)
  }

  predicate EqualIgnoringCase(a: JsString, b: JsString) {
    |a| == |b| && forall i | 0 <= i < |a| :: SameIgnoringCase(a[i], b[i])
  }

  lemma LowerUnitAgrees(x: CodeUnit, y: CodeUnit)
    ensures LowerUnit(x) == LowerUnit(y) <==> SameIgnoringCase(x, y)
  {
  }

  /** Lower-casing identifies exactly the strings that differ only in the
      case of their letters. */
  lemma LowerIdentifiesCase(a: JsString, b: JsString)
    ensures Lower(a) == Lower(b) <==> EqualIgnoringCase(a, b)
  {
    if Lower(a) == Lower(b) {
      forall i | 0 <= i < |a| ensures SameIgnoringCase(a[i], b[i]) {
        assert Lower(a)[i] == Lower(b)[i];
        LowerUnitAgrees(a[i], b[i]);
      }
    }
    if EqualIgnoringCase(a, b) {
      forall i | 0 <= i < |a| ensures Lower(a)[i] == Lower(b)[i] {
        LowerUnitAgrees(a[i], b[i]);
      }
    }
  }

  /** Lower-casing leaves no upper-case letter, keeps whitespace where it is,
      and is idempotent. */
  lemma LowerFacts(s: JsString)
    ensures forall i | 0 <= i < |s| :: !IsUpper(Lower(s)[i])
    ensures forall i | 0 <= i < |s| :: IsSpace(Lower(s)[i]) == IsSpace(s[i])
    ensures Lower(Lower(s)) == Lower(s)
  {
  }

  // ---------------------------------------------------------------------
  // Substrings, counting, split and join
  // ---------------------------------------------------------------------

  /** t occurs in s starting at index i. */
  predicate OccursAt(s: JsString, t: JsString, i: int) {
    0 <= i <= |s| - |t| && s[i..i + |t|] == t
  }

  /** `String.prototype.includes`. */
  predicate Contains(s: JsString, t: JsString) {
    exists i | 0 <= i <= |s| - |t| :: OccursAt(s, t, i)
  }

  function Count(s: JsString, c: CodeUnit): nat {
    if s == [] then 0 else (if s[0] == c then 1 else 0) + Count(s[1..], c)
  }

  lemma CountZero(s: JsString, c: CodeUnit)
    ensures Count(s, c) == 0 <==> c !in s
  {
    if s != [] {
      CountZero(s[1..], c);
      assert s == [s[0]] + s[1..];
    }
  }

  /** `String.prototype.split` with a one-code-unit separator: one piece
      more than there are separators, and no piece holds a separator. */
  function Split(s: JsString, sep: CodeUnit): (parts: seq<JsString>)
    ensures |parts| == Count(s, sep) + 1
    ensures forall k | 0 <= k < |parts| :: sep !in parts[k]
  {
    if s == [] then [[]]
    else
      var rest := Split(s[1..], sep);
      if s[0] == sep then [[]] + rest
      else [[s[0]] + rest[0]] + rest[1..]
  }

  /** `Array.prototype.join` with a one-code-unit separator. */
  function Join(parts: seq<JsString>, sep: CodeUnit): JsString {
    if parts == [] then []
    else if |parts| == 1 then parts[0]
    else parts[0] + [sep] + Join(parts[1..], sep)
  }

  /** Joining the pieces of a split gives back the string. */
  lemma {:induction false} JoinSplit(s: JsString, sep: CodeUnit)
    ensures Join(Split(s, sep), sep) == s
  {
    if s != [] {
      var rest := Split(s[1..], sep);
      JoinSplit(s[1..], sep);
      if s[0] != sep {
        if |rest| == 1 {
          assert Split(s, sep) == [[s[0]] + rest[0]];
        } else {
          var parts := Split(s, sep);
          assert parts[1..] == rest[1..];
          assert Join(rest, sep) == rest[0] + [sep] + Join(rest[1..], sep);
        }
      }
    }
  }

  lemma {:induction false} SplitPlain(p: JsString, sep: CodeUnit)
    requires sep !in p
    ensures Split(p, sep) == [p]
  {
    if p != [] {
      SplitPlain(p[1..], sep);
      assert [p[0]] + p[1..] == p;
    }
  }

  lemma {:induction false} SplitPiece(p: JsString, sep: CodeUnit, rest: JsString)
    requires sep !in p
    ensures Split(p + [sep] + rest, sep) == [p] + Split(rest, sep)
  {
    if p == [] {
      assert [sep] + rest == p + [sep] + rest;
      assert ([sep] + rest)[1..] == rest;
    } else {
      var s := p + [sep] + rest;
      assert s[1..] == p[1..] + [sep] + rest;
      SplitPiece(p[1..], sep, rest);
      assert [p[0]] + p[1..] == p;
    }
  }

  /** Splitting a join of separator-free pieces gives back the pieces. */
  lemma {:induction false} SplitJoin(parts: seq<JsString>, sep: CodeUnit)
    requires parts != []
    requires forall k | 0 <= k < |parts| :: sep !in parts[k]
    ensures Split(Join(parts, sep), sep) == parts
  {
    if |parts| == 1 {
      SplitPlain(parts[0], sep);
    } else {
      SplitJoin(parts[1..], sep);
      SplitPiece(parts[0], sep, Join(parts[1..], sep));
      assert [parts[0]] + parts[1..] == parts;
    }
  }
}
