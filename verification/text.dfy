/** The string primitives the browser shell relies on: `trim`, `toLowerCase`,
    `includes`, `startsWith` and the decimal rendering of a timestamp id. */
module Text {

  /** The characters `String.prototype.trim` strips: the ECMAScript WhiteSpace
      and LineTerminator code points. */
  predicate IsWhitespace(c: char) {
    || c == '\t' || c == '\n' || c == '\U{000B}' || c == '\U{000C}' || c == '\r'
    || c == ' ' || c == '\U{00A0}' || c == '\U{1680}'
    || ('\U{2000}' <= c <= '\U{200A}')
    || c == '\U{2028}' || c == '\U{2029}' || c == '\U{202F}' || c == '\U{205F}'
    || c == '\U{3000}' || c == '\U{FEFF}'
  }

  ghost predicate AllWhitespace(s: string) {
    forall i :: 0 <= i < |s| ==> IsWhitespace(s[i])
  }

  /** The number of whitespace characters `s` starts with. */
  function LeadingSpace(s: string): (n: nat)
    ensures n <= |s|
    ensures forall i :: 0 <= i < n ==> IsWhitespace(s[i])
    ensures n < |s| ==> !IsWhitespace(s[n])
  {
    if s != [] && IsWhitespace(s[0]) then
      var m := LeadingSpace(s[1..]);
      assert forall i :: 1 <= i <= m ==> s[i] == s[1..][i - 1];
      1 + m
    else 0
  }

  /** The number of whitespace characters `s` ends with. */
  function TrailingSpace(s: string): (n: nat)
    ensures n <= |s|
    ensures forall i :: |s| - n <= i < |s| ==> IsWhitespace(s[i])
    ensures n < |s| ==> !IsWhitespace(s[|s| - n - 1])
  {
    if s != [] && IsWhitespace(s[|s| - 1]) then
      var m := TrailingSpace(s[..|s| - 1]);
      assert forall i :: |s| - 1 - m <= i < |s| - 1 ==> s[i] == s[..|s| - 1][i];
      1 + m
    else 0
  }

  /** `String.prototype.trim`: `s` is the result with only whitespace around it, and
      the result is empty exactly when `s` is all whitespace and otherwise neither
      starts nor ends with whitespace. */
  function Trim(s: string): (r: string)
    ensures exists a, b :: s == a + r + b && AllWhitespace(a) && AllWhitespace(b)
    ensures r == [] <==> AllWhitespace(s)
    ensures r != [] ==> !IsWhitespace(r[0]) && !IsWhitespace(r[|r| - 1])
    ensures Contains(s, r)
  {
    var n := LeadingSpace(s);
    if n == |s| then
      assert OccursAt(s, [], 0);
      assert s == s + [] + [] && AllWhitespace([]);
      []
    else
      var m := TrailingSpace(s);
      assert n < |s| - m;
      var r := s[n..|s| - m];
      assert AllWhitespace(s[..n]) && AllWhitespace(s[|s| - m..]);
      Framed(s, n, |s| - m);
      r
  }

  /** `s` is its slice `[i..j]` with the text before and after around it. */
  lemma Framed(s: string, i: nat, j: nat)
    requires i <= j <= |s|
    ensures s == s[..i] + s[i..j] + s[j..]
    ensures Contains(s, s[i..j])
  {
    assert OccursAt(s, s[i..j], i);
  }

  /** `toLowerCase` on the ASCII letters. */
  function LowerChar(c: char): (d: char)
    ensures 'A' <= c <= 'Z' ==> d as int == c as int + 32
    ensures !('A' <= c <= 'Z') ==> d == c
  {
    if 'A' <= c <= 'Z' then (c as int + 32) as char else c
  }

  function ToLower(s: string): (r: string)
    ensures |r| == |s|
    ensures forall i :: 0 <= i < |s| ==> r[i] == LowerChar(s[i])
  {
    seq(|s|, i requires 0 <= i < |s| => LowerChar(s[i]))
  }

  /** Lower-casing twice is lower-casing once. */
  lemma ToLowerIdempotent(s: string)
    ensures ToLower(ToLower(s)) == ToLower(s)
  {
  }

  /** `s.includes(part)`: `part` occurs in `s` as a contiguous block. */
  predicate Contains(s: string, part: string) {
    exists i :: 0 <= i <= |s| - |part| && OccursAt(s, part, i)
  }

  predicate OccursAt(s: string, part: string, i: int) {
    0 <= i && i + |part| <= |s| && s[i..i + |part|] == part
  }

  /** `s.startsWith(prefix)`. */
  predicate StartsWith(s: string, prefix: string) {
    prefix <= s
  }

  function DigitChar(d: nat): (c: char)
    requires d < 10
    ensures '0' <= c <= '9'
  {
    ('0' as int + d) as char
  }

  /** `n.toString()` for a non-negative integer such as a `Date.now()` reading. */
  function Decimal(n: nat): (r: string)
    ensures 1 <= |r|
    ensures |r| == 1 <==> n < 10
    ensures forall i :: 0 <= i < |r| ==> '0' <= r[i] <= '9'
  {
    if n < 10 then [DigitChar(n)] else Decimal(n / 10) + [DigitChar(n % 10)]
  }

  /** Distinct timestamps render as distinct ids. */
  lemma {:induction false} DecimalInjective(a: nat, b: nat)
    requires Decimal(a) == Decimal(b)
    ensures a == b
  {
    if a < 10 || b < 10 {
      assert a < 10 && b < 10;
      assert Decimal(a)[0] == DigitChar(a);
    } else {
      var da, db := Decimal(a), Decimal(b);
      assert da[|da| - 1] == DigitChar(a % 10);
      assert db[|db| - 1] == DigitChar(b % 10);
      assert da[..|da| - 1] == Decimal(a / 10);
      assert db[..|db| - 1] == Decimal(b / 10);
      DecimalInjective(a / 10, b / 10);
    }
  }

  /** A search query as both stores normalise it: `query.toLowerCase().trim()`. */
  function SearchKey(query: string): string {
    Trim(ToLower(query))
  }

  /** The match both stores apply: the lower-cased title or url contains the key. */
  predicate MatchesSearch(title: string, url: string, key: string) {
    Contains(ToLower(title), key) || Contains(ToLower(url), key)
  }

  /** A query normalises to the empty key exactly when it is blank. */
  lemma BlankSearchKey(query: string)
    ensures SearchKey(query) == [] <==> AllWhitespace(query)
  {
    var lower := ToLower(query);
    assert forall i :: 0 <= i < |query| ==> (IsWhitespace(lower[i]) <==> IsWhitespace(query[i]));
  }

  /** Text that is already lower-case and trimmed normalises to itself, and a record
      whose url it is matches it. */
  lemma OwnUrlMatches(title: string, url: string)
    requires ToLower(url) == url && Trim(url) == url && !AllWhitespace(url)
    ensures SearchKey(url) == url
    ensures MatchesSearch(title, url, url)
  {
    assert OccursAt(url, url, 0) by {
      assert url[0..|url|] == url;
    }
  }
}
