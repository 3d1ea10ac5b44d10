/** Character classes and string helpers shared by the validator: the
    whitespace set of JavaScript's `String.prototype.trim` and `\s`, the
    `\w` word characters, ASCII case folding, trimming and substring
    occurrence. */
module Text {

  /** JavaScript's WhiteSpace and LineTerminator code points: exactly the
      characters `trim` strips and the regular-expression class `\s` matches.
      They are tab, line feed, vertical tab, form feed and carriage return
      (U+0009..U+000D), space, no-break space, U+1680, the spaces
      U+2000..U+200A, the line and paragraph separators, U+202F, U+205F,
      U+3000 and the byte-order mark. */
  predicate IsWhitespace(c: char) {
    ('\t' <= c <= '\r') || c == ' ' || c == '\U{A0}' || c == '\U{1680}'
    || ('\U{2000}' <= c <= '\U{200A}') || c == '\U{2028}' || c == '\U{2029}'
    || c == '\U{202F}' || c == '\U{205F}' || c == '\U{3000}' || c == '\U{FEFF}'
  }

  /** The regular-expression class `\w`: ASCII letters, digits and `_`. */
  predicate IsWordChar(c: char) {
    ('a' <= c <= 'z') || ('A' <= c <= 'Z') || ('0' <= c <= '9') || c == '_'
  }

  /** Case folding as a case-insensitive, non-unicode regular expression
      applies it to ASCII patterns: only `A`..`Z` change. */
  function ToLowerAscii(c: char): (d: char)
    ensures 'A' <= c <= 'Z' ==> 'a' <= d <= 'z' && d as int == c as int + 32
    ensures !('A' <= c <= 'Z') ==> d == c
  {
    if 'A' <= c <= 'Z' then (c as int + 32) as char else c
  }

  function Lower(s: string): (r: string)
    ensures |r| == |s|
    ensures forall i :: 0 <= i < |s| ==> r[i] == ToLowerAscii(s[i])
  {
    seq(|s|, i requires 0 <= i < |s| => ToLowerAscii(s[i]))
  }

  /** Every character of `s` is whitespace (the empty string included). */
  predicate IsBlank(s: string) {
    forall i :: 0 <= i < |s| ==> IsWhitespace(s[i])
  }

  /** Drops leading whitespace. */
  function TrimStart(s: string): (r: string)
    ensures |r| <= |s| && r == s[|s| - |r|..]
    ensures r == [] || !IsWhitespace(r[0])
    ensures forall i :: 0 <= i < |s| - |r| ==> IsWhitespace(s[i])
    decreases |s|
  {
    if s != [] && IsWhitespace(s[0]) then
      var r := TrimStart(s[1..]);
      assert forall i :: 1 <= i < |s| ==> s[i] == s[1..][i - 1];
      r
    else s
  }

  /** Drops trailing whitespace. */
  function TrimEnd(s: string): (r: string)
    ensures |r| <= |s| && r == s[..|r|]
    ensures r == [] || !IsWhitespace(r[|r| - 1])
    ensures forall i :: |r| <= i < |s| ==> IsWhitespace(s[i])
    decreases |s|
  {
    if s != [] && IsWhitespace(s[|s| - 1]) then
      var r := TrimEnd(s[..|s| - 1]);
      assert forall i :: 0 <= i < |s| - 1 ==> s[i] == s[..|s| - 1][i];
      r
    else s
  }

  lemma {:induction false} TrimStartSkip(s: string)
    requires s != [] && IsWhitespace(s[0])
    ensures TrimStart(s) == TrimStart(s[1..])
  {
  }

  lemma {:induction false} TrimStartStop(s: string)
    requires s != [] && !IsWhitespace(s[0])
    ensures TrimStart(s) == s
  {
  }

  lemma {:induction false} TrimEndSkip(s: string)
    requires s != [] && IsWhitespace(s[|s| - 1])
    ensures TrimEnd(s) == TrimEnd(s[..|s| - 1])
  {
  }

  lemma {:induction false} TrimEndAppendSpace(u: string, c: char)
    requires IsWhitespace(c)
    ensures TrimEnd(u + [c]) == TrimEnd(u)
  {
    assert (u + [c])[..|u|] == u;
  }

  lemma {:induction false} TrimEndStop(s: string)
    requires s != [] && !IsWhitespace(s[|s| - 1])
    ensures TrimEnd(s) == s
  {
  }

  /** `String.prototype.trim`: neither end is whitespace, nothing but
      whitespace is cut off, and the result is empty exactly for blank input. */
  function Trim(s: string): (r: string)
    ensures r == [] || (!IsWhitespace(r[0]) && !IsWhitespace(r[|r| - 1]))
    ensures |r| <= |s| && forall c :: c in r ==> c in s
    ensures r == [] <==> IsBlank(s)
  {
    TrimKeepsCharacters(s);
    TrimEmptyIffBlank(s);
    TrimEnd(TrimStart(s))
  }

  lemma {:induction false} TrimKeepsCharacters(s: string)
    ensures var r := TrimEnd(TrimStart(s));
            forall c :: c in r ==> c in s
  {
    var t := TrimStart(s);
    var r := TrimEnd(t);
    BlankEnds(s, t, r);
    var i, j :| 0 <= i <= j <= |s| && r == s[i..j];
    SliceKeepsCharacters(s, i, j);
  }

  lemma {:induction false} SliceKeepsCharacters(s: string, i: int, j: int)
    requires 0 <= i <= j <= |s|
    ensures forall c :: c in s[i..j] ==> c in s
  {
    forall c | c in s[i..j] ensures c in s {
      var k :| 0 <= k < j - i && s[i..j][k] == c;
      assert s[i + k] == c;
    }
  }


  /** `trim` removes a blank prefix and a blank suffix and nothing else:
      the result is a contiguous stretch of the input. With the ends of the
      result not being whitespace, this pins the result down. */
  lemma {:induction false} TrimIsMiddle(s: string)
    ensures exists i, j :: 0 <= i <= j <= |s| && Trim(s) == s[i..j]
                           && IsBlank(s[..i]) && IsBlank(s[j..])
  {
    var t := TrimStart(s);
    BlankEnds(s, t, TrimEnd(t));
  }

  /** Cutting a blank prefix and then a blank suffix leaves a stretch of
      the input between two blank ends. */
  lemma {:induction false} BlankEnds(s: string, t: string, r: string)
    requires |t| <= |s| && t == s[|s| - |t|..]
    requires forall k :: 0 <= k < |s| - |t| ==> IsWhitespace(s[k])
    requires |r| <= |t| && r == t[..|r|]
    requires forall k :: |r| <= k < |t| ==> IsWhitespace(t[k])
    ensures exists i, j :: 0 <= i <= j <= |s| && r == s[i..j]
                           && IsBlank(s[..i]) && IsBlank(s[j..])
  {
    var i := |s| - |t|;
    var j := i + |r|;
    assert r == s[i..j];
    forall k | 0 <= k < i ensures IsWhitespace(s[..i][k]) {
      assert s[..i][k] == s[k];
    }
    forall k | 0 <= k < |s| - j ensures IsWhitespace(s[j..][k]) {
      assert s[j..][k] == t[|r| + k];
    }
  }

  /** The first kept character is the first non-whitespace one. */
  lemma {:induction false} TrimStartHead(s: string)
    ensures var t := TrimStart(s);
            t == [] || t[0] == s[|s| - |t|]
  {
    var t := TrimStart(s);
    assert t == [] || t[0] == s[|s| - |t|..][0];
  }

  lemma {:induction false} TrimEmptyIffBlank(s: string)
    ensures var r := TrimEnd(TrimStart(s));
            r == [] <==> IsBlank(s)
  {
    TrimStartHead(s);
  }

  /** `p` occurs in `t` starting at index `i`. */
  predicate OccursAt(t: string, p: string, i: int) {
    0 <= i && i + |p| <= |t| && t[i..i + |p|] == p
  }

  predicate Contains(t: string, p: string) {
    exists i :: 0 <= i <= |t| && OccursAt(t, p, i)
  }

  /** Positions `a` (inclusive) to `b` (exclusive) of `s` are all `\w`. */
  predicate WordRun(s: string, a: int, b: int)
    requires 0 <= a <= b <= |s|
  {
    forall p :: a <= p < b ==> IsWordChar(s[p])
  }

  /** Positions `a` (inclusive) to `b` (exclusive) of `s` are all `\s`. */
  predicate SpaceRun(s: string, a: int, b: int)
    requires 0 <= a <= b <= |s|
  {
    forall p :: a <= p < b ==> IsWhitespace(s[p])
  }

  function Digit(d: nat): (c: char)
    requires d < 10
    ensures '0' <= c <= '9'
  {
    ('0' as int + d) as char
  }

  /** Decimal rendering of a non-negative number, as a template literal
      `${n}` prints it. */
  function NatToString(n: nat): (s: string)
    ensures s != []
    ensures forall i :: 0 <= i < |s| ==> '0' <= s[i] <= '9'
    ensures n < 10 <==> |s| == 1
  {
    if n < 10 then [Digit(n)] else NatToString(n / 10) + [Digit(n % 10)]
  }

  /** The number a string of decimal digits denotes. */
  function ValueOf(s: string): int
    decreases |s|
  {
    if s == [] then 0 else ValueOf(s[..|s| - 1]) * 10 + (s[|s| - 1] as int - '0' as int)
  }

  /** The rendering reads back as the number, with no leading zero except
      for 0 itself: it is the canonical decimal numeral of `n`. */
  lemma {:induction false} NatToStringValue(n: nat)
    ensures ValueOf(NatToString(n)) == n
    ensures NatToString(n)[0] == '0' ==> n == 0
  {
    var s := NatToString(n);
    if n < 10 {
      assert s[..0] == [];
    } else {
      NatToStringValue(n / 10);
      var h := NatToString(n / 10);
      assert s[..|s| - 1] == h;
      assert s[0] == h[0];
    }
  }
}
