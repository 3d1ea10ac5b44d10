/** HTML entity encoding of the five reserved characters, as the sanitiser's
    `.replace` chain writes it, and the `sanitizeForDisplay` decoding chain. */
module HtmlEntities {
  import opened Text

  /** `s.replace(/pat/g, rep)` for a literal pattern: every occurrence of
      `pat`, found left to right without overlap, is replaced by `rep`. */
  function ReplaceAll(s: string, pat: string, rep: string): string
    requires pat != []
    decreases |s|
  {
    if s == [] then []
    else if pat <= s then rep + ReplaceAll(s[|pat|..], pat, rep)
    else [s[0]] + ReplaceAll(s[1..], pat, rep)
  }

  /** A text without the pattern's first character is left as it is. */
  lemma {:induction false} ReplaceAbsent(s: string, pat: string, rep: string)
    requires pat != [] && pat[0] !in s
    ensures ReplaceAll(s, pat, rep) == s
    decreases |s|
  {
    if s != [] {
      ReplaceAbsent(s[1..], pat, rep);
      assert [s[0]] + s[1..] == s;
    }
  }

  /** The five characters the sanitiser encodes. */
  const Reserved: set<char> := {'&', '<', '>', '"', '\''}

  /** The entity of a reserved character; any other character stands for
      itself. */
  function Entity(c: char): string {
    match c
    case '&' => "&amp;"
    case '<' => "&lt;"
    case '>' => "&gt;"
    case '"' => "&quot;"
    case '\'' => "&#x27;"
    case _ => [c]
  }

  /** What follows the `&` of an entity. */
  function EntityTail(c: char): string
    requires c in Reserved
  {
    Entity(c)[1..]
  }

  /** Each character of `x` that is in `enc` replaced by its entity, every
      other one kept: the reference definition of (partial) encoding. */
  function EncodeSome(x: string, enc: set<char>): string
    decreases |x|
  {
    if x == [] then [] else Piece(x[0], enc) + EncodeSome(x[1..], enc)
  }

  function Piece(c: char, enc: set<char>): string {
    if c in enc then Entity(c) else [c]
  }

  /** Every reserved character replaced by its entity. */
  function EncodeChars(x: string): string {
    EncodeSome(x, Reserved)
  }

  /** The sanitiser's replacement chain, in the source's order (`&` first,
      then `<`, `>`, `"` and `'`), before trimming. It encodes each reserved
      character by its entity and keeps every other character. */
  function EncodeEntities(s: string): (r: string)
    ensures r == EncodeChars(s)
  {
    EncodeAmpStep(s);
    EncodeLtStep(s);
    EncodeGtStep(s);
    EncodeQuotStep(s);
    EncodeAposStep(s);
    ReplaceAll(ReplaceAll(ReplaceAll(ReplaceAll(ReplaceAll(
      s, "&", "&amp;"), "<", "&lt;"), ">", "&gt;"), "\"", "&quot;"), "'", "&#x27;")
  }

  /** `sanitizeForDisplay`: the decoding chain as written, `&amp;` first.
      Every entity starts with `&`, so text without one is left alone. */
  function SanitizeForDisplay(s: string): (r: string)
    ensures '&' !in s ==> r == s
  {
    var r := ReplaceAll(ReplaceAll(ReplaceAll(ReplaceAll(ReplaceAll(
      s, "&amp;", "&"), "&lt;", "<"), "&gt;", ">"), "&quot;", "\""), "&#x27;", "'");
    if '&' in s then r
    else
      ReplaceAbsent(s, "&amp;", "&");
      ReplaceAbsent(s, "&lt;", "<");
      ReplaceAbsent(s, "&gt;", ">");
      ReplaceAbsent(s, "&quot;", "\"");
      ReplaceAbsent(s, "&#x27;", "'");
      r
  }

  /** The decoding chain with `&amp;` decoded last, the exact inverse of the
      encoding chain. */
  function SanitizeForDisplayAmpLast(s: string): string {
    ReplaceAll(ReplaceAll(ReplaceAll(ReplaceAll(ReplaceAll(
      s, "&lt;", "<"), "&gt;", ">"), "&quot;", "\""), "&#x27;", "'"), "&amp;", "&")
  }

  /** Some `&` of `x` is immediately followed by `t`. */
  predicate AmpFollowedBy(x: string, t: string) {
    exists i :: 0 <= i < |x| && x[i] == '&' && t <= x[i + 1..]
  }

  /** Some `&` of `x` already reads as the entity of `<`, `>`, `"` or `'`. */
  predicate LooksEncoded(x: string) {
    AmpFollowedBy(x, "lt;") || AmpFollowedBy(x, "gt;")
    || AmpFollowedBy(x, "quot;") || AmpFollowedBy(x, "#x27;")
  }

  lemma {:induction false} Associative(a: string, b: string, c: string)
    ensures a + (b + c) == (a + b) + c
  {
  }

  // ---------------------------------------------------------------------
  // Facts about the five entities

  lemma {:induction false} EntityShape(c: char)
    requires c in Reserved
    ensures var e := Entity(c);
            |e| >= 4 && e[0] == '&' && e[|e| - 1] == ';' && e == "&" + EntityTail(c)
            && (forall i :: 1 <= i < |e| ==> e[i] !in Reserved && !IsWhitespace(e[i]))
  {
    var e := Entity(c);
    if c == '&' { assert e == "&amp;"; }
    else if c == '<' { assert e == "&lt;"; }
    else if c == '>' { assert e == "&gt;"; }
    else if c == '"' { assert e == "&quot;"; }
    else { assert e == "&#x27;"; }
    assert forall i :: 1 <= i < |e| ==> EntityBodyChar(e[i]);
  }

  /** The characters after the `&` of an entity: lower-case letters,
      digits, `#` and `;`. */
  predicate EntityBodyChar(ch: char)
    ensures EntityBodyChar(ch) ==> ch !in Reserved && !IsWhitespace(ch)
  {
    ('a' <= ch <= 'z') || ('0' <= ch <= '9') || ch == '#' || ch == ';'
  }

  lemma {:induction false} EntitiesDiffer(c: char, d: char)
    requires c in Reserved && d in Reserved && c != d
    ensures Entity(c)[1] != Entity(d)[1]
  {
  }

  // ---------------------------------------------------------------------
  // Encoding: the replacement chain is the per-character encoding

  lemma {:induction false} ReplaceCharConcat(a: string, b: string, c: char, rep: string)
    ensures ReplaceAll(a + b, [c], rep) == ReplaceAll(a, [c], rep) + ReplaceAll(b, [c], rep)
    decreases |a|
  {
    if a != [] {
      assert (a + b)[1..] == a[1..] + b;
      ReplaceCharConcat(a[1..], b, c, rep);
    } else {
      assert a + b == b;
    }
  }

  lemma {:induction false} EncodeSomeConcat(a: string, b: string, enc: set<char>)
    ensures EncodeSome(a + b, enc) == EncodeSome(a, enc) + EncodeSome(b, enc)
    decreases |a|
  {
    if a != [] {
      assert (a + b)[1..] == a[1..] + b;
      EncodeSomeConcat(a[1..], b, enc);
      Associative(Piece(a[0], enc), EncodeSome(a[1..], enc), EncodeSome(b, enc));
    } else {
      assert a + b == b;
    }
  }

  lemma {:induction false} EncodeNothing(x: string)
    ensures EncodeSome(x, {}) == x
    decreases |x|
  {
    if x != [] {
      EncodeNothing(x[1..]);
    }
  }

  /** Replacing `c` by its entity in a partially encoded string encodes `c`
      too, provided no entity already present contains `c`: the reason the
      chain must handle `&` before the others. */
  lemma {:induction false} EncodeStep(x: string, enc: set<char>, c: char)
    requires enc <= Reserved && c in Reserved && c !in enc
    requires c == '&' ==> enc == {}
    ensures ReplaceAll(EncodeSome(x, enc), [c], Entity(c)) == EncodeSome(x, enc + {c})
    decreases |x|
  {
    if x != [] {
      var p := Piece(x[0], enc);
      ReplaceCharConcat(p, EncodeSome(x[1..], enc), c, Entity(c));
      EncodeStep(x[1..], enc, c);
      if x[0] in enc {
        EntityShape(x[0]);
        assert c !in p;
        ReplaceAbsent(p, [c], Entity(c));
      } else if x[0] != c {
        ReplaceAbsent(p, [c], Entity(c));
      } else {
        assert p[1..] == [];
      }
    }
  }

  lemma {:induction false} EncodeAmpStep(x: string)
    ensures ReplaceAll(x, "&", "&amp;") == EncodeSome(x, {'&'})
  {
    EncodeNothing(x);
    EncodeStep(x, {}, '&');
    assert "&" == ['&'] && Entity('&') == "&amp;" && {} + {'&'} == {'&'};
  }

  lemma {:induction false} EncodeLtStep(x: string)
    ensures ReplaceAll(EncodeSome(x, {'&'}), "<", "&lt;") == EncodeSome(x, {'&', '<'})
  {
    EncodeStep(x, {'&'}, '<');
    assert "<" == ['<'] && Entity('<') == "&lt;" && {'&'} + {'<'} == {'&', '<'};
  }

  lemma {:induction false} EncodeGtStep(x: string)
    ensures ReplaceAll(EncodeSome(x, {'&', '<'}), ">", "&gt;") == EncodeSome(x, {'&', '<', '>'})
  {
    EncodeStep(x, {'&', '<'}, '>');
    assert ">" == ['>'] && Entity('>') == "&gt;" && {'&', '<'} + {'>'} == {'&', '<', '>'};
  }

  lemma {:induction false} EncodeQuotStep(x: string)
    ensures ReplaceAll(EncodeSome(x, {'&', '<', '>'}), "\"", "&quot;") == EncodeSome(x, {'&', '<', '>', '"'})
  {
    EncodeStep(x, {'&', '<', '>'}, '"');
    assert "\"" == ['"'] && Entity('"') == "&quot;";
    assert {'&', '<', '>'} + {'"'} == {'&', '<', '>', '"'};
  }

  lemma {:induction false} EncodeAposStep(x: string)
    ensures ReplaceAll(EncodeSome(x, {'&', '<', '>', '"'}), "'", "&#x27;") == EncodeChars(x)
  {
    EncodeStep(x, {'&', '<', '>', '"'}, '\'');
    assert "'" == ['\''] && Entity('\'') == "&#x27;";
    assert {'&', '<', '>', '"'} + {'\''} == Reserved;
  }

  /** Encoded text holds no raw `<`, `>`, `"` or `'`. */
  lemma {:induction false} EncodedHasNoMarkup(x: string)
    ensures var e := EncodeChars(x);
            '<' !in e && '>' !in e && '"' !in e && '\'' !in e
    decreases |x|
  {
    if x != [] {
      EncodedHasNoMarkup(x[1..]);
      if x[0] in Reserved { EntityShape(x[0]); }
    }
  }

  /** Trimming after encoding, as the sanitiser does, equals encoding the
      trimmed input: entities neither start nor end with whitespace. */
  lemma {:induction false} EncodeCommutesWithTrim(x: string)
    ensures Trim(EncodeChars(x)) == EncodeChars(Trim(x))
  {
    EncodeCommutesWithTrimStart(x);
    EncodeCommutesWithTrimEnd(TrimStart(x));
  }

  lemma {:induction false} EncodeCommutesWithTrimStart(x: string)
    ensures TrimStart(EncodeChars(x)) == EncodeChars(TrimStart(x))
    decreases |x|
  {
    if x != [] {
      if IsWhitespace(x[0]) {
        EncodeCommutesWithTrimStart(x[1..]);
        LeadingSpaceEncoded(x);
      } else {
        LeadingTextEncoded(x);
      }
    }
  }

  /** A leading whitespace character is kept as it is, then trimmed. */
  lemma {:induction false} LeadingSpaceEncoded(x: string)
    requires x != [] && IsWhitespace(x[0])
    ensures TrimStart(EncodeChars(x)) == TrimStart(EncodeChars(x[1..]))
    ensures TrimStart(x) == TrimStart(x[1..])
  {
    var e := EncodeChars(x);
    assert x[0] !in Reserved;
    assert e == [x[0]] + EncodeChars(x[1..]);
    TrimStartSkip(e);
    assert e[1..] == EncodeChars(x[1..]);
    TrimStartSkip(x);
  }

  /** Encoding text that starts with a non-whitespace character starts
      with a non-whitespace character too, so neither is trimmed. */
  lemma {:induction false} LeadingTextEncoded(x: string)
    requires x != [] && !IsWhitespace(x[0])
    ensures TrimStart(EncodeChars(x)) == EncodeChars(x)
    ensures TrimStart(x) == x
  {
    var e := EncodeChars(x);
    var p := Piece(x[0], Reserved);
    assert e == p + EncodeChars(x[1..]);
    if x[0] in Reserved {
      EntityShape(x[0]);
    }
    assert p != [] && !IsWhitespace(p[0]);
    assert e[0] == p[0];
    TrimStartStop(e);
    TrimStartStop(x);
  }

  lemma {:induction false} EncodeCommutesWithTrimEnd(x: string)
    ensures TrimEnd(EncodeChars(x)) == EncodeChars(TrimEnd(x))
    decreases |x|
  {
    if x != [] {
      if IsWhitespace(x[|x| - 1]) {
        EncodeCommutesWithTrimEnd(x[..|x| - 1]);
        TrailingSpaceEncoded(x);
        TrimEndSkip(x);
      } else {
        TrailingTextEncoded(x);
      }
    }
  }

  lemma {:induction false} EncodeLast(x: string)
    requires x != []
    ensures EncodeChars(x) == EncodeChars(x[..|x| - 1]) + Piece(x[|x| - 1], Reserved)
  {
    var n := |x| - 1;
    assert x == x[..n] + [x[n]];
    EncodeSomeConcat(x[..n], [x[n]], Reserved);
    assert EncodeSome([x[n]], Reserved) == Piece(x[n], Reserved) + EncodeSome([], Reserved);
  }

  /** A trailing whitespace character is kept as it is, then trimmed. */
  lemma {:induction false} TrailingSpaceEncoded(x: string)
    requires x != [] && IsWhitespace(x[|x| - 1])
    ensures TrimEnd(EncodeChars(x)) == TrimEnd(EncodeChars(x[..|x| - 1]))
  {
    var n := |x| - 1;
    var e := EncodeChars(x);
    var init := EncodeChars(x[..n]);
    EncodeLast(x);
    assert x[n] !in Reserved;
    assert Piece(x[n], Reserved) == [x[n]];
    TrimEndAppendSpace(init, x[n]);
  }

  /** Encoding text that ends with a non-whitespace character ends with a
      non-whitespace character too: an entity ends in `;`. */
  lemma {:induction false} TrailingTextEncoded(x: string)
    requires x != [] && !IsWhitespace(x[|x| - 1])
    ensures TrimEnd(EncodeChars(x)) == EncodeChars(x)
    ensures TrimEnd(x) == x
  {
    var n := |x| - 1;
    var e := EncodeChars(x);
    var p := Piece(x[n], Reserved);
    EncodeLast(x);
    if x[n] in Reserved {
      EntityShape(x[n]);
    }
    assert p != [] && !IsWhitespace(p[|p| - 1]);
    assert e[|e| - 1] == p[|p| - 1];
    TrimEndStop(e);
    TrimEndStop(x);
  }

  // ---------------------------------------------------------------------
  // Decoding

  /** A stretch without `&` cannot hold an entity, so decoding passes over it. */
  lemma {:induction false} SkipAmpFree(u: string, v: string, pat: string, rep: string)
    requires pat != [] && pat[0] == '&' && '&' !in u
    ensures ReplaceAll(u + v, pat, rep) == u + ReplaceAll(v, pat, rep)
    decreases |u|
  {
    if u != [] {
      assert (u + v)[1..] == u[1..] + v;
      SkipAmpFree(u[1..], v, pat, rep);
    } else {
      assert u + v == v;
    }
  }

  lemma {:induction false} EncodeSomeKeeps(t: string, enc: set<char>)
    requires forall i :: 0 <= i < |t| ==> t[i] !in enc
    ensures EncodeSome(t, enc) == t
    decreases |t|
  {
    if t != [] {
      EncodeSomeKeeps(t[1..], enc);
    }
  }

  /** Text free of `&` and of encoded characters starts the encoding of `y`
      exactly when it starts `y`. */
  lemma {:induction false} PrefixThroughEncoding(t: string, y: string, enc: set<char>)
    requires enc <= Reserved && '&' !in t
    requires forall i :: 0 <= i < |t| ==> t[i] !in enc
    ensures t <= EncodeSome(y, enc) <==> t <= y
    decreases |y|
  {
    if t != [] && y != [] {
      var p := Piece(y[0], enc);
      if y[0] in enc {
        EntityShape(y[0]);
        assert EncodeSome(y, enc)[0] == '&';
      } else {
        assert EncodeSome(y, enc) == [y[0]] + EncodeSome(y[1..], enc);
        PrefixThroughEncoding(t[1..], y[1..], enc);
        assert t <= y <==> t[0] == y[0] && t[1..] <= y[1..];
      }
    }
  }

  lemma {:induction false} ReplaceAtStart(p: string, rest: string, rep: string)
    requires p != []
    ensures ReplaceAll(p + rest, p, rep) == rep + ReplaceAll(rest, p, rep)
  {
    assert p <= p + rest;
    assert (p + rest)[|p|..] == rest;
  }

  /** An entity other than `pat` is passed over whole. */
  lemma {:induction false} SkipOtherEntity(d: string, rest: string, pat: string, rep: string)
    requires |d| >= 2 && |pat| >= 2 && d[0] == '&' && pat[0] == '&' && d[1] != pat[1]
    requires '&' !in d[1..]
    ensures ReplaceAll(d + rest, pat, rep) == d + ReplaceAll(rest, pat, rep)
  {
    var s := d + rest;
    assert s[1] == d[1];
    assert !(pat <= s);
    assert s[1..] == d[1..] + rest;
    SkipAmpFree(d[1..], rest, pat, rep);
    assert [d[0]] + d[1..] == d;
  }

  /** A raw `&` starts a match of `pat` only if the text after it starts
      with the rest of `pat`. */
  lemma {:induction false} RawAmp(rest: string, pat: string, rep: string)
    requires |pat| >= 2 && pat[0] == '&' && !(pat[1..] <= rest)
    ensures ReplaceAll("&" + rest, pat, rep) == "&" + ReplaceAll(rest, pat, rep)
  {
    var s := "&" + rest;
    assert s[1..] == rest;
  }

  /** One step of the induction below: the first character's piece. */
  lemma {:induction false} DecodePiece(x: string, enc: set<char>, c: char, rest: string)
    requires x != [] && enc <= Reserved && c in enc
    requires x[0] == '&' && '&' !in enc ==> !(EntityTail(c) <= x[1..])
    requires rest == EncodeSome(x[1..], enc)
    ensures ReplaceAll(Piece(x[0], enc) + rest, Entity(c), [c])
            == Piece(x[0], enc - {c}) + ReplaceAll(rest, Entity(c), [c])
  {
    var e := Entity(c);
    EntityShape(c);
    if x[0] == c {
      ReplaceAtStart(e, rest, [c]);
    } else if x[0] in enc {
      EntityShape(x[0]);
      EntitiesDiffer(c, x[0]);
      SkipOtherEntity(Entity(x[0]), rest, e, [c]);
    } else if x[0] != '&' {
      SkipAmpFree([x[0]], rest, e, [c]);
    } else {
      PrefixThroughEncoding(EntityTail(c), x[1..], enc);
      RawAmp(rest, e, [c]);
    }
  }

  /** Decoding `c` in a partially encoded string decodes exactly the encoded
      occurrences of `c`, unless a raw `&` of the original reads as `c`'s
      entity. */
  lemma {:induction false} DecodeStep(x: string, enc: set<char>, c: char)
    requires enc <= Reserved && c in enc
    requires '&' !in enc ==> !AmpFollowedBy(x, EntityTail(c))
    ensures ReplaceAll(EncodeSome(x, enc), Entity(c), [c]) == EncodeSome(x, enc - {c})
    decreases |x|
  {
    if x != [] {
      AmpFollowedByDrop(x, EntityTail(c));
      DecodeStep(x[1..], enc, c);
      var rest := EncodeSome(x[1..], enc);
      assert x[0] == '&' && '&' !in enc ==> !(EntityTail(c) <= x[0 + 1..]);
      DecodePiece(x, enc, c, rest);
    }
  }

  lemma {:induction false} AmpFollowedByDrop(x: string, t: string)
    requires x != []
    ensures AmpFollowedBy(x[1..], t) ==> AmpFollowedBy(x, t)
  {
    if AmpFollowedBy(x[1..], t) {
      var i :| 0 <= i < |x[1..]| && x[1..][i] == '&' && t <= x[1..][i + 1..];
      assert x[i + 1] == '&' && x[1..][i + 1..] == x[i + 2..];
    }
  }

  /** DecodeStep with the entity, its character and the remaining set
      spelt out, as the two decoding chains use it. */
  lemma {:induction false} DecodeStepAs(x: string, enc: set<char>, c: char, pat: string, rep: string, enc': set<char>)
    requires enc <= Reserved && c in enc
    requires pat == Entity(c) && rep == [c] && enc' == enc - {c}
    requires '&' !in enc ==> !AmpFollowedBy(x, EntityTail(c))
    ensures ReplaceAll(EncodeSome(x, enc), pat, rep) == EncodeSome(x, enc')
  {
    DecodeStep(x, enc, c);
  }

  /** The source's decoder undoes the encoding exactly for the inputs in
      which no `&` already reads as an entity of `<`, `>`, `"` or `'`. */
  lemma {:induction false} RoundTripWhenNotLooksEncoded(x: string)
    requires !LooksEncoded(x)
    ensures SanitizeForDisplay(EncodeEntities(x)) == x
  {
    DecodeStepAs(x, Reserved, '&', "&amp;", "&", {'<', '>', '"', '\''});
    DecodeAfterAmp(x);
  }

  /** The decoding steps after the one for `&`, on text where no `&` reads
      as an entity. */
  lemma {:induction false} DecodeAfterAmp(x: string)
    requires !LooksEncoded(x)
    ensures var y := ReplaceAll(EncodeSome(x, {'<', '>', '"', '\''}), "&lt;", "<");
            ReplaceAll(ReplaceAll(ReplaceAll(y, "&gt;", ">"), "&quot;", "\""), "&#x27;", "'") == x
  {
    DecodeStepAs(x, {'<', '>', '"', '\''}, '<', "&lt;", "<", {'>', '"', '\''});
    DecodeAfterLt(x);
  }

  lemma {:induction false} DecodeAfterLt(x: string)
    requires !AmpFollowedBy(x, "gt;") && !AmpFollowedBy(x, "quot;") && !AmpFollowedBy(x, "#x27;")
    ensures var y := ReplaceAll(EncodeSome(x, {'>', '"', '\''}), "&gt;", ">");
            ReplaceAll(ReplaceAll(y, "&quot;", "\""), "&#x27;", "'") == x
  {
    DecodeStepAs(x, {'>', '"', '\''}, '>', "&gt;", ">", {'"', '\''});
    DecodeAfterGt(x);
  }

  lemma {:induction false} DecodeAfterGt(x: string)
    requires !AmpFollowedBy(x, "quot;") && !AmpFollowedBy(x, "#x27;")
    ensures ReplaceAll(ReplaceAll(EncodeSome(x, {'"', '\''}), "&quot;", "\""), "&#x27;", "'") == x
  {
    DecodeStepAs(x, {'"', '\''}, '"', "&quot;", "\"", {'\''});
    DecodeStepAs(x, {'\''}, '\'', "&#x27;", "'", {});
    EncodeNothing(x);
  }


  /** Decoding `&amp;` last inverts the encoding for every input. */
  lemma {:induction false} AmpLastRoundTrip(x: string)
    ensures SanitizeForDisplayAmpLast(EncodeEntities(x)) == x
  {
    EncodeNothing(x);
    DecodeStepAs(x, Reserved, '<', "&lt;", "<", {'&', '>', '"', '\''});
    DecodeStepAs(x, {'&', '>', '"', '\''}, '>', "&gt;", ">", {'&', '"', '\''});
    DecodeStepAs(x, {'&', '"', '\''}, '"', "&quot;", "\"", {'&', '\''});
    DecodeStepAs(x, {'&', '\''}, '\'', "&#x27;", "'", {'&'});
    DecodeStepAs(x, {'&'}, '&', "&amp;", "&", {});
  }

  // ---------------------------------------------------------------------
  // The decoder as written: where the round trip fails

  /** Number of occurrences of `c` in `s`. */
  function Count(c: char, s: string): nat
    decreases |s|
  {
    if s == [] then 0 else (if s[0] == c then 1 else 0) + Count(c, s[1..])
  }

  lemma {:induction false} CountConcat(c: char, a: string, b: string)
    ensures Count(c, a + b) == Count(c, a) + Count(c, b)
    decreases |a|
  {
    if a != [] {
      assert (a + b)[1..] == a[1..] + b;
      CountConcat(c, a[1..], b);
    } else {
      assert a + b == b;
    }
  }

  lemma {:induction false} CountAbsent(c: char, s: string)
    requires c !in s
    ensures Count(c, s) == 0
    decreases |s|
  {
    if s != [] {
      CountAbsent(c, s[1..]);
    }
  }

  /** A replacement whose pattern and replacement both lack `ch` keeps the
      number of `ch`s. */
  lemma {:induction false} CountPreserved(s: string, pat: string, rep: string, ch: char)
    requires pat != [] && ch !in pat && ch !in rep
    ensures Count(ch, ReplaceAll(s, pat, rep)) == Count(ch, s)
    decreases |s|
  {
    if s != [] {
      if pat <= s {
        CountPreserved(s[|pat|..], pat, rep, ch);
        CountConcat(ch, rep, ReplaceAll(s[|pat|..], pat, rep));
        CountAbsent(ch, rep);
        assert s == pat + s[|pat|..];
        CountConcat(ch, pat, s[|pat|..]);
        CountAbsent(ch, pat);
      } else {
        CountPreserved(s[1..], pat, rep, ch);
        CountConcat(ch, [s[0]], ReplaceAll(s[1..], pat, rep));
      }
    }
  }

  lemma {:induction false} AmpFollowedByTail(x: string, t: string)
    requires x != [] && (x[0] != '&' || !(t <= x[1..]))
    ensures AmpFollowedBy(x, t) ==> AmpFollowedBy(x[1..], t)
  {
    if AmpFollowedBy(x, t) {
      var i :| 0 <= i < |x| && x[i] == '&' && t <= x[i + 1..];
      assert i >= 1;
      assert x[1..][i - 1] == '&' && x[1..][i - 1 + 1..] == x[i + 1..];
    }
  }

  /** The characters of an entity tail are neither reserved nor `&`. */
  lemma {:induction false} TailHasNoReserved(c: char)
    requires c in Reserved
    ensures forall i :: 0 <= i < |EntityTail(c)| ==> EntityTail(c)[i] !in Reserved
  {
    EntityShape(c);
    var t := EntityTail(c);
    assert forall i :: 0 <= i < |t| ==> t[i] == Entity(c)[i + 1];
  }

  /** Encoding leaves an entity tail at the head of the text as it is. */
  lemma {:induction false} EncodeTail(c: char, z: string, enc: set<char>)
    requires c in Reserved && enc <= Reserved
    ensures EncodeSome(EntityTail(c) + z, enc) == EntityTail(c) + EncodeSome(z, enc)
  {
    TailHasNoReserved(c);
    EncodeSomeConcat(EntityTail(c), z, enc);
    EncodeSomeKeeps(EntityTail(c), enc);
  }

  /** A raw `&` followed by `c`'s entity tail encodes to `&amp;` and the
      tail: with `&` no longer encoded, `c`'s whole entity. */
  lemma {:induction false} RawEntityEncodes(x: string, enc: set<char>, c: char)
    requires enc <= Reserved && c in Reserved && '&' !in enc
    requires x != [] && x[0] == '&' && EntityTail(c) <= x[1..]
    ensures EncodeSome(x, enc) == Entity(c) + EncodeSome(x[1 + |EntityTail(c)|..], enc)
  {
    TailHasNoReserved(c);
    EntityIsAmpTail(c);
    AmpThenUnencodedIs(x, EntityTail(c), enc, Entity(c));
  }

  lemma {:induction false} AmpThenUnencodedIs(x: string, t: string, enc: set<char>, e: string)
    requires '&' !in enc && x != [] && x[0] == '&' && t <= x[1..] && e == ['&'] + t
    requires forall i :: 0 <= i < |t| ==> t[i] !in enc
    ensures EncodeSome(x, enc) == e + EncodeSome(x[1 + |t|..], enc)
  {
    AmpThenUnencoded(x, t, enc);
    Associative(['&'], t, EncodeSome(x[1 + |t|..], enc));
  }

  /** An `&` left unencoded followed by text none of whose characters is
      encoded. */
  lemma {:induction false} AmpThenUnencoded(x: string, t: string, enc: set<char>)
    requires '&' !in enc && x != [] && x[0] == '&' && t <= x[1..]
    requires forall i :: 0 <= i < |t| ==> t[i] !in enc
    ensures EncodeSome(x, enc) == ['&'] + (t + EncodeSome(x[1 + |t|..], enc))
  {
    var z := x[1 + |t|..];
    assert x[1..] == t + z;
    EncodeSomeConcat(t, z, enc);
    EncodeSomeKeeps(t, enc);
  }

  lemma {:induction false} EntityIsAmpTail(c: char)
    requires c in Reserved
    ensures Entity(c) == "&" + EntityTail(c)
  {
    EntityShape(c);
  }

  lemma {:induction false} RawEntityCount(x: string, c: char)
    requires c in Reserved && c != '&'
    requires x != [] && x[0] == '&' && EntityTail(c) <= x[1..]
    ensures Count(c, x) == Count(c, x[1 + |EntityTail(c)|..])
  {
    var t := EntityTail(c);
    var z := x[1 + |t|..];
    assert x[1..] == t + z;
    CountConcat(c, t, z);
    TailHasNoReserved(c);
    CountAbsent(c, t);
  }

  /** Decoding `c` after the `&amp;` step yields at least as many `c`s as
      the original held, and one more when a raw `&` of the original reads
      as `c`'s entity. */
  lemma {:induction false} DecodeGains(x: string, enc: set<char>, c: char)
    requires enc <= Reserved && c in enc && '&' !in enc
    ensures Count(c, ReplaceAll(EncodeSome(x, enc), Entity(c), [c]))
            >= Count(c, x) + (if AmpFollowedBy(x, EntityTail(c)) then 1 else 0)
    decreases |x|
  {
    if x != [] {
      var t := EntityTail(c);
      if x[0] == '&' && t <= x[1..] {
        DecodeRawStep(x, enc, c);
        DecodeGains(x[1 + |t|..], enc, c);
      } else {
        AmpFollowedByTail(x, t);
        DecodeOtherStep(x, enc, c);
        DecodeGains(x[1..], enc, c);
      }
    }
  }

  /** A raw `&` that reads as `c`'s entity: decoding yields one `c` for it. */
  lemma {:induction false} DecodeRawStep(x: string, enc: set<char>, c: char)
    requires enc <= Reserved && c in enc && '&' !in enc
    requires x != [] && x[0] == '&' && EntityTail(c) <= x[1..]
    ensures var z := x[1 + |EntityTail(c)|..];
            Count(c, ReplaceAll(EncodeSome(x, enc), Entity(c), [c]))
              == 1 + Count(c, ReplaceAll(EncodeSome(z, enc), Entity(c), [c]))
            && Count(c, x) == Count(c, z)
  {
    var z := x[1 + |EntityTail(c)|..];
    var e := Entity(c);
    RawEntityEncodes(x, enc, c);
    RawEntityCount(x, c);
    ReplaceAtStart(e, EncodeSome(z, enc), [c]);
    CountConcat(c, [c], ReplaceAll(EncodeSome(z, enc), e, [c]));
  }

  /** Any other first character: decoding keeps its `c`, if it is one. */
  lemma {:induction false} DecodeOtherStep(x: string, enc: set<char>, c: char)
    requires enc <= Reserved && c in enc && '&' !in enc
    requires x != [] && !(x[0] == '&' && EntityTail(c) <= x[1..])
    ensures var here := if x[0] == c then 1 else 0;
            Count(c, ReplaceAll(EncodeSome(x, enc), Entity(c), [c]))
              >= here + Count(c, ReplaceAll(EncodeSome(x[1..], enc), Entity(c), [c]))
            && Count(c, x) == here + Count(c, x[1..])
  {
    var rest := EncodeSome(x[1..], enc);
    var p := Piece(x[0], enc - {c});
    var tail := ReplaceAll(rest, Entity(c), [c]);
    assert EncodeSome(x, enc) == Piece(x[0], enc) + rest;
    DecodePiece(x, enc, c, rest);
    assert ReplaceAll(EncodeSome(x, enc), Entity(c), [c]) == p + tail;
    CountConcat(c, p, tail);
    PieceCount(x[0], enc, c);
  }

  lemma {:induction false} PieceCount(d: char, enc: set<char>, c: char)
    requires c in enc
    ensures Count(c, Piece(d, enc - {c})) >= (if d == c then 1 else 0)
  {
    if d == c {
      assert Piece(d, enc - {c}) == [c];
      assert [c][1..] == [];
    }
  }

  /** DecodeGains with the entity and its character spelt out. */
  lemma {:induction false} DecodeGainsAs(x: string, enc: set<char>, c: char, pat: string, rep: string, tail: string)
    requires enc <= Reserved && c in enc && '&' !in enc
    requires pat == Entity(c) && rep == [c] && tail == EntityTail(c)
    requires AmpFollowedBy(x, tail)
    ensures Count(c, ReplaceAll(EncodeSome(x, enc), pat, rep)) > Count(c, x)
  {
    DecodeGains(x, enc, c);
  }

  /** The source's decoder fails to give back any input in which some `&`
      already reads as an entity of `<`, `>`, `"` or `'`: that input comes
      back with one character more of the entity's kind. */
  lemma {:induction false} RoundTripFailsWhenLooksEncoded(x: string)
    requires LooksEncoded(x)
    ensures SanitizeForDisplay(EncodeEntities(x)) != x
  {
    DecodingFails(x);
  }

  lemma {:induction false} DecodingFails(x: string)
    requires LooksEncoded(x)
    ensures SanitizeForDisplay(EncodeChars(x)) != x
  {
    DecodeStepAs(x, Reserved, '&', "&amp;", "&", {'<', '>', '"', '\''});
    if AmpFollowedBy(x, "lt;") {
      GainsLt(x);
    } else {
      DecodingFailsAfterLt(x);
    }
  }

  lemma {:induction false} DecodingFailsAfterLt(x: string)
    requires LooksEncoded(x) && !AmpFollowedBy(x, "lt;")
    ensures var y2 := ReplaceAll(EncodeSome(x, {'<', '>', '"', '\''}), "&lt;", "<");
            ReplaceAll(ReplaceAll(ReplaceAll(y2, "&gt;", ">"), "&quot;", "\""), "&#x27;", "'") != x
  {
    DecodeStepAs(x, {'<', '>', '"', '\''}, '<', "&lt;", "<", {'>', '"', '\''});
    if AmpFollowedBy(x, "gt;") {
      GainsGt(x);
    } else {
      DecodingFailsAfterGt(x);
    }
  }

  lemma {:induction false} DecodingFailsAfterGt(x: string)
    requires LooksEncoded(x) && !AmpFollowedBy(x, "lt;") && !AmpFollowedBy(x, "gt;")
    ensures var y3 := ReplaceAll(EncodeSome(x, {'>', '"', '\''}), "&gt;", ">");
            ReplaceAll(ReplaceAll(y3, "&quot;", "\""), "&#x27;", "'") != x
  {
    DecodeStepAs(x, {'>', '"', '\''}, '>', "&gt;", ">", {'"', '\''});
    DecodingFailsAtQuot(x);
  }

  lemma {:induction false} DecodingFailsAtQuot(x: string)
    requires LooksEncoded(x) && !AmpFollowedBy(x, "lt;") && !AmpFollowedBy(x, "gt;")
    ensures ReplaceAll(ReplaceAll(EncodeSome(x, {'"', '\''}), "&quot;", "\""), "&#x27;", "'") != x
  {
    if AmpFollowedBy(x, "quot;") {
      GainsQuot(x);
    } else {
      DecodingFailsAtApos(x);
    }
  }

  lemma {:induction false} DecodingFailsAtApos(x: string)
    requires AmpFollowedBy(x, "#x27;") && !AmpFollowedBy(x, "quot;")
    ensures ReplaceAll(ReplaceAll(EncodeSome(x, {'"', '\''}), "&quot;", "\""), "&#x27;", "'") != x
  {
    DecodeStepAs(x, {'"', '\''}, '"', "&quot;", "\"", {'\''});
    DecodeGainsAs(x, {'\''}, '\'', "&#x27;", "'", "#x27;");
    MoreOfDiffers(ReplaceAll(EncodeSome(x, {'\''}), "&#x27;", "'"), x, '\'');
  }

  lemma {:induction false} MoreOfDiffers(a: string, b: string, c: char)
    requires Count(c, a) > Count(c, b)
    ensures a != b
  {
  }

  /** The decoding steps after `&lt;` leave the number of `<`s alone. */
  lemma {:induction false} GainsLt(x: string)
    requires AmpFollowedBy(x, "lt;")
    ensures var y2 := ReplaceAll(EncodeSome(x, {'<', '>', '"', '\''}), "&lt;", "<");
            ReplaceAll(ReplaceAll(ReplaceAll(y2, "&gt;", ">"), "&quot;", "\""), "&#x27;", "'") != x
  {
    DecodeGainsAs(x, {'<', '>', '"', '\''}, '<', "&lt;", "<", "lt;");
    var y2 := ReplaceAll(EncodeSome(x, {'<', '>', '"', '\''}), "&lt;", "<");
    GtStepsKeep(y2, '<');
    MoreOfDiffers(ReplaceAll(ReplaceAll(ReplaceAll(y2, "&gt;", ">"), "&quot;", "\""), "&#x27;", "'"), x, '<');
  }

  lemma {:induction false} GainsGt(x: string)
    requires AmpFollowedBy(x, "gt;")
    ensures var y3 := ReplaceAll(EncodeSome(x, {'>', '"', '\''}), "&gt;", ">");
            ReplaceAll(ReplaceAll(y3, "&quot;", "\""), "&#x27;", "'") != x
  {
    DecodeGainsAs(x, {'>', '"', '\''}, '>', "&gt;", ">", "gt;");
    var y3 := ReplaceAll(EncodeSome(x, {'>', '"', '\''}), "&gt;", ">");
    QuotStepsKeep(y3, '>');
    MoreOfDiffers(ReplaceAll(ReplaceAll(y3, "&quot;", "\""), "&#x27;", "'"), x, '>');
  }

  lemma {:induction false} GainsQuot(x: string)
    requires AmpFollowedBy(x, "quot;")
    ensures var y4 := ReplaceAll(EncodeSome(x, {'"', '\''}), "&quot;", "\"");
            ReplaceAll(y4, "&#x27;", "'") != x
  {
    DecodeGainsAs(x, {'"', '\''}, '"', "&quot;", "\"", "quot;");
    var y4 := ReplaceAll(EncodeSome(x, {'"', '\''}), "&quot;", "\"");
    AposStepKeeps(y4, '"');
    MoreOfDiffers(ReplaceAll(y4, "&#x27;", "'"), x, '"');
  }

  /** The decoding steps after the one for `c` leave the number of `c`s
      alone: their entities and replacements do not hold `c`. */
  lemma {:induction false} GtStepsKeep(y: string, c: char)
    requires c == '<'
    ensures var r := ReplaceAll(ReplaceAll(ReplaceAll(y, "&gt;", ">"), "&quot;", "\""), "&#x27;", "'");
            Count(c, r) == Count(c, y)
  {
    CountPreserved(y, "&gt;", ">", c);
    QuotStepsKeep(ReplaceAll(y, "&gt;", ">"), c);
  }

  lemma {:induction false} QuotStepsKeep(y: string, c: char)
    requires c == '<' || c == '>'
    ensures Count(c, ReplaceAll(ReplaceAll(y, "&quot;", "\""), "&#x27;", "'")) == Count(c, y)
  {
    CountPreserved(y, "&quot;", "\"", c);
    AposStepKeeps(ReplaceAll(y, "&quot;", "\""), c);
  }

  lemma {:induction false} AposStepKeeps(y: string, c: char)
    requires c == '<' || c == '>' || c == '"'
    ensures Count(c, ReplaceAll(y, "&#x27;", "'")) == Count(c, y)
  {
    CountPreserved(y, "&#x27;", "'", c);
  }

  /** The decoder as written inverts the encoding exactly for the inputs in
      which no `&` already reads as an entity of `<`, `>`, `"` or `'`. */
  lemma {:induction false} RoundTripExactly(x: string)
    ensures SanitizeForDisplay(EncodeEntities(x)) == x <==> !LooksEncoded(x)
  {
    if LooksEncoded(x) {
      RoundTripFailsWhenLooksEncoded(x);
    } else {
      RoundTripWhenNotLooksEncoded(x);
    }
  }

  /** In particular, text without `&` always comes back. */
  lemma {:induction false} NoAmpersandRoundTrips(x: string)
    requires '&' !in x
    ensures SanitizeForDisplay(EncodeEntities(x)) == x
  {
    RoundTripWhenNotLooksEncoded(x);
  }

  /** A `&` followed by text ending in `;` puts a `;` in the input. */
  lemma {:induction false} SemicolonAfterAmp(x: string, t: string)
    requires t != [] && t[|t| - 1] == ';'
    ensures AmpFollowedBy(x, t) ==> ';' in x
  {
    if AmpFollowedBy(x, t) {
      var i :| 0 <= i < |x| && x[i] == '&' && t <= x[i + 1..];
      assert x[i + |t|] == t[|t| - 1];
    }
  }

  /** Each entity tail ends in `;`, so text without a semicolon never looks
      encoded. */
  lemma {:induction false} NoSemicolonNotLooksEncoded(x: string)
    ensures ';' !in x ==> !LooksEncoded(x)
  {
    SemicolonAfterAmp(x, "lt;");
    SemicolonAfterAmp(x, "gt;");
    SemicolonAfterAmp(x, "quot;");
    SemicolonAfterAmp(x, "#x27;");
  }

  lemma {:induction false} AmpLtEncodes(x: string)
    requires x == "&lt;"
    ensures EncodeChars(x) == "&amp;lt;"
  {
    EncodeSomeKeeps(x[1..], Reserved);
    assert EncodeChars(x) == Entity('&') + x[1..];
  }

  /** The smallest input the source's decoder does not give back: `&lt;`
      is encoded to `&amp;lt;`, which decodes to `<`. */
  lemma {:induction false} AmpFirstCounterexample(x: string)
    requires x == "&lt;"
    ensures EncodeEntities(x) == "&amp;lt;"
    ensures SanitizeForDisplay(EncodeEntities(x)) == "<"
  {
    AmpLtEncodes(x);
    AmpLtDecodes(EncodeEntities(x));
  }

  lemma {:induction false} AmpLtDecodes(e: string)
    requires e == "&amp;lt;"
    ensures SanitizeForDisplay(e) == "<"
  {
    var d1 := ReplaceAll(e, "&amp;", "&");
    ReplaceAtStart("&amp;", "lt;", "&");
    assert e == "&amp;" + "lt;";
    ReplaceAbsent("lt;", "&amp;", "&");
    assert d1 == "&lt;";
    var d2 := ReplaceAll(d1, "&lt;", "<");
    ReplaceAtStart("&lt;", [], "<");
    assert d1 == "&lt;" + [];
    assert d2 == "<";
    ReplaceAbsent(d2, "&gt;", ">");
    ReplaceAbsent(d2, "&quot;", "\"");
    ReplaceAbsent(d2, "&#x27;", "'");
  }
}
