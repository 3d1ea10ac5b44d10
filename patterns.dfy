/** The two fixed threat-pattern lists the validator consults, each entry a
    case-insensitive regular expression in the source, modelled here as an
    exact predicate over the input with ASCII letters folded to lower case. */
module Patterns {
  import opened Text

  /** One kind of entry in a pattern list. */
  datatype Pattern =
    | ElementBlock(tag: string)                  // <tag\b ... </tag>
    | EventHandlerAttribute                      // on\w+\s*=
    | Phrase(text: string)                       // a fixed text such as javascript:
    | QuoteOrTerminator                          // ' ; \' \'; ;-- \';--
    | KeywordPair(first: string, second: string) // first\s+second

  const XssPatterns: seq<Pattern> := [
    ElementBlock("script"), ElementBlock("iframe"), ElementBlock("object"),
    ElementBlock("embed"), EventHandlerAttribute, Phrase("javascript:"),
    Phrase("vbscript:"), Phrase("data:text/html")
  ]

  const SqlInjectionPatterns: seq<Pattern> := [
    QuoteOrTerminator, KeywordPair("union", "select"), KeywordPair("insert", "into"),
    KeywordPair("delete", "from"), KeywordPair("update", "set"),
    KeywordPair("drop", "table"), KeywordPair("alter", "table")
  ]

  /** `<tag` starts at `i` and the next character is not `\w` (the `\b`). */
  predicate OpensElementAt(s: string, tag: string, i: int) {
    OccursAt(s, "<" + tag, i) && i + |tag| + 1 < |s| && !IsWordChar(s[i + |tag| + 1])
  }

  /** From index `k` on: one or more `\w`, then any `\s`, then `=`. */
  predicate HandlerTailAt(s: string, k: nat) {
    exists n :: k < n < |s| && WordRun(s, k, n) &&
      exists m :: n <= m < |s| && SpaceRun(s, n, m) && s[m] == '='
  }

  /** An element block opens at `i`: `<tag\b`, and a closing tag follows. */
  predicate ElementBlockAt(s: string, tag: string, i: int) {
    OpensElementAt(s, tag, i) &&
    exists j :: i + |tag| + 1 <= j <= |s| && OccursAt(s, "</" + tag + ">", j)
  }

  /** An event-handler attribute starts at `i`. */
  predicate HandlerAt(s: string, i: int) {
    OccursAt(s, "on", i) && HandlerTailAt(s, i + 2)
  }

  /** `first`, at least one whitespace character, then `second`, from `i`. */
  predicate KeywordPairAt(s: string, first: string, second: string, i: int) {
    OccursAt(s, first, i) &&
    exists j :: i + |first| < j <= |s| && SpaceRun(s, i + |first|, j) && OccursAt(s, second, j)
  }

  /** The regular expression of `p` finds a match somewhere in `input`.
      An element block matches from an opening `<tag\b` to any later closing
      tag: the source's expression stops at the first closing tag after the
      opening one, which exists whenever any does. */
  predicate Matches(p: Pattern, input: string) {
    var s := Lower(input);
    match p
    case ElementBlock(tag) => exists i :: 0 <= i < |s| && ElementBlockAt(s, tag, i)
    case EventHandlerAttribute => exists i :: 0 <= i < |s| && HandlerAt(s, i)
    case Phrase(text) => Contains(s, text)
    case QuoteOrTerminator => '\'' in s || ';' in s
    case KeywordPair(first, second) => exists i :: 0 <= i < |s| && KeywordPairAt(s, first, second, i)
  }

  /** Some pattern of the list matches: the source's `for ... of` loop that
      returns on the first `pattern.test(input)` that succeeds. */
  predicate MatchesAny(patterns: seq<Pattern>, input: string) {
    exists k :: 0 <= k < |patterns| && Matches(patterns[k], input)
  }

  /** The first SQL-injection pattern flags exactly the inputs that contain a
      single quote or a semicolon: every alternative of its expression
      contains one of the two. */
  lemma {:induction false} QuoteOrTerminatorExactly(input: string)
    ensures Matches(QuoteOrTerminator, input) <==> ('\'' in input || ';' in input)
  {
    var s := Lower(input);
    if '\'' in input || ';' in input {
      var i :| 0 <= i < |input| && (input[i] == '\'' || input[i] == ';');
      assert s[i] == input[i];
    }
    if '\'' in s || ';' in s {
      var i :| 0 <= i < |s| && (s[i] == '\'' || s[i] == ';');
      assert input[i] == s[i];
    }
  }

  /** Any input holding a quote or a semicolon is an SQL-injection suspect. */
  lemma {:induction false} QuoteOrSemicolonFlagged(input: string)
    requires '\'' in input || ';' in input
    ensures MatchesAny(SqlInjectionPatterns, input)
  {
    QuoteOrTerminatorExactly(input);
    assert Matches(SqlInjectionPatterns[0], input);
  }

  /** An opening `<script` tag (any letter case) followed by a non-word
      character and, later, a closing `</script>` is flagged as XSS. */
  lemma {:induction false} ScriptBlockFlagged(input: string, i: nat, j: nat)
    requires OccursAt(Lower(input), "<script", i) && i + 7 < |input|
    requires !IsWordChar(input[i + 7])
    requires i + 7 <= j && OccursAt(Lower(input), "</script>", j)
    ensures MatchesAny(XssPatterns, input)
  {
    var s := Lower(input);
    assert "<" + "script" == "<script" && "</" + "script" + ">" == "</script>";
    assert !IsWordChar(s[i + 7]);
    assert ElementBlockAt(s, "script", i);
    assert Matches(XssPatterns[0], input);
  }
}
