/** The client-side validators: the shared text validator and sanitiser,
    its per-field wrappers with their length limits, and the file-upload
    check. Each returns a validation result: a verdict, an error message on
    failure and, for text, the sanitised value on success. */
module Validation {
  import opened Text
  import opened Patterns
  import opened HtmlEntities

  datatype Option<T> = None | Some(value: T)

  /** `{ isValid, error?, sanitized? }`; an absent field is `None`. */
  datatype ValidationResult = ValidationResult(isValid: bool, error: Option<string>, sanitized: Option<string>)

  /** A failure carries a message and no sanitised value; a success carries
      no message. */
  predicate WellShaped(r: ValidationResult) {
    if r.isValid then r.error == None else r.error.Some? && r.sanitized == None
  }

  function Failure(message: string): ValidationResult {
    ValidationResult(false, Some(message), None)
  }

  // Length limits of the stored columns.
  const TitleMaxLength: int := 255
  const DescriptionMaxLength: int := 1000
  const QuestionMaxLength: int := 2000
  const AnswerMaxLength: int := 2000
  const CategoryMaxLength: int := 100
  const DisplayNameMaxLength: int := 100

  /** A number as a template literal renders an integer. */
  function IntToString(n: int): (s: string)
    ensures s != [] && (s[0] == '-' <==> n < 0)
  {
    if n < 0 then "-" + NatToString(-n) else NatToString(n)
  }

  /** After the sign, the rendering is the canonical decimal numeral of
      the magnitude: digits only, reading back as the magnitude, and no
      leading zero unless the number is 0. */
  lemma {:induction false} IntToStringValue(n: int)
    ensures var s := IntToString(n);
            var digits := if n < 0 then s[1..] else s;
            digits != [] && (forall i :: 0 <= i < |digits| ==> '0' <= digits[i] <= '9')
            && ValueOf(digits) == (if n < 0 then -n else n)
            && (digits[0] == '0' ==> n == 0)
  {
    var m: nat := if n < 0 then -n else n;
    NatToStringValue(m);
    if n < 0 {
      assert IntToString(n)[1..] == NatToString(m);
    }
  }

  function EmptyMessage(fieldName: string): string {
    fieldName + " cannot be empty"
  }

  function LengthMessage(fieldName: string, maxLength: int): string {
    fieldName + " must be " + IntToString(maxLength) + " characters or less"
  }

  function DangerousMessage(fieldName: string): string {
    fieldName + " contains potentially dangerous content"
  }

  function InvalidCharactersMessage(fieldName: string): string {
    fieldName + " contains invalid characters"
  }

  /** The input passes every check of the text validator. */
  predicate Acceptable(input: string, maxLength: int) {
    !IsBlank(input) && |input| <= maxLength
    && !MatchesAny(XssPatterns, input) && !MatchesAny(SqlInjectionPatterns, input)
  }

  /** `validateAndSanitizeText`: blank input, then over-length input, then
      XSS patterns, then SQL-injection patterns are refused, the first
      failing check deciding the message; accepted input is entity-encoded
      and trimmed. */
  function ValidateAndSanitizeText(input: string, maxLength: int, fieldName: string := "Input"): (r: ValidationResult)
    ensures WellShaped(r)
    ensures r.isValid <==> Acceptable(input, maxLength)
    ensures IsBlank(input) ==> r == Failure(EmptyMessage(fieldName))
    ensures !IsBlank(input) && |input| > maxLength ==>
              r == Failure(LengthMessage(fieldName, maxLength))
    ensures !IsBlank(input) && |input| <= maxLength && MatchesAny(XssPatterns, input) ==>
              r == Failure(DangerousMessage(fieldName))
    ensures !IsBlank(input) && |input| <= maxLength && !MatchesAny(XssPatterns, input)
            && MatchesAny(SqlInjectionPatterns, input) ==>
              r == Failure(InvalidCharactersMessage(fieldName))
    ensures r.isValid ==> '\'' !in input && ';' !in input
    ensures r.isValid ==> r.sanitized == Some(EncodeChars(Trim(input)))
    ensures r.isValid ==>
              var s := r.sanitized.value;
              '<' !in s && '>' !in s && '"' !in s && '\'' !in s
              && SanitizeForDisplay(s) == Trim(input) && SanitizeForDisplayAmpLast(s) == Trim(input)
  {
    if Trim(input) == [] then
      Failure(EmptyMessage(fieldName))
    else if |input| > maxLength then
      Failure(LengthMessage(fieldName, maxLength))
    else if MatchesAny(XssPatterns, input) then
      Failure(DangerousMessage(fieldName))
    else if MatchesAny(SqlInjectionPatterns, input) then
      Failure(InvalidCharactersMessage(fieldName))
    else
      SanitizedFacts(input);
      ValidationResult(true, None, Some(Trim(EncodeEntities(input))))
  }

  /** What the encode-then-trim step gives for input without a quote or a
      semicolon: the encoding of the trimmed input, free of markup, which
      the display decoder turns back into the trimmed input. */
  lemma {:induction false} SanitizedFacts(input: string)
    requires !MatchesAny(SqlInjectionPatterns, input)
    ensures '\'' !in input && ';' !in input
    ensures var s := Trim(EncodeEntities(input));
            s == EncodeChars(Trim(input))
            && '<' !in s && '>' !in s && '"' !in s && '\'' !in s
            && SanitizeForDisplay(s) == Trim(input) && SanitizeForDisplayAmpLast(s) == Trim(input)
  {
    if '\'' in input || ';' in input {
      QuoteOrSemicolonFlagged(input);
    }
    var t := Trim(input);
    EncodeCommutesWithTrim(input);
    EncodedHasNoMarkup(t);
    NoSemicolonNotLooksEncoded(t);
    RoundTripWhenNotLooksEncoded(t);
    AmpLastRoundTrip(t);
  }

  /** `validateQuestion`: the text validator with limit 2000. */
  function ValidateQuestion(question: string): (r: ValidationResult)
    ensures WellShaped(r)
    ensures r.isValid <==> Acceptable(question, 2000)
    ensures IsBlank(question) ==> r == Failure(EmptyMessage("Question"))
    ensures !IsBlank(question) && |question| > 2000 ==>
              r == Failure(LengthMessage("Question", 2000))
  {
    ValidateAndSanitizeText(question, QuestionMaxLength, "Question")
  }

  /** `validateAnswer`: the text validator with limit 2000. */
  function ValidateAnswer(answer: string): (r: ValidationResult)
    ensures WellShaped(r)
    ensures r.isValid <==> Acceptable(answer, 2000)
    ensures IsBlank(answer) ==> r == Failure(EmptyMessage("Answer"))
    ensures !IsBlank(answer) && |answer| > 2000 ==>
              r == Failure(LengthMessage("Answer", 2000))
  {
    ValidateAndSanitizeText(answer, AnswerMaxLength, "Answer")
  }

  /** `validateTitle`: the text validator with limit 255. */
  function ValidateTitle(title: string): (r: ValidationResult)
    ensures WellShaped(r)
    ensures r.isValid <==> Acceptable(title, 255)
    ensures IsBlank(title) ==> r == Failure(EmptyMessage("Title"))
    ensures !IsBlank(title) && |title| > 255 ==>
              r == Failure(LengthMessage("Title", 255))
  {
    ValidateAndSanitizeText(title, TitleMaxLength, "Title")
  }

  /** `validateDescription`: blank input is accepted as the empty
      description without any pattern check; anything else goes through the
      text validator with limit 1000. */
  function ValidateDescription(description: string): (r: ValidationResult)
    ensures WellShaped(r)
    ensures IsBlank(description) ==> r == ValidationResult(true, None, Some(""))
    ensures !IsBlank(description) ==> (r.isValid <==> Acceptable(description, 1000))
    ensures !IsBlank(description) && |description| > 1000 ==>
              r == Failure(LengthMessage("Description", 1000))
  {
    if Trim(description) == [] then
      ValidationResult(true, None, Some(""))
    else
      ValidateAndSanitizeText(description, DescriptionMaxLength, "Description")
  }

  /** The length messages the wrappers produce, written out. */
  lemma Render2000()
    ensures IntToString(2000) == "2000"
  {
  }

  lemma Render255()
    ensures IntToString(255) == "255"
  {
  }

  lemma Render1000()
    ensures IntToString(1000) == "1000"
  {
  }

  lemma {:induction false} LengthMessageWith(fieldName: string, maxLength: int, digits: string)
    requires IntToString(maxLength) == digits
    ensures LengthMessage(fieldName, maxLength) == fieldName + " must be " + digits + " characters or less"
  {
  }

  lemma QuestionLengthMessage()
    ensures LengthMessage("Question", 2000) == "Question must be 2000 characters or less"
  {
    Render2000();
    LengthMessageWith("Question", 2000, "2000");
    QuestionSpelled();
  }

  lemma QuestionSpelled()
    ensures "Question" + " must be " + "2000" + " characters or less" == "Question must be 2000 characters or less"
  {
  }

  lemma AnswerLengthMessage()
    ensures LengthMessage("Answer", 2000) == "Answer must be 2000 characters or less"
  {
    Render2000();
    LengthMessageWith("Answer", 2000, "2000");
    AnswerSpelled();
  }

  lemma AnswerSpelled()
    ensures "Answer" + " must be " + "2000" + " characters or less" == "Answer must be 2000 characters or less"
  {
  }

  lemma TitleLengthMessage()
    ensures LengthMessage("Title", 255) == "Title must be 255 characters or less"
  {
    Render255();
    LengthMessageWith("Title", 255, "255");
    TitleSpelled();
  }

  lemma TitleSpelled()
    ensures "Title" + " must be " + "255" + " characters or less" == "Title must be 255 characters or less"
  {
  }

  lemma DescriptionLengthMessage()
    ensures LengthMessage("Description", 1000) == "Description must be 1000 characters or less"
  {
    Render1000();
    LengthMessageWith("Description", 1000, "1000");
    DescriptionSpelled();
  }

  lemma DescriptionSpelled()
    ensures "Description" + " must be " + "1000" + " characters or less" == "Description must be 1000 characters or less"
  {
  }

  // ---------------------------------------------------------------------
  // Consequences

  /** Input holding a quote or a semicolon that gets past the earlier checks
      is refused as invalid characters: no accepted text ever holds one. */
  lemma {:induction false} QuoteOrSemicolonRejected(input: string, maxLength: int, fieldName: string)
    requires !IsBlank(input) && |input| <= maxLength && !MatchesAny(XssPatterns, input)
    requires '\'' in input || ';' in input
    ensures ValidateAndSanitizeText(input, maxLength, fieldName)
              == Failure(InvalidCharactersMessage(fieldName))
  {
    QuoteOrSemicolonFlagged(input);
  }

  /** A closed `<script ...>...</script>` block within the limit is refused
      as dangerous content. */
  lemma {:induction false} ScriptBlockRejected(input: string, maxLength: int, fieldName: string, i: nat, j: nat)
    requires |input| <= maxLength
    requires OccursAt(Lower(input), "<script", i) && i + 7 < |input| && !IsWordChar(input[i + 7])
    requires i + 7 <= j && OccursAt(Lower(input), "</script>", j)
    ensures ValidateAndSanitizeText(input, maxLength, fieldName)
              == Failure(DangerousMessage(fieldName))
  {
    ScriptBlockFlagged(input, i, j);
    assert Lower(input)[i] == '<' && ToLowerAscii(input[i]) == '<';
    assert !IsWhitespace(input[i]);
  }

  /** The characters without which no pattern can match: every threat
      pattern needs a `/`, `=`, `:`, quote, semicolon or whitespace. */
  predicate HasTriggerCharacter(input: string) {
    exists i :: 0 <= i < |input| && IsTrigger(input[i])
  }

  predicate IsTrigger(c: char) {
    c == '/' || c == '=' || c == ':' || c == '\'' || c == ';' || IsWhitespace(c)
  }

  /** Lower-casing changes letters only. */
  lemma {:induction false} LowerKeeps(input: string, k: int)
    requires 0 <= k < |input|
    requires IsTrigger(Lower(input)[k])
    ensures HasTriggerCharacter(input)
  {
    assert input[k] == Lower(input)[k];
  }

  lemma {:induction false} ElementBlockNeedsSlash(input: string, tag: string)
    requires Matches(ElementBlock(tag), input)
    ensures HasTriggerCharacter(input)
  {
    var s := Lower(input);
    var i :| 0 <= i < |s| && ElementBlockAt(s, tag, i);
    var j :| i + |tag| + 1 <= j <= |s| && OccursAt(s, "</" + tag + ">", j);
    assert s[j + 1] == ("</" + tag + ">")[1] == '/';
    LowerKeeps(input, j + 1);
  }

  lemma {:induction false} HandlerNeedsEquals(input: string)
    requires Matches(EventHandlerAttribute, input)
    ensures HasTriggerCharacter(input)
  {
    var s := Lower(input);
    var i :| 0 <= i < |s| && HandlerAt(s, i);
    var n :| i + 2 < n < |s| && WordRun(s, i + 2, n) &&
      exists m :: n <= m < |s| && SpaceRun(s, n, m) && s[m] == '=';
    var m :| n <= m < |s| && SpaceRun(s, n, m) && s[m] == '=';
    LowerKeeps(input, m);
  }

  lemma {:induction false} PhraseNeedsColon(input: string, text: string, c: nat)
    requires c < |text| && text[c] == ':'
    requires Matches(Phrase(text), input)
    ensures HasTriggerCharacter(input)
  {
    var s := Lower(input);
    var i :| 0 <= i <= |s| && OccursAt(s, text, i);
    assert s[i..i + |text|][c] == ':';
    LowerKeeps(input, i + c);
  }

  lemma {:induction false} QuoteNeedsQuote(input: string)
    requires Matches(QuoteOrTerminator, input)
    ensures HasTriggerCharacter(input)
  {
    var s := Lower(input);
    var k :| 0 <= k < |s| && (s[k] == '\'' || s[k] == ';');
    LowerKeeps(input, k);
  }

  lemma {:induction false} KeywordPairNeedsSpace(input: string, first: string, second: string)
    requires Matches(KeywordPair(first, second), input)
    ensures HasTriggerCharacter(input)
  {
    var s := Lower(input);
    var i :| 0 <= i < |s| && KeywordPairAt(s, first, second, i);
    PairHasSpace(s, first, second, i);
    LowerKeeps(input, i + |first|);
  }

  lemma {:induction false} PairHasSpace(s: string, first: string, second: string, i: int)
    requires KeywordPairAt(s, first, second, i)
    ensures 0 <= i + |first| < |s| && IsWhitespace(s[i + |first|])
  {
    var j :| i + |first| < j <= |s| && SpaceRun(s, i + |first|, j) && OccursAt(s, second, j);
  }

  lemma {:induction false} NoTriggerNoMatch(input: string, p: Pattern)
    requires p in XssPatterns || p in SqlInjectionPatterns
    ensures Matches(p, input) ==> HasTriggerCharacter(input)
  {
    if Matches(p, input) {
      match p
      case ElementBlock(tag) => ElementBlockNeedsSlash(input, tag);
      case EventHandlerAttribute => HandlerNeedsEquals(input);
      case Phrase(text) =>
        if text == "javascript:" {
          PhraseNeedsColon(input, text, 10);
        } else if text == "vbscript:" {
          PhraseNeedsColon(input, text, 8);
        } else {
          PhraseNeedsColon(input, text, 4);
        }
      case QuoteOrTerminator => QuoteNeedsQuote(input);
      case KeywordPair(first, second) => KeywordPairNeedsSpace(input, first, second);
    }
  }

  /** Text without any of those characters is never flagged, whatever
      markup it holds otherwise: within the limit and not blank, it is
      accepted. */
  lemma {:induction false} NoTriggerAccepted(input: string, maxLength: int)
    requires !IsBlank(input) && |input| <= maxLength && !HasTriggerCharacter(input)
    ensures Acceptable(input, maxLength)
  {
    forall k | 0 <= k < |XssPatterns| ensures !Matches(XssPatterns[k], input) {
      NoTriggerNoMatch(input, XssPatterns[k]);
    }
    forall k | 0 <= k < |SqlInjectionPatterns| ensures !Matches(SqlInjectionPatterns[k], input) {
      NoTriggerNoMatch(input, SqlInjectionPatterns[k]);
    }
  }

  /** An opening `<script>` tag with no closing tag is not refused: the
      tag patterns need the closing tag. It is stored encoded, and displays
      as typed. */
  lemma {:induction false} UnclosedScriptTagAccepted(input: string)
    requires input == "<script>"
    ensures var r := ValidateQuestion(input);
            r.isValid && r.sanitized == Some(EncodeChars(input))
            && SanitizeForDisplay(r.sanitized.value) == input
  {
    ScriptTagShape(input);
    NoTriggerAccepted(input, 2000);
    TrimStartStop(input);
    TrimEndStop(input);
  }

  lemma {:induction false} ScriptTagShape(input: string)
    requires input == "<script>"
    ensures |input| == 8 && !IsWhitespace(input[0]) && !IsWhitespace(input[7])
    ensures !IsBlank(input) && !HasTriggerCharacter(input)
  {
    assert forall i :: 0 <= i < |input| ==> input[i] in "<script>";
  }

  // ---------------------------------------------------------------------
  // File uploads

  /** An uploaded file: its declared MIME type and its size in bytes. */
  datatype File = File(mimeType: string, size: nat)

  const AllowedTypes: seq<string> := ["image/jpeg", "image/png", "image/gif", "image/webp"]

  /** 5 MiB. */
  const MaxFileSize: nat := 5 * 1024 * 1024

  /** `validateFileUpload`: the type allowlist is checked before the size
      cap, and a success carries neither a message nor a value. */
  function ValidateFileUpload(file: File): (r: ValidationResult)
    ensures WellShaped(r)
    ensures r.isValid <==> file.mimeType in AllowedTypes && file.size <= 5242880
    ensures r.isValid ==> r == ValidationResult(true, None, None)
    ensures file.mimeType !in AllowedTypes ==>
              r == Failure("Only JPEG, PNG, GIF, and WebP images are allowed")
    ensures file.mimeType in AllowedTypes && file.size > 5242880 ==>
              r == Failure("File size must be less than 5MB")
  {
    if file.mimeType !in AllowedTypes then
      Failure("Only JPEG, PNG, GIF, and WebP images are allowed")
    else if file.size > MaxFileSize then
      Failure("File size must be less than 5MB")
    else
      ValidationResult(true, None, None)
  }

  /** The size cap is inclusive, and the type is judged first: an image of
      exactly 5 MiB passes, one byte more fails, and an oversized file of a
      refused type gets the type message. */
  lemma {:induction false} FileSizeBoundary(png: File, big: File, svg: File)
    requires png == File("image/png", 5242880) && big == File("image/png", 5242881)
    requires svg == File("image/svg+xml", 6000000)
    ensures ValidateFileUpload(png).isValid && !ValidateFileUpload(big).isValid
    ensures ValidateFileUpload(svg).error == Some("Only JPEG, PNG, GIF, and WebP images are allowed")
  {
    PngAllowed();
    SvgRefused();
  }

  lemma PngAllowed()
    ensures "image/png" in AllowedTypes
  {
    assert AllowedTypes[1] == "image/png";
  }

  lemma SvgRefused()
    ensures "image/svg+xml" !in AllowedTypes
  {
    assert "image/svg+xml"[6] == 's';
    assert forall k :: 0 <= k < |AllowedTypes| ==> AllowedTypes[k][6] != 's';
  }
}
