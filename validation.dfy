/** `validate_text` (cli.py): the check a message passes before it is posted. */
module Validation {
  import opened Results
  import PyStr

  /** The two `ValueError`s `validate_text` raises. */
  datatype TextError = EmptyAfterTrim | TooLong(maxLength: int)
  {
    /** The exception's message, as shown in the error dialog. */
    function Message(): string {
      match this
      case EmptyAfterTrim => "Message is empty after trimming whitespace"
      case TooLong(n) => TooLongPrefix + PyStr.IntToDecimal(n) + TooLongSuffix
    }
  }

  const TooLongPrefix: string := "Text exceeds maximum length of "
  const TooLongSuffix: string := " characters"

  /** The default of `--max-length`. */
  const DefaultMaxLength: int := 280

  /**
   * `validate_text(text, max_length)`: the stripped text, or the first
   * check it fails; emptiness is checked before length.
   */
  function ValidateText(text: string, maxLength: int): (r: Result<string, TextError>)
    ensures r.Ok? ==> PyStr.IsStripOf(text, r.value) && 0 < |r.value| <= maxLength
    ensures r == Err(EmptyAfterTrim) <==> PyStr.AllSpace(text)
  {
    PyStr.StripSpec(text);
    var cleaned := PyStr.Strip(text);
    if cleaned == [] then Err(EmptyAfterTrim)
    else if |cleaned| > maxLength then Err(TooLong(maxLength))
    else Ok(cleaned)
  }

  /**
   * Validation succeeds exactly when the stripped text is non-empty and no
   * longer than the limit, and then returns the stripped text; otherwise
   * emptiness is reported before length.
   */
  lemma ValidateTextSpec(text: string, maxLength: int)
    ensures ValidateText(text, maxLength).Ok? <==>
      PyStr.Strip(text) != [] && |PyStr.Strip(text)| <= maxLength
    ensures ValidateText(text, maxLength).Ok? ==> ValidateText(text, maxLength).value == PyStr.Strip(text)
    ensures ValidateText(text, maxLength) == Err(TooLong(maxLength)) <==>
      PyStr.Strip(text) != [] && |PyStr.Strip(text)| > maxLength
  {
    PyStr.StripSpec(text);
  }

  /** Whitespace-only input is reported as empty, whatever the limit. */
  lemma WhitespaceOnlyIsEmpty(text: string, maxLength: int)
    requires PyStr.AllSpace(text)
    ensures ValidateText(text, maxLength) == Err(EmptyAfterTrim)
    ensures ValidateText(text, maxLength).error.Message() == "Message is empty after trimming whitespace"
  {
  }

  /** The length error's message names the limit: the number in it reads back as `maxLength`. */
  lemma TooLongNamesLimit(text: string, maxLength: int)
    requires ValidateText(text, maxLength).Err? && !PyStr.AllSpace(text)
    ensures var msg := ValidateText(text, maxLength).error.Message();
      && |TooLongPrefix| + |TooLongSuffix| < |msg|
      && msg[..|TooLongPrefix|] == TooLongPrefix
      && msg[|msg| - |TooLongSuffix|..] == TooLongSuffix
      && PyStr.DecimalValue(msg[|TooLongPrefix|..|msg| - |TooLongSuffix|]) == maxLength
  {
    var digits := PyStr.IntToDecimal(maxLength);
    var msg := ValidateText(text, maxLength).error.Message();
    assert msg == TooLongPrefix + digits + TooLongSuffix;
    assert msg[|TooLongPrefix|..|msg| - |TooLongSuffix|] == digits;
    PyStr.IntToDecimalRoundTrip(maxLength);
  }

  /** Validating an accepted message again accepts it unchanged. */
  lemma ValidateTextIdempotent(text: string, maxLength: int)
    requires ValidateText(text, maxLength).Ok?
    ensures ValidateText(ValidateText(text, maxLength).value, maxLength) == ValidateText(text, maxLength)
  {
    PyStr.StripIdempotent(text);
  }

  /** Whitespace inside the message is kept: only the ends are trimmed. */
  lemma InteriorWhitespaceKept(left: string, body: string, right: string, maxLength: int)
    requires PyStr.AllSpace(left) && PyStr.AllSpace(right)
    requires body != [] && !PyStr.IsSpace(body[0]) && !PyStr.IsSpace(body[|body| - 1])
    requires |body| <= maxLength
    ensures ValidateText(left + body + right, maxLength) == Ok(body)
  {
    var s := left + body + right;
    assert s[|left|..|left| + |body|] == body;
    assert PyStr.StrippedAt(s, |left|, |left| + |body|);
    PyStr.StripUnique(s, body);
  }

  /** A 281-character message is too long for the default limit, and the message says 280. */
  lemma DefaultLimitExample()
    ensures var text := seq(281, _ => 'a');
      ValidateText(text, DefaultMaxLength) == Err(TooLong(280))
      && ValidateText(text, DefaultMaxLength).error.Message()
         == "Text exceeds maximum length of 280 characters"
  {
    var text := seq(281, _ => 'a');
    assert !PyStr.IsSpace(text[0]) && !PyStr.IsSpace(text[280]);
    assert text[0..281] == text;
    assert PyStr.StrippedAt(text, 0, 281);
    PyStr.StripUnique(text, text);
    assert PyStr.NatToDecimal(28) == "28";
    assert PyStr.NatToDecimal(280) == "280";
  }
}
