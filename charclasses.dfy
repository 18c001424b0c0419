/** Character classes used by the tweet-text normaliser.

    Whitespace follows Python's `str.isspace()`, which is what both the
    regular-expression class `\s` (for `str` patterns) and `str.strip()` use.
    Letters, the word class `\w` and case conversion are modelled on ASCII only. */
module CharClasses {

  /** Python's whitespace: the characters for which `str.isspace()` holds. */
  predicate IsSpace(c: char) {
    ('\t' <= c <= '\r')                       // tab, line feed, vertical tab, form feed, carriage return
    || ('\U{001C}' <= c <= '\U{001F}')        // file, group, record and unit separators
    || c == ' '
    || c == '\U{0085}' || c == '\U{00A0}' || c == '\U{1680}'
    || ('\U{2000}' <= c <= '\U{200A}')
    || c == '\U{2028}' || c == '\U{2029}' || c == '\U{202F}' || c == '\U{205F}' || c == '\U{3000}'
  }

  predicate IsUpper(c: char) { 'A' <= c <= 'Z' }

  predicate IsLowerLetter(c: char) { 'a' <= c <= 'z' }

  predicate IsDigit(c: char) { '0' <= c <= '9' }

  /** The regular-expression class `\w`, on ASCII: `[A-Za-z0-9_]`. */
  predicate IsWordChar(c: char) {
    IsUpper(c) || IsLowerLetter(c) || IsDigit(c) || c == '_'
  }

  /** `str.lower()` on one character: upper-case ASCII letters move to lower case. */
  function ToLower(c: char): (r: char)
    ensures !IsUpper(r)
    ensures IsUpper(c) ==> IsLowerLetter(r) && r as int == c as int + 32
    ensures !IsUpper(c) ==> r == c
  {
    if IsUpper(c) then (c as int + 32) as char else c
  }

  /** Python's `string.punctuation`. */
  const Punctuation: string := "!\"#$%&'()*+,-./:;<=>?@[\\]^_`{|}~"

  /** Python's `string.digits`. */
  const Digits: string := "0123456789"

  /** The characters the translation table of the fourth stage deletes,
      as the four ranges of printable ASCII that are neither letters nor
      the space, plus the digits. `DeletionSetIsPythonConstants` proves
      that this is exactly `string.punctuation + string.digits`. */
  predicate IsPunctuationOrDigit(c: char) {
    ('!' <= c <= '/') || (':' <= c <= '@') || ('[' <= c <= '`') || ('{' <= c <= '~') || IsDigit(c)
  }

  lemma DeletionSetIsPythonConstants(c: char)
    ensures IsPunctuationOrDigit(c) <==> c in Punctuation + Digits
  {
    if c in Punctuation + Digits {
      ConstantsInRanges(c);
    }
  }

  lemma ConstantsInRanges(c: char)
    requires c in Punctuation + Digits
    ensures IsPunctuationOrDigit(c)
  {
    var s := Punctuation + Digits;
    var i :| 0 <= i < |s| && s[i] == c;
  }
}
