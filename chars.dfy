/**
 * Character predicates used by the report's regular expressions
 * (pages/index.js, lines 31-34): `\s`, `\d`, and the ASCII case folding
 * that the `/i` flag performs on these all-ASCII labels.
 */
module Chars {

  /**
   * ECMAScript `\s`: the WhiteSpace code points (tab, vertical tab, form feed,
   * space, no-break space, the byte-order mark and the Zs category) and the
   * LineTerminator code points (line feed, carriage return, U+2028, U+2029).
   */
  predicate IsSpace(c: char)
  {
    c == '\t' || c == '\n' || c == '\U{000B}' || c == '\U{000C}' || c == '\r' || c == ' '
    || c == '\U{00A0}' || c == '\U{1680}' || ('\U{2000}' <= c <= '\U{200A}')
    || c == '\U{2028}' || c == '\U{2029}' || c == '\U{202F}' || c == '\U{205F}'
    || c == '\U{3000}' || c == '\U{FEFF}'
  }

  /** ECMAScript `\d`: the ten ASCII digits only. */
  predicate IsDigit(c: char)
  {
    '0' <= c <= '9'
  }

  predicate IsUpper(c: char)
  {
    'A' <= c <= 'Z'
  }

  predicate IsLetter(c: char)
  {
    'a' <= c <= 'z' || IsUpper(c)
  }

  /**
   * ASCII lower-casing. A regular expression without the `u` flag folds case
   * by upper-casing, and never maps a code point above U+007F onto an ASCII
   * one, so for labels made of ASCII letters this folding decides a match
   * exactly as the `/i` flag does.
   */
  function Lower(c: char): (d: char)
    ensures !IsUpper(d)
    ensures IsLetter(d) <==> IsLetter(c)
    ensures !IsUpper(c) ==> d == c
    ensures IsUpper(c) ==> d as int == c as int + 32
  {
    if IsUpper(c) then (c as int + 32) as char else c
  }

  /** The four character sets the patterns quantify over. */
  datatype CharClass =
    | Whitespace    // `\s`, between `Platelet` and `Count`
    | Separator     // `[:\s]`, between a label and its value
    | DecimalChar   // `[\d.]`, the Hemoglobin, RBC and WBC values
    | GroupedDigit  // `[\d,]`, the PlateletCount value

  predicate In(c: char, k: CharClass)
  {
    match k
    case Whitespace => IsSpace(c)
    case Separator => c == ':' || IsSpace(c)
    case DecimalChar => IsDigit(c) || c == '.'
    case GroupedDigit => IsDigit(c) || c == ','
  }

  /** Two characters equal under folding are in the same classes, and equal when in one. */
  lemma FoldPreservesClass(c: char, d: char, k: CharClass)
    requires Lower(c) == Lower(d)
    ensures In(c, k) <==> In(d, k)
    ensures In(c, k) ==> c == d
  {
    if IsLetter(c) || IsLetter(d) {
      assert IsLetter(c) && IsLetter(d);
    }
  }
}
