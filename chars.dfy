/** Small shared vocabulary: an optional value, the two character classes the
    flanking rules use, and the two string helpers the tokenizer calls
    (a bounds-checked read and an exact match of a mark at an index). */
module Chars {

  datatype Option<+T> = None | Some(value: T)

  /** The escape character: it hides itself and the character after it. */
  const Escape: char := '\\'

  /** .NET's `char.IsWhiteSpace`: the Unicode space separators, the line and
      paragraph separators, and the control characters U+0009-U+000D, U+0085. */
  predicate IsWhiteSpace(c: char) {
    || ('\t' <= c <= '\r')
    || c == ' '
    || c == '\U{0085}'
    || c == '\U{00A0}'
    || c == '\U{1680}'
    || ('\U{2000}' <= c <= '\U{200A}')
    || c == '\U{2028}'
    || c == '\U{2029}'
    || c == '\U{202F}'
    || c == '\U{205F}'
    || c == '\U{3000}'
  }

  /** An approximation of `char.IsLetter`: ASCII, Latin-1 and Cyrillic letters. */
  predicate IsLetter(c: char) {
    || ('A' <= c <= 'Z')
    || ('a' <= c <= 'z')
    || c == '\U{00AA}' || c == '\U{00B5}' || c == '\U{00BA}'
    || ('\U{00C0}' <= c <= '\U{00D6}')
    || ('\U{00D8}' <= c <= '\U{00F6}')
    || ('\U{00F8}' <= c <= '\U{00FF}')
    || ('\U{0400}' <= c <= '\U{0481}')
    || ('\U{048A}' <= c <= '\U{052F}')
  }

  lemma LetterIsNotWhiteSpace(c: char)
    ensures IsLetter(c) ==> !IsWhiteSpace(c)
  {
  }

  /** `TryGetChar`: the character at `index`, or nothing when it is out of range. */
  function TryGetChar(text: string, index: int): (r: Option<char>)
    ensures r.Some? <==> 0 <= index < |text|
    ensures r.Some? ==> r.value == text[index]
  {
    if 0 <= index < |text| then Some(text[index]) else None
  }

  /** The shape every flanking rule uses: a character exists at `index` and it
      is not white space. */
  predicate NonWhiteAt(text: string, index: int) {
    match TryGetChar(text, index)
    case Some(c) => !IsWhiteSpace(c)
    case None => false
  }

  /** `ContainsItOnIndex`: `mark` occurs in `text` starting exactly at `index`. */
  predicate ContainsAt(text: string, mark: string, index: int) {
    0 <= index && index + |mark| <= |text| && text[index..index + |mark|] == mark
  }

  lemma ContainsAtChars(text: string, mark: string, index: int)
    ensures ContainsAt(text, mark, index) <==>
      (0 <= index && index + |mark| <= |text| &&
       forall j :: 0 <= j < |mark| ==> text[index + j] == mark[j])
  {
    if 0 <= index && index + |mark| <= |text| &&
       forall j :: 0 <= j < |mark| ==> text[index + j] == mark[j] {
      assert text[index..index + |mark|] == mark;
    }
  }
}
