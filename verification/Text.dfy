/** Characters and text, as the command line, the journal and the server treat
    them. */
module Text {

  predicate IsAlnum(c: char) {
    'A' <= c <= 'Z' || 'a' <= c <= 'z' || '0' <= c <= '9'
  }

  /** Case folding of ASCII text. */
  function Fold(text: string): string {
    seq(|text|, i requires 0 <= i < |text| =>
      if 'A' <= text[i] <= 'Z' then (text[i] as int + 32) as char else text[i])
  }

  /** The same letter, in upper or lower case, or the same character. */
  predicate SameLetter(a: char, b: char) {
    a == b || ('A' <= a <= 'Z' && b as int == a as int + 32) || ('A' <= b <= 'Z' && a as int == b as int + 32)
  }

  /** Texts fold alike exactly when they differ in the case of letters only. */
  lemma FoldExact(one: string, two: string)
    ensures Fold(one) == Fold(two) <==>
            |one| == |two| && forall i | 0 <= i < |one| :: SameLetter(one[i], two[i])
  {
    assert |Fold(one)| == |one| && |Fold(two)| == |two|;
    if Fold(one) == Fold(two) {
      forall i | 0 <= i < |one| ensures SameLetter(one[i], two[i]) { assert Fold(one)[i] == Fold(two)[i]; }
    }
  }

  /** Left-to-right replacement of every occurrence of `pattern`. */
  function ReplaceAll(text: string, pattern: string, with: string): string
    requires pattern != ""
    decreases |text|
  {
    if |text| < |pattern| then text
    else if text[..|pattern|] == pattern then with + ReplaceAll(text[|pattern|..], pattern, with)
    else [text[0]] + ReplaceAll(text[1..], pattern, with)
  }

  /** Splits at every separator and keeps empty parts. */
  function Split(text: string, separator: char): (parts: seq<string>)
    ensures parts != []
  {
    if text == "" then [""]
    else
      var rest := Split(text[1..], separator);
      if text[0] == separator then [""] + rest else [[text[0]] + rest[0]] + rest[1..]
  }

  predicate IsSpace(c: char) {
    '\t' <= c <= '\r' || c == ' ' || c == '\U{85}' || c == '\U{A0}' || c == '\U{1680}' ||
    '\U{2000}' <= c <= '\U{200A}' || c == '\U{2028}' || c == '\U{2029}' || c == '\U{202F}' ||
    c == '\U{205F}' || c == '\U{3000}'
  }

  function TrimRight(text: string): string {
    if text != "" && IsSpace(text[|text| - 1]) then TrimRight(text[..|text| - 1]) else text
  }

  function TrimLeft(text: string): (trimmed: string)
    ensures |trimmed| <= |text|
  {
    if text != "" && IsSpace(text[0]) then TrimLeft(text[1..]) else text
  }

  function Trim(text: string): string {
    TrimRight(TrimLeft(text))
  }
}
