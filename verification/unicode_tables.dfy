/** A small, explicit stand-in for the parts of the Unicode character database that
    header normalisation consults: lower-casing, white space, the `Mn` general category
    and canonical (NFD) decomposition. The tables cover ASCII and Latin-1, the range in
    which Spanish spreadsheet headers such as "Categoría" or "Año" live. */
module UnicodeTables {
  import opened Wrappers

  /** An upper-case letter of ASCII or Latin-1: `A`..`Z` and `À`..`Þ` without `×`. */
  predicate IsUpperLatin(c: char) {
    || ('A' <= c <= 'Z')
    || ('\U{00C0}' <= c <= '\U{00DE}' && c != '\U{00D7}')
  }

  /** `str.lower` on one character. Every upper-case letter of the table sits exactly
      32 code points below its lower-case partner. */
  function ToLower(c: char): (l: char)
    ensures IsUpperLatin(c) ==> l as int == c as int + 32 && !IsUpperLatin(l)
    ensures !IsUpperLatin(c) ==> l == c
  {
    if IsUpperLatin(c) then (c as int + 32) as char else c
  }

  /** The characters Python's `str.strip()` removes (those for which `str.isspace()` holds). */
  predicate IsWhitespace(c: char) {
    || c == ' '
    || ('\t' <= c <= '\r')
    || ('\U{001C}' <= c <= '\U{001F}')
    || c == '\U{0085}' || c == '\U{00A0}' || c == '\U{1680}'
    || ('\U{2000}' <= c <= '\U{200A}')
    || c == '\U{2028}' || c == '\U{2029}' || c == '\U{202F}' || c == '\U{205F}' || c == '\U{3000}'
  }

  /** General category `Mn` (non-spacing mark), restricted to the Combining Diacritical Marks block. */
  predicate IsMn(c: char) {
    '\U{0300}' <= c <= '\U{036F}'
  }

  /** The canonical decomposition of a lower-case Latin-1 letter into a base letter and one mark. */
  function LowerLatinDecomposition(c: char): (d: Option<(char, char)>)
    ensures d.Some? ==> '\U{00E0}' <= c <= '\U{00FF}'
    ensures d.Some? ==> 'a' <= d.value.0 <= 'z' && IsMn(d.value.1)
  {
    match c
    case '\U{00E0}' => Some(('a', '\U{0300}'))
    case '\U{00E1}' => Some(('a', '\U{0301}'))
    case '\U{00E2}' => Some(('a', '\U{0302}'))
    case '\U{00E3}' => Some(('a', '\U{0303}'))
    case '\U{00E4}' => Some(('a', '\U{0308}'))
    case '\U{00E5}' => Some(('a', '\U{030A}'))
    case '\U{00E7}' => Some(('c', '\U{0327}'))
    case '\U{00E8}' => Some(('e', '\U{0300}'))
    case '\U{00E9}' => Some(('e', '\U{0301}'))
    case '\U{00EA}' => Some(('e', '\U{0302}'))
    case '\U{00EB}' => Some(('e', '\U{0308}'))
    case '\U{00EC}' => Some(('i', '\U{0300}'))
    case '\U{00ED}' => Some(('i', '\U{0301}'))
    case '\U{00EE}' => Some(('i', '\U{0302}'))
    case '\U{00EF}' => Some(('i', '\U{0308}'))
    case '\U{00F1}' => Some(('n', '\U{0303}'))
    case '\U{00F2}' => Some(('o', '\U{0300}'))
    case '\U{00F3}' => Some(('o', '\U{0301}'))
    case '\U{00F4}' => Some(('o', '\U{0302}'))
    case '\U{00F5}' => Some(('o', '\U{0303}'))
    case '\U{00F6}' => Some(('o', '\U{0308}'))
    case '\U{00F9}' => Some(('u', '\U{0300}'))
    case '\U{00FA}' => Some(('u', '\U{0301}'))
    case '\U{00FB}' => Some(('u', '\U{0302}'))
    case '\U{00FC}' => Some(('u', '\U{0308}'))
    case '\U{00FD}' => Some(('y', '\U{0301}'))
    case '\U{00FF}' => Some(('y', '\U{0308}'))
    case _ => None
  }

  /** The canonical decomposition of a Latin-1 letter, upper- or lower-case: the upper-case
      letters decompose like their lower-case partners, onto the upper-case base letter. */
  function Composition(c: char): (d: Option<(char, char)>)
    ensures d.Some? ==> '\U{00C0}' <= c <= '\U{00FF}' && IsMn(d.value.1)
    ensures d.Some? ==> if IsUpperLatin(c) then 'A' <= d.value.0 <= 'Z' else 'a' <= d.value.0 <= 'z'
  {
    if '\U{00C0}' <= c <= '\U{00DE}' && c != '\U{00D7}' then
      match LowerLatinDecomposition(ToLower(c))
      case Some((base, mark)) => Some(((base as int - 32) as char, mark))
      case None => None
    else
      LowerLatinDecomposition(c)
  }

  /** The full canonical decomposition of one character (NFD of a one-character string). */
  function Decompose(c: char): (d: seq<char>)
    ensures 1 <= |d| <= 2 && (|d| == 1 <==> d == [c])
    ensures |d| == 2 ==> !IsMn(d[0]) && IsMn(d[1]) && !IsWhitespace(d[0]) && !IsMn(c) && !IsWhitespace(c)
  {
    match Composition(c)
    case Some((base, mark)) => [base, mark]
    case None => [c]
  }

  /** A character that every step of header normalisation leaves alone: already lower-case,
      already decomposed, not a mark and not a space. */
  predicate IsKeyChar(c: char) {
    ToLower(c) == c && Decompose(c) == [c] && !IsMn(c) && c != ' '
  }

  /** Lower-casing never produces white space or a mark from something that was not one. */
  lemma ToLowerPreservesClasses(c: char)
    ensures IsWhitespace(ToLower(c)) <==> IsWhitespace(c)
    ensures IsMn(ToLower(c)) <==> IsMn(c)
    ensures ToLower(ToLower(c)) == ToLower(c)
  {
  }

  /** Decomposing a lower-case character yields characters that are already lower-case and
      decomposed: the base letter is a key character, the rest are marks. */
  lemma DecomposeLowered(c: char)
    requires ToLower(c) == c
    ensures forall d :: d in Decompose(c) && !IsMn(d) && d != ' ' ==> IsKeyChar(d)
  {
    match Composition(c)
    case Some((base, mark)) =>
      assert !IsUpperLatin(c);
      assert Decompose(base) == [base];
    case None =>
  }
}
