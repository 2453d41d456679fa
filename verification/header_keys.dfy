/** Column-header normalisation (`normalizar_columna`): lower-case, strip, decompose to NFD,
    drop the non-spacing marks and turn every space into an underscore. */
module HeaderKeys {
  import opened UnicodeTables
  import opened Strings
  import opened Seqs

  /** The number of white-space characters at the start of `s`. */
  function LeadingWhitespace(s: string): (n: nat)
    ensures n <= |s|
    ensures forall k :: 0 <= k < n ==> IsWhitespace(s[k])
    ensures n < |s| ==> !IsWhitespace(s[n])
  {
    if s == [] || !IsWhitespace(s[0]) then 0 else 1 + LeadingWhitespace(s[1..])
  }

  /** The number of white-space characters at the end of `s`. */
  function TrailingWhitespace(s: string): (n: nat)
    ensures n <= |s|
    ensures forall k :: |s| - n <= k < |s| ==> IsWhitespace(s[k])
    ensures n < |s| ==> !IsWhitespace(s[|s| - 1 - n])
  {
    if s == [] || !IsWhitespace(s[|s| - 1]) then 0 else 1 + TrailingWhitespace(s[..|s| - 1])
  }

  predicate AllWhitespace(s: string) {
    forall k :: 0 <= k < |s| ==> IsWhitespace(s[k])
  }

  /** Neither the first nor the last character of `s` is white space. */
  predicate Trimmed(s: string) {
    s == [] || (!IsWhitespace(s[0]) && !IsWhitespace(s[|s| - 1]))
  }

  /** `s` is `r` surrounded by white space only. */
  ghost predicate PaddedBy(s: string, r: string, i: int) {
    && 0 <= i <= |s| - |r|
    && s[i..i + |r|] == r
    && AllWhitespace(s[..i])
    && AllWhitespace(s[i + |r|..])
  }

  /** `str.strip()`: the longest trimmed middle part of `s`. */
  function Strip(s: string): (r: string)
    ensures Trimmed(r)
    ensures exists i :: PaddedBy(s, r, i)
  {
    var lead := LeadingWhitespace(s);
    if lead == |s| then
      assert PaddedBy(s, [], 0);
      []
    else
      var r := s[lead..|s| - TrailingWhitespace(s)];
      assert PaddedBy(s, r, lead);
      r
  }

  /** Strip has exactly one possible answer: whatever trimmed text is padded by white
      space is what `Strip` returns. */
  lemma StripUnique(s: string, r: string, i: int)
    requires PaddedBy(s, r, i) && Trimmed(r)
    ensures Strip(s) == r
  {
    if r == [] {
      StripBlank(s, i);
    } else {
      StripAround(s, r, i);
    }
  }

  lemma StripBlank(s: string, i: int)
    requires PaddedBy(s, [], i)
    ensures Strip(s) == []
  {
    forall k | 0 <= k < |s| ensures IsWhitespace(s[k]) {
      if k < i { assert s[k] == s[..i][k]; } else { assert s[k] == s[i..][k - i]; }
    }
  }

  lemma StripAround(s: string, r: string, i: int)
    requires PaddedBy(s, r, i) && Trimmed(r) && r != []
    ensures Strip(s) == r
  {
    var lead, trail := LeadingWhitespace(s), TrailingWhitespace(s);
    assert s[i] == r[0] && s[i + |r| - 1] == r[|r| - 1];
    forall k | 0 <= k < i ensures IsWhitespace(s[k]) { assert s[k] == s[..i][k]; }
    forall k | i + |r| <= k < |s| ensures IsWhitespace(s[k]) { assert s[k] == s[i + |r|..][k - i - |r|]; }
    assert lead == i;
    assert trail == |s| - i - |r|;
  }

  /** Canonical decomposition (NFD) of a string, character by character. */
  function Nfd(s: string): (r: string)
    ensures |s| <= |r| <= 2 * |s|
  {
    if s == [] then [] else Decompose(s[0]) + Nfd(s[1..])
  }

  /** Not a combining mark: the characters the normaliser keeps. */
  predicate IsBase(c: char) {
    !IsMn(c)
  }

  /** Drop every character of category `Mn`. */
  function StripMarks(s: string): (r: string)
    ensures forall c :: c in r <==> c in s && !IsMn(c)
  {
    Where(s, IsBase)
  }

  /** Replace every `' '` by `'_'`, leaving the other characters in place. */
  function ReplaceSpaces(s: string): (r: string)
    ensures |r| == |s|
    ensures forall i :: 0 <= i < |s| ==> r[i] == if s[i] == ' ' then '_' else s[i]
  {
    if s == [] then [] else [if s[0] == ' ' then '_' else s[0]] + ReplaceSpaces(s[1..])
  }

  /** The column key of a header (`normalizar_columna`): no spaces and no combining marks
      are left in it. */
  function Normalize(header: string): (key: string)
    ensures ' ' !in key
    ensures forall c :: c in key ==> !IsMn(c)
  {
    ReplaceSpaces(StripMarks(Nfd(Strip(LowerStr(header)))))
  }

  /** Every character of a key is a key character: lower-case, decomposed, not a mark and
      not a space. */
  lemma NormalizeYieldsKeyChars(header: string)
    ensures forall c :: c in Normalize(header) ==> IsKeyChar(c)
  {
    var lowered := LowerStr(header);
    LoweredChars(header);
    StripKeepsChars(lowered);
    NfdOfLowered(Strip(lowered));
  }

  lemma LoweredChars(s: string)
    ensures forall c :: c in LowerStr(s) ==> ToLower(c) == c
  {
    forall c | c in LowerStr(s) ensures ToLower(c) == c {
      var i :| 0 <= i < |s| && LowerStr(s)[i] == c;
      ToLowerPreservesClasses(s[i]);
    }
  }

  lemma StripKeepsChars(s: string)
    ensures forall c :: c in Strip(s) ==> c in s
  {
    var i :| PaddedBy(s, Strip(s), i);
    forall c | c in Strip(s) ensures c in s {
      var k :| 0 <= k < |Strip(s)| && Strip(s)[k] == c;
      assert s[i + k] == c;
    }
  }

  /** Decomposing lower-case text yields key characters, marks and spaces only. */
  lemma {:induction false} NfdOfLowered(s: string)
    requires forall c :: c in s ==> ToLower(c) == c
    ensures forall d :: d in Nfd(s) ==> IsMn(d) || d == ' ' || IsKeyChar(d)
  {
    if s != [] {
      NfdOfLowered(s[1..]);
      DecomposeLowered(s[0]);
    }
  }
}

module HeaderKeyLaws {
  import opened UnicodeTables
  import opened Strings
  import opened Seqs
  import opened HeaderKeys

  /** Decomposition leaves text that is already decomposed unchanged. */
  lemma {:induction false} NfdIdentity(s: string)
    requires forall c :: c in s ==> Decompose(c) == [c]
    ensures Nfd(s) == s
  {
    if s != [] {
      var rest := s[1..];
      assert forall c :: c in rest ==> c in s;
      NfdIdentity(rest);
      assert s[0] in s;
      assert Nfd(s) == Decompose(s[0]) + Nfd(rest);
    }
  }

  /** A header that is already a trimmed string of key characters is its own key. */
  lemma NormalizeFixesKeys(s: string)
    requires forall c :: c in s ==> IsKeyChar(c)
    requires Trimmed(s)
    ensures Normalize(s) == s
  {
    assert LowerStr(s) == s by {
      forall i | 0 <= i < |s| ensures LowerStr(s)[i] == s[i] {
        assert s[i] in s;
      }
    }
    StripUnique(s, s, 0);
    NfdIdentity(s);
    WhereAll(s, IsBase);
    NoSpacesUnchanged(s);
  }

  /** Normalising a key a second time changes nothing, provided the key does not begin or
      end with white space. */
  lemma NormalizeIdempotentWhenTrimmed(header: string)
    requires Trimmed(Normalize(header))
    ensures Normalize(Normalize(header)) == Normalize(header)
  {
    NormalizeYieldsKeyChars(header);
    NormalizeFixesKeys(Normalize(header));
  }

  /** Text that is already lower-case and decomposed passes both steps unchanged. */
  lemma LowerAndNfdIdentity(s: string)
    requires forall c :: c in s ==> ToLower(c) == c && Decompose(c) == [c]
    ensures LowerStr(s) == s && Nfd(s) == s
  {
    forall k | 0 <= k < |s| ensures LowerStr(s)[k] == s[k] {
      assert s[k] in s;
    }
    NfdIdentity(s);
  }

  /** A header made of a mark, a white-space character and trimmed key text is already
      lower-case, decomposed and trimmed. */
  lemma ShieldedHeaderStripped(mark: char, w: char, rest: string)
    requires IsMn(mark) && IsWhitespace(w)
    requires rest != [] && Trimmed(rest) && forall c :: c in rest ==> IsKeyChar(c)
    ensures Nfd(Strip(LowerStr([mark] + ([w] + rest)))) == [mark] + ([w] + rest)
  {
    var h := [mark] + ([w] + rest);
    ShieldedHeaderPlain(mark, w, rest);
    ShieldedHeaderTrimmed(mark, w, rest);
  }

  lemma ShieldedHeaderPlain(mark: char, w: char, rest: string)
    requires IsMn(mark) && IsWhitespace(w)
    requires forall c :: c in rest ==> IsKeyChar(c)
    ensures LowerStr([mark] + ([w] + rest)) == [mark] + ([w] + rest)
    ensures Nfd([mark] + ([w] + rest)) == [mark] + ([w] + rest)
  {
    var h := [mark] + ([w] + rest);
    forall c | c in h ensures ToLower(c) == c && Decompose(c) == [c] {
      if c != mark && c != w { assert c in rest; }
    }
    LowerAndNfdIdentity(h);
  }

  lemma ShieldedHeaderTrimmed(mark: char, w: char, rest: string)
    requires IsMn(mark)
    requires rest != [] && Trimmed(rest)
    ensures Strip([mark] + ([w] + rest)) == [mark] + ([w] + rest)
  {
    var h := [mark] + ([w] + rest);
    assert h[|h| - 1] == rest[|rest| - 1];
    StripUnique(h, h, 0);
  }

  /** Dropping the mark and replacing spaces leave the white space and the key text. */
  lemma ShieldedHeaderBared(mark: char, w: char, rest: string)
    requires IsMn(mark) && IsWhitespace(w) && w != ' '
    requires rest != [] && Trimmed(rest) && forall c :: c in rest ==> IsKeyChar(c)
    ensures ReplaceSpaces(StripMarks([mark] + ([w] + rest))) == [w] + rest
  {
    var t := [w] + rest;
    forall c | c in t ensures !IsMn(c) && c != ' ' {
      if c != w { assert c in rest; }
    }
    MarkDropped(mark, t);
    NoSpacesUnchanged(t);
  }

  /** A leading mark is dropped from text that has no other marks. */
  lemma MarkDropped(mark: char, t: string)
    requires IsMn(mark) && forall c :: c in t ==> !IsMn(c)
    ensures StripMarks([mark] + t) == t
  {
    assert ([mark] + t)[1..] == t;
    WhereAll(t, IsBase);
  }

  /** Text without spaces has none to replace. */
  lemma NoSpacesUnchanged(t: string)
    requires ' ' !in t
    ensures ReplaceSpaces(t) == t
  {
    forall k | 0 <= k < |t| ensures ReplaceSpaces(t)[k] == t[k] {
      assert t[k] in t;
    }
  }

  /** A combining mark in front of white space other than `' '` keeps `strip` from removing
      it; the mark itself is dropped afterwards, so the key starts with that white space. */
  lemma MarkShieldsWhitespace(mark: char, w: char, rest: string)
    requires IsMn(mark) && IsWhitespace(w) && w != ' '
    requires rest != [] && Trimmed(rest) && forall c :: c in rest ==> IsKeyChar(c)
    ensures Normalize([mark] + ([w] + rest)) == [w] + rest
  {
    ShieldedHeaderStripped(mark, w, rest);
    ShieldedHeaderBared(mark, w, rest);
    NormalizeOfStripped([mark] + ([w] + rest));
  }

  /** The proviso of `NormalizeIdempotentWhenTrimmed` cannot be dropped: for a header that
      starts with a combining mark and a tab, normalising the key again strips the tab. */
  lemma NormalizeNotIdempotent(mark: char, w: char, rest: string)
    requires IsMn(mark) && IsWhitespace(w) && w != ' '
    requires rest != [] && Trimmed(rest) && forall c :: c in rest ==> IsKeyChar(c)
    ensures Normalize([mark] + ([w] + rest)) == [w] + rest
    ensures Normalize(Normalize([mark] + ([w] + rest))) == rest
  {
    MarkShieldsWhitespace(mark, w, rest);
    LeadingWhitespaceStripped(w, rest);
  }

  /** A key that starts with white space loses it when normalised again. */
  lemma LeadingWhitespaceStripped(w: char, rest: string)
    requires IsWhitespace(w)
    requires Trimmed(rest) && forall c :: c in rest ==> IsKeyChar(c)
    ensures Normalize([w] + rest) == rest
  {
    assert AllWhitespace([w]);
    NormalizeIgnoresLeading([w], rest);
    NormalizeFixesKeys(rest);
  }

  /** Lower-casing leaves white space in place. */
  lemma LowerWhitespace(w: string)
    requires AllWhitespace(w)
    ensures LowerStr(w) == w
  {
    forall i | 0 <= i < |w| ensures LowerStr(w)[i] == w[i] {
      ToLowerPreservesClasses(w[i]);
    }
  }

  /** Lower-casing distributes over concatenation. */
  lemma LowerAppend(a: string, b: string)
    ensures LowerStr(a + b) == LowerStr(a) + LowerStr(b)
  {
  }

  /** The key is computed from the stripped, lower-cased header. */
  lemma NormalizeOfStripped(header: string)
    ensures Normalize(header) == ReplaceSpaces(StripMarks(Nfd(Strip(LowerStr(header)))))
  {
  }

  /** Extra white space around a string does not change what `strip` returns. */
  lemma StripPadding(before: string, l: string, after: string)
    requires AllWhitespace(before) && AllWhitespace(after)
    ensures Strip(before + l + after) == Strip(l)
  {
    var r := Strip(l);
    var i :| PaddedBy(l, r, i);
    PaddedAround(before, l, after, r, i);
    StripUnique(before + l + after, r, |before| + i);
  }

  /** Padding a padded text with more white space keeps it padded. */
  lemma PaddedAround(before: string, l: string, after: string, r: string, i: nat)
    requires AllWhitespace(before) && AllWhitespace(after) && PaddedBy(l, r, i)
    ensures PaddedBy(before + l + after, r, |before| + i)
  {
    PaddedMiddle(before, l, after, i, |r|);
    PaddedHead(before, l, after, i);
    PaddedTail(before, l, after, i, |r|);
  }

  lemma PaddedMiddle(before: string, l: string, after: string, i: nat, n: nat)
    requires i + n <= |l|
    ensures (before + l + after)[|before| + i..|before| + i + n] == l[i..i + n]
  {
  }

  lemma PaddedHead(before: string, l: string, after: string, i: nat)
    requires AllWhitespace(before) && i <= |l| && AllWhitespace(l[..i])
    ensures AllWhitespace((before + l + after)[..|before| + i])
  {
    var head := (before + l + after)[..|before| + i];
    forall k | 0 <= k < |head| ensures IsWhitespace(head[k]) {
      if k < |before| {
        assert head[k] == before[k];
      } else {
        assert head[k] == l[..i][k - |before|];
      }
    }
  }

  lemma PaddedTail(before: string, l: string, after: string, i: nat, n: nat)
    requires AllWhitespace(after) && i + n <= |l| && AllWhitespace(l[i + n..])
    ensures AllWhitespace((before + l + after)[|before| + i + n..])
  {
    var tail := (before + l + after)[|before| + i + n..];
    forall k | 0 <= k < |tail| ensures IsWhitespace(tail[k]) {
      if k < |l| - i - n {
        assert tail[k] == l[i + n..][k];
      } else {
        assert tail[k] == after[k - (|l| - i - n)];
      }
    }
  }

  /** Leading and trailing white space never reaches the key. */
  lemma NormalizeIgnoresPadding(before: string, header: string, after: string)
    requires AllWhitespace(before) && AllWhitespace(after)
    ensures Normalize(before + header + after) == Normalize(header)
  {
    LowerWhitespace(before);
    LowerWhitespace(after);
    LowerAppend(before + header, after);
    LowerAppend(before, header);
    assert LowerStr(before + header + after) == before + LowerStr(header) + after;
    StripPadding(before, LowerStr(header), after);
    NormalizeOfStripped(before + header + after);
    NormalizeOfStripped(header);
  }

  /** White space before a header changes no key. */
  lemma NormalizeIgnoresLeading(before: string, header: string)
    requires AllWhitespace(before)
    ensures Normalize(before + header) == Normalize(header)
  {
    var none: string := [];
    NormalizeIgnoresPadding(before, header, none);
    assert before + header + none == before + header;
  }

  /** Whitespace after a header, as spreadsheets often leave, changes no key. */
  lemma NormalizeIgnoresTrailing(header: string, after: string)
    requires AllWhitespace(after)
    ensures Normalize(header + after) == Normalize(header)
  {
    var none: string := [];
    NormalizeIgnoresPadding(none, header, after);
    assert none + header == header;
  }

  /** What a single header character contributes to the key, before spaces are replaced:
      its lower-case form, decomposed, without marks. */
  function Fold(c: char): string {
    StripMarks(Decompose(ToLower(c)))
  }

  /** Headers that differ only in letter case and diacritics: character by character, they
      fold to the same base letters. */
  predicate SameLetters(a: string, b: string) {
    |a| == |b| && forall i :: 0 <= i < |a| ==> Fold(a[i]) == Fold(b[i])
  }

  /** A character is white space after lower-casing exactly when it folds to itself and is
      white space, so the fold decides whether `strip` removes it. */
  lemma FoldWhitespace(c: char)
    ensures IsWhitespace(ToLower(c)) <==> (Fold(c) == [ToLower(c)] && IsWhitespace(ToLower(c)))
    ensures !IsWhitespace(ToLower(c)) ==> forall d :: d in Fold(c) ==> !IsWhitespace(d)
  {
    var l := ToLower(c);
    if IsWhitespace(l) {
      assert Decompose(l) == [l];
      WhereAll([l], IsBase);
    }
  }

  lemma SameLettersSameWhitespace(a: string, b: string)
    requires SameLetters(a, b)
    ensures forall i :: 0 <= i < |a| ==> (IsWhitespace(LowerStr(a)[i]) <==> IsWhitespace(LowerStr(b)[i]))
  {
    forall i | 0 <= i < |a|
      ensures IsWhitespace(LowerStr(a)[i]) <==> IsWhitespace(LowerStr(b)[i])
    {
      FoldWhitespace(a[i]);
      FoldWhitespace(b[i]);
    }
  }

  /** Removing marks from decomposed text is done character by character, so text whose
      characters lose the same marks ends up the same. */
  lemma {:induction false} BareNfdCongruent(x: string, y: string)
    requires |x| == |y|
    requires forall k :: 0 <= k < |x| ==> StripMarks(Decompose(x[k])) == StripMarks(Decompose(y[k]))
    ensures StripMarks(Nfd(x)) == StripMarks(Nfd(y))
  {
    if x != [] {
      BareNfdCongruent(x[1..], y[1..]);
      WhereAppend(Decompose(x[0]), Nfd(x[1..]), IsBase);
      WhereAppend(Decompose(y[0]), Nfd(y[1..]), IsBase);
    }
  }

  /** Strings with white space in the same positions are stripped at the same positions. */
  lemma StripCongruent(x: string, y: string) returns (i: nat)
    requires |x| == |y|
    requires forall k :: 0 <= k < |x| ==> (IsWhitespace(x[k]) <==> IsWhitespace(y[k]))
    ensures i + |Strip(x)| <= |x|
    ensures Strip(x) == x[i..i + |Strip(x)|] && Strip(y) == y[i..i + |Strip(x)|]
  {
    var r := Strip(x);
    i :| PaddedBy(x, r, i);
    var ry := y[i..i + |r|];
    var head := y[..i];
    assert AllWhitespace(head) by {
      forall k | 0 <= k < i ensures IsWhitespace(head[k]) { assert x[..i][k] == x[k]; }
    }
    var tail := y[i + |r|..];
    assert AllWhitespace(tail) by {
      forall k | 0 <= k < |tail| ensures IsWhitespace(tail[k]) {
        assert x[i + |r|..][k] == x[i + |r| + k];
      }
    }
    assert Trimmed(ry) by {
      if ry != [] {
        assert r[0] == x[i] && r[|r| - 1] == x[i + |r| - 1];
      }
    }
    StripUnique(y, ry, i);
  }

  /** Corresponding slices of two texts that lose the same marks character by character
      still do after decomposition. */
  lemma BareSlicesCongruent(x: string, y: string, i: nat, n: nat)
    requires |x| == |y| && i + n <= |x|
    requires forall k {:trigger StripMarks(Decompose(x[k]))} :: 0 <= k < |x| ==>
      StripMarks(Decompose(x[k])) == StripMarks(Decompose(y[k]))
    requires Strip(x) == x[i..i + n] && Strip(y) == y[i..i + n]
    ensures StripMarks(Nfd(Strip(x))) == StripMarks(Nfd(Strip(y)))
  {
    var xs, ys := x[i..i + n], y[i..i + n];
    forall k | 0 <= k < n ensures StripMarks(Decompose(xs[k])) == StripMarks(Decompose(ys[k])) {
      assert xs[k] == x[i + k];
      assert ys[k] == y[i + k];
    }
    BareNfdCongruent(xs, ys);
  }

  /** Texts with white space in the same places that lose the same marks character by
      character are stripped and bared to the same text. */
  lemma StrippedCongruent(x: string, y: string)
    requires |x| == |y|
    requires forall k :: 0 <= k < |x| ==> (IsWhitespace(x[k]) <==> IsWhitespace(y[k]))
    requires forall k {:trigger StripMarks(Decompose(x[k]))} :: 0 <= k < |x| ==>
      StripMarks(Decompose(x[k])) == StripMarks(Decompose(y[k]))
    ensures StripMarks(Nfd(Strip(x))) == StripMarks(Nfd(Strip(y)))
  {
    var i := StripCongruent(x, y);
    BareSlicesCongruent(x, y, i, |Strip(x)|);
  }

  /** Headers whose lower-cased forms have white space in the same places and lose the same
      marks character by character have the same key. */
  lemma NormalizeCongruent(a: string, b: string)
    requires |a| == |b|
    requires forall k :: 0 <= k < |a| ==> (IsWhitespace(LowerStr(a)[k]) <==> IsWhitespace(LowerStr(b)[k]))
    requires forall k {:trigger StripMarks(Decompose(LowerStr(a)[k]))} :: 0 <= k < |a| ==>
      StripMarks(Decompose(LowerStr(a)[k])) == StripMarks(Decompose(LowerStr(b)[k]))
    ensures Normalize(a) == Normalize(b)
  {
    var la, lb := LowerStr(a), LowerStr(b);
    StrippedCongruent(la, lb);
    NormalizeOfStripped(a);
    NormalizeOfStripped(b);
  }

  /** Headers that differ only in letter case and diacritics normalise to the same key. */
  lemma NormalizeIgnoresCaseAndDiacritics(a: string, b: string)
    requires SameLetters(a, b)
    ensures Normalize(a) == Normalize(b)
  {
    SameLettersSameWhitespace(a, b);
    forall k | 0 <= k < |a|
      ensures StripMarks(Decompose(LowerStr(a)[k])) == StripMarks(Decompose(LowerStr(b)[k]))
    {
      assert Fold(a[k]) == Fold(b[k]);
    }
    NormalizeCongruent(a, b);
  }

  /** The base letter a character contributes to a key, read off the tables directly: the
      base of its decomposition, nothing for a mark, or else its lower-case form. */
  function BaseLetters(c: char): string {
    match Composition(ToLower(c))
    case Some(p) => [p.0]
    case None => if IsMn(c) then [] else [ToLower(c)]
  }

  /** Lower-casing, decomposing and dropping marks from one character leaves exactly its
      base letters. */
  lemma FoldShape(c: char)
    ensures Fold(c) == BaseLetters(c)
  {
    var l := ToLower(c);
    ToLowerPreservesClasses(c);
    match Composition(l)
    case Some(p) =>
      assert Decompose(l) == [p.0] + [p.1];
      WhereAppend([p.0], [p.1], IsBase);
    case None =>
  }

  /** Headers with the same base letters, position by position, have the same key. */
  lemma NormalizeBySameBaseLetters(a: string, b: string)
    requires |a| == |b|
    requires forall i :: 0 <= i < |a| ==> BaseLetters(a[i]) == BaseLetters(b[i])
    ensures Normalize(a) == Normalize(b)
  {
    forall i | 0 <= i < |a| ensures Fold(a[i]) == Fold(b[i]) {
      FoldShape(a[i]);
      FoldShape(b[i]);
    }
    NormalizeIgnoresCaseAndDiacritics(a, b);
  }

  /** What a whole header folds to before spaces are replaced: the folds of its characters,
      one after another. Characters that are only marks fold to nothing, so a header typed
      with a separate combining accent can fold like one typed with the accented letter. */
  function FoldAll(s: string): string {
    FlatMap(s, Fold)
  }

  lemma FoldAllAppend(a: string, b: string)
    ensures FoldAll(a + b) == FoldAll(a) + FoldAll(b)
  {
    FlatMapAppend(a, b, Fold);
  }

  /** A single character folds to its own fold. */
  lemma FoldOne(c: char)
    ensures FoldAll([c]) == Fold(c)
  {
    var s, none := [c], [];
    assert s[0] == c && s[1..] == none;
    assert FlatMap(none, Fold) == [];
    assert FlatMap(s, Fold) == Fold(c) + FlatMap(none, Fold);
  }

  /** Folding character by character is lower-casing, decomposing and dropping the marks of
      the whole text. */
  lemma {:induction false} FoldAllIsBareNfd(s: string)
    ensures FoldAll(s) == StripMarks(Nfd(LowerStr(s)))
  {
    var l := LowerStr(s);
    if s == [] {
      assert l == [];
    } else {
      FoldAllIsBareNfd(s[1..]);
      assert FoldAll(s) == Fold(s[0]) + FoldAll(s[1..]);
      assert l[0] == ToLower(s[0]);
      assert l[1..] == LowerStr(s[1..]);
      assert Nfd(l) == Decompose(l[0]) + Nfd(l[1..]);
      WhereAppend(Decompose(l[0]), Nfd(l[1..]), IsBase);
    }
  }

  /** Lower-casing keeps white space where it was, so it commutes with `strip`. */
  lemma LowerStrip(h: string)
    ensures Strip(LowerStr(h)) == LowerStr(Strip(h))
  {
    var r := Strip(h);
    var i :| PaddedBy(h, r, i);
    PaddedLower(h, r, i);
    TrimmedLower(r);
    StripUnique(LowerStr(h), LowerStr(r), i);
  }

  lemma PaddedLower(h: string, r: string, i: int)
    requires PaddedBy(h, r, i)
    ensures PaddedBy(LowerStr(h), LowerStr(r), i)
  {
    var j := i + |r|;
    LowerSlice(h, i, j);
    assert h[..i] == h[0..i] && LowerStr(h)[..i] == LowerStr(h)[0..i];
    WhitespaceSliceLower(h, 0, i);
    assert h[j..] == h[j..|h|] && LowerStr(h)[j..] == LowerStr(h)[j..|h|];
    WhitespaceSliceLower(h, j, |h|);
  }

  lemma WhitespaceSliceLower(h: string, i: nat, j: nat)
    requires i <= j <= |h| && AllWhitespace(h[i..j])
    ensures AllWhitespace(LowerStr(h)[i..j])
  {
    LowerSlice(h, i, j);
    LowerWhitespace(h[i..j]);
  }

  lemma TrimmedLower(r: string)
    requires Trimmed(r)
    ensures Trimmed(LowerStr(r))
  {
    if r != [] {
      ToLowerPreservesClasses(r[0]);
      ToLowerPreservesClasses(r[|r| - 1]);
    }
  }

  /** The key of a header is its stripped text folded character by character, with spaces
      turned into underscores. */
  lemma NormalizeIsFoldedStrip(header: string)
    ensures Normalize(header) == ReplaceSpaces(FoldAll(Strip(header)))
  {
    LowerStrip(header);
    FoldAllIsBareNfd(Strip(header));
    NormalizeOfStripped(header);
  }

  /** Headers whose stripped texts fold to the same letters have the same key, whatever their
      lengths: a separately typed combining accent counts like the accented letter. */
  lemma NormalizeBySameFolding(a: string, b: string)
    requires FoldAll(Strip(a)) == FoldAll(Strip(b))
    ensures Normalize(a) == Normalize(b)
  {
    NormalizeIsFoldedStrip(a);
    NormalizeIsFoldedStrip(b);
  }

  /** `categoria` is already a key. */
  lemma CategoriaIsKey()
    ensures Normalize("categoria") == "categoria"
  {
    var key := "categoria";
    assert forall c :: c in key ==> IsKeyChar(c);
    NormalizeFixesKeys(key);
  }
}

/** The spellings of the category header met in practice. */
module HeaderExamples {
  import opened Wrappers
  import opened UnicodeTables
  import opened HeaderKeys
  import opened HeaderKeyLaws

  /** The accented spelling gives the key `categoria`. */
  lemma AccentedCategoryHeader()
    ensures Normalize("Categoría") == "categoria"
  {
    var header, key := "Categoría", "categoria";
    assert forall i :: 0 <= i < 9 ==> BaseLetters(header[i]) == BaseLetters(key[i]);
    NormalizeBySameBaseLetters(header, key);
    CategoriaIsKey();
  }

  /** A trimmed header is its own stripped text. */
  lemma TrimmedUnstripped(s: string)
    requires Trimmed(s)
    ensures Strip(s) == s
  {
    assert s[..0] == [] && s[|s|..] == [];
    StripUnique(s, s, 0);
  }

  /** `i` + U+0301 and `í` both fold to `i`. */
  lemma AcuteIFolds()
    ensures FoldAll("i\U{0301}") == FoldAll("\U{00ED}")
  {
    var l, m, p := 'i', '\U{0301}', '\U{00ED}';
    PlainIFolds();
    AcuteMarkFolds();
    PrecomposedIFolds();
    FoldAllAppend([l], [m]);
    FoldOne(l);
    FoldOne(m);
    FoldOne(p);
    assert [l] + [m] == "i\U{0301}" && [p] == "\U{00ED}";
  }

  lemma PlainIFolds()
    ensures Fold('i') == ['i']
  {
    assert Decompose('i') == ['i'];
  }

  lemma AcuteMarkFolds()
    ensures Fold('\U{0301}') == []
  {
    assert Decompose('\U{0301}') == ['\U{0301}'];
  }

  lemma PrecomposedIFolds()
    ensures Fold('\U{00ED}') == ['i']
  {
    var p := '\U{00ED}';
    FoldShape(p);
    assert ToLower(p) == p;
    assert Composition(p) == Some(('i', '\U{0301}'));
  }

  /** An `i` followed by a combining acute accent folds like the precomposed `í`, whatever
      surrounds it. */
  lemma CombiningAccentFolds(stem: string, tail: string)
    ensures FoldAll(stem + "i\U{0301}" + tail) == FoldAll(stem + "\U{00ED}" + tail)
  {
    var combined, precomposed := "i\U{0301}", "\U{00ED}";
    AcuteIFolds();
    FoldAllAppend(stem, combined);
    FoldAllAppend(stem + combined, tail);
    FoldAllAppend(stem, precomposed);
    FoldAllAppend(stem + precomposed, tail);
  }

  /** Inside a header that neither starts nor ends with white space, `i` followed by a
      combining acute accent and the precomposed `í` give the same key. */
  lemma AccentSpellingsAgree(stem: string, tail: string)
    requires stem != [] && !IsWhitespace(stem[0])
    requires tail != [] && !IsWhitespace(tail[|tail| - 1])
    ensures Normalize(stem + "i\U{0301}" + tail) == Normalize(stem + "\U{00ED}" + tail)
  {
    var a, b := stem + "i\U{0301}" + tail, stem + "\U{00ED}" + tail;
    assert a[0] == b[0] == stem[0];
    assert a[|a| - 1] == b[|b| - 1] == tail[|tail| - 1];
    CombiningAccentFolds(stem, tail);
    TrimmedUnstripped(a);
    TrimmedUnstripped(b);
    NormalizeBySameFolding(a, b);
  }

  /** The category header typed with a separate combining acute accent (`i` followed by
      U+0301) gives the same key as the precomposed `Categoría`. */
  lemma CombiningAccentHeader()
    ensures Normalize("Categor" + "i\U{0301}" + "a") == Normalize("Categor" + "\U{00ED}" + "a")
  {
    var stem, tail := "Categor", "a";
    assert !IsWhitespace(stem[0]) && !IsWhitespace(tail[0]);
    AccentSpellingsAgree(stem, tail);
  }

  /** The upper-case spelling gives the key `categoria`. */
  lemma UpperCategoryHeader()
    ensures Normalize("CATEGORIA") == "categoria"
  {
    var header, key := "CATEGORIA", "categoria";
    assert forall i :: 0 <= i < 9 ==> BaseLetters(header[i]) == BaseLetters(key[i]);
    NormalizeBySameBaseLetters(header, key);
    CategoriaIsKey();
  }

  /** The accented spelling followed by a space gives the key `categoria` too. */
  lemma PaddedCategoryHeader()
    ensures Normalize("Categoría" + " ") == "categoria"
  {
    var header, space := "Categoría", " ";
    assert AllWhitespace(space);
    NormalizeIgnoresTrailing(header, space);
    AccentedCategoryHeader();
  }

  /** The upper-case spelling followed by a space gives the key `categoria` too. */
  lemma PaddedUpperCategoryHeader()
    ensures Normalize("CATEGORIA" + " ") == "categoria"
  {
    var header, space := "CATEGORIA", " ";
    assert AllWhitespace(space);
    NormalizeIgnoresTrailing(header, space);
    UpperCategoryHeader();
  }
}
