/**
 * What the normalizer relies on from the Unicode tables. `stable` marks the characters before which text can
 * always be cut: those with canonical combining class 0 and NFKC quick check "Yes" (Unicode Standard Annex #15,
 * sections 9 and 9.1) outside U+0300..U+036F. All other characters are called marks here.
 */
module UnicodeLaws {
  import opened Text
  import opened Steps
  import opened Normalize

  /** A text the function leaves alone. */
  predicate Fixed(f: string -> string, s: string) {
    f(s) == s
  }

  /** NFKC leaves the text alone. */
  predicate Closed(t: UnicodeTables, s: string) {
    Fixed(t.nfkc, s)
  }

  predicate FixedChars(f: string -> string, s: string) {
    forall i :: 0 <= i < |s| ==> Fixed(f, [s[i]])
  }

  predicate ClosedChars(t: UnicodeTables, s: string) {
    FixedChars(t.nfkc, s)
  }

  predicate AllMarks(stable: char -> bool, s: string) {
    forall i :: 0 <= i < |s| ==> !stable(s[i])
  }

  /** The marks of a text, in order. */
  function Marks(stable: char -> bool, s: string): string {
    if s == "" then "" else Marks(stable, Front(s)) + (if stable(s[|s| - 1]) then "" else [s[|s| - 1]])
  }

  predicate IsSpacer(c: char) {
    IsDash(c) || IsWhitespace(c)
  }

  /** The characters that the kana steps look at. */
  predicate IsCjk(c: char) {
    IsKana(c) || IsKanji(c) || c == IDEOGRAPHIC_MARK
  }

  /** The characters that some table-free step looks at. */
  predicate IsHandled(c: char) {
    IsCjk(c) || IsSpacer(c) || c == ',' || IsAsciiDigit(c)
  }

  /** The two kana that are compatibility ligatures. */
  predicate IsLigature(c: char) {
    c == '\U{309F}' || c == '\U{30FF}'
  }

  // ---------------------------------------------------------------------------
  // Normalization forms
  // ---------------------------------------------------------------------------

  /** Parts of unchanged text are unchanged. */
  ghost predicate Hereditary(f: string -> string) {
    forall s, i, j :: 0 <= i <= j <= |s| && Fixed(f, s) ==> Fixed(f, s[i..j])
  }

  /** Text can be cut before a stable character. */
  ghost predicate CutsBefore(f: string -> string, stable: char -> bool) {
    forall a, b :: b != "" && stable(b[0]) ==> f(a + b) == f(a) + f(b)
  }

  /** Nothing combines with a dash or with whitespace, so text can also be cut after one. */
  ghost predicate CutsAfterSpacers(f: string -> string) {
    forall c, b :: IsSpacer(c) ==> f([c] + b) == f([c]) + f(b)
  }

  ghost predicate Local(f: string -> string, stable: char -> bool) {
    Hereditary(f) && CutsBefore(f, stable) && CutsAfterSpacers(f)
  }

  /** NFKC is idempotent and local; what the steps handle is stable unless NFKC replaces it. */
  ghost predicate NfkcLaws(t: UnicodeTables, stable: char -> bool) {
    && Local(t.nfkc, stable)
    && (forall s :: Closed(t, t.nfkc(s)))
    && (forall c :: IsHandled(c) && Closed(t, [c]) ==> stable(c))
    && (forall c :: IsKana(c) && !IsLigature(c) ==> Closed(t, [c]))
    && Closed(t, "-") && Closed(t, " ")
  }

  /** NFKC changes a text of characters that it keeps one by one only by changing its marks. */
  ghost predicate MarksTell(t: UnicodeTables, stable: char -> bool) {
    forall s :: ClosedChars(t, s) && Marks(stable, t.nfkc(s)) == Marks(stable, s) ==> Closed(t, s)
  }

  // ---------------------------------------------------------------------------
  // Lowercase
  // ---------------------------------------------------------------------------

  /** `char::to_lowercase` keeps the character. */
  predicate IsLower(t: UnicodeTables, c: char) {
    t.toLowercase(c) == [c]
  }

  predicate AllLower(t: UnicodeTables, s: string) {
    forall i :: 0 <= i < |s| ==> IsLower(t, s[i])
  }

  /** The lowercase form of a stable character: a stable start, NFKC text, lowercase, no Japanese out of nowhere. */
  predicate LowersTo(t: UnicodeTables, stable: char -> bool, c: char, u: string) {
    && u != "" && stable(u[0]) && Closed(t, u) && AllLower(t, u)
    && (IsHandled(c) ==> u == [c])
    && (!IsCjk(c) ==> forall i :: 0 <= i < |u| ==> !IsCjk(u[i]))
  }

  ghost predicate LowercaseLaws(t: UnicodeTables, stable: char -> bool) {
    && (forall c :: Closed(t, [c]) && !stable(c) ==> IsLower(t, c))
    && (forall c :: Closed(t, [c]) && stable(c) ==> LowersTo(t, stable, c, t.toLowercase(c)))
    && (forall s :: ClosedChars(t, s) && AllLower(t, s) ==> AllLower(t, t.nfkc(s)))
  }

  // ---------------------------------------------------------------------------
  // Diacritic folding
  // ---------------------------------------------------------------------------

  function DiacriticFolder(t: UnicodeTables): string -> string {
    s => FoldDiacritics(t, s)
  }

  predicate IsRepeatMark(c: char) {
    c == IDEOGRAPHIC_MARK || IsKanaRepeatMark(c) || IsVoicedRepeatMark(c)
  }

  /** `g` starts with a character of the same Japanese kind as `c`, and the rest of it is not Japanese. */
  predicate KeepsKind(c: char, g: string) {
    && g != "" && (forall i :: 1 <= i < |g| ==> !IsCjk(g[i]))
    && IsKana(g[0]) == IsKana(c) && IsKanji(g[0]) == IsKanji(c)
    && IsRepeatMark(g[0]) == IsRepeatMark(c) && (g[0] == CHOONPU <==> c == CHOONPU)
    && (ToHiragana(c) == c ==> ToHiragana(g[0]) == g[0])
  }

  /**
   * Decomposing, dropping the combining diacritical marks and recomposing is idempotent and local, gives NFKC text
   * for characters that NFKC keeps, keeps lowercase, and voices kana at most.
   */
  ghost predicate DiacriticLaws(t: UnicodeTables, stable: char -> bool) {
    && Local(DiacriticFolder(t), stable)
    && (forall s :: FoldDiacritics(t, FoldDiacritics(t, s)) == FoldDiacritics(t, s))
    && (forall s :: ClosedChars(t, s) ==> Closed(t, FoldDiacritics(t, s)))
    && (forall s :: ClosedChars(t, s) && AllLower(t, s) ==> AllLower(t, FoldDiacritics(t, s)))
    && (forall c :: IsHandled(c) && Closed(t, [c]) ==> FoldDiacritics(t, [c]) == [c])
    && (forall c, m :: stable(c) && AllMarks(stable, m) && ClosedChars(t, [c] + m) ==>
          KeepsKind(c, FoldDiacritics(t, [c] + m)))
    && (forall m :: AllMarks(stable, m) && ClosedChars(t, m) ==>
          forall i :: 0 <= i < |FoldDiacritics(t, m)| ==> !IsCjk(FoldDiacritics(t, m)[i]))
  }

  /** Each character is kept by NFKC and by folding, and folding the text keeps its marks. */
  predicate FoldingKeepsMarks(t: UnicodeTables, stable: char -> bool, s: string) {
    && ClosedChars(t, s) && FixedChars(DiacriticFolder(t), s)
    && Marks(stable, FoldDiacritics(t, s)) == Marks(stable, s)
  }

  /** Folding changes a text of characters that NFKC and it keep one by one only by changing its marks. */
  ghost predicate FoldingTells(t: UnicodeTables, stable: char -> bool) {
    forall s :: FoldingKeepsMarks(t, stable, s) ==> FoldDiacritics(t, s) == s
  }
}
