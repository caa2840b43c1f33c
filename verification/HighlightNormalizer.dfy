/** The engine's own normalizer satisfies the highlighter's condition. */
module HighlightNormalizer {
  import opened Text
  import opened Utf8
  import opened Steps
  import opened Config
  import opened Normalize
  import opened Highlight
  import opened UnicodeLaws
  import opened Joining
  import opened KanaSteps
  import opened FixedPoints

  lemma {:induction false} ByteLenAppend(s: string, t: string)
    ensures ByteLen(s + t) == ByteLen(s) + ByteLen(t)
  {
    if t == "" {
      assert s + t == s;
    } else {
      ByteLenAppend(s, t[..|t| - 1]);
      assert (s + t)[..|s + t| - 1] == s + t[..|t| - 1];
    }
  }

  lemma ExtendsTransitive(u: string, t: string, s: string)
    requires HasPrefix(u, t) && HasPrefix(t, s)
    ensures HasPrefix(u, s)
  {
    assert u[..|s|] == u[..|t|][..|s|];
  }

  lemma ExtendsBySuffix(s: string, x: string)
    ensures HasPrefix(s + x, s)
  {
    assert (s + x)[..|s|] == s;
  }

  // ---------------------------------------------------------------------------
  // The steps before punctuation only ever append
  // ---------------------------------------------------------------------------

  lemma {:induction false} ExpandedExtends(t: string, s: string)
    requires HasPrefix(t, s)
    ensures HasPrefix(Expanded(t), Expanded(s))
    decreases |t|
  {
    if |t| == |s| {
      assert t == s;
    } else {
      assert Front(t)[..|s|] == t[..|s|];
      ExpandedExtends(Front(t), s);
      ExtendsBySuffix(Expanded(Front(t)), [ExpandMark(Last(Expanded(Front(t))), t[|t| - 1])]);
      ExtendsTransitive(Expanded(t), Expanded(Front(t)), Expanded(s));
    }
  }

  lemma KanaFoldExtends(t: string, s: string)
    requires HasPrefix(t, s)
    ensures HasPrefix(KanaFold(t), KanaFold(s))
  {
    assert forall i :: 0 <= i < |s| ==> t[..|s|][i] == t[i];
    assert KanaFold(t)[..|s|] == KanaFold(s);
  }

  lemma {:induction false} ChoonpuExtends(t: string, s: string)
    requires HasPrefix(t, s)
    ensures HasPrefix(ChoonpuFolded(t), ChoonpuFolded(s))
    decreases |t|
  {
    if |t| == |s| {
      assert t == s;
    } else {
      assert Front(t)[..|s|] == t[..|s|];
      ChoonpuExtends(Front(t), s);
      var out := ChoonpuFolded(Front(t));
      ExtendsBySuffix(out, [t[|t| - 1]]);
      assert HasPrefix(ChoonpuFolded(t), out) by { assert out[..|out|] == out; }
      ExtendsTransitive(ChoonpuFolded(t), out, ChoonpuFolded(s));
    }
  }

  lemma FoldedKanaExtends(o: NormalizeOptions, t: string, s: string)
    requires HasPrefix(t, s)
    ensures HasPrefix(FoldedKana(o, t), FoldedKana(o, s))
  {
    ExpandedExtends(t, s);
    var t1, s1 := if o.expandIterationMarks then Expanded(t) else t, if o.expandIterationMarks then Expanded(s) else s;
    KanaFoldExtends(t1, s1);
    var t2, s2 := if o.kanaFold then KanaFold(t1) else t1, if o.kanaFold then KanaFold(s1) else s1;
    ChoonpuExtends(t2, s2);
  }

  lemma {:induction false} LowercaseExtends(t: UnicodeTables, y: string, x: string)
    requires HasPrefix(y, x)
    ensures HasPrefix(Lowercase(t, y), Lowercase(t, x))
  {
    if x != "" {
      assert y[..|x|][0] == x[0] && y[1..][..|x| - 1] == y[..|x|][1..];
      LowercaseExtends(t, y[1..], x[1..]);
      var head, low, high := t.toLowercase(x[0]), Lowercase(t, x[1..]), Lowercase(t, y[1..]);
      assert (head + high)[..|head + low|] == head + high[..|low|];
    }
  }

  // ---------------------------------------------------------------------------
  // The punctuation steps never get shorter, in bytes
  // ---------------------------------------------------------------------------

  lemma CollapsedGrows(s: string, c: char)
    ensures ByteLen(Collapsed(s)) <= ByteLen(Collapsed(s + [c]))
  {
    assert Front(s + [c]) == s;
    if !IsWhitespace(c) {
      var out := Collapsed(s);
      var added := (if EndsInSpace(s) && out != "" then " " else "") + [c];
      assert Collapsed(s + [c]) == out + added;
      ByteLenAppend(out, added);
    }
  }

  lemma CollapsedAfterDigit(s: string, c: char)
    requires s != "" && IsAsciiDigit(s[|s| - 1]) && !IsWhitespace(c)
    ensures Collapsed(s + [c]) == Collapsed(s) + [c]
  {
    assert !IsWhitespace(s[|s| - 1]);
    CollapsedAfterWord(s, c);
  }

  lemma CollapsedAfterWord(s: string, c: char)
    requires !EndsInSpace(s) && !IsWhitespace(c)
    ensures Collapsed(s + [c]) == Collapsed(s) + [c]
  {
    assert Front(s + [c]) == s;
    assert Collapsed(s) + "" + [c] == Collapsed(s) + [c];
  }

  lemma AppendOneByte(s: string, c: char)
    requires c as int < 0x80
    ensures ByteLen(s + [c]) == ByteLen(s) + 1
  {
    ByteLenAppend(s, [c]);
    OneByte(c);
  }

  /** After a digit, a comma or a digit is written with one byte. */
  lemma AfterDigitOneByte(s: string, c: char)
    requires s != "" && IsAsciiDigit(s[|s| - 1]) && (IsAsciiDigit(c) || c == ',')
    ensures ByteLen(Collapsed(s + [c])) == ByteLen(Collapsed(s)) + 1
  {
    CollapsedAfterDigit(s, c);
    AppendOneByte(Collapsed(s), c);
  }

  lemma OneByte(c: char)
    requires c as int < 0x80
    ensures ByteLen([c]) == 1
  {
    assert ([c])[..0] == "";
  }

  lemma {:induction false} UngroupedToPrefix(s: string, c: char, n: nat)
    requires n < |s|
    ensures UngroupedTo(s + [c], n) == UngroupedTo(s, n)
  {
    if n > 0 {
      UngroupedToPrefix(s, c, n - 1);
      assert GroupsDigits(s + [c], n - 1) <==> GroupsDigits(s, n - 1);
    }
  }

  /** Appending a character appends it to the output, or lets it take the place of a comma that now groups digits. */
  lemma UngroupedSnoc(s: string, c: char) returns (kept: string, displaces: bool)
    ensures if displaces
            then kept != "" && IsAsciiDigit(kept[|kept| - 1]) && IsAsciiDigit(c)
                 && Ungrouped(s) == kept + [','] && Ungrouped(s + [c]) == kept + [c]
            else kept == Ungrouped(s) && Ungrouped(s + [c]) == kept + [c]
  {
    var t, n := s + [c], |s|;
    assert !GroupsDigits(t, n);
    if n == 0 {
      kept, displaces := "", false;
      assert UngroupedTo(t, 0) == "" && UngroupedTo(t, 1) == "" + [c];
    } else {
      UngroupedToPrefix(s, c, n - 1);
      assert !GroupsDigits(s, n - 1);
      var before := UngroupedTo(s, n - 1);
      assert Ungrouped(s) == before + [s[n - 1]];
      if GroupsDigits(t, n - 1) {
        UngroupedLast(s, n - 1);
        kept, displaces := before, true;
        assert UngroupedTo(t, n) == before + "" && before + "" == before;
      } else {
        kept, displaces := before + [s[n - 1]], false;
      }
    }
  }

  /** Digit grouping and whitespace, for one more character. */
  lemma TailGrows(strip: bool, collapse: bool, s: string, c: char)
    ensures ByteLen(Tail(strip, collapse, s)) <= ByteLen(Tail(strip, collapse, s + [c]))
  {
    if strip {
      var kept, displaces := UngroupedSnoc(s, c);
      if displaces {
        if collapse {
          AfterDigitOneByte(kept, ',');
          AfterDigitOneByte(kept, c);
        } else {
          AppendOneByte(kept, ',');
          AppendOneByte(kept, c);
        }
      } else if collapse {
        CollapsedGrows(kept, c);
      } else {
        ByteLenAppend(kept, [c]);
      }
    } else if collapse {
      CollapsedGrows(s, c);
    } else {
      ByteLenAppend(s, [c]);
    }
  }

  function Tail(strip: bool, collapse: bool, s: string): string {
    var u := if strip then Ungrouped(s) else s;
    if collapse then Collapsed(u) else u
  }

  lemma PunctuationGrows(o: NormalizeOptions, s: string, c: char)
    ensures ByteLen(FoldedPunctuation(o, s)) <= ByteLen(FoldedPunctuation(o, s + [c]))
  {
    var s1 := if o.normalizeHyphens then NormalizeHyphens(s) else s;
    var d := if o.normalizeHyphens then UnifyDash(c) else c;
    assert NormalizeHyphens(s + [c]) == NormalizeHyphens(s) + [UnifyDash(c)];
    TailGrows(o.stripDigitGrouping, o.collapseWhitespace, s1, d);
  }

  lemma {:induction false} PunctuationMonotone(o: NormalizeOptions, t: string, s: string)
    requires HasPrefix(t, s)
    ensures ByteLen(FoldedPunctuation(o, s)) <= ByteLen(FoldedPunctuation(o, t))
    decreases |t|
  {
    if |t| == |s| {
      assert t == s;
    } else {
      assert Front(t)[..|s|] == t[..|s|];
      PunctuationMonotone(o, Front(t), s);
      PunctuationGrows(o, Front(t), t[|t| - 1]);
      assert t == Front(t) + [t[|t| - 1]];
    }
  }

  // ---------------------------------------------------------------------------
  // Characters that take the place of others
  // ---------------------------------------------------------------------------

  /** A character that the punctuation steps copy. */
  predicate IsCopied(c: char) {
    !IsWhitespace(c) && !IsDash(c) && !IsAsciiDigit(c) && c != ','
  }

  predicate AllCopied(u: string) {
    forall i :: 0 <= i < |u| ==> IsCopied(u[i])
  }

  lemma {:induction false} UngroupedCopies(s: string, u: string)
    requires AllCopied(u)
    ensures Ungrouped(s + u) == Ungrouped(s) + u
  {
    if u == "" {
      assert s + u == s;
    } else {
      UngroupedCopies(s, Front(u));
      assert s + u == s + Front(u) + [u[|u| - 1]];
      var kept, displaces := UngroupedSnoc(s + Front(u), u[|u| - 1]);
      assert Ungrouped(s) + Front(u) + [u[|u| - 1]] == Ungrouped(s) + u;
    }
  }

  lemma {:induction false} CollapsedCopies(s: string, u: string)
    requires AllCopied(u) && u != ""
    ensures Collapsed(s + u) == Collapsed(s) + Pending(s) + u
  {
    var front, c := Front(u), u[|u| - 1];
    assert s + u == s + front + [c];
    if front == "" {
      assert s + front == s && Front(s + [c]) == s && u == [c];
    } else {
      CollapsedCopies(s, front);
      assert (s + front)[|s + front| - 1] == front[|front| - 1];
      CollapsedAfterWord(s + front, c);
      assert Collapsed(s) + Pending(s) + front + [c] == Collapsed(s) + Pending(s) + u;
    }
  }

  lemma HyphensCopy(s: string, u: string)
    requires AllCopied(u)
    ensures NormalizeHyphens(s + u) == NormalizeHyphens(s) + u
  {
  }

  /** What the punctuation steps write before copied characters does not depend on them. */
  lemma PunctuationCopies(o: NormalizeOptions, s: string) returns (out: string)
    ensures forall u :: AllCopied(u) && u != "" ==> FoldedPunctuation(o, s + u) == out + u
  {
    var s1 := if o.normalizeHyphens then NormalizeHyphens(s) else s;
    var s2 := if o.stripDigitGrouping then Ungrouped(s1) else s1;
    out := if o.collapseWhitespace then Collapsed(s2) + Pending(s2) else s2;
    forall u | AllCopied(u) && u != "" ensures FoldedPunctuation(o, s + u) == out + u {
      HyphensCopy(s, u);
      UngroupedCopies(s1, u);
      CollapsedCopies(s2, u);
    }
  }

  /** `y` extends `x`, or does so after copied characters at the end of `x` have given way to at least as many bytes. */
  ghost predicate Outgrows(y: string, x: string) {
    HasPrefix(y, x) || exists k, l :: GivesWay(x, y, k, l)
  }

  predicate GivesWay(x: string, y: string, k: int, l: int) {
    && 0 <= k < |x| && k < l <= |y| && x[..k] == y[..k]
    && AllCopied(x[k..]) && AllCopied(y[k..l]) && ByteLen(x[k..]) <= ByteLen(y[k..l])
  }

  lemma PunctuationOutgrows(o: NormalizeOptions, y: string, x: string)
    requires Outgrows(y, x)
    ensures ByteLen(FoldedPunctuation(o, x)) <= ByteLen(FoldedPunctuation(o, y))
  {
    hide FoldedPunctuation, ByteLen, AllCopied;
    if HasPrefix(y, x) {
      PunctuationMonotone(o, y, x);
    } else {
      var k, l :| GivesWay(x, y, k, l);
      var out := PunctuationCopies(o, x[..k]);
      assert x[..k] + x[k..] == x && x[..k] + y[k..l] == y[..l];
      assert x[k..] != "" && y[k..l] != "" && HasPrefix(y, y[..l]);
      ByteLenAppend(out, x[k..]);
      ByteLenAppend(out, y[k..l]);
      PunctuationMonotone(o, y, y[..l]);
    }
  }

  // ---------------------------------------------------------------------------
  // The whole normalizer
  // ---------------------------------------------------------------------------

  /** One more character of the text never takes bytes from what the punctuation steps are given. */
  ghost predicate GrowsBeforePunctuation(t: UnicodeTables, o: NormalizeOptions, raw: string) {
    forall i :: 0 < i < |raw| ==> Outgrows(BeforePunctuation(t, o, raw[..i + 1]), BeforePunctuation(t, o, raw[..i]))
  }

  /** Such text meets the highlighter's condition, digit grouping and trimming included. */
  lemma GrowingIsMonotone(t: UnicodeTables, o: NormalizeOptions, raw: string)
    requires GrowsBeforePunctuation(t, o, raw)
    ensures Monotone(raw, Normalizer(t, o))
  {
    forall i, j | 0 <= i <= j <= |raw|
      ensures PrefixBytes(raw, Normalizer(t, o), i) <= PrefixBytes(raw, Normalizer(t, o), j)
    {
      PrefixesGrow(t, o, raw, i, j);
    }
  }

  lemma {:induction false} PrefixesGrow(t: UnicodeTables, o: NormalizeOptions, raw: string, i: nat, j: nat)
    requires GrowsBeforePunctuation(t, o, raw) && i <= j <= |raw|
    ensures PrefixBytes(raw, Normalizer(t, o), i) <= PrefixBytes(raw, Normalizer(t, o), j)
  {
    if i < j {
      PrefixesGrow(t, o, raw, i, j - 1);
      if j > 1 { PunctuationOutgrows(o, BeforePunctuation(t, o, raw[..j]), BeforePunctuation(t, o, raw[..j - 1])); }
    }
  }

  // ---------------------------------------------------------------------------
  // Reading the condition off the NFKC form
  // ---------------------------------------------------------------------------

  /** The kana steps and lowercasing for a character that is not a repeat or prolonged-sound mark. */
  function WrittenChar(t: UnicodeTables, o: NormalizeOptions, c: char): string {
    Low(t, o, [if o.kanaFold then ToHiragana(c) else c])
  }

  /** `d` takes the place of `c`, as a voiced kana takes the place of the plain one. */
  predicate Composes(t: UnicodeTables, o: NormalizeOptions, c: char, d: char) {
    && !IsRepeatMark(c) && !IsRepeatMark(d) && c != CHOONPU && d != CHOONPU
    && WrittenChar(t, o, c) != "" && AllCopied(WrittenChar(t, o, c)) && AllCopied(WrittenChar(t, o, d))
    && ByteLen(WrittenChar(t, o, c)) <= ByteLen(WrittenChar(t, o, d))
  }

  /** NFKC of one character more appends, or composes the last character so far with it and then appends. */
  predicate NfkcGrows(t: UnicodeTables, o: NormalizeOptions, raw: string) {
    forall i :: 0 < i < |raw| ==> AppendsOrComposes(t, o, t.nfkc(raw[..i]), t.nfkc(raw[..i + 1]))
  }

  predicate AppendsOrComposes(t: UnicodeTables, o: NormalizeOptions, x: string, y: string) {
    || HasPrefix(y, x)
    || (0 < |x| <= |y| && y[..|x| - 1] == Front(x) && Composes(t, o, x[|x| - 1], y[|x| - 1]))
  }

  lemma WrittenSnoc(t: UnicodeTables, o: NormalizeOptions, a: string, c: char)
    requires !IsRepeatMark(c) && c != CHOONPU
    ensures Low(t, o, FoldedKana(o, a + [c])) == Low(t, o, FoldedKana(o, a)) + WrittenChar(t, o, c)
  {
    KanaSnoc(o, a, c);
    var d := if o.kanaFold then ToHiragana(c) else c;
    assert Rewritten(o, a, c) == d && !Dropped(o, a, c);
    LowAppend(t, o, FoldedKana(o, a), [d]);
  }

  lemma LowExtends(t: UnicodeTables, o: NormalizeOptions, y: string, x: string)
    requires HasPrefix(y, x)
    ensures HasPrefix(Low(t, o, FoldedKana(o, y)), Low(t, o, FoldedKana(o, x)))
  {
    FoldedKanaExtends(o, y, x);
    LowercaseExtends(t, FoldedKana(o, y), FoldedKana(o, x));
  }

  lemma ComposedOutgrows(t: UnicodeTables, o: NormalizeOptions, a: string, c: char, d: char, y: string)
    requires Composes(t, o, c, d) && HasPrefix(y, a + [d])
    ensures Outgrows(Low(t, o, FoldedKana(o, y)), Low(t, o, FoldedKana(o, a + [c])))
  {
    var b, u, v := Low(t, o, FoldedKana(o, a)), WrittenChar(t, o, c), WrittenChar(t, o, d);
    WrittenSnoc(t, o, a, c);
    WrittenSnoc(t, o, a, d);
    LowExtends(t, o, y, a + [d]);
    TakesPlace(b, u, v, Low(t, o, FoldedKana(o, y)));
  }

  lemma TakesPlace(b: string, u: string, v: string, y: string)
    requires u != "" && AllCopied(u) && AllCopied(v) && ByteLen(u) <= ByteLen(v) && HasPrefix(y, b + v)
    ensures Outgrows(y, b + u)
  {
    if v == "" {
      NoBytes(u);
    } else {
      var k, l := |b|, |b + v|;
      assert (b + u)[k..] == u && (b + u)[..k] == b;
      assert y[..l] == b + v;
      assert y[k..l] == y[..l][k..] == v && y[..k] == y[..l][..k] == b;
      assert GivesWay(b + u, y, k, l);
    }
  }

  /** Every character takes a byte. */
  lemma NoBytes(u: string)
    requires ByteLen(u) == 0
    ensures u == ""
  {
  }

  lemma OneMoreOutgrows(t: UnicodeTables, o: NormalizeOptions, u: string, v: string)
    requires !o.foldDiacritics && AppendsOrComposes(t, o, t.nfkc(u), t.nfkc(v))
    ensures Outgrows(BeforePunctuation(t, o, v), BeforePunctuation(t, o, u))
  {
    hide Outgrows, Composes, FoldedKana, Lowercase;
    var x, y := t.nfkc(u), t.nfkc(v);
    if HasPrefix(y, x) {
      LowExtends(t, o, y, x);
      ExtendingOutgrows(BeforePunctuation(t, o, v), BeforePunctuation(t, o, u));
    } else {
      assert x == Front(x) + [x[|x| - 1]];
      assert y[..|x|] == Front(x) + [y[|x| - 1]];
      ComposedOutgrows(t, o, Front(x), x[|x| - 1], y[|x| - 1], y);
    }
  }

  lemma ExtendingOutgrows(y: string, x: string)
    requires HasPrefix(y, x)
    ensures Outgrows(y, x)
  {
  }

  /**
   * Without diacritic folding, text whose NFKC form grows by appending and composing meets the highlighter's condition
   * under every choice of options.
   */
  lemma NormalizerIsMonotone(t: UnicodeTables, o: NormalizeOptions, raw: string)
    requires !o.foldDiacritics && NfkcGrows(t, o, raw)
    ensures Monotone(raw, Normalizer(t, o))
  {
    hide Outgrows, BeforePunctuation, AppendsOrComposes;
    forall i | 0 < i < |raw|
      ensures Outgrows(BeforePunctuation(t, o, raw[..i + 1]), BeforePunctuation(t, o, raw[..i]))
    {
      assert AppendsOrComposes(t, o, t.nfkc(raw[..i]), t.nfkc(raw[..i + 1]));
      OneMoreOutgrows(t, o, raw[..i], raw[..i + 1]);
    }
    GrowingIsMonotone(t, o, raw);
  }

  /** Voicing a half-width katakana: the full-width kana gives way to the voiced one, katakana or folded to hiragana. */
  lemma HalfWidthVoiced(t: UnicodeTables, o: NormalizeOptions)
    requires !o.foldDiacritics
    requires t.nfkc("\U{FF76}") == "\U{30AB}" && t.nfkc("\U{FF76}\U{FF9E}") == "\U{30AC}"
    requires forall c :: IsKana(c) ==> t.toLowercase(c) == [c]
    ensures Monotone("\U{FF76}\U{FF9E}", Normalizer(t, o))
  {
    var raw := "\U{FF76}\U{FF9E}";
    assert raw[..1] == "\U{FF76}" && raw[..2] == raw;
    ThreeBytes(t, o, '\U{30AB}');
    ThreeBytes(t, o, '\U{30AC}');
    assert Front("\U{30AB}") == "" && "\U{30AC}"[..0] == "";
    NormalizerIsMonotone(t, o, raw);
  }

  lemma ThreeBytes(t: UnicodeTables, o: NormalizeOptions, c: char)
    requires IsKana(c) && t.toLowercase(c) == [c] && t.toLowercase(ToHiragana(c)) == [ToHiragana(c)]
    ensures ByteLen(WrittenChar(t, o, c)) == 3 && AllCopied(WrittenChar(t, o, c)) && WrittenChar(t, o, c) != ""
  {
    var d := if o.kanaFold then ToHiragana(c) else c;
    LowOne(t, o, d);
    assert [d][..0] == "";
  }
}
