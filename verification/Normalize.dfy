/** The composed normalizer: the enabled steps in their canonical order. */
module Normalize {
  import opened Wrappers
  import opened Text
  import opened Steps
  import opened Config

  /** The library tables the engine calls into, FTS5 case folding included; nothing is assumed about them. */
  datatype UnicodeTables = UnicodeTables(
    nfkc: string -> string,
    nfd: string -> string,
    nfc: string -> string,
    toLowercase: char -> string,
    ftsFold: char -> char)

  function Lowercase(t: UnicodeTables, s: string): string {
    if s == "" then "" else t.toLowercase(s[0]) + Lowercase(t, s[1..])
  }

  function WithoutCombiningMarks(s: string): string {
    if s == "" then ""
    else (if '\U{0300}' <= s[0] <= '\U{036F}' then "" else [s[0]]) + WithoutCombiningMarks(s[1..])
  }

  predicate NotDiacritic(c: char) {
    !('\U{0300}' <= c <= '\U{036F}')
  }

  lemma StripCons(c: char, s: string)
    ensures WithoutCombiningMarks([c] + s) == (if NotDiacritic(c) then [c] else "") + WithoutCombiningMarks(s)
  {
    assert ([c] + s)[1..] == s;
  }

  /** Combining marks are dropped one by one. */
  lemma {:induction false} StripAppend(a: string, b: string)
    ensures WithoutCombiningMarks(a + b) == WithoutCombiningMarks(a) + WithoutCombiningMarks(b)
  {
    if a == "" {
      assert a + b == b;
    } else {
      StripAppend(a[1..], b);
      assert a == [a[0]] + a[1..] && a + b == [a[0]] + (a[1..] + b);
      StripCons(a[0], a[1..]);
      StripCons(a[0], a[1..] + b);
      Associative(if NotDiacritic(a[0]) then [a[0]] else "", WithoutCombiningMarks(a[1..]), WithoutCombiningMarks(b));
    }
  }

  function FoldDiacritics(t: UnicodeTables, s: string): string {
    t.nfc(WithoutCombiningMarks(t.nfd(s)))
  }

  /** The kana steps: iteration marks, katakana, prolonged-sound marks. */
  function FoldedKana(o: NormalizeOptions, s: string): string {
    var s1 := if o.expandIterationMarks then Expanded(s) else s;
    var s2 := if o.kanaFold then KanaFold(s1) else s1;
    if o.foldChoonpu then ChoonpuFolded(s2) else s2
  }

  /** The punctuation steps: hyphens, digit grouping, whitespace. */
  function FoldedPunctuation(o: NormalizeOptions, s: string): string {
    var s1 := if o.normalizeHyphens then NormalizeHyphens(s) else s;
    var s2 := if o.stripDigitGrouping then Ungrouped(s1) else s1;
    if o.collapseWhitespace then Collapsed(s2) else s2
  }

  /** All steps before the punctuation steps. */
  function BeforePunctuation(t: UnicodeTables, o: NormalizeOptions, input: string): string {
    var s1 := FoldedKana(o, t.nfkc(input));
    var s2 := if o.lowercase then Lowercase(t, s1) else s1;
    if o.foldDiacritics then FoldDiacritics(t, s2) else s2
  }

  function Normalized(t: UnicodeTables, o: NormalizeOptions, input: string): string {
    FoldedPunctuation(o, BeforePunctuation(t, o, input))
  }

  /** The normalizer as a function value. */
  function Normalizer(t: UnicodeTables, o: NormalizeOptions): string -> string {
    s => Normalized(t, o, s)
  }

  method NormalizeText(t: UnicodeTables, o: NormalizeOptions, input: string) returns (s: string)
    ensures s == Normalized(t, o, input)
  {
    s := t.nfkc(input);
    if o.expandIterationMarks { s := ExpandIterationMarks(s); }
    if o.kanaFold { s := KanaFold(s); }
    if o.foldChoonpu { s := FoldChoonpu(s); }
    if o.lowercase { s := Lowercase(t, s); }
    if o.foldDiacritics { s := FoldDiacritics(t, s); }
    if o.normalizeHyphens { s := NormalizeHyphens(s); }
    if o.stripDigitGrouping { s := StripDigitGrouping(s); }
    if o.collapseWhitespace { s := CollapseWhitespace(s); }
  }

  /** The six table-free steps, composed. */
  function Folded(o: NormalizeOptions, s: string): string {
    FoldedPunctuation(o, FoldedKana(o, s))
  }

  // ---------------------------------------------------------------------------
  // Fixed points of the steps that look at a character and its predecessor
  // ---------------------------------------------------------------------------

  datatype Step = Iteration | Kana | Choonpu | Hyphens

  function Apply(step: Step, s: string): string {
    match step
    case Iteration => Expanded(s)
    case Kana => KanaFold(s)
    case Choonpu => ChoonpuFolded(s)
    case Hyphens => NormalizeHyphens(s)
  }

  /** The step would leave `c` alone after `prev`. */
  predicate Settled(step: Step, prev: Option<char>, c: char) {
    match step
    case Iteration => ExpandMark(prev, c) == c
    case Kana => ToHiragana(c) == c
    case Choonpu => !(c == CHOONPU && IsKanaAt(prev))
    case Hyphens => UnifyDash(c) == c
  }

  predicate AllSettled(step: Step, s: string) {
    s == "" || (AllSettled(step, Front(s)) && Settled(step, Last(Front(s)), s[|s| - 1]))
  }

  lemma SettledSnoc(step: Step, s: string, c: char)
    ensures AllSettled(step, s + [c]) <==> AllSettled(step, s) && Settled(step, Last(s), c)
  {
    assert Front(s + [c]) == s;
  }

  lemma ChoonpuShorter(s: string)
    ensures |ChoonpuFolded(s)| <= |s|
  {
    if s != "" { ChoonpuShorter(Front(s)); }
  }

  /** A step changes nothing exactly when every character is settled. */
  lemma {:induction false} FixedPoint(step: Step, s: string)
    ensures Apply(step, s) == s <==> AllSettled(step, s)
  {
    if s != "" {
      var front, c := Front(s), s[|s| - 1];
      assert s == front + [c];
      FixedPoint(step, front);
      match step
      case Iteration => FixedPointSnoc(Expanded(front), front, ExpandMark(Last(Expanded(front)), c), c);
      case Kana =>
        assert KanaFold(s) == KanaFold(front) + [ToHiragana(c)];
        FixedPointSnoc(KanaFold(front), front, ToHiragana(c), c);
      case Choonpu =>
        ChoonpuShorter(front);
        FixedPointSnoc(ChoonpuFolded(front), front, c, c);
      case Hyphens =>
        assert NormalizeHyphens(s) == NormalizeHyphens(front) + [UnifyDash(c)];
        FixedPointSnoc(NormalizeHyphens(front), front, UnifyDash(c), c);
    }
  }

  lemma FixedPointSnoc(out: string, front: string, d: char, c: char)
    ensures out + [d] == front + [c] <==> out == front && d == c
  {
    if out + [d] == front + [c] {
      assert (out + [d])[..|out|] == out && (front + [c])[..|front|] == front;
      assert (out + [d])[|out|] == d;
    }
  }

  // ---------------------------------------------------------------------------
  // Each step settles its own concern
  // ---------------------------------------------------------------------------

  /** Expanding a mark leaves something a second pass would not touch. */
  lemma ExpandMarkSettles(prev: Option<char>, c: char)
    ensures Settled(Iteration, prev, ExpandMark(prev, c))
  {
  }

  lemma MapsSettle(c: char)
    ensures ToHiragana(ToHiragana(c)) == ToHiragana(c) && UnifyDash(UnifyDash(c)) == UnifyDash(c)
  {
  }

  lemma KanaFoldSnoc(s: string)
    requires s != ""
    ensures KanaFold(s) == KanaFold(Front(s)) + [ToHiragana(s[|s| - 1])]
  {
  }

  lemma HyphensSnoc(s: string)
    requires s != ""
    ensures NormalizeHyphens(s) == NormalizeHyphens(Front(s)) + [UnifyDash(s[|s| - 1])]
  {
  }

  lemma {:induction false} StepSettles(step: Step, s: string)
    ensures AllSettled(step, Apply(step, s))
  {
    if s != "" {
      var front, c := Front(s), s[|s| - 1];
      StepSettles(step, front);
      match step
      case Iteration =>
        var out := Expanded(front);
        ExpandMarkSettles(Last(out), c);
        SettledSnoc(step, out, ExpandMark(Last(out), c));
      case Kana =>
        KanaFoldSnoc(s);
        MapsSettle(c);
        SettledSnoc(step, KanaFold(front), ToHiragana(c));
      case Choonpu =>
        SettledSnoc(step, ChoonpuFolded(front), c);
      case Hyphens =>
        HyphensSnoc(s);
        MapsSettle(c);
        SettledSnoc(step, NormalizeHyphens(front), UnifyDash(c));
    }
  }

  // ---------------------------------------------------------------------------
  // No later step unsettles an earlier one
  // ---------------------------------------------------------------------------

  function Rank(step: Step): nat {
    match step case Iteration => 0 case Kana => 1 case Choonpu => 2 case Hyphens => 3
  }

  lemma MapSettled(step: Step, p: Option<char>, c: char)
    ensures step.Iteration? && Settled(step, p, c) ==>
              Settled(step, (if p.Some? then Some(ToHiragana(p.value)) else None), ToHiragana(c))
    ensures !step.Hyphens? && Settled(step, p, c) ==>
              Settled(step, (if p.Some? then Some(UnifyDash(p.value)) else None), UnifyDash(c))
  {
  }

  lemma {:induction false} KanaFoldKeeps(s: string)
    requires AllSettled(Iteration, s)
    ensures AllSettled(Iteration, KanaFold(s))
  {
    if s != "" {
      var front, c := Front(s), s[|s| - 1];
      KanaFoldKeeps(front);
      MapSettled(Iteration, Last(front), c);
      assert KanaFold(s) == KanaFold(front) + [ToHiragana(c)];
      SettledSnoc(Iteration, KanaFold(front), ToHiragana(c));
    }
  }

  lemma {:induction false} HyphensKeep(step: Step, s: string)
    requires !step.Hyphens? && AllSettled(step, s)
    ensures AllSettled(step, NormalizeHyphens(s))
  {
    if s != "" {
      var front, c := Front(s), s[|s| - 1];
      HyphensKeep(step, front);
      MapSettled(step, Last(front), c);
      assert NormalizeHyphens(s) == NormalizeHyphens(front) + [UnifyDash(c)];
      SettledSnoc(step, NormalizeHyphens(front), UnifyDash(c));
    }
  }

  /** What is written last is what was read last, or the kana a dropped mark followed. */
  lemma {:induction false} ChoonpuLast(s: string)
    ensures Last(ChoonpuFolded(s)) == Last(s) || (Last(s) == Some(CHOONPU) && IsKanaAt(Last(ChoonpuFolded(s))))
  {
  }

  lemma {:induction false} ChoonpuKeeps(step: Step, s: string)
    requires Rank(step) < 2 && AllSettled(step, s)
    ensures AllSettled(step, ChoonpuFolded(s))
  {
    if s != "" {
      var front, c := Front(s), s[|s| - 1];
      ChoonpuKeeps(step, front);
      ChoonpuLast(front);
      SettledSnoc(step, ChoonpuFolded(front), c);
    }
  }

  lemma UngroupedLast(s: string, n: nat)
    requires 0 < n <= |s|
    ensures Last(UngroupedTo(s, n)) == Some(s[n - 1])
         || (GroupsDigits(s, n - 1) && n < |s| && IsAsciiDigit(s[n])
             && Last(UngroupedTo(s, n)).Some? && IsAsciiDigit(Last(UngroupedTo(s, n)).value))
  {
    if GroupsDigits(s, n - 1) { UngroupedLast(s, n - 1); }
  }

  lemma {:induction false} PrefixSettled(step: Step, s: string, n: nat)
    requires n < |s| && AllSettled(step, s)
    ensures AllSettled(step, s[..n]) && Settled(step, Last(s[..n]), s[n])
    decreases |s| - n
  {
    if n + 1 < |s| {
      PrefixSettled(step, s, n + 1);
    } else {
      assert s[..n + 1] == s;
    }
    assert s[..n + 1] == s[..n] + [s[n]];
    if n + 1 < |s| { SettledSnoc(step, s[..n], s[n]); }
  }

  lemma {:induction false} UngroupingKeeps(step: Step, s: string, n: nat)
    requires n <= |s| && AllSettled(step, s)
    ensures AllSettled(step, UngroupedTo(s, n))
  {
    if n > 0 {
      UngroupingKeeps(step, s, n - 1);
      PrefixSettled(step, s, n - 1);
      if n > 1 { UngroupedLast(s, n - 1); }
      if GroupsDigits(s, n - 1) {
        assert UngroupedTo(s, n - 1) + "" == UngroupedTo(s, n - 1);
      } else {
        SettledSnoc(step, UngroupedTo(s, n - 1), s[n - 1]);
      }
    }
  }

  /** When nothing is pending, the collapsed text ends as the text read so far does. */
  lemma {:induction false} CollapsedLast(s: string)
    ensures !EndsInSpace(s) ==> Last(Collapsed(s)) == Last(s)
  {
  }

  /** To every step a space is as good as any whitespace, or as the start of the text. */
  lemma SpaceSettles(step: Step, p: Option<char>, c: char)
    ensures Settled(step, p, ' ')
    ensures p.Some? && IsWhitespace(p.value) && Settled(step, p, c) ==>
        Settled(step, Some(' '), c) && Settled(step, None, c)
  {
  }

  lemma {:induction false} CollapsingKeeps(step: Step, s: string)
    requires AllSettled(step, s)
    ensures AllSettled(step, Collapsed(s))
  {
    if s != "" {
      var front, c := Front(s), s[|s| - 1];
      CollapsingKeeps(step, front);
      if !IsWhitespace(c) {
        var out := Collapsed(front);
        CollapsedLast(front);
        SpaceSettles(step, Last(front), c);
        if EndsInSpace(front) && out != "" {
          SpaceSettles(step, Last(out), c);
          SettledSnoc(step, out, ' ');
          SettledSnoc(step, out + " ", c);
        } else {
          SettledSnoc(step, out, c);
          assert out + "" + [c] == out + [c];
        }
      }
    }
  }

  // ---------------------------------------------------------------------------
  // Digit grouping
  // ---------------------------------------------------------------------------

  predicate NoGrouping(s: string) {
    forall i :: 0 <= i < |s| ==> !GroupsDigits(s, i)
  }

  lemma {:induction false} NoGroupingIsFixed(s: string, n: nat)
    requires n <= |s| && NoGrouping(s)
    ensures UngroupedTo(s, n) == s[..n]
  {
    if n > 0 {
      NoGroupingIsFixed(s, n - 1);
      assert s[..n] == s[..n - 1] + [s[n - 1]];
    }
  }

  /** `s + [c]` groups digits nowhere, provided a trailing comma of `s` is not completed by `c`. */
  lemma NoGroupingSnoc(s: string, c: char)
    requires NoGrouping(s)
    requires !(|s| > 1 && s[|s| - 1] == ',' && IsAsciiDigit(s[|s| - 2]) && IsAsciiDigit(c))
    ensures NoGrouping(s + [c])
  {
    var t := s + [c];
    forall i | 0 <= i < |t| ensures !GroupsDigits(t, i) {
      if i + 1 < |s| { assert !GroupsDigits(s, i); }
    }
  }

  /** A comma written by `UngroupedTo` right after a digit stood after a digit in the input, too. */
  lemma {:induction false} UngroupedTail(s: string, n: nat)
    requires n <= |s|
    ensures var out := UngroupedTo(s, n);
            |out| > 1 && out[|out| - 1] == ',' && IsAsciiDigit(out[|out| - 2]) ==>
              n > 1 && s[n - 1] == ',' && IsAsciiDigit(s[n - 2]) && !GroupsDigits(s, n - 1)
  {
    if n > 0 {
      if GroupsDigits(s, n - 1) {
        assert UngroupedTo(s, n) == UngroupedTo(s, n - 1);
        UngroupedLast(s, n - 1);
      } else if n > 1 {
        UngroupedLast(s, n - 1);
      }
    }
  }

  lemma {:induction false} UngroupingLeavesNone(s: string, n: nat)
    requires n <= |s|
    ensures NoGrouping(UngroupedTo(s, n))
  {
    if n > 0 {
      UngroupingLeavesNone(s, n - 1);
      var out := UngroupedTo(s, n - 1);
      if GroupsDigits(s, n - 1) {
        assert UngroupedTo(s, n) == out;
      } else {
        UngroupedTail(s, n - 1);
        NoGroupingSnoc(out, s[n - 1]);
      }
    }
  }

  /** Two characters written side by side at the end were read side by side. */
  lemma CollapsedTail(s: string)
    requires !EndsInSpace(s)
    ensures var out := Collapsed(s);
            |out| > 1 && !IsWhitespace(out[|out| - 2]) ==>
              |s| > 1 && s[|s| - 2] == out[|out| - 2] && s[|s| - 1] == out[|out| - 1]
  {
    if s != "" {
      var front := Front(s);
      if !EndsInSpace(front) { CollapsedLast(front); }
    }
  }

  lemma {:induction false} CollapsingKeepsUngrouped(s: string)
    requires NoGrouping(s)
    ensures NoGrouping(Collapsed(s))
  {
    if s != "" {
      var front, c := Front(s), s[|s| - 1];
      forall i | 0 <= i < |front| ensures !GroupsDigits(front, i) { assert !GroupsDigits(s, i); }
      CollapsingKeepsUngrouped(front);
      if !IsWhitespace(c) {
        var out := Collapsed(front);
        if EndsInSpace(front) && out != "" {
          NoGroupingSnoc(out, ' ');
          NoGroupingSnoc(out + " ", c);
        } else {
          if EndsInSpace(front) {
          } else {
            CollapsedTail(front);
            assert |s| > 2 ==> !GroupsDigits(s, |s| - 2);
          }
          NoGroupingSnoc(out, c);
          assert out + "" + [c] == out + [c];
        }
      }
    }
  }

  // ---------------------------------------------------------------------------
  // The composed pipeline is a fixed point of itself
  // ---------------------------------------------------------------------------

  predicate KanaSettled(o: NormalizeOptions, s: string) {
    && (o.expandIterationMarks ==> AllSettled(Iteration, s))
    && (o.kanaFold ==> AllSettled(Kana, s))
    && (o.foldChoonpu ==> AllSettled(Choonpu, s))
  }

  lemma FoldedKanaSettles(o: NormalizeOptions, s: string)
    ensures KanaSettled(o, FoldedKana(o, s))
  {
    var s1 := if o.expandIterationMarks then Expanded(s) else s;
    if o.expandIterationMarks { StepSettles(Iteration, s); }
    var s2 := if o.kanaFold then KanaFold(s1) else s1;
    if o.kanaFold {
      StepSettles(Kana, s1);
      if o.expandIterationMarks { KanaFoldKeeps(s1); }
    }
    if o.foldChoonpu {
      StepSettles(Choonpu, s2);
      if o.expandIterationMarks { ChoonpuKeeps(Iteration, s2); }
      if o.kanaFold { ChoonpuKeeps(Kana, s2); }
    }
  }

  lemma HyphensKeepKana(o: NormalizeOptions, s: string)
    requires KanaSettled(o, s)
    ensures KanaSettled(o, NormalizeHyphens(s))
  {
    if o.expandIterationMarks { HyphensKeep(Iteration, s); }
    if o.kanaFold { HyphensKeep(Kana, s); }
    if o.foldChoonpu { HyphensKeep(Choonpu, s); }
  }

  lemma UngroupingKeepsKana(o: NormalizeOptions, s: string)
    requires KanaSettled(o, s)
    ensures KanaSettled(o, Ungrouped(s))
  {
    if o.expandIterationMarks { UngroupingKeeps(Iteration, s, |s|); }
    if o.kanaFold { UngroupingKeeps(Kana, s, |s|); }
    if o.foldChoonpu { UngroupingKeeps(Choonpu, s, |s|); }
  }

  lemma CollapsingKeepsKana(o: NormalizeOptions, s: string)
    requires KanaSettled(o, s)
    ensures KanaSettled(o, Collapsed(s))
  {
    if o.expandIterationMarks { CollapsingKeeps(Iteration, s); }
    if o.kanaFold { CollapsingKeeps(Kana, s); }
    if o.foldChoonpu { CollapsingKeeps(Choonpu, s); }
  }

  predicate PunctuationSettled(o: NormalizeOptions, s: string) {
    && (o.normalizeHyphens ==> AllSettled(Hyphens, s))
    && (o.stripDigitGrouping ==> NoGrouping(s))
    && (o.collapseWhitespace ==> Collapsed(s) == s)
  }

  /** Whatever the text, the punctuation steps leave themselves nothing to do. */
  lemma PunctuationSettles(o: NormalizeOptions, s: string)
    ensures PunctuationSettled(o, FoldedPunctuation(o, s))
  {
    var s1 := if o.normalizeHyphens then NormalizeHyphens(s) else s;
    if o.normalizeHyphens { StepSettles(Hyphens, s); }
    var s2 := if o.stripDigitGrouping then Ungrouped(s1) else s1;
    if o.stripDigitGrouping {
      UngroupingLeavesNone(s1, |s1|);
      if o.normalizeHyphens { UngroupingKeeps(Hyphens, s1, |s1|); }
    }
    if o.collapseWhitespace {
      CollapseKeepsWords(s2);
      if o.normalizeHyphens { CollapsingKeeps(Hyphens, s2); }
      if o.stripDigitGrouping { CollapsingKeepsUngrouped(s2); }
    }
  }

  lemma FoldedPunctuationSettles(o: NormalizeOptions, s: string)
    requires KanaSettled(o, s)
    ensures KanaSettled(o, FoldedPunctuation(o, s))
    ensures PunctuationSettled(o, FoldedPunctuation(o, s))
  {
    PunctuationSettles(o, s);
    var s1 := if o.normalizeHyphens then NormalizeHyphens(s) else s;
    if o.normalizeHyphens { HyphensKeepKana(o, s); }
    var s2 := if o.stripDigitGrouping then Ungrouped(s1) else s1;
    if o.stripDigitGrouping { UngroupingKeepsKana(o, s1); }
    if o.collapseWhitespace { CollapsingKeepsKana(o, s2); }
  }

  lemma KanaSettledIsFixed(o: NormalizeOptions, s: string)
    requires KanaSettled(o, s)
    ensures FoldedKana(o, s) == s
  {
    FixedPoint(Iteration, s);
    FixedPoint(Kana, s);
    FixedPoint(Choonpu, s);
  }

  lemma PunctuationSettledIsFixed(o: NormalizeOptions, s: string)
    requires PunctuationSettled(o, s)
    ensures FoldedPunctuation(o, s) == s
  {
    FixedPoint(Hyphens, s);
    if o.stripDigitGrouping {
      NoGroupingIsFixed(s, |s|);
      assert s[..|s|] == s;
    }
  }

  /** For every choice of steps, folding what is already folded changes nothing. */
  lemma FoldedIdempotent(o: NormalizeOptions, s: string)
    ensures Folded(o, Folded(o, s)) == Folded(o, s)
  {
    FoldedKanaSettles(o, s);
    FoldedPunctuationSettles(o, FoldedKana(o, s));
    KanaSettledIsFixed(o, Folded(o, s));
    PunctuationSettledIsFixed(o, Folded(o, s));
  }

  /**
   * Without the two steps that use library tables the normalizer is the folded NFKC form, so it is
   * idempotent on every input whose result NFKC leaves alone.
   */
  lemma NormalizedIdempotent(t: UnicodeTables, o: NormalizeOptions, s: string)
    requires !o.lowercase && !o.foldDiacritics
    ensures var r := Normalized(t, o, s);
            && r == Folded(o, t.nfkc(s))
            && (t.nfkc(r) == r ==> Normalized(t, o, r) == r)
  {
    FoldedIdempotent(o, t.nfkc(s));
  }

  // ---------------------------------------------------------------------------
  // Queries of whitespace only
  // ---------------------------------------------------------------------------

  predicate IsBlank(s: string) {
    s != "" && forall i :: 0 <= i < |s| ==> IsWhitespace(s[i])
  }

  lemma {:induction false} BlankIsSettled(step: Step, s: string)
    requires s == "" || IsBlank(s)
    ensures AllSettled(step, s)
  {
    if s != "" { BlankIsSettled(step, Front(s)); }
  }

  /** Whitespace passes every step but the last unchanged. */
  lemma BlankIsFixed(s: string)
    requires IsBlank(s)
    ensures Expanded(s) == s && KanaFold(s) == s && ChoonpuFolded(s) == s && NormalizeHyphens(s) == s
    ensures Ungrouped(s) == s
  {
    forall step ensures Apply(step, s) == s {
      BlankIsSettled(step, s);
      FixedPoint(step, s);
    }
    assert Apply(Iteration, s) == Apply(Kana, s) == Apply(Choonpu, s) == Apply(Hyphens, s) == s;
    NoGroupingIsFixed(s, |s|);
    assert s[..|s|] == s;
  }

  lemma {:induction false} BlankCollapses(s: string)
    requires s == "" || IsBlank(s)
    ensures Collapsed(s) == ""
  {
    if s != "" { BlankCollapses(Front(s)); }
  }

  lemma {:induction false} BlankLowercase(t: UnicodeTables, s: string)
    requires s == "" || IsBlank(s)
    requires forall c :: IsWhitespace(c) ==> t.toLowercase(c) == [c]
    ensures Lowercase(t, s) == s
  {
    if s != "" {
      BlankLowercase(t, s[1..]);
      assert s == [s[0]] + s[1..];
    }
  }

  /** Only whitespace: nothing for the tables to lowercase, decompose or compose. */
  ghost predicate BlankIsPlain(t: UnicodeTables, o: NormalizeOptions) {
    && (forall c :: IsWhitespace(c) ==> t.toLowercase(c) == [c])
    && (o.foldDiacritics ==> forall s :: IsBlank(s) && t.nfkc(s) == s ==> t.nfd(s) == s && t.nfc(s) == s)
  }

  lemma {:induction false} BlankHasNoMarks(s: string)
    requires s == "" || IsBlank(s)
    ensures WithoutCombiningMarks(s) == s
  {
    if s != "" {
      BlankHasNoMarks(s[1..]);
      assert s == [s[0]] + s[1..];
    }
  }

  /**
   * A query that is only whitespace after NFKC normalizes to nothing if whitespace is collapsed, and otherwise
   * stays as NFKC left it.
   */
  lemma BlankQuery(t: UnicodeTables, o: NormalizeOptions, q: string)
    requires IsBlank(t.nfkc(q)) && t.nfkc(t.nfkc(q)) == t.nfkc(q) && BlankIsPlain(t, o)
    ensures Normalized(t, o, q) == if o.collapseWhitespace then "" else t.nfkc(q)
  {
    BlankIsFixed(t.nfkc(q));
    BlankLowercase(t, t.nfkc(q));
    BlankHasNoMarks(t.nfkc(q));
    BlankCollapses(t.nfkc(q));
  }
}
