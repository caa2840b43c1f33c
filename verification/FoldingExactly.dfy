/** Exactly when normalizing a second time changes nothing, with diacritic folding on. */
module FoldingExactly {
  import opened Wrappers
  import opened Text
  import opened Config
  import opened Steps
  import opened Normalize
  import opened UnicodeLaws
  import opened Joining
  import opened KanaSteps
  import opened FixedPoints
  import opened DiacriticFolding

  ghost predicate FoldingLaws(t: UnicodeTables, stable: char -> bool, o: NormalizeOptions) {
    Laws(t, stable, o) && DiacriticLaws(t, stable) && FoldingTells(t, stable)
  }

  // ---------------------------------------------------------------------------
  // The condition: no mark stands behind what it acts on
  // ---------------------------------------------------------------------------

  /** The kana steps would expand or drop `c` directly behind `p`. */
  predicate Acts(o: NormalizeOptions, p: char, c: char) {
    (o.foldChoonpu && c == CHOONPU && IsKana(p)) || (o.expandIterationMarks && ExpandMark(Some(p), c) != c)
  }

  predicate NothingActedOn(o: NormalizeOptions, d: string) {
    forall i :: 0 < i < |d| ==> !Acts(o, d[i - 1], d[i])
  }

  lemma {:induction false} SettledByPairs(step: Step, d: string)
    requires step.Iteration? || step.Choonpu?
    ensures AllSettled(step, d) <==> forall i :: 0 < i < |d| ==> Settled(step, Some(d[i - 1]), d[i])
  {
    if d != "" {
      SettledByPairs(step, Front(d));
      assert forall i :: 0 <= i < |d| - 1 ==> Front(d)[i] == d[i];
    }
  }

  /** Folded to hiragana, a text is settled exactly if nothing in it is acted on. */
  lemma SettledExactly(o: NormalizeOptions, d: string)
    requires o.kanaFold ==> AllSettled(Kana, d)
    ensures KanaSettled(o, d) <==> NothingActedOn(o, d)
  {
    SettledByPairs(Iteration, d);
    SettledByPairs(Choonpu, d);
    forall i | 0 < i < |d|
      ensures Acts(o, d[i - 1], d[i]) <==>
              (o.expandIterationMarks && !Settled(Iteration, Some(d[i - 1]), d[i]))
              || (o.foldChoonpu && !Settled(Choonpu, Some(d[i - 1]), d[i]))
    {
    }
  }

  // ---------------------------------------------------------------------------
  // The punctuation steps keep such pairs together
  // ---------------------------------------------------------------------------

  lemma PairAt(s: string, p: char, c: char) returns (i: nat)
    requires Contains(s, [p, c])
    ensures i + 2 <= |s| && s[i] == p && s[i + 1] == c
  {
    i :| OccursAt(s, [p, c], i);
    assert s[i..i + 2] == [p, c];
    assert s[i..i + 2][0] == s[i] && s[i..i + 2][1] == s[i + 1];
  }

  lemma ContainsAround(u: string, w: string, v: string)
    ensures Contains(u + w + v, w)
  {
    assert (u + w + v)[|u|..|u| + |w|] == w;
    assert OccursAt(u + w + v, w, |u|);
  }

  lemma {:induction false} UngroupingKeepsPair(s: string, p: char, c: char, i: nat, n: nat)
    requires i + 2 <= n <= |s| && s[i] == p && s[i + 1] == c && p != ',' && c != ','
    ensures Contains(UngroupedTo(s, n), [p, c])
  {
    if n == i + 2 {
      ContainsAround(UngroupedTo(s, i), [p, c], "");
      assert UngroupedTo(s, i) + [p, c] + "" == UngroupedTo(s, i) + [p] + [c];
      assert UngroupedTo(s, i + 1) == UngroupedTo(s, i) + [p];
    } else {
      UngroupingKeepsPair(s, p, c, i, n - 1);
      StillContains(UngroupedTo(s, n - 1), if GroupsDigits(s, n - 1) then "" else [s[n - 1]], [p, c]);
    }
  }

  lemma StillContains(a: string, b: string, w: string)
    requires Contains(a, w)
    ensures Contains(a + b, w)
  {
    var i: nat :| OccursAt(a, w, i);
    assert (a + b)[i..i + |w|] == a[i..i + |w|];
    assert OccursAt(a + b, w, i);
  }

  lemma {:induction false} CollapsingKeepsPair(s: string, p: char, c: char, i: nat, n: nat)
    requires i + 2 <= n <= |s| && s[i] == p && s[i + 1] == c && !IsWhitespace(p) && !IsWhitespace(c)
    ensures Contains(CollapsedTo(s, n), [p, c])
  {
    hide Collapsed, CollapsedTo;
    CollapsedStep(s, n - 1);
    if n == i + 2 {
      CollapsedStep(s, i);
      ContainsAround(CollapsedTo(s, i), [p, c], "");
      assert CollapsedTo(s, i) + [p, c] + "" == CollapsedTo(s, i) + [p] + [c];
    } else {
      CollapsingKeepsPair(s, p, c, i, n - 1);
      var before := CollapsedTo(s, n - 1);
      if !IsWhitespace(s[n - 1]) {
        StillContains(before, [s[n - 1]], [p, c]);
      } else {
        CollapsedParts(s, n - 1);
        PairBeforePending(Collapsed(s[..n - 1]), Pending(s[..n - 1]), p, c);
        StillContains(Collapsed(s[..n - 1]), if Collapsed(s[..n - 1]) != "" then " " else "", [p, c]);
      }
    }
  }

  lemma PairBeforePending(a: string, pending: string, p: char, c: char)
    requires Contains(a + pending, [p, c]) && (pending == "" || pending == " ") && !IsWhitespace(c)
    ensures Contains(a, [p, c])
  {
    var i := PairAt(a + pending, p, c);
    assert (a + pending)[i..i + 2] == a[i..i + 2];
    assert OccursAt(a, [p, c], i);
  }

  lemma PunctuationKeepsPair(o: NormalizeOptions, d: string, p: char, c: char)
    requires Contains(d, [p, c]) && IsCjk(p) && IsCjk(c)
    ensures Contains(FoldedPunctuation(o, d), [p, c])
  {
    var s1 := if o.normalizeHyphens then NormalizeHyphens(d) else d;
    var i := PairAt(d, p, c);
    assert s1[i..i + 2] == [p, c];
    assert OccursAt(s1, [p, c], i);
    var s2 := if o.stripDigitGrouping then Ungrouped(s1) else s1;
    if o.stripDigitGrouping { UngroupingKeepsPair(s1, p, c, i, |s1|); }
    if o.collapseWhitespace {
      var j := PairAt(s2, p, c);
      CollapsingKeepsPair(s2, p, c, j, |s2|);
      assert s2[..|s2|] == s2;
      PairBeforePending(Collapsed(s2), Pending(s2), p, c);
    }
  }

  lemma ActedOnAfterPunctuation(o: NormalizeOptions, d: string, i: nat)
    requires 0 < i < |d| && Acts(o, d[i - 1], d[i])
    ensures !NothingActedOn(o, FoldedPunctuation(o, d))
  {
    assert d[i - 1..i + 1] == [d[i - 1], d[i]];
    assert OccursAt(d, [d[i - 1], d[i]], i - 1);
    PunctuationKeepsPair(o, d, d[i - 1], d[i]);
    var j := PairAt(FoldedPunctuation(o, d), d[i - 1], d[i]);
    assert Acts(o, FoldedPunctuation(o, d)[j], FoldedPunctuation(o, d)[j + 1]);
  }

  // ---------------------------------------------------------------------------
  // What the kana steps look at, in order
  // ---------------------------------------------------------------------------

  function CjkOf(s: string): string {
    if s == "" then "" else CjkOf(Front(s)) + (if IsCjk(s[|s| - 1]) then [s[|s| - 1]] else "")
  }

  lemma CjkSnoc(s: string, c: char)
    ensures CjkOf(s + [c]) == CjkOf(s) + if IsCjk(c) then [c] else ""
  {
    assert Front(s + [c]) == s;
  }

  lemma {:induction false} HyphensKeepCjk(s: string)
    ensures CjkOf(NormalizeHyphens(s)) == CjkOf(s)
  {
    if s != "" {
      HyphensKeepCjk(Front(s));
      HyphensSnoc(s);
      CjkSnoc(NormalizeHyphens(Front(s)), UnifyDash(s[|s| - 1]));
    }
  }

  lemma {:induction false} UngroupingKeepsCjk(s: string, n: nat)
    requires n <= |s|
    ensures CjkOf(UngroupedTo(s, n)) == CjkOf(s[..n])
  {
    if n > 0 {
      UngroupingKeepsCjk(s, n - 1);
      assert s[..n] == s[..n - 1] + [s[n - 1]];
      CjkSnoc(s[..n - 1], s[n - 1]);
      CjkSnoc(UngroupedTo(s, n - 1), s[n - 1]);
      assert UngroupedTo(s, n - 1) + "" == UngroupedTo(s, n - 1);
    }
  }

  lemma {:induction false} CollapsingKeepsCjk(s: string)
    ensures CjkOf(Collapsed(s)) == CjkOf(s)
  {
    if s != "" {
      var front, c := Front(s), s[|s| - 1];
      CollapsingKeepsCjk(front);
      if !IsWhitespace(c) {
        if EndsInSpace(front) && Collapsed(front) != "" {
          CjkSnoc(Collapsed(front), ' ');
          assert Collapsed(front) + " " == Collapsed(front) + [' '];
          CjkSnoc(Collapsed(front) + " ", c);
        } else {
          assert Collapsed(front) + "" == Collapsed(front);
          CjkSnoc(Collapsed(front), c);
        }
      }
    }
  }

  lemma PunctuationKeepsCjk(o: NormalizeOptions, s: string)
    ensures CjkOf(FoldedPunctuation(o, s)) == CjkOf(s)
  {
    var s1 := if o.normalizeHyphens then NormalizeHyphens(s) else s;
    HyphensKeepCjk(s);
    var s2 := if o.stripDigitGrouping then Ungrouped(s1) else s1;
    UngroupingKeepsCjk(s1, |s1|);
    assert s1[..|s1|] == s1;
    CollapsingKeepsCjk(s2);
  }

  /** The kana steps keep all that they look at only if they change nothing. */
  lemma {:induction false} KanaShowsInCjk(o: NormalizeOptions, y: string)
    ensures |CjkOf(FoldedKana(o, y))| <= |CjkOf(y)|
    ensures CjkOf(FoldedKana(o, y)) == CjkOf(y) ==> FoldedKana(o, y) == y
  {
    hide FoldedKana, Rewritten, Dropped;
    if y == "" {
      KanaOfEmpty(o);
    } else {
      var front, c := Front(y), y[|y| - 1];
      assert y == front + [c];
      KanaShowsInCjk(o, front);
      KanaSnoc(o, front, c);
      RewrittenCjk(o, front, c);
      CjkSnoc(front, c);
      CjkSnoc(FoldedKana(o, front), Rewritten(o, front, c));
      if !IsCjk(c) {
        assert CjkOf(front) + "" == CjkOf(front) && CjkOf(FoldedKana(o, front)) + "" == CjkOf(FoldedKana(o, front));
      }
      if Dropped(o, front, c) {
        DroppedIsCjk(o, front, c);
      } else if IsCjk(c) && CjkOf(FoldedKana(o, y)) == CjkOf(y) {
        FixedPointSnoc(CjkOf(FoldedKana(o, front)), CjkOf(front), Rewritten(o, front, c), c);
      }
    }
  }

  lemma DroppedIsCjk(o: NormalizeOptions, y: string, c: char)
    requires Dropped(o, y, c)
    ensures IsCjk(c)
  {
    RewrittenCjk(o, y, c);
  }

  // ---------------------------------------------------------------------------
  // A second pass that restores the text had nothing to do
  // ---------------------------------------------------------------------------

  lemma {:induction false} KanaCharsFold(t: UnicodeTables, stable: char -> bool, o: NormalizeOptions, y: string)
    requires NfkcLaws(t, stable) && DiacriticLaws(t, stable) && ClosedChars(t, y) && FixedChars(DiacriticFolder(t), y)
    ensures FixedChars(DiacriticFolder(t), FoldedKana(o, y))
  {
    hide NfkcLaws, DiacriticLaws, FoldedKana, Rewritten, Dropped;
    if y == "" {
      KanaOfEmpty(o);
    } else {
      var front, c := Front(y), y[|y| - 1];
      assert y == front + [c];
      KanaCharsFold(t, stable, o, front);
      KanaSnoc(o, front, c);
      RewrittenClosed(t, stable, o, front, c);
      RewrittenCjk(o, front, c);
      if Rewritten(o, front, c) != c { SegmentAlone(t, stable, Rewritten(o, front, c)); }
      assert Fixed(DiacriticFolder(t), [c]);
    }
  }

  lemma FoldedChars(t: UnicodeTables, stable: char -> bool, r: string)
    requires DiacriticLaws(t, stable) && FoldDiacritics(t, r) == r
    ensures FixedChars(DiacriticFolder(t), r)
  {
    assert Fixed(DiacriticFolder(t), r);
    forall i | 0 <= i < |r| ensures Fixed(DiacriticFolder(t), [r[i]]) {
      PartFixed(DiacriticFolder(t), r, i, i + 1);
      assert r[i..i + 1] == [r[i]];
    }
  }

  /** Text with the marks of its kana-folded form is folded already. */
  lemma SameMarksFolded(t: UnicodeTables, stable: char -> bool, k: string)
    requires FoldingTells(t, stable) && ClosedChars(t, k) && FixedChars(DiacriticFolder(t), k)
    requires Marks(stable, FoldDiacritics(t, k)) == Marks(stable, k)
    ensures FoldDiacritics(t, k) == k
  {
  }

  lemma ClosedFolded(t: UnicodeTables, stable: char -> bool, k: string)
    requires NfkcLaws(t, stable) && DiacriticLaws(t, stable) && ClosedChars(t, k)
    ensures ClosedChars(t, FoldDiacritics(t, k))
  {
    PartsClosed(t, stable, FoldDiacritics(t, k));
  }

  lemma RestoredIsSettled(t: UnicodeTables, stable: char -> bool, o: NormalizeOptions, r: string)
    requires FoldingLaws(t, stable, o) && o.foldDiacritics
    requires Kept(t, o, r) && Closed(t, r) && FoldDiacritics(t, r) == r && Normalized(t, o, r) == r
    ensures KanaSettled(o, r)
  {
    hide NfkcLaws, LowercaseLaws, DiacriticLaws, FoldingTells, FoldDiacritics, FoldedKana, FoldedPunctuation;
    var k := FoldedKana(o, r);
    var d := FoldDiacritics(t, k);
    KanaCharsClosed(t, stable, o, r);
    if o.lowercase {
      KanaKeepsLower(t, stable, o, r);
      LowerIsFixed(t, k);
    }
    assert FoldedPunctuation(o, d) == r;
    KanaKeepsMarks(t, stable, o, r);
    ClosedFolded(t, stable, k);
    ClosedIsPlain(t, stable, d);
    PunctuationKeepsMarks(t.nfkc, stable, o, d);
    FoldedChars(t, stable, r);
    KanaCharsFold(t, stable, o, r);
    SameMarksFolded(t, stable, k);
    PunctuationKeepsCjk(o, k);
    KanaShowsInCjk(o, r);
    FoldedKanaSettles(o, r);
  }

  // ---------------------------------------------------------------------------
  // The exact condition
  // ---------------------------------------------------------------------------

  lemma HiraganaBeforePunctuation(t: UnicodeTables, stable: char -> bool, o: NormalizeOptions, s: string)
    requires Laws(t, stable, o) && DiacriticLaws(t, stable) && o.foldDiacritics && o.kanaFold
    ensures AllSettled(Kana, BeforePunctuation(t, o, s))
  {
    var x := t.nfkc(s);
    var k := FoldedKana(o, x);
    PartsClosed(t, stable, x);
    KanaCharsClosed(t, stable, o, x);
    FoldedKanaSettles(o, x);
    LowKanaSettled(t, stable, o, k);
    LowKept(t, stable, o, k);
    FoldingKeepsHiragana(t, stable, Low(t, o, k));
  }

  /** In terms of the folded text: nothing in it is acted on. */
  lemma FixedPointByFoldedText(t: UnicodeTables, stable: char -> bool, o: NormalizeOptions, s: string)
    requires FoldingLaws(t, stable, o) && o.foldDiacritics
    ensures var r := Normalized(t, o, s); Normalized(t, o, r) == r <==> NothingActedOn(o, BeforePunctuation(t, o, s))
  {
    hide NfkcLaws, LowercaseLaws, DiacriticLaws, FoldingTells, FoldDiacritics, FoldedKana, FoldedPunctuation;
    hide BeforePunctuation, AllSettled;
    var r, d := Normalized(t, o, s), BeforePunctuation(t, o, s);
    OneFoldingPass(t, stable, o, s);
    if o.kanaFold { HiraganaBeforePunctuation(t, stable, o, s); }
    SettledExactly(o, d);
    if NothingActedOn(o, d) {
      FoldedPunctuationSettles(o, d);
      SecondPass(t, o, r);
    } else {
      var i :| 0 < i < |d| && Acts(o, d[i - 1], d[i]);
      ActedOnAfterPunctuation(o, d, i);
      if Normalized(t, o, r) == r {
        RestoredIsSettled(t, stable, o, r);
        if o.kanaFold { assert AllSettled(Kana, r); }
        SettledExactly(o, r);
      }
    }
  }

  // ---------------------------------------------------------------------------
  // The condition on the input: no stretch of it meets the next one
  // ---------------------------------------------------------------------------

  /** The kana steps keep the stable character `x[i]`, possibly rewritten. */
  predicate Survives(stable: char -> bool, o: NormalizeOptions, x: string, i: int) {
    0 <= i < |x| && stable(x[i]) && !Dropped(o, x[..i], x[i])
  }

  /** From the surviving `x[i]` to where the next character survives, or to the end of the text. */
  predicate IsStretch(stable: char -> bool, o: NormalizeOptions, x: string, i: int, j: int) {
    && Survives(stable, o, x, i) && i < j <= |x| && (j == |x| || Survives(stable, o, x, j))
    && forall k :: i < k < j ==> !Survives(stable, o, x, k)
  }

  /** What the kana steps and lowercasing make of a stretch. */
  function Stretch(t: UnicodeTables, stable: char -> bool, o: NormalizeOptions, x: string, i: int, j: int): string
    requires 0 <= i < j <= |x|
  {
    Anchor(t, o, x[..i + 1]) + Marks(stable, x[i + 1..j])
  }

  /** Folded, the stretch from `j` starts with a mark that acts on the end of the stretch before it. */
  predicate Meets(t: UnicodeTables, stable: char -> bool, o: NormalizeOptions, x: string, i: int, j: int, n: int)
    requires 0 <= i < j < n <= |x|
  {
    var d, g := FoldDiacritics(t, Stretch(t, stable, o, x, i, j)), FoldDiacritics(t, Stretch(t, stable, o, x, j, n));
    d != "" && g != "" && Acts(o, d[|d| - 1], g[0])
  }

  ghost predicate NothingMeetsFrom(t: UnicodeTables, stable: char -> bool, o: NormalizeOptions, x: string, from: int) {
    forall i, j, n ::
      from <= i && IsStretch(stable, o, x, i, j) && IsStretch(stable, o, x, j, n) ==> !Meets(t, stable, o, x, i, j, n)
  }

  /** No stretch of the text meets the next one. */
  ghost predicate NothingMeets(t: UnicodeTables, stable: char -> bool, o: NormalizeOptions, x: string) {
    NothingMeetsFrom(t, stable, o, x, 0)
  }

  /** Where the next character survives. */
  lemma NextSurvivor(stable: char -> bool, o: NormalizeOptions, x: string, i: nat) returns (j: nat)
    requires i <= |x|
    ensures i <= j <= |x| && (j == |x| || Survives(stable, o, x, j))
    ensures forall k :: i <= k < j ==> !Survives(stable, o, x, k)
    decreases |x| - i
  {
    if i == |x| || Survives(stable, o, x, i) {
      j := i;
    } else {
      j := NextSurvivor(stable, o, x, i + 1);
    }
  }

  // ---------------------------------------------------------------------------
  // The kana steps, stretch by stretch
  // ---------------------------------------------------------------------------

  /** What the kana steps write from `x[i]` on. */
  function Rest(o: NormalizeOptions, x: string, i: nat): string
    requires i <= |x|
    decreases |x| - i
  {
    if i == |x| then "" else Written(o, x, i) + Rest(o, x, i + 1)
  }

  function Written(o: NormalizeOptions, x: string, i: nat): string
    requires i < |x|
  {
    if Dropped(o, x[..i], x[i]) then "" else [Rewritten(o, x[..i], x[i])]
  }

  lemma WrittenNext(o: NormalizeOptions, x: string, i: nat)
    requires i < |x|
    ensures FoldedKana(o, x[..i + 1]) == FoldedKana(o, x[..i]) + Written(o, x, i)
  {
    assert x[..i + 1] == x[..i] + [x[i]];
    KanaSnoc(o, x[..i], x[i]);
    assert FoldedKana(o, x[..i]) + "" == FoldedKana(o, x[..i]);
  }

  lemma {:induction false} RestIs(o: NormalizeOptions, x: string, i: nat)
    requires i <= |x|
    ensures FoldedKana(o, x) == FoldedKana(o, x[..i]) + Rest(o, x, i)
    decreases |x| - i
  {
    hide FoldedKana, Written;
    if i == |x| {
      assert x[..i] == x && FoldedKana(o, x) + "" == FoldedKana(o, x);
    } else {
      RestIs(o, x, i + 1);
      WrittenNext(o, x, i);
      Associative(FoldedKana(o, x[..i]), Written(o, x, i), Rest(o, x, i + 1));
    }
  }

  lemma MarksCons(stable: char -> bool, x: string, i: nat, n: nat)
    requires i < n <= |x|
    ensures Marks(stable, x[i..n]) == (if stable(x[i]) then "" else [x[i]]) + Marks(stable, x[i + 1..n])
  {
    assert x[i..n] == [x[i]] + x[i + 1..n];
    MarksAppend(stable, [x[i]], x[i + 1..n]);
    MarksOfOne(stable, x[i]);
  }

  /** Between survivors the marks are written, and nothing else. */
  lemma {:induction false} RestMarks(t: UnicodeTables, stable: char -> bool, o: NormalizeOptions, x: string,
                                     i: nat, n: nat)
    requires NfkcLaws(t, stable) && ClosedChars(t, x) && i <= n <= |x|
    requires forall k :: i <= k < n ==> !Survives(stable, o, x, k)
    ensures Rest(o, x, i) == Marks(stable, x[i..n]) + Rest(o, x, n)
    decreases n - i
  {
    hide NfkcLaws, Rewritten, Dropped, Marks;
    if i == n {
      MarksOfNone(stable);
      assert x[i..n] == "" && "" + Rest(o, x, n) == Rest(o, x, n);
    } else {
      RestMarks(t, stable, o, x, i + 1, n);
      MarksCons(stable, x, i, n);
      assert !Survives(stable, o, x, i);
      assert ClosedChars(t, x[..i]) && Closed(t, [x[i]]);
      RewrittenClosed(t, stable, o, x[..i], x[i]);
      Associative(Written(o, x, i), Marks(stable, x[i + 1..n]), Rest(o, x, n));
    }
  }

  lemma {:induction false} MarksAreMarks(t: UnicodeTables, stable: char -> bool, s: string)
    requires ClosedChars(t, s)
    ensures AllMarks(stable, Marks(stable, s)) && ClosedChars(t, Marks(stable, s))
  {
    if s != "" { MarksAreMarks(t, stable, Front(s)); }
  }

  /** What a surviving character is written as. */
  function Survivor(o: NormalizeOptions, x: string, i: nat): char
    requires i < |x|
  {
    Rewritten(o, x[..i], x[i])
  }

  lemma SurvivorFacts(t: UnicodeTables, stable: char -> bool, o: NormalizeOptions, x: string, i: nat)
    requires Laws(t, stable, o) && ClosedChars(t, x) && Survives(stable, o, x, i)
    ensures var e := Survivor(o, x, i);
            && Written(o, x, i) == [e] && Anchor(t, o, x[..i + 1]) == Low(t, o, [e])
            && stable(e) && Closed(t, [e])
  {
    hide NfkcLaws, LowercaseLaws, Rewritten;
    WrittenNext(o, x, i);
    assert ClosedChars(t, x[..i]) && Closed(t, [x[i]]);
    RewrittenClosed(t, stable, o, x[..i], x[i]);
  }

  lemma SliceClosed(t: UnicodeTables, x: string, i: nat, j: nat)
    requires ClosedChars(t, x) && i <= j <= |x|
    ensures ClosedChars(t, x[i..j])
  {
    forall k | 0 <= k < j - i ensures Closed(t, [x[i..j][k]]) { assert x[i..j][k] == x[i + k]; }
  }

  lemma RestStretch(t: UnicodeTables, stable: char -> bool, o: NormalizeOptions, x: string, i: nat, j: nat)
    requires Laws(t, stable, o) && ClosedChars(t, x) && IsStretch(stable, o, x, i, j)
    ensures Low(t, o, Rest(o, x, i)) == Stretch(t, stable, o, x, i, j) + Low(t, o, Rest(o, x, j))
  {
    hide NfkcLaws, LowercaseLaws, Rewritten, Dropped, Low, Anchor, Written, Marks;
    var e, m := Survivor(o, x, i), Marks(stable, x[i + 1..j]);
    SurvivorFacts(t, stable, o, x, i);
    RestMarks(t, stable, o, x, i + 1, j);
    SliceClosed(t, x, i + 1, j);
    MarksAreMarks(t, stable, x[i + 1..j]);
    LowMarks(t, stable, o, m);
    LowAppend(t, o, [e], m + Rest(o, x, j));
    LowAppend(t, o, m, Rest(o, x, j));
    Associative(Low(t, o, [e]), m, Low(t, o, Rest(o, x, j)));
  }

  // ---------------------------------------------------------------------------
  // Folding, stretch by stretch
  // ---------------------------------------------------------------------------

  /** A folded stretch keeps the kind of its character at the start, and nothing Japanese comes after. */
  predicate KeepsStretch(e: char, g: string) {
    && g != "" && (forall k :: 1 <= k < |g| ==> !IsCjk(g[k]))
    && if IsCjk(e) then KeepsKind(e, g) else !IsCjk(g[0])
  }

  lemma StretchFacts(t: UnicodeTables, stable: char -> bool, o: NormalizeOptions, x: string, i: nat, j: nat)
    requires Laws(t, stable, o) && DiacriticLaws(t, stable) && ClosedChars(t, x) && IsStretch(stable, o, x, i, j)
    ensures var w := Stretch(t, stable, o, x, i, j);
            && w != "" && stable(w[0]) && ClosedChars(t, w)
            && KeepsStretch(Survivor(o, x, i), FoldDiacritics(t, w))
  {
    hide NfkcLaws, LowercaseLaws, DiacriticLaws, FoldDiacritics, Rewritten, Dropped, Anchor, Marks, Low;
    var e, m := Survivor(o, x, i), Marks(stable, x[i + 1..j]);
    SurvivorFacts(t, stable, o, x, i);
    SliceClosed(t, x, i + 1, j);
    MarksAreMarks(t, stable, x[i + 1..j]);
    LowStable(t, stable, o, e);
    LowKept(t, stable, o, [e]);
    CharsAppend(t, Low(t, o, [e]), m);
    if IsCjk(e) {
      SegmentKind(t, stable, e, m);
    } else {
      LowStaysOther(t, stable, o, e);
      MarksAreOther(t, stable, m);
      FoldingStaysOther(t, stable, Low(t, o, [e]) + m);
    }
  }

  lemma CharsAppend(t: UnicodeTables, a: string, b: string)
    requires ClosedChars(t, a) && ClosedChars(t, b)
    ensures ClosedChars(t, a + b)
  {
  }

  lemma LowStaysOther(t: UnicodeTables, stable: char -> bool, o: NormalizeOptions, e: char)
    requires Laws(t, stable, o) && Closed(t, [e]) && !IsCjk(e)
    ensures NoCjk(Low(t, o, [e]))
  {
    LowOne(t, o, e);
    if o.lowercase { LowercaseOfChar(t, stable, e); }
  }

  lemma MarksAreOther(t: UnicodeTables, stable: char -> bool, m: string)
    requires NfkcLaws(t, stable) && ClosedChars(t, m) && AllMarks(stable, m)
    ensures NoCjk(m)
  {
    assert forall c :: IsCjk(c) ==> IsHandled(c);
  }

  /** The text from a survivor on, folded. */
  ghost function FoldedFrom(t: UnicodeTables, o: NormalizeOptions, x: string, i: nat): string
    requires i <= |x|
  {
    FoldDiacritics(t, Low(t, o, Rest(o, x, i)))
  }

  lemma FoldedStretch(t: UnicodeTables, stable: char -> bool, o: NormalizeOptions, x: string, i: nat, j: nat)
    requires Laws(t, stable, o) && DiacriticLaws(t, stable) && ClosedChars(t, x) && IsStretch(stable, o, x, i, j)
    ensures j == |x| ==> FoldedFrom(t, o, x, i) == FoldDiacritics(t, Stretch(t, stable, o, x, i, j))
    ensures j < |x| ==>
              FoldedFrom(t, o, x, i) == FoldDiacritics(t, Stretch(t, stable, o, x, i, j)) + FoldedFrom(t, o, x, j)
    ensures FoldDiacritics(t, Stretch(t, stable, o, x, i, j)) <= FoldedFrom(t, o, x, i)
  {
    hide NfkcLaws, LowercaseLaws, DiacriticLaws, FoldDiacritics, Low, Stretch;
    var w, l := Stretch(t, stable, o, x, i, j), Low(t, o, Rest(o, x, j));
    RestStretch(t, stable, o, x, i, j);
    StretchFacts(t, stable, o, x, i, j);
    if j == |x| {
      LowEmpty(t, o);
      assert w + "" == w;
    } else {
      var n := NextSurvivor(stable, o, x, j + 1);
      RestStretch(t, stable, o, x, j, n);
      StretchFacts(t, stable, o, x, j, n);
      FoldingCut(t, stable, w, l);
    }
  }

  lemma LowEmpty(t: UnicodeTables, o: NormalizeOptions)
    ensures Low(t, o, "") == ""
  {
  }

  lemma ActsInJapanese(o: NormalizeOptions, p: char, c: char)
    requires Acts(o, p, c)
    ensures IsCjk(p) && IsCjk(c)
  {
  }

  lemma ActsAcross(o: NormalizeOptions, g: string, f: string)
    requires g != "" && f != "" && forall k :: 1 <= k < |g| ==> !IsCjk(g[k])
    ensures NothingActedOn(o, g + f) <==> !Acts(o, g[|g| - 1], f[0]) && NothingActedOn(o, f)
  {
    var d, n := g + f, |g|;
    if NothingActedOn(o, d) {
      assert d[n - 1] == g[n - 1] && d[n] == f[0];
      forall i | 0 < i < |f| ensures !Acts(o, f[i - 1], f[i]) { assert d[n + i - 1] == f[i - 1] && d[n + i] == f[i]; }
    }
    if !Acts(o, g[n - 1], f[0]) && NothingActedOn(o, f) {
      forall i | 0 < i < |d| ensures !Acts(o, d[i - 1], d[i]) {
        if i < n && Acts(o, d[i - 1], d[i]) { ActsInJapanese(o, d[i - 1], d[i]); }
        if i > n { assert d[i - 1] == f[i - n - 1] && d[i] == f[i - n]; }
      }
    }
  }

  // ---------------------------------------------------------------------------
  // The exact condition on the input
  // ---------------------------------------------------------------------------

  lemma StretchUnique(stable: char -> bool, o: NormalizeOptions, x: string, i: int, j: int, k: int)
    requires IsStretch(stable, o, x, i, j) && IsStretch(stable, o, x, i, k)
    ensures j == k
  {
  }

  /** A stretch and what comes after it. */
  lemma MeetsOnce(t: UnicodeTables, stable: char -> bool, o: NormalizeOptions, x: string, i: int, j: int, n: int)
    requires IsStretch(stable, o, x, i, j) && IsStretch(stable, o, x, j, n)
    ensures NothingMeetsFrom(t, stable, o, x, i) <==>
              !Meets(t, stable, o, x, i, j, n) && NothingMeetsFrom(t, stable, o, x, j)
  {
    hide Dropped, FoldDiacritics, Stretch;
    if !Meets(t, stable, o, x, i, j, n) && NothingMeetsFrom(t, stable, o, x, j) {
      forall a, b, c | i <= a && IsStretch(stable, o, x, a, b) && IsStretch(stable, o, x, b, c)
        ensures !Meets(t, stable, o, x, a, b, c)
      {
        if a == i {
          StretchUnique(stable, o, x, i, j, b);
          StretchUnique(stable, o, x, j, n, c);
        }
      }
    }
  }

  lemma {:induction false} MeetsFrom(t: UnicodeTables, stable: char -> bool, o: NormalizeOptions, x: string, i: nat)
    requires Laws(t, stable, o) && DiacriticLaws(t, stable) && ClosedChars(t, x) && Survives(stable, o, x, i)
    ensures NothingActedOn(o, FoldedFrom(t, o, x, i)) <==> NothingMeetsFrom(t, stable, o, x, i)
    decreases |x| - i
  {
    hide NfkcLaws, LowercaseLaws, DiacriticLaws, FoldDiacritics, FoldedFrom, Stretch, Dropped;
    var j := NextSurvivor(stable, o, x, i + 1);
    var g := FoldDiacritics(t, Stretch(t, stable, o, x, i, j));
    FoldedStretch(t, stable, o, x, i, j);
    StretchFacts(t, stable, o, x, i, j);
    if j == |x| {
      OneStretchOnly(t, stable, o, x, i);
      OneStretchActs(o, g);
    } else {
      var n := NextSurvivor(stable, o, x, j + 1);
      MeetsFrom(t, stable, o, x, j);
      FoldedStretch(t, stable, o, x, j, n);
      StretchFacts(t, stable, o, x, j, n);
      ActsAcross(o, g, FoldedFrom(t, o, x, j));
      MeetsOnce(t, stable, o, x, i, j, n);
    }
  }

  lemma OneStretchOnly(t: UnicodeTables, stable: char -> bool, o: NormalizeOptions, x: string, i: nat)
    requires IsStretch(stable, o, x, i, |x|)
    ensures NothingMeetsFrom(t, stable, o, x, i)
  {
  }

  lemma OneStretchActs(o: NormalizeOptions, g: string)
    requires forall k :: 1 <= k < |g| ==> !IsCjk(g[k])
    ensures NothingActedOn(o, g)
  {
    forall i | 0 < i < |g| ensures !Acts(o, g[i - 1], g[i]) {
      if Acts(o, g[i - 1], g[i]) { ActsInJapanese(o, g[i - 1], g[i]); }
    }
  }

  /** Folding the text leaves nothing acted on exactly if no stretch of it meets the next one. */
  lemma MeetsExactly(t: UnicodeTables, stable: char -> bool, o: NormalizeOptions, x: string)
    requires Laws(t, stable, o) && DiacriticLaws(t, stable) && ClosedChars(t, x)
    ensures NothingActedOn(o, FoldDiacritics(t, Low(t, o, FoldedKana(o, x)))) <==> NothingMeets(t, stable, o, x)
  {
    hide NfkcLaws, LowercaseLaws, DiacriticLaws, FoldDiacritics, Low, Rest, FoldedKana, Marks, NothingMeetsFrom;
    var n := NextSurvivor(stable, o, x, 0);
    var m := Marks(stable, x[..n]);
    RestFromStart(t, stable, o, x, n);
    var l := Low(t, o, Rest(o, x, n));
    SliceClosed(t, x, 0, n);
    assert x[0..n] == x[..n];
    MarksAreMarks(t, stable, x[..n]);
    MarksFoldToOthers(t, stable, m);
    MeetsAfter(t, stable, o, x, n);
    if n == |x| {
      OneStretchActs(o, FoldDiacritics(t, m));
    } else {
      var j := NextSurvivor(stable, o, x, n + 1);
      RestStretch(t, stable, o, x, n, j);
      StretchFacts(t, stable, o, x, n, j);
      FoldedStretch(t, stable, o, x, n, j);
      FoldingCut(t, stable, m, l);
      MeetsFrom(t, stable, o, x, n);
      ActsAfterOthers(o, FoldDiacritics(t, m), FoldedFrom(t, o, x, n));
    }
  }

  lemma RestFromStart(t: UnicodeTables, stable: char -> bool, o: NormalizeOptions, x: string, n: nat)
    requires Laws(t, stable, o) && ClosedChars(t, x) && n <= |x|
    requires forall k :: 0 <= k < n ==> !Survives(stable, o, x, k)
    ensures Low(t, o, FoldedKana(o, x)) == Marks(stable, x[..n]) + Low(t, o, Rest(o, x, n))
    ensures n == |x| ==> Low(t, o, FoldedKana(o, x)) == Marks(stable, x[..n])
  {
    hide NfkcLaws, LowercaseLaws, Low, FoldedKana, Marks, Survives;
    RestIs(o, x, 0);
    KanaOfEmpty(o);
    assert x[..0] == "" && "" + Rest(o, x, 0) == Rest(o, x, 0) && x[0..n] == x[..n];
    RestMarks(t, stable, o, x, 0, n);
    SliceClosed(t, x, 0, n);
    MarksAreMarks(t, stable, x[..n]);
    LowMarks(t, stable, o, Marks(stable, x[..n]));
    LowAppend(t, o, Marks(stable, x[..n]), Rest(o, x, n));
    if n == |x| {
      LowEmpty(t, o);
      assert Marks(stable, x[..n]) + "" == Marks(stable, x[..n]);
    }
  }

  lemma MeetsAfter(t: UnicodeTables, stable: char -> bool, o: NormalizeOptions, x: string, n: nat)
    requires n <= |x| && forall k :: 0 <= k < n ==> !Survives(stable, o, x, k)
    ensures NothingMeets(t, stable, o, x) <==> NothingMeetsFrom(t, stable, o, x, n)
    ensures n == |x| ==> NothingMeets(t, stable, o, x)
  {
    hide Meets;
  }

  lemma ActsAfterOthers(o: NormalizeOptions, h: string, f: string)
    requires f != "" && NoCjk(h)
    ensures NothingActedOn(o, h + f) <==> NothingActedOn(o, f)
  {
    if h == "" {
      assert h + f == f;
    } else {
      ActsAcross(o, h, f);
      if Acts(o, h[|h| - 1], f[0]) { ActsInJapanese(o, h[|h| - 1], f[0]); }
    }
  }

  /**
   * With diacritic folding on, normalizing again changes nothing exactly if no stretch of the NFKC form of the input
   * meets the next one: folding brings no iteration or prolonged-sound mark behind a character it acts on.
   */
  lemma FixedPointWithDiacriticsExactly(t: UnicodeTables, stable: char -> bool, o: NormalizeOptions, s: string)
    requires FoldingLaws(t, stable, o) && o.foldDiacritics
    ensures var r := Normalized(t, o, s); Normalized(t, o, r) == r <==> NothingMeets(t, stable, o, t.nfkc(s))
  {
    hide NfkcLaws, LowercaseLaws, DiacriticLaws, FoldingTells, FoldDiacritics, FoldedKana, FoldedPunctuation;
    NfkcIsClosed(t, stable, s);
    FixedPointByFoldedText(t, stable, o, s);
    MeetsExactly(t, stable, o, t.nfkc(s));
    Unfolded(t, o, s);
  }

  lemma NfkcIsClosed(t: UnicodeTables, stable: char -> bool, s: string)
    requires NfkcLaws(t, stable)
    ensures ClosedChars(t, t.nfkc(s))
  {
    PartsClosed(t, stable, t.nfkc(s));
  }

  lemma Unfolded(t: UnicodeTables, o: NormalizeOptions, s: string)
    requires o.foldDiacritics
    ensures BeforePunctuation(t, o, s) == FoldDiacritics(t, Low(t, o, FoldedKana(o, t.nfkc(s))))
  {
  }

  // ---------------------------------------------------------------------------
  // Reading the condition
  // ---------------------------------------------------------------------------

  /** A character whose fate under `o` depends on the character before it. */
  predicate Catches(o: NormalizeOptions, c: char) {
    (o.foldChoonpu && c == CHOONPU) || (o.expandIterationMarks && IsRepeatMark(c))
  }

  /** Marks stand neither between a Japanese character and such a mark nor behind the mark. */
  predicate Unmarked(stable: char -> bool, o: NormalizeOptions, x: string, i: int, j: int, n: int)
    requires 0 <= i < j < n <= |x|
  {
    IsCjk(Survivor(o, x, i)) && Catches(o, Survivor(o, x, j)) ==>
      Marks(stable, x[i + 1..j]) == "" && Marks(stable, x[j + 1..n]) == ""
  }

  lemma {:induction false} DroppedOnly(stable: char -> bool, o: NormalizeOptions, x: string, i: nat, j: nat)
    requires i <= j <= |x| && Marks(stable, x[i..j]) == ""
    requires forall k :: i <= k < j ==> !Survives(stable, o, x, k)
    ensures FoldedKana(o, x[..j]) == FoldedKana(o, x[..i])
    decreases j - i
  {
    hide FoldedKana, Rewritten, Marks;
    if i < j {
      MarksCons(stable, x, i, j);
      assert stable(x[i]) && !Survives(stable, o, x, i);
      WrittenNext(o, x, i);
      assert FoldedKana(o, x[..i]) + "" == FoldedKana(o, x[..i]);
      DroppedOnly(stable, o, x, i + 1, j);
    }
  }

  /** Without marks between them, survivors stand side by side after the kana steps, which are done with them. */
  lemma SideBySide(t: UnicodeTables, stable: char -> bool, o: NormalizeOptions, x: string, i: nat, j: nat)
    requires IsStretch(stable, o, x, i, j) && Survives(stable, o, x, j) && Marks(stable, x[i + 1..j]) == ""
    ensures !Acts(o, Survivor(o, x, i), Survivor(o, x, j))
  {
    hide FoldedKana, Rewritten, Dropped, Marks, Acts;
    var k := FoldedKana(o, x[..j + 1]);
    SurvivorWritten(stable, o, x, i);
    SurvivorWritten(stable, o, x, j);
    DroppedOnly(stable, o, x, i + 1, j);
    FoldedKanaSettles(o, x[..j + 1]);
    SettledExactly(o, k);
    assert k[|k| - 1] == Survivor(o, x, j) && k[|k| - 2] == Survivor(o, x, i);
  }

  lemma SurvivorWritten(stable: char -> bool, o: NormalizeOptions, x: string, i: nat)
    requires Survives(stable, o, x, i)
    ensures FoldedKana(o, x[..i + 1]) == FoldedKana(o, x[..i]) + [Survivor(o, x, i)]
  {
    WrittenNext(o, x, i);
  }

  /** So nothing meets where no such marks stand: each character can be looked at on its own. */
  lemma UnmarkedNeverMeets(t: UnicodeTables, stable: char -> bool, o: NormalizeOptions, x: string)
    requires Laws(t, stable, o) && DiacriticLaws(t, stable) && ClosedChars(t, x)
    requires forall i, j, n :: IsStretch(stable, o, x, i, j) && IsStretch(stable, o, x, j, n) ==>
               Unmarked(stable, o, x, i, j, n)
    ensures NothingMeets(t, stable, o, x)
  {
    hide NfkcLaws, LowercaseLaws, DiacriticLaws, FoldDiacritics;
    forall i, j, n | 0 <= i && IsStretch(stable, o, x, i, j) && IsStretch(stable, o, x, j, n)
      ensures !Meets(t, stable, o, x, i, j, n)
    {
      assert Unmarked(stable, o, x, i, j, n);
      UnmarkedPair(t, stable, o, x, i, j, n);
    }
  }

  lemma UnmarkedPair(t: UnicodeTables, stable: char -> bool, o: NormalizeOptions, x: string, i: nat, j: nat, n: nat)
    requires Laws(t, stable, o) && DiacriticLaws(t, stable) && ClosedChars(t, x)
    requires IsStretch(stable, o, x, i, j) && IsStretch(stable, o, x, j, n) && Unmarked(stable, o, x, i, j, n)
    ensures !Meets(t, stable, o, x, i, j, n)
  {
    hide NfkcLaws, LowercaseLaws, DiacriticLaws, FoldDiacritics, Rewritten, Dropped, Stretch;
    var e, f := Survivor(o, x, i), Survivor(o, x, j);
    var d, g := FoldDiacritics(t, Stretch(t, stable, o, x, i, j)), FoldDiacritics(t, Stretch(t, stable, o, x, j, n));
    StretchFacts(t, stable, o, x, i, j);
    StretchFacts(t, stable, o, x, j, n);
    if Acts(o, d[|d| - 1], g[0]) {
      ActsInJapanese(o, d[|d| - 1], g[0]);
      assert |d| == 1 && IsCjk(e) && IsCjk(f) && Catches(o, f);
      BareStretch(t, stable, o, x, i, j);
      BareStretch(t, stable, o, x, j, n);
      SideBySide(t, stable, o, x, i, j);
    }
  }

  /** A Japanese character without marks is left alone. */
  lemma BareStretch(t: UnicodeTables, stable: char -> bool, o: NormalizeOptions, x: string, i: nat, j: nat)
    requires Laws(t, stable, o) && DiacriticLaws(t, stable) && ClosedChars(t, x) && IsStretch(stable, o, x, i, j)
    requires IsCjk(Survivor(o, x, i)) && Marks(stable, x[i + 1..j]) == ""
    ensures FoldDiacritics(t, Stretch(t, stable, o, x, i, j)) == [Survivor(o, x, i)]
  {
    hide NfkcLaws, LowercaseLaws, DiacriticLaws, FoldDiacritics, Rewritten, Dropped, Low, Anchor;
    var e := Survivor(o, x, i);
    SurvivorFacts(t, stable, o, x, i);
    LowStable(t, stable, o, e);
    SegmentAlone(t, stable, e);
    assert [e] + "" == [e];
  }

  // ---------------------------------------------------------------------------
  // Dropped diacritics do meet
  // ---------------------------------------------------------------------------

  predicate AllDiacritics(m: string) {
    forall i :: 0 <= i < |m| ==> '\U{0300}' <= m[i] <= '\U{036F}'
  }

  /** Combining diacritical marks at the end of a text leave no trace. */
  ghost predicate DropsDiacritics(t: UnicodeTables) {
    forall s, m :: AllDiacritics(m) ==> FoldDiacritics(t, s + m) == FoldDiacritics(t, s)
  }

  lemma TracelessMarks(t: UnicodeTables, s: string, m: string)
    requires DropsDiacritics(t) && AllDiacritics(m)
    ensures FoldDiacritics(t, s + m) == FoldDiacritics(t, s)
  {
  }

  /**
   * If only diacritics that folding drops stand between a survivor and an iteration or prolonged-sound mark that acts
   * on it, a second pass changes the result. (The exception is an iteration mark behind an iteration mark: a mark
   * behind the second can make the two equal.)
   */
  lemma DroppedMarksExpose(t: UnicodeTables, stable: char -> bool, o: NormalizeOptions, s: string,
                           i: nat, j: nat, n: nat)
    requires FoldingLaws(t, stable, o) && DropsDiacritics(t) && o.foldDiacritics
    requires var x := t.nfkc(s);
             && IsStretch(stable, o, x, i, j) && IsStretch(stable, o, x, j, n)
             && AllDiacritics(Marks(stable, x[i + 1..j])) && Acts(o, Survivor(o, x, i), Survivor(o, x, j))
             && (IsRepeatMark(Survivor(o, x, i)) ==> Marks(stable, x[j + 1..n]) == "")
    ensures var r := Normalized(t, o, s); Normalized(t, o, r) != r
  {
    hide NfkcLaws, LowercaseLaws, DiacriticLaws, FoldingTells, DropsDiacritics, FoldDiacritics, FoldedPunctuation;
    hide Meets;
    NfkcIsClosed(t, stable, s);
    DroppedMarksMeet(t, stable, o, t.nfkc(s), i, j, n);
    FixedPointWithDiacriticsExactly(t, stable, o, s);
  }

  lemma DroppedMarksMeet(t: UnicodeTables, stable: char -> bool, o: NormalizeOptions, x: string,
                         i: nat, j: nat, n: nat)
    requires Laws(t, stable, o) && DiacriticLaws(t, stable) && DropsDiacritics(t) && ClosedChars(t, x)
    requires IsStretch(stable, o, x, i, j) && IsStretch(stable, o, x, j, n)
    requires AllDiacritics(Marks(stable, x[i + 1..j])) && Acts(o, Survivor(o, x, i), Survivor(o, x, j))
    requires IsRepeatMark(Survivor(o, x, i)) ==> Marks(stable, x[j + 1..n]) == ""
    ensures Meets(t, stable, o, x, i, j, n)
  {
    hide NfkcLaws, LowercaseLaws, DiacriticLaws, DropsDiacritics, FoldDiacritics, Rewritten, Dropped, Low, Anchor;
    var e, f := Survivor(o, x, i), Survivor(o, x, j);
    ActsInJapanese(o, e, f);
    SurvivorFacts(t, stable, o, x, i);
    LowStable(t, stable, o, e);
    assert IsHandled(e);
    TracelessMarks(t, [e], Marks(stable, x[i + 1..j]));
    SegmentAlone(t, stable, e);
    StretchFacts(t, stable, o, x, j, n);
    var g := FoldDiacritics(t, Stretch(t, stable, o, x, j, n));
    if Marks(stable, x[j + 1..n]) == "" { BareStretch(t, stable, o, x, j, n); }
    ActsByKind(o, e, f, g[0]);
  }

  lemma ActsByKind(o: NormalizeOptions, e: char, f: char, g: char)
    requires Acts(o, e, f) && (IsRepeatMark(e) ==> g == f)
    requires IsKana(g) == IsKana(f) && IsRepeatMark(g) == IsRepeatMark(f) && (g == CHOONPU <==> f == CHOONPU)
    ensures Acts(o, e, g)
  {
    Voiced(e);
    if f != CHOONPU && !IsRepeatMark(e) { RepeatActs(o, e, g); }
  }

  /** An iteration mark acts on whatever has its kind and is no iteration mark. */
  lemma RepeatActs(o: NormalizeOptions, e: char, g: char)
    requires IsRepeatMark(g) && !IsRepeatMark(e) && o.expandIterationMarks
    requires if IsKana(g) then IsKana(e) else IsKanji(e)
    ensures Acts(o, e, g)
  {
    Voiced(e);
  }
}
