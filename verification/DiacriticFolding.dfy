/** What diacritic folding does to NFKC text, segment by segment, and what one pass with it leaves. */
module DiacriticFolding {
  import opened Wrappers
  import opened Config
  import opened Steps
  import opened Normalize
  import opened UnicodeLaws
  import opened Joining
  import opened KanaSteps
  import opened FixedPoints

  // ---------------------------------------------------------------------------
  // Segments: a stable character and the marks behind it
  // ---------------------------------------------------------------------------

  lemma MarksFoldToOthers(t: UnicodeTables, stable: char -> bool, m: string)
    requires DiacriticLaws(t, stable) && ClosedChars(t, m) && AllMarks(stable, m)
    ensures forall i :: 0 <= i < |FoldDiacritics(t, m)| ==> !IsCjk(FoldDiacritics(t, m)[i])
  {
  }

  lemma SegmentKind(t: UnicodeTables, stable: char -> bool, c: char, m: string)
    requires DiacriticLaws(t, stable) && stable(c) && AllMarks(stable, m) && ClosedChars(t, [c] + m)
    ensures KeepsKind(c, FoldDiacritics(t, [c] + m))
  {
  }

  lemma SegmentAlone(t: UnicodeTables, stable: char -> bool, c: char)
    requires DiacriticLaws(t, stable) && IsCjk(c) && Closed(t, [c])
    ensures FoldDiacritics(t, [c]) == [c]
  {
    assert IsHandled(c);
  }

  lemma SegmentFacts(t: UnicodeTables, stable: char -> bool, a: string, c: char, m: string) returns (g: string)
    requires DiacriticLaws(t, stable) && ClosedChars(t, a + [c] + m)
    requires stable(c) && AllMarks(stable, m)
    ensures FoldDiacritics(t, a + [c] + m) == FoldDiacritics(t, a) + g && KeepsKind(c, g)
    ensures m == "" && IsCjk(c) ==> g == [c]
  {
    hide DiacriticLaws, FoldDiacritics;
    var l, seg := a + [c] + m, [c] + m;
    assert l == a + seg;
    forall i | 0 <= i < |seg| ensures Closed(t, [seg[i]]) { assert l[|a| + i] == seg[i]; }
    g := FoldDiacritics(t, seg);
    FoldingCut(t, stable, a, seg);
    SegmentKind(t, stable, c, m);
    if m == "" && IsCjk(c) {
      assert seg == [c] && seg[0] == c;
      SegmentAlone(t, stable, c);
    }
  }

  lemma Regroup(d: string, g: string)
    requires g != ""
    ensures d + [g[0]] + g[1..] == d + g
  {
  }

  lemma FoldingCut(t: UnicodeTables, stable: char -> bool, a: string, seg: string)
    requires DiacriticLaws(t, stable) && seg != "" && stable(seg[0])
    ensures FoldDiacritics(t, a + seg) == FoldDiacritics(t, a) + FoldDiacritics(t, seg)
  {
    var f := DiacriticFolder(t);
    assert f(a + seg) == f(a) + f(seg);
  }

  /** Folding makes no Japanese character out of others, and drops no stable one at the start. */
  lemma {:induction false} FoldingStaysOther(t: UnicodeTables, stable: char -> bool, w: string)
    requires DiacriticLaws(t, stable) && ClosedChars(t, w) && NoCjk(w)
    ensures NoCjk(FoldDiacritics(t, w)) && (w != "" && stable(w[0]) ==> FoldDiacritics(t, w) != "")
    decreases |w|
  {
    hide DiacriticLaws, FoldDiacritics;
    var a, c, m := LastCut(stable, w);
    if c.None? {
      MarksFoldToOthers(t, stable, w);
    } else {
      forall i | 0 <= i < |a| ensures Closed(t, [a[i]]) && !IsCjk(a[i]) { assert w[i] == a[i]; }
      assert w[|a|] == c.value;
      FoldingStaysOther(t, stable, a);
      var g := SegmentFacts(t, stable, a, c.value, m);
    }
  }

  predicate NoCjk(s: string) {
    forall i :: 0 <= i < |s| ==> !IsCjk(s[i])
  }

  lemma OthersSettle(step: Step, g: string)
    requires !step.Hyphens? && NoCjk(g)
    ensures AllSettled(step, g)
  {
    SettledOthers(step, "", g);
    assert "" + g == g;
  }

  lemma {:induction false} SettledPrefix(step: Step, s: string, m: string)
    requires AllSettled(step, s + m)
    ensures AllSettled(step, s)
  {
    if m == "" {
      assert s + m == s;
    } else {
      assert s + m == s + Front(m) + [m[|m| - 1]];
      SettledSnoc(step, s + Front(m), m[|m| - 1]);
      SettledPrefix(step, s, Front(m));
    }
  }

  // ---------------------------------------------------------------------------
  // Folding makes no katakana
  // ---------------------------------------------------------------------------

  lemma {:induction false} FoldingKeepsHiragana(t: UnicodeTables, stable: char -> bool, l: string)
    requires NfkcLaws(t, stable) && DiacriticLaws(t, stable) && ClosedChars(t, l) && AllSettled(Kana, l)
    ensures AllSettled(Kana, FoldDiacritics(t, l))
    decreases |l|
  {
    hide NfkcLaws, DiacriticLaws, FoldDiacritics;
    var a, c, m := LastCut(stable, l);
    if c.None? {
      MarksFoldToOthers(t, stable, l);
      OthersSettle(Kana, FoldDiacritics(t, l));
    } else {
      SettledPrefix(Kana, a + [c.value], m);
      SettledSnoc(Kana, a, c.value);
      forall i | 0 <= i < |a| ensures Closed(t, [a[i]]) { assert l[i] == a[i]; }
      FoldingKeepsHiragana(t, stable, a);
      var g := SegmentFacts(t, stable, a, c.value, m);
      var d := FoldDiacritics(t, a);
      SettledSnoc(Kana, d, g[0]);
      SettledOthers(Kana, d + [g[0]], g[1..]);
      Regroup(d, g);
    }
  }

  // ---------------------------------------------------------------------------
  // One pass
  // ---------------------------------------------------------------------------

  /** The punctuation steps keep all that a second pass needs. */
  lemma PunctuationKeepsFolded(t: UnicodeTables, stable: char -> bool, o: NormalizeOptions, d: string)
    requires Laws(t, stable, o) && DiacriticLaws(t, stable) && Kept(t, o, d) && Closed(t, d)
        && FoldDiacritics(t, d) == d
    ensures var r := FoldedPunctuation(o, d); Kept(t, o, r) && Closed(t, r) && FoldDiacritics(t, r) == r
  {
    hide FoldDiacritics, FoldedPunctuation, LowercaseLaws;
    var f := DiacriticFolder(t);
    ClosedIsPlain(t, stable, d);
    PunctuationKeepsFixed(t.nfkc, stable, o, d);
    assert Fixed(f, d);
    forall i | 0 <= i < |d| ensures Fixed(f, [d[i]]) {
      PartFixed(f, d, i, i + 1);
      assert d[i..i + 1] == [d[i]];
    }
    assert "-" == ['-'] && " " == [' '] && IsHandled('-') && IsHandled(' ');
    assert Fixed(f, "-") && Fixed(f, " ");
    PunctuationKeepsFixed(f, stable, o, d);
    PunctuationChars(o, d);
    StaysKept(t, stable, o, d, FoldedPunctuation(o, d));
    assert Fixed(f, FoldedPunctuation(o, d));
  }

  /** What one pass leaves with diacritic folding on. */
  lemma OneFoldingPass(t: UnicodeTables, stable: char -> bool, o: NormalizeOptions, s: string)
    requires Laws(t, stable, o) && DiacriticLaws(t, stable) && o.foldDiacritics
    ensures var r := Normalized(t, o, s);
            PunctuationSettled(o, r) && Kept(t, o, r) && Closed(t, r) && FoldDiacritics(t, r) == r
  {
    var x := t.nfkc(s);
    var k := FoldedKana(o, x);
    var d := FoldDiacritics(t, Low(t, o, k));
    PartsClosed(t, stable, x);
    KanaCharsClosed(t, stable, o, x);
    LowKept(t, stable, o, k);
    PartsClosed(t, stable, d);
    PunctuationKeepsFolded(t, stable, o, d);
    PunctuationSettles(o, d);
  }
}
