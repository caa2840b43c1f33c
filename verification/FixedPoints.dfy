/** When normalizing a second time changes nothing. */
module FixedPoints {
  import opened Wrappers
  import opened Text
  import opened Config
  import opened Steps
  import opened Normalize
  import opened UnicodeLaws
  import opened Joining
  import opened KanaSteps

  // ---------------------------------------------------------------------------
  // Lowercase
  // ---------------------------------------------------------------------------

  function Low(t: UnicodeTables, o: NormalizeOptions, s: string): string {
    if o.lowercase then Lowercase(t, s) else s
  }

  lemma {:induction false} LowercaseAppend(t: UnicodeTables, a: string, b: string)
    ensures Lowercase(t, a + b) == Lowercase(t, a) + Lowercase(t, b)
  {
    if a == "" {
      assert a + b == b;
    } else {
      LowercaseAppend(t, a[1..], b);
      assert (a + b)[1..] == a[1..] + b;
      assert t.toLowercase(a[0]) + (Lowercase(t, a[1..]) + Lowercase(t, b)) == Lowercase(t, a) + Lowercase(t, b);
    }
  }

  lemma LowAppend(t: UnicodeTables, o: NormalizeOptions, a: string, b: string)
    ensures Low(t, o, a + b) == Low(t, o, a) + Low(t, o, b)
  {
    LowercaseAppend(t, a, b);
  }

  lemma LowercaseOne(t: UnicodeTables, c: char)
    ensures Lowercase(t, [c]) == t.toLowercase(c)
  {
    assert [c][1..] == "";
    assert Lowercase(t, [c][1..]) == "";
    assert t.toLowercase(c) + "" == t.toLowercase(c);
  }

  lemma LowOne(t: UnicodeTables, o: NormalizeOptions, c: char)
    ensures Low(t, o, [c]) == if o.lowercase then t.toLowercase(c) else [c]
  {
    LowercaseOne(t, c);
  }

  lemma {:induction false} LowerIsFixed(t: UnicodeTables, s: string)
    requires AllLower(t, s)
    ensures Lowercase(t, s) == s
  {
    if s != "" {
      LowerIsFixed(t, s[1..]);
      assert [s[0]] + s[1..] == s;
    }
  }

  /** The laws that matter under `o`. */
  ghost predicate Laws(t: UnicodeTables, stable: char -> bool, o: NormalizeOptions) {
    NfkcLaws(t, stable) && (o.lowercase ==> LowercaseLaws(t, stable))
  }

  /** All characters are kept by NFKC, and by lowercasing if it is on. */
  predicate Kept(t: UnicodeTables, o: NormalizeOptions, s: string) {
    ClosedChars(t, s) && (o.lowercase ==> AllLower(t, s))
  }

  lemma PartsClosed(t: UnicodeTables, stable: char -> bool, x: string)
    requires NfkcLaws(t, stable) && Closed(t, x)
    ensures ClosedChars(t, x)
  {
    forall i | 0 <= i < |x| ensures Closed(t, [x[i]]) {
      PartFixed(t.nfkc, x, i, i + 1);
      assert x[i..i + 1] == [x[i]];
    }
  }

  lemma LawOfLowercase(t: UnicodeTables, stable: char -> bool, c: char)
    requires LowercaseLaws(t, stable) && Closed(t, [c]) && stable(c)
    ensures LowersTo(t, stable, c, t.toLowercase(c))
  {
  }

  /** The lowercase form of a stable character starts with a stable one and is NFKC text. */
  lemma LowStable(t: UnicodeTables, stable: char -> bool, o: NormalizeOptions, c: char)
    requires Laws(t, stable, o) && Closed(t, [c]) && stable(c)
    ensures Low(t, o, [c]) != "" && stable(Low(t, o, [c])[0]) && Closed(t, Low(t, o, [c]))
    ensures Kept(t, o, Low(t, o, [c]))
    ensures IsHandled(c) ==> Low(t, o, [c]) == [c]
  {
    hide NfkcLaws, LowercaseLaws;
    LowOne(t, o, c);
    if o.lowercase { LawOfLowercase(t, stable, c); }
    PartsClosed(t, stable, Low(t, o, [c]));
  }

  lemma {:induction false} LowMarks(t: UnicodeTables, stable: char -> bool, o: NormalizeOptions, m: string)
    requires Laws(t, stable, o) && ClosedChars(t, m) && AllMarks(stable, m)
    ensures Low(t, o, m) == m && Kept(t, o, m)
  {
    if o.lowercase { LowerIsFixed(t, m); }
  }

  lemma {:induction false} LowKept(t: UnicodeTables, stable: char -> bool, o: NormalizeOptions, s: string)
    requires Laws(t, stable, o) && ClosedChars(t, s)
    ensures Kept(t, o, Low(t, o, s))
  {
    if s != "" {
      var front, c := Front(s), s[|s| - 1];
      assert s == front + [c];
      LowKept(t, stable, o, front);
      LowAppend(t, o, front, [c]);
      if stable(c) {
        LowStable(t, stable, o, c);
      } else {
        LowMarks(t, stable, o, [c]);
      }
    }
  }

  // ---------------------------------------------------------------------------
  // The condition: no mark joins what the steps put before it
  // ---------------------------------------------------------------------------

  /** What the kana steps and lowercasing put before the text that follows `y`. */
  function Anchor(t: UnicodeTables, o: NormalizeOptions, y: string): string {
    match AnchorChar(o, y)
    case None => ""
    case Some(e) => Low(t, o, [e])
  }

  /** `x[i + 1..j]` are marks behind the stable character `x[i]`. */
  predicate IsRun(stable: char -> bool, x: string, i: int, j: int) {
    0 <= i < j <= |x| && stable(x[i]) && AllMarks(stable, x[i + 1..j])
  }

  /** NFKC leaves alone a run of marks behind what then stands before it. */
  predicate StaysApart(t: UnicodeTables, o: NormalizeOptions, x: string, i: int, j: int)
    requires 0 <= i < j <= |x|
  {
    Closed(t, Anchor(t, o, x[..i + 1]) + x[i + 1..j])
  }

  /** No run of marks of `x` joins what the steps put before it. */
  ghost predicate NothingJoins(t: UnicodeTables, stable: char -> bool, o: NormalizeOptions, x: string) {
    forall i, j :: IsRun(stable, x, i, j) ==> StaysApart(t, o, x, i, j)
  }

  /** The last stable character, if any, and the marks after it. */
  lemma {:induction false} LastCut(stable: char -> bool, x: string) returns (a: string, c: Option<char>, m: string)
    ensures AllMarks(stable, m)
    ensures c.None? ==> a == "" && m == x
    ensures c.Some? ==> stable(c.value) && x == a + [c.value] + m && |a| < |x|
  {
    if x == "" {
      a, c, m := "", None, "";
    } else {
      var last := x[|x| - 1];
      assert x == Front(x) + [last];
      if stable(last) {
        a, c, m := Front(x), Some(last), "";
        assert x == a + [last] + "";
      } else {
        var n;
        a, c, n := LastCut(stable, Front(x));
        m := n + [last];
        if c.Some? { assert a + [c.value] + n + [last] == a + [c.value] + m; }
      }
    }
  }

  lemma RunBefore(t: UnicodeTables, stable: char -> bool, o: NormalizeOptions, a: string, c: char, m: string, i: int,
                  j: int)
    requires stable(c) && i < |a|
    ensures IsRun(stable, a + [c] + m, i, j) <==> IsRun(stable, a, i, j)
    ensures IsRun(stable, a, i, j) ==> (StaysApart(t, o, a + [c] + m, i, j) <==> StaysApart(t, o, a, i, j))
  {
    var x := a + [c] + m;
    if 0 <= i < j <= |x| {
      assert a[i] == x[i] && a[..i + 1] == x[..i + 1];
      if j > |a| {
        assert x[i + 1..j][|a| - i - 1] == c;
      } else {
        assert a[i + 1..j] == x[i + 1..j];
      }
    }
  }

  lemma RunBehind(t: UnicodeTables, stable: char -> bool, o: NormalizeOptions, a: string, c: char, m: string, j: int)
    requires NfkcLaws(t, stable) && |a| < j <= |a| + 1 + |m|
    requires Closed(t, Anchor(t, o, a + [c]) + m)
    ensures StaysApart(t, o, a + [c] + m, |a|, j)
  {
    var x, u, k := a + [c] + m, Anchor(t, o, a + [c]), j - |a| - 1;
    assert x[..|a| + 1] == a + [c] && x[|a| + 1..j] == m[..k];
    PartFixed(t.nfkc, u + m, 0, |u| + k);
    assert (u + m)[0..|u| + k] == u + m[..k];
  }

  lemma JoinsCut(t: UnicodeTables, stable: char -> bool, o: NormalizeOptions, a: string, c: char, m: string)
    requires NfkcLaws(t, stable) && stable(c) && AllMarks(stable, m)
    ensures NothingJoins(t, stable, o, a + [c] + m) <==>
            NothingJoins(t, stable, o, a) && Closed(t, Anchor(t, o, a + [c]) + m)
  {
    var x, n := a + [c] + m, |a|;
    if NothingJoins(t, stable, o, x) {
      assert x[..n + 1] == a + [c] && x[n + 1..|x|] == m && x[n] == c;
      assert IsRun(stable, x, n, |x|);
      forall i, j | IsRun(stable, a, i, j) ensures StaysApart(t, o, a, i, j) {
        RunBefore(t, stable, o, a, c, m, i, j);
      }
    }
    if NothingJoins(t, stable, o, a) && Closed(t, Anchor(t, o, a + [c]) + m) {
      forall i, j | IsRun(stable, x, i, j) ensures StaysApart(t, o, x, i, j) {
        if i < n {
          RunBefore(t, stable, o, a, c, m, i, j);
        } else if i > n {
          assert x[i] == m[i - n - 1];
        } else {
          RunBehind(t, stable, o, a, c, m, j);
        }
      }
    }
  }

  /** The kana steps and lowercasing leave NFKC text in NFKC exactly when nothing joins. */
  lemma {:induction false} JoinsExactly(t: UnicodeTables, stable: char -> bool, o: NormalizeOptions, x: string)
    requires Laws(t, stable, o) && Closed(t, x)
    ensures Closed(t, Low(t, o, FoldedKana(o, x))) <==> NothingJoins(t, stable, o, x)
    decreases |x|
  {
    var a, c, m := LastCut(stable, x);
    PartsClosed(t, stable, x);
    KanaOfEmpty(o);
    if c.None? {
      assert x == "" + x;
      KanaThenMarks(t, stable, o, "", x);
      LowMarks(t, stable, o, x);
    } else {
      PartFixed(t.nfkc, x, 0, |a|);
      assert x[0..|a|] == a;
      JoinsExactly(t, stable, o, a);
      JoinsStep(t, stable, o, a, c.value, m);
    }
  }

  lemma JoinsStep(t: UnicodeTables, stable: char -> bool, o: NormalizeOptions, a: string, c: char, m: string)
    requires Laws(t, stable, o) && ClosedChars(t, a + [c] + m) && stable(c) && AllMarks(stable, m)
    requires Closed(t, Low(t, o, FoldedKana(o, a))) <==> NothingJoins(t, stable, o, a)
    ensures Closed(t, Low(t, o, FoldedKana(o, a + [c] + m))) <==> NothingJoins(t, stable, o, a + [c] + m)
  {
    var x := a + [c] + m;
    assert Closed(t, [c]) by { assert x[|a|] == c; }
    assert ClosedChars(t, a) by { assert forall i :: 0 <= i < |a| ==> x[i] == a[i]; }
    assert ClosedChars(t, m) by { assert forall i :: 0 <= i < |m| ==> x[|a| + 1 + i] == m[i]; }
    var p, e := AnchorAfter(t, stable, o, a, c);
    var u := Low(t, o, [e]);
    LowStable(t, stable, o, e);
    JoinsCut(t, stable, o, a, c, m);
    KanaThenMarks(t, stable, o, a + [c], m);
    LowMarks(t, stable, o, m);
    LowThreeParts(t, o, p, e, m);
    CutBefore(t.nfkc, stable, Low(t, o, p), u + m);
    if FoldedKana(o, a) != p {
      LowAppend(t, o, p, [e]);
      CutBefore(t.nfkc, stable, Low(t, o, p), u);
    }
  }

  lemma LowThreeParts(t: UnicodeTables, o: NormalizeOptions, p: string, e: char, m: string)
    requires Low(t, o, m) == m
    ensures Low(t, o, p + [e] + m) == Low(t, o, p) + (Low(t, o, [e]) + m)
  {
    LowAppend(t, o, p + [e], m);
    LowAppend(t, o, p, [e]);
    assert Low(t, o, p) + Low(t, o, [e]) + m == Low(t, o, p) + (Low(t, o, [e]) + m);
  }

  // ---------------------------------------------------------------------------
  // Lowercasing gives the kana steps nothing to do
  // ---------------------------------------------------------------------------

  predicate NotCjk(p: Option<char>) {
    p.Some? ==> !IsCjk(p.value)
  }

  lemma SettledElsewhere(step: Step, p: Option<char>, q: Option<char>, c: char)
    requires !step.Hyphens? && Settled(step, p, c) && (p == q || (NotCjk(p) && NotCjk(q)))
    ensures Settled(step, q, c)
  {
  }

  lemma {:induction false} SettledOthers(step: Step, y: string, u: string)
    requires !step.Hyphens? && AllSettled(step, y) && forall i :: 0 <= i < |u| ==> !IsCjk(u[i])
    ensures AllSettled(step, y + u)
  {
    if u == "" {
      assert y + u == y;
    } else {
      SettledOthers(step, y, Front(u));
      assert y + u == y + Front(u) + [u[|u| - 1]];
      SettledSnoc(step, y + Front(u), u[|u| - 1]);
    }
  }

  /** Lowercasing never makes nor changes a character that the kana steps look at. */
  lemma LowercaseOfChar(t: UnicodeTables, stable: char -> bool, c: char)
    requires NfkcLaws(t, stable) && LowercaseLaws(t, stable) && Closed(t, [c])
    ensures var u := t.toLowercase(c);
            u != "" && if IsCjk(c) then u == [c] else forall i :: 0 <= i < |u| ==> !IsCjk(u[i])
  {
    assert IsCjk(c) ==> IsHandled(c);
  }

  lemma LowLast(t: UnicodeTables, stable: char -> bool, s: string)
    requires NfkcLaws(t, stable) && LowercaseLaws(t, stable) && ClosedChars(t, s)
    ensures Last(Lowercase(t, s)) == Last(s) || (NotCjk(Last(s)) && NotCjk(Last(Lowercase(t, s))))
  {
    hide NfkcLaws, LowercaseLaws;
    if s != "" {
      var c := s[|s| - 1];
      assert s == Front(s) + [c];
      LowercaseAppend(t, Front(s), [c]);
      LowercaseOne(t, c);
      LowercaseOfChar(t, stable, c);
    }
  }

  lemma {:induction false} LowercaseSettles(t: UnicodeTables, stable: char -> bool, step: Step, s: string)
    requires NfkcLaws(t, stable) && LowercaseLaws(t, stable) && ClosedChars(t, s)
    requires !step.Hyphens? && AllSettled(step, s)
    ensures AllSettled(step, Lowercase(t, s))
  {
    hide NfkcLaws, LowercaseLaws;
    if s != "" {
      var front, c := Front(s), s[|s| - 1];
      assert s == front + [c];
      LowercaseSettles(t, stable, step, front);
      LowercaseAppend(t, front, [c]);
      LowercaseOne(t, c);
      LowercaseOfChar(t, stable, c);
      if IsCjk(c) {
        LowLast(t, stable, front);
        SettledElsewhere(step, Last(front), Last(Lowercase(t, front)), c);
        SettledSnoc(step, Lowercase(t, front), c);
      } else {
        SettledOthers(step, Lowercase(t, front), t.toLowercase(c));
      }
    }
  }

  lemma LowKanaSettled(t: UnicodeTables, stable: char -> bool, o: NormalizeOptions, s: string)
    requires Laws(t, stable, o) && ClosedChars(t, s) && KanaSettled(o, s)
    ensures KanaSettled(o, Low(t, o, s))
  {
    if o.lowercase {
      if o.expandIterationMarks { LowercaseSettles(t, stable, Iteration, s); }
      if o.kanaFold { LowercaseSettles(t, stable, Kana, s); }
      if o.foldChoonpu { LowercaseSettles(t, stable, Choonpu, s); }
    }
  }

  // ---------------------------------------------------------------------------
  // The steps keep the marks
  // ---------------------------------------------------------------------------

  lemma {:induction false} MarksAppend(stable: char -> bool, a: string, b: string)
    ensures Marks(stable, a + b) == Marks(stable, a) + Marks(stable, b)
  {
    if b == "" {
      assert a + b == a;
    } else {
      MarksAppend(stable, a, Front(b));
      assert Front(a + b) == a + Front(b);
    }
  }

  lemma MarksOfNone(stable: char -> bool)
    ensures Marks(stable, "") == ""
  {
  }

  lemma MarksOfOne(stable: char -> bool, c: char)
    ensures Marks(stable, [c]) == if stable(c) then "" else [c]
  {
    assert Front([c]) == "";
  }

  lemma {:induction false} KanaKeepsMarks(t: UnicodeTables, stable: char -> bool, o: NormalizeOptions, y: string)
    requires NfkcLaws(t, stable) && ClosedChars(t, y)
    ensures Marks(stable, FoldedKana(o, y)) == Marks(stable, y)
  {
    if y == "" {
      KanaOfEmpty(o);
    } else {
      var front, c := Front(y), y[|y| - 1];
      assert y == front + [c];
      KanaKeepsMarks(t, stable, o, front);
      KanaSnoc(o, front, c);
      RewrittenClosed(t, stable, o, front, c);
      MarksAppend(stable, FoldedKana(o, front), [Rewritten(o, front, c)]);
      MarksOfOne(stable, Rewritten(o, front, c));
    }
  }

  lemma {:induction false} HyphensKeepMarks(stable: char -> bool, s: string)
    requires stable('-') && forall i :: 0 <= i < |s| ==> IsHandled(s[i]) ==> stable(s[i])
    ensures Marks(stable, NormalizeHyphens(s)) == Marks(stable, s)
  {
    if s != "" {
      HyphensKeepMarks(stable, Front(s));
      HyphensSnoc(s);
      MarksAppend(stable, NormalizeHyphens(Front(s)), [UnifyDash(s[|s| - 1])]);
      MarksOfOne(stable, UnifyDash(s[|s| - 1]));
    }
  }

  lemma {:induction false} UngroupingKeepsMarks(stable: char -> bool, s: string, n: nat)
    requires n <= |s| && forall i :: 0 <= i < |s| ==> IsHandled(s[i]) ==> stable(s[i])
    ensures Marks(stable, UngroupedTo(s, n)) == Marks(stable, s[..n])
  {
    hide Marks;
    assert IsHandled(',');
    if n == 0 {
      assert s[..0] == "";
    } else {
      UngroupingKeepsMarks(stable, s, n - 1);
      assert s[..n] == s[..n - 1] + [s[n - 1]];
      MarksAppend(stable, s[..n - 1], [s[n - 1]]);
      MarksAppend(stable, UngroupedTo(s, n - 1), [s[n - 1]]);
      MarksOfOne(stable, s[n - 1]);
      assert UngroupedTo(s, n - 1) + "" == UngroupedTo(s, n - 1);
    }
  }

  lemma {:induction false} CollapsingKeepsMarks(stable: char -> bool, s: string)
    requires stable(' ') && forall i :: 0 <= i < |s| ==> IsHandled(s[i]) ==> stable(s[i])
    ensures Marks(stable, Collapsed(s)) == Marks(stable, s)
  {
    hide Marks;
    assert forall c :: IsWhitespace(c) ==> IsHandled(c);
    if s != "" {
      var front, c := Front(s), s[|s| - 1];
      assert s == front + [c];
      MarksAppend(stable, front, [c]);
      MarksOfOne(stable, c);
      MarksOfNone(stable);
      CollapsingKeepsMarks(stable, front);
      if !IsWhitespace(c) {
        var gap := if EndsInSpace(front) && Collapsed(front) != "" then " " else "";
        MarksAppend(stable, Collapsed(front) + gap, [c]);
        MarksAppend(stable, Collapsed(front), gap);
        assert " " == [' '];
        MarksOfOne(stable, ' ');
        MarksOfOne(stable, c);
      }
    }
  }

  lemma HyphensChars(s: string)
    ensures forall c :: c in NormalizeHyphens(s) ==> c in s || c == '-'
  {
  }

  lemma PunctuationKeepsMarks(f: string -> string, stable: char -> bool, o: NormalizeOptions, s: string)
    requires SpacersFixed(f, stable) && Plain(f, stable, s)
    ensures Marks(stable, FoldedPunctuation(o, s)) == Marks(stable, s)
  {
    hide NormalizeHyphens, UngroupedTo, Collapsed, Fixed;
    var s1 := if o.normalizeHyphens then NormalizeHyphens(s) else s;
    HyphensKeepMarks(stable, s);
    HyphensChars(s);
    assert forall c :: c in s1 ==> c in s || c == '-';
    StaysPlain(f, stable, s, s1);
    var s2 := if o.stripDigitGrouping then Ungrouped(s1) else s1;
    UngroupingKeepsMarks(stable, s1, |s1|);
    assert s1[..|s1|] == s1;
    UngroupedChars(s1, |s1|);
    StaysPlain(f, stable, s1, s2);
    CollapsingKeepsMarks(stable, s2);
  }

  // ---------------------------------------------------------------------------
  // Without diacritic folding: the exact condition
  // ---------------------------------------------------------------------------

  lemma ClosedIsPlain(t: UnicodeTables, stable: char -> bool, s: string)
    requires NfkcLaws(t, stable) && ClosedChars(t, s)
    ensures Plain(t.nfkc, stable, s) && SpacersFixed(t.nfkc, stable)
  {
    assert "-" == ['-'] && " " == [' '] && IsHandled('-') && IsHandled(' ');
  }

  lemma StaysKept(t: UnicodeTables, stable: char -> bool, o: NormalizeOptions, s: string, r: string)
    requires Laws(t, stable, o) && Kept(t, o, s)
    requires forall c :: c in r ==> c in s || c == '-' || c == ' '
    ensures Kept(t, o, r)
  {
    ClosedIsPlain(t, stable, s);
    assert "-" == ['-'] && " " == [' '];
    if o.lowercase {
      LowStable(t, stable, o, '-');
      LowStable(t, stable, o, ' ');
      LowOne(t, o, '-');
      LowOne(t, o, ' ');
    }
    forall i | 0 <= i < |r| ensures Closed(t, [r[i]]) && (o.lowercase ==> IsLower(t, r[i])) {
      assert r[i] in r;
    }
  }

  /** What one pass leaves: settled text of kept characters, NFKC text exactly when nothing joined. */
  lemma OnePass(t: UnicodeTables, stable: char -> bool, o: NormalizeOptions, s: string)
    requires Laws(t, stable, o) && !o.foldDiacritics
    ensures var r := Normalized(t, o, s);
            && KanaSettled(o, r) && PunctuationSettled(o, r) && Kept(t, o, r)
            && (Closed(t, r) <==> NothingJoins(t, stable, o, t.nfkc(s)))
  {
    var x := t.nfkc(s);
    var k := FoldedKana(o, x);
    var l := Low(t, o, k);
    PartsClosed(t, stable, x);
    KanaCharsClosed(t, stable, o, x);
    FoldedKanaSettles(o, x);
    LowKanaSettled(t, stable, o, k);
    LowKept(t, stable, o, k);
    FoldedPunctuationSettles(o, l);
    PunctuationChars(o, l);
    StaysKept(t, stable, o, l, FoldedPunctuation(o, l));
    JoinsExactly(t, stable, o, x);
    ClosedIsPlain(t, stable, l);
    PunctuationKeepsFixed(t.nfkc, stable, o, l);
  }

  /** A second pass over settled text of kept characters that is NFKC text changes nothing. */
  lemma SecondPass(t: UnicodeTables, o: NormalizeOptions, r: string)
    requires KanaSettled(o, r) && PunctuationSettled(o, r) && Kept(t, o, r) && Closed(t, r)
    requires o.foldDiacritics ==> FoldDiacritics(t, r) == r
    ensures Normalized(t, o, r) == r
  {
    KanaSettledIsFixed(o, r);
    if o.lowercase { LowerIsFixed(t, r); }
    PunctuationSettledIsFixed(o, r);
  }

  /** A second pass that restores the text kept its marks, so NFKC did nothing. */
  lemma RestoredIsClosed(t: UnicodeTables, stable: char -> bool, o: NormalizeOptions, r: string)
    requires Laws(t, stable, o) && MarksTell(t, stable) && !o.foldDiacritics
    requires Kept(t, o, r) && Normalized(t, o, r) == r
    ensures Closed(t, r)
  {
    var y := t.nfkc(r);
    var k := FoldedKana(o, y);
    PartsClosed(t, stable, y);
    KanaCharsClosed(t, stable, o, y);
    KanaKeepsMarks(t, stable, o, y);
    if o.lowercase {
      KanaKeepsLower(t, stable, o, y);
      LowerIsFixed(t, k);
    }
    ClosedIsPlain(t, stable, k);
    PunctuationKeepsMarks(t.nfkc, stable, o, k);
  }

  lemma HandledIsLower(t: UnicodeTables, stable: char -> bool, c: char)
    requires NfkcLaws(t, stable) && LowercaseLaws(t, stable) && IsHandled(c) && Closed(t, [c])
    ensures IsLower(t, c)
  {
  }

  lemma {:induction false} KanaKeepsLower(t: UnicodeTables, stable: char -> bool, o: NormalizeOptions, y: string)
    requires NfkcLaws(t, stable) && LowercaseLaws(t, stable) && ClosedChars(t, y) && AllLower(t, y)
    ensures AllLower(t, FoldedKana(o, y))
  {
    hide NfkcLaws, LowercaseLaws;
    if y == "" {
      KanaOfEmpty(o);
    } else {
      var front, c := Front(y), y[|y| - 1];
      assert y == front + [c];
      KanaKeepsLower(t, stable, o, front);
      KanaSnoc(o, front, c);
      RewrittenClosed(t, stable, o, front, c);
      var d := Rewritten(o, front, c);
      RewrittenCjk(o, front, c);
      if d != c { HandledIsLower(t, stable, d); }
    }
  }

  /** What the kana steps rewrite becomes kana or kanji. */
  lemma RewrittenCjk(o: NormalizeOptions, y: string, c: char)
    ensures Rewritten(o, y, c) != c ==> IsCjk(c) && IsCjk(Rewritten(o, y, c))
  {
    if Last(Expanded(y)).Some? { Voiced(Last(Expanded(y)).value); }
  }

  /**
   * For every choice of steps without diacritic folding, both presets included, normalizing again changes nothing
   * exactly when no run of marks in the NFKC form of the input joins what the steps put before it.
   */
  lemma FixedPointExactly(t: UnicodeTables, stable: char -> bool, o: NormalizeOptions, s: string)
    requires Laws(t, stable, o) && MarksTell(t, stable) && !o.foldDiacritics
    ensures var r := Normalized(t, o, s);
            Normalized(t, o, r) == r <==> NothingJoins(t, stable, o, t.nfkc(s))
  {
    var r := Normalized(t, o, s);
    OnePass(t, stable, o, s);
    if NothingJoins(t, stable, o, t.nfkc(s)) { SecondPass(t, o, r); }
    if Normalized(t, o, r) == r { RestoredIsClosed(t, stable, o, r); }
  }

  // ---------------------------------------------------------------------------
  // Reading the condition
  // ---------------------------------------------------------------------------

  /** A run with marks stays apart if the character before them stays what it is. */
  lemma UntouchedRun(t: UnicodeTables, stable: char -> bool, o: NormalizeOptions, x: string, i: nat, j: nat)
    requires NfkcLaws(t, stable) && Closed(t, x) && i < j <= |x| && Anchor(t, o, x[..i + 1]) == [x[i]]
    ensures StaysApart(t, o, x, i, j)
  {
    PartFixed(t.nfkc, x, i, j);
    assert [x[i]] + x[i + 1..j] == x[i..j];
  }

  /** So does a run without marks. */
  lemma BareRun(t: UnicodeTables, stable: char -> bool, o: NormalizeOptions, x: string, i: nat)
    requires Laws(t, stable, o) && ClosedChars(t, x) && i < |x| && stable(x[i])
    ensures StaysApart(t, o, x, i, i + 1)
  {
    assert x[..i + 1] == x[..i] + [x[i]];
    var _, e := AnchorAfter(t, stable, o, x[..i], x[i]);
    LowStable(t, stable, o, e);
    assert Anchor(t, o, x[..i + 1]) + x[i + 1..i + 1] == Low(t, o, [e]);
  }

  /** If the steps leave every character directly before a mark as it is, nothing joins. */
  lemma UntouchedNeverJoins(t: UnicodeTables, stable: char -> bool, o: NormalizeOptions, x: string)
    requires Laws(t, stable, o) && Closed(t, x)
    requires forall i :: 0 <= i < |x| - 1 && stable(x[i]) && !stable(x[i + 1]) ==> Anchor(t, o, x[..i + 1]) == [x[i]]
    ensures NothingJoins(t, stable, o, x)
  {
    PartsClosed(t, stable, x);
    forall i, j | IsRun(stable, x, i, j) ensures StaysApart(t, o, x, i, j) {
      if i + 1 < j {
        assert x[i + 1..j][0] == x[i + 1];
        UntouchedRun(t, stable, o, x, i, j);
      } else {
        BareRun(t, stable, o, x, i);
      }
    }
  }

  /** Without expansion and dropping, as in both presets, each character answers for itself. */
  lemma AnchorOfPresets(t: UnicodeTables, o: NormalizeOptions, y: string, c: char)
    requires !o.expandIterationMarks && !o.foldChoonpu
    ensures Anchor(t, o, y + [c]) == Low(t, o, [if o.kanaFold then ToHiragana(c) else c])
  {
    KanaSnoc(o, y, c);
  }
}
