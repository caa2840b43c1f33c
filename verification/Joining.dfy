/** Which steps can turn text that a normalization form leaves alone into text that it changes. */
module Joining {
  import opened Text
  import opened Config
  import opened Steps
  import opened Normalize
  import opened UnicodeLaws

  // ---------------------------------------------------------------------------
  // Cutting text
  // ---------------------------------------------------------------------------

  lemma PartFixed(f: string -> string, s: string, i: nat, j: nat)
    requires Hereditary(f) && i <= j <= |s| && Fixed(f, s)
    ensures Fixed(f, s[i..j])
  {
  }

  /** Before a stable character, both halves decide on their own. */
  lemma CutBefore(f: string -> string, stable: char -> bool, a: string, b: string)
    requires Local(f, stable) && b != "" && stable(b[0])
    ensures Fixed(f, a + b) <==> Fixed(f, a) && Fixed(f, b)
  {
    if Fixed(f, a + b) {
      PartFixed(f, a + b, 0, |a|);
      PartFixed(f, a + b, |a|, |a + b|);
      assert (a + b)[0..|a|] == a && (a + b)[|a|..|a + b|] == b;
    }
  }

  /** Around a dash or whitespace, too. */
  lemma CutAround(f: string -> string, stable: char -> bool, a: string, c: char, b: string)
    requires Local(f, stable) && IsSpacer(c) && stable(c) && Fixed(f, [c])
    ensures Fixed(f, a + [c] + b) <==> Fixed(f, a) && Fixed(f, b)
  {
    var cb := [c] + b;
    assert a + [c] + b == a + cb;
    CutBefore(f, stable, a, cb);
    assert f(cb) == [c] + f(b);
    assert cb[1..] == b && ([c] + f(b))[1..] == f(b);
  }

  // ---------------------------------------------------------------------------
  // The punctuation steps
  // ---------------------------------------------------------------------------

  /** Each character is left alone, and those that the punctuation steps handle are stable. */
  predicate Plain(f: string -> string, stable: char -> bool, s: string) {
    forall i :: 0 <= i < |s| ==> Fixed(f, [s[i]]) && (IsHandled(s[i]) ==> stable(s[i]))
  }

  predicate SpacersFixed(f: string -> string, stable: char -> bool) {
    Fixed(f, "-") && Fixed(f, " ") && stable('-') && stable(' ')
  }

  lemma {:induction false} HyphensKeepFixed(f: string -> string, stable: char -> bool, s: string, n: nat)
    requires Local(f, stable) && SpacersFixed(f, stable) && Plain(f, stable, s) && n <= |s|
    ensures Fixed(f, s) <==> Fixed(f, NormalizeHyphens(s[..n]) + s[n..])
  {
    if n == 0 {
      assert NormalizeHyphens(s[..0]) + s[0..] == s;
    } else {
      HyphensKeepFixed(f, stable, s, n - 1);
      var a, c, b := NormalizeHyphens(s[..n - 1]), s[n - 1], s[n..];
      assert a + s[n - 1..] == a + [c] + b;
      DashForDash(f, stable, a, c, b);
      HyphensTo(s, n);
    }
  }

  lemma HyphensTo(s: string, n: nat)
    requires 0 < n <= |s|
    ensures NormalizeHyphens(s[..n]) == NormalizeHyphens(s[..n - 1]) + [UnifyDash(s[n - 1])]
  {
    assert Front(s[..n]) == s[..n - 1];
    HyphensSnoc(s[..n]);
  }

  lemma DashForDash(f: string -> string, stable: char -> bool, a: string, c: char, b: string)
    requires Local(f, stable) && SpacersFixed(f, stable) && Fixed(f, [c]) && (IsDash(c) ==> stable(c))
    ensures Fixed(f, a + [c] + b) <==> Fixed(f, a + [UnifyDash(c)] + b)
  {
    if IsDash(c) {
      CutAround(f, stable, a, c, b);
      CutAround(f, stable, a, '-', b);
    }
  }

  lemma {:induction false} UngroupingKeepsFixed(f: string -> string, stable: char -> bool, s: string, n: nat)
    requires Local(f, stable) && Plain(f, stable, s) && n <= |s|
    ensures Fixed(f, s) <==> Fixed(f, UngroupedTo(s, n) + s[n..])
  {
    if n == 0 {
      assert UngroupedTo(s, 0) + s[0..] == s;
    } else {
      UngroupingKeepsFixed(f, stable, s, n - 1);
      var a, c, b := UngroupedTo(s, n - 1), s[n - 1], s[n..];
      assert a + s[n - 1..] == a + [c] + b;
      if GroupsDigits(s, n - 1) {
        CutBefore(f, stable, a + [c], b);
        CutBefore(f, stable, a, [c]);
        CutBefore(f, stable, a, b);
        assert a + "" + b == a + b;
      }
    }
  }

  /** What collapsing has written of the first `n` characters, a pending space included. */
  function CollapsedTo(s: string, n: nat): string
    requires n <= |s|
  {
    Collapsed(s[..n]) + Pending(s[..n])
  }

  function Pending(s: string): string {
    if EndsInSpace(s) && Collapsed(s) != "" then " " else ""
  }

  lemma CollapsedStep(s: string, n: nat)
    requires n < |s|
    ensures IsWhitespace(s[n]) ==>
        CollapsedTo(s, n + 1) == Collapsed(s[..n]) + (if Collapsed(s[..n]) != "" then " " else "")
    ensures !IsWhitespace(s[n]) ==> CollapsedTo(s, n + 1) == CollapsedTo(s, n) + [s[n]]
  {
    assert Front(s[..n + 1]) == s[..n] && s[..n + 1][n] == s[n];
  }

  lemma CollapsedNone(s: string)
    ensures CollapsedTo(s, 0) == ""
  {
  }

  lemma CollapsedParts(s: string, n: nat)
    requires n <= |s|
    ensures CollapsedTo(s, n) == Collapsed(s[..n]) + Pending(s[..n])
    ensures Pending(s[..n]) == "" || (Pending(s[..n]) == " " && Collapsed(s[..n]) != "")
  {
  }

  lemma SplitAfter(out: string, s: string, i: nat)
    requires i < |s|
    ensures out + s[i..] == out + [s[i]] + s[i + 1..]
  {
  }

  lemma {:induction false} CollapsingKeepsFixed(f: string -> string, stable: char -> bool, s: string, n: nat)
    requires Local(f, stable) && SpacersFixed(f, stable) && Plain(f, stable, s) && n <= |s|
    ensures Fixed(f, s) <==> Fixed(f, CollapsedTo(s, n) + s[n..])
  {
    hide Local, Collapsed, CollapsedTo, Pending, Fixed, SpacersFixed;
    if n == 0 {
      CollapsedNone(s);
      assert "" + s[0..] == s;
    } else {
      CollapsingKeepsFixed(f, stable, s, n - 1);
      CollapsedStep(s, n - 1);
      SplitAfter(CollapsedTo(s, n - 1), s, n - 1);
      if IsWhitespace(s[n - 1]) {
        CollapsedParts(s, n - 1);
        SpaceForWhitespace(f, stable, Collapsed(s[..n - 1]), Pending(s[..n - 1]), s[n - 1], s[n..]);
      }
    }
  }

  /** Writing one pending space for whitespace, or none at the start, changes nothing for the rest. */
  lemma SpaceForWhitespace(f: string -> string, stable: char -> bool, a: string, pending: string, c: char, b: string)
    requires Local(f, stable) && SpacersFixed(f, stable) && IsWhitespace(c) && stable(c) && Fixed(f, [c])
    requires pending == "" || (pending == " " && a != "")
    ensures Fixed(f, a + pending + [c] + b) <==> Fixed(f, a + (if a != "" then " " else "") + b)
  {
    CutAround(f, stable, a + pending, c, b);
    if pending == " " {
      CutAround(f, stable, a, ' ', "");
      assert a + [' '] + "" == a + pending;
      PartFixed0(f, stable);
    } else {
      assert a + pending == a;
    }
    if a != "" {
      CutAround(f, stable, a, ' ', b);
      assert a + [' '] + b == a + " " + b;
    } else {
      PartFixed0(f, stable);
      assert a + "" + b == b;
    }
  }

  lemma PartFixed0(f: string -> string, stable: char -> bool)
    requires Local(f, stable) && SpacersFixed(f, stable)
    ensures Fixed(f, "")
  {
    PartFixed(f, " ", 0, 0);
    assert " "[0..0] == "";
  }

  lemma {:induction false} UngroupedChars(s: string, n: nat)
    requires n <= |s|
    ensures forall c :: c in UngroupedTo(s, n) ==> c in s
  {
    if n > 0 { UngroupedChars(s, n - 1); }
  }

  lemma {:induction false} CollapsedChars(s: string)
    ensures forall c :: c in Collapsed(s) ==> c in s || c == ' '
  {
    if s != "" {
      CollapsedChars(Front(s));
      assert forall c :: c in Front(s) ==> c in s;
    }
  }

  /** The only characters that the punctuation steps write themselves are the hyphen and the space. */
  lemma PunctuationChars(o: NormalizeOptions, s: string)
    ensures forall c :: c in FoldedPunctuation(o, s) ==> c in s || c == '-' || c == ' '
  {
    var s1 := if o.normalizeHyphens then NormalizeHyphens(s) else s;
    assert forall c :: c in s1 ==> c in s || c == '-';
    var s2 := if o.stripDigitGrouping then Ungrouped(s1) else s1;
    UngroupedChars(s1, |s1|);
    CollapsedChars(s2);
  }

  lemma StaysPlain(f: string -> string, stable: char -> bool, s: string, r: string)
    requires SpacersFixed(f, stable) && Plain(f, stable, s)
    requires forall c :: c in r ==> c in s || c == '-' || c == ' '
    ensures Plain(f, stable, r)
  {
    assert ['-'] == "-" && [' '] == " ";
    forall i | 0 <= i < |r| ensures Fixed(f, [r[i]]) && (IsHandled(r[i]) ==> stable(r[i])) {
      assert r[i] in r;
    }
  }

  /** The punctuation steps neither join anything nor part anything. */
  lemma PunctuationKeepsFixed(f: string -> string, stable: char -> bool, o: NormalizeOptions, s: string)
    requires Local(f, stable) && SpacersFixed(f, stable) && Plain(f, stable, s)
    ensures Fixed(f, s) <==> Fixed(f, FoldedPunctuation(o, s))
    ensures Plain(f, stable, FoldedPunctuation(o, s))
  {
    PunctuationChars(o, s);
    StaysPlain(f, stable, s, FoldedPunctuation(o, s));
    var s1 := if o.normalizeHyphens then NormalizeHyphens(s) else s;
    if o.normalizeHyphens {
      HyphensKeepFixed(f, stable, s, |s|);
      assert s[..|s|] == s && NormalizeHyphens(s) + s[|s|..] == NormalizeHyphens(s);
      assert forall c :: c in NormalizeHyphens(s) ==> c in s || c == '-';
      StaysPlain(f, stable, s, s1);
    }
    var s2 := if o.stripDigitGrouping then Ungrouped(s1) else s1;
    if o.stripDigitGrouping {
      UngroupingKeepsFixed(f, stable, s1, |s1|);
      assert Ungrouped(s1) + s1[|s1|..] == Ungrouped(s1);
      UngroupedChars(s1, |s1|);
      StaysPlain(f, stable, s1, s2);
    }
    if o.collapseWhitespace {
      CollapsingKeepsFixed(f, stable, s2, |s2|);
      assert s2[..|s2|] == s2 && CollapsedTo(s2, |s2|) + s2[|s2|..] == Collapsed(s2) + Pending(s2);
      if Pending(s2) == " " {
        CutAround(f, stable, Collapsed(s2), ' ', "");
        PartFixed0(f, stable);
        assert Collapsed(s2) + [' '] + "" == Collapsed(s2) + " ";
      } else {
        assert Collapsed(s2) + "" == Collapsed(s2);
      }
    }
  }
}
