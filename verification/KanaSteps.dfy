/** The kana steps, one more character at a time, on text that NFKC leaves alone. */
module KanaSteps {
  import opened Wrappers
  import opened Text
  import opened Config
  import opened Steps
  import opened Normalize
  import opened UnicodeLaws

  /** What the kana steps make of `c` after `y`. */
  function Rewritten(o: NormalizeOptions, y: string, c: char): char {
    var c1 := if o.expandIterationMarks then ExpandMark(Last(Expanded(y)), c) else c;
    if o.kanaFold then ToHiragana(c1) else c1
  }

  /** `c` is a prolonged-sound mark that the kana steps drop after `y`. */
  predicate Dropped(o: NormalizeOptions, y: string, c: char) {
    o.foldChoonpu && Rewritten(o, y, c) == CHOONPU && IsKanaAt(Last(FoldedKana(o, y)))
  }

  lemma KanaSnoc(o: NormalizeOptions, y: string, c: char)
    ensures FoldedKana(o, y + [c]) ==
        if Dropped(o, y, c) then FoldedKana(o, y) else FoldedKana(o, y) + [Rewritten(o, y, c)]
  {
    assert Front(y + [c]) == y;
    var y1, z1 := if o.expandIterationMarks then Expanded(y) else y,
                  if o.expandIterationMarks then Expanded(y + [c]) else y + [c];
    var c1 := if o.expandIterationMarks then ExpandMark(Last(Expanded(y)), c) else c;
    assert z1 == y1 + [c1];
    KanaFoldSnoc(z1);
    assert Front(z1) == y1;
    var y2, z2 := if o.kanaFold then KanaFold(y1) else y1, if o.kanaFold then KanaFold(z1) else z1;
    assert z2 == y2 + [Rewritten(o, y, c)];
    assert Front(z2) == y2;
  }

  /** Iteration marks become what they repeat, so no character appears that NFKC would replace. */
  lemma ExpandedClosed(t: UnicodeTables, stable: char -> bool, prev: Option<char>, c: char)
    requires NfkcLaws(t, stable) && Closed(t, [c]) && (prev.Some? ==> Closed(t, [prev.value]))
    ensures Closed(t, [ExpandMark(prev, c)])
    ensures stable(c) ==> stable(ExpandMark(prev, c))
    ensures !stable(c) ==> ExpandMark(prev, c) == c
  {
    if prev.Some? { Voiced(prev.value); }
    assert IsHandled(ExpandMark(prev, c)) || ExpandMark(prev, c) == c;
  }

  lemma Voiced(c: char)
    ensures IsKana(c) ==> IsKana(AddDakuten(c)) && (AddDakuten(c) == c || !IsLigature(AddDakuten(c)))
  {
  }

  lemma HiraganaClosed(t: UnicodeTables, stable: char -> bool, c: char)
    requires NfkcLaws(t, stable) && Closed(t, [c])
    ensures Closed(t, [ToHiragana(c)])
    ensures stable(c) ==> stable(ToHiragana(c))
    ensures !stable(c) ==> ToHiragana(c) == c
  {
    assert ToHiragana(c) != c ==> IsKana(c) && IsKana(ToHiragana(c)) && !IsLigature(ToHiragana(c));
  }

  lemma {:induction false} ExpandedCharsClosed(t: UnicodeTables, stable: char -> bool, y: string)
    requires NfkcLaws(t, stable) && ClosedChars(t, y)
    ensures ClosedChars(t, Expanded(y))
  {
    if y != "" {
      var front, c := Front(y), y[|y| - 1];
      ExpandedCharsClosed(t, stable, front);
      ExpandedClosed(t, stable, Last(Expanded(front)), c);
    }
  }

  /** A rewritten character stays one that NFKC keeps, stable if it was; marks are not rewritten. */
  lemma RewrittenClosed(t: UnicodeTables, stable: char -> bool, o: NormalizeOptions, y: string, c: char)
    requires NfkcLaws(t, stable) && ClosedChars(t, y) && Closed(t, [c])
    ensures var d := Rewritten(o, y, c);
            && Closed(t, [d])
            && (stable(c) ==> stable(d))
            && (!stable(c) ==> d == c && !Dropped(o, y, c))
  {
    ExpandedCharsClosed(t, stable, y);
    ExpandedClosed(t, stable, Last(Expanded(y)), c);
    var c1 := if o.expandIterationMarks then ExpandMark(Last(Expanded(y)), c) else c;
    HiraganaClosed(t, stable, c1);
    assert IsHandled(CHOONPU);
  }

  lemma {:induction false} KanaCharsClosed(t: UnicodeTables, stable: char -> bool, o: NormalizeOptions, y: string)
    requires NfkcLaws(t, stable) && ClosedChars(t, y)
    ensures ClosedChars(t, FoldedKana(o, y))
  {
    if y != "" {
      var front, c := Front(y), y[|y| - 1];
      KanaCharsClosed(t, stable, o, front);
      RewrittenClosed(t, stable, o, front, c);
      assert y == front + [c];
      KanaSnoc(o, front, c);
    }
  }

  lemma KanaOfEmpty(o: NormalizeOptions)
    ensures FoldedKana(o, "") == ""
  {
    assert KanaFold("") == "";
  }

  /** Marks pass through. */
  lemma {:induction false} KanaThenMarks(t: UnicodeTables, stable: char -> bool, o: NormalizeOptions, y: string,
                                         m: string)
    requires NfkcLaws(t, stable) && ClosedChars(t, y + m) && AllMarks(stable, m)
    ensures FoldedKana(o, y + m) == FoldedKana(o, y) + m
  {
    hide NfkcLaws, FoldedKana, Rewritten, Dropped;
    if m == "" {
      assert y + m == y && FoldedKana(o, y) + m == FoldedKana(o, y);
    } else {
      var n, c := Front(m), m[|m| - 1];
      assert y + m == (y + n) + [c];
      assert ClosedChars(t, y + n) by { assert forall i :: 0 <= i < |y + n| ==> (y + n)[i] == (y + m)[i]; }
      KanaThenMarks(t, stable, o, y, n);
      assert (y + m)[|y + n|] == c;
      RewrittenClosed(t, stable, o, y + n, c);
      KanaSnoc(o, y + n, c);
      assert FoldedKana(o, y) + n + [c] == FoldedKana(o, y) + m;
    }
  }

  /** The character that stands before what follows `y + [c]`: `c` rewritten, or the kana after which it is dropped. */
  function AnchorChar(o: NormalizeOptions, y: string): (e: Option<char>) {
    Last(FoldedKana(o, y))
  }

  lemma AnchorAfter(t: UnicodeTables, stable: char -> bool, o: NormalizeOptions, y: string, c: char)
    returns (p: string, e: char)
    requires NfkcLaws(t, stable) && ClosedChars(t, y) && Closed(t, [c]) && stable(c)
    ensures FoldedKana(o, y + [c]) == p + [e] && AnchorChar(o, y + [c]) == Some(e)
    ensures stable(e) && Closed(t, [e])
    ensures FoldedKana(o, y) == p || (IsKana(e) && FoldedKana(o, y) == p + [e])
  {
    KanaSnoc(o, y, c);
    RewrittenClosed(t, stable, o, y, c);
    KanaCharsClosed(t, stable, o, y);
    var k := FoldedKana(o, y);
    if Dropped(o, y, c) {
      p, e := Front(k), k[|k| - 1];
      assert k == p + [e];
      assert IsHandled(e);
    } else {
      p, e := k, Rewritten(o, y, c);
    }
  }
}
