/** What each normalization step does to a text, in code points. */
module StepMeanings {
  import opened Wrappers
  import opened Text
  import opened Config
  import opened Steps
  import opened Normalize

  // ---------------------------------------------------------------------------
  // Katakana and hiragana
  // ---------------------------------------------------------------------------

  /** The same text but for katakana against hiragana. */
  predicate SameButKanaType(a: string, b: string) {
    |a| == |b| && forall i :: 0 <= i < |a| ==>
      || a[i] == b[i]
      || (0x30A1 <= a[i] as int <= 0x30F6 && b[i] as int == a[i] as int - 0x60)
      || (0x30A1 <= b[i] as int <= 0x30F6 && a[i] as int == b[i] as int - 0x60)
  }

  /** Katakana from U+30A1 to U+30F6 go down by 0x60, nothing else changes, and nothing more is identified. */
  lemma KanaFoldMeaning(a: string, b: string)
    ensures |KanaFold(a)| == |a| && forall i :: 0 <= i < |a| ==>
              KanaFold(a)[i] as int == a[i] as int - (if 0x30A1 <= a[i] as int <= 0x30F6 then 0x60 else 0)
    ensures KanaFold(a) == KanaFold(b) <==> SameButKanaType(a, b)
  {
    var x, y := KanaFold(a), KanaFold(b);
    if x == y {
      forall i | 0 <= i < |a| ensures x[i] == y[i] {
      }
    }
    if SameButKanaType(a, b) {
      forall i | 0 <= i < |a| ensures x[i] == y[i] {
      }
    }
  }

  lemma ExpandMarkKeepsType(p: Option<char>, q: Option<char>, c: char, d: char)
    requires p.Some? <==> q.Some?
    requires p.Some? ==> SameButKanaType([p.value], [q.value])
    requires SameButKanaType([c], [d])
    ensures SameButKanaType([ExpandMark(p, c)], [ExpandMark(q, d)])
  {
    hide AddDakuten, IsKana, IsKanji;
    assert [c][0] == c && [d][0] == d;
    if p.Some? {
      assert [p.value][0] == p.value && [q.value][0] == q.value;
      VoicedAlike(p.value, q.value);
    }
  }

  /** The hiragana that can be voiced; the katakana are 0x60 above. */
  const VOICEABLE: set<int> := {
    0x304B, 0x304D, 0x304F, 0x3051, 0x3053, 0x3055, 0x3057, 0x3059, 0x305B, 0x305D,
    0x305F, 0x3061, 0x3064, 0x3066, 0x3068, 0x306F, 0x3072, 0x3075, 0x3078, 0x307B}

  lemma VoiceableCodes(c: char)
    ensures IsVoiceableKana(c) <==> c as int in VOICEABLE || c as int - 0x60 in VOICEABLE
  {
    assert c in "かきくけこさしすせそたちつてとはひふへほ" <==> c as int in VOICEABLE;
    assert c in "カキクケコサシスセソタチツテトハヒフヘホ" <==> c as int - 0x60 in VOICEABLE;
  }

  lemma VoicedAlike(p: char, q: char)
    requires SameButKanaType([p], [q])
    ensures SameButKanaType([AddDakuten(p)], [AddDakuten(q)])
    ensures (IsKana(p) <==> IsKana(q)) && (IsKanji(p) || IsKanji(q) ==> p == q)
  {
    hide IsVoiceableKana;
    assert [p][0] == p && [q][0] == q;
    VoiceableCodes(p);
    VoiceableCodes(q);
  }

  lemma SameButKanaTypeSnoc(a: string, b: string, c: char, d: char)
    ensures SameButKanaType(a + [c], b + [d]) <==> SameButKanaType(a, b) && SameButKanaType([c], [d])
  {
    var x, y := a + [c], b + [d];
    if |a| == |b| {
      assert x[|a|] == c && y[|a|] == d && [c][0] == c && [d][0] == d;
      assert forall i :: 0 <= i < |a| ==> x[i] == a[i] && y[i] == b[i];
    }
  }

  lemma LastAlike(a: string, b: string)
    requires SameButKanaType(a, b)
    ensures |a| == |b| && (Last(a).Some? <==> Last(b).Some?)
    ensures a != "" ==> SameButKanaType(Front(a), Front(b)) && SameButKanaType([a[|a| - 1]], [b[|b| - 1]])
  {
    if a != "" {
      assert a == Front(a) + [a[|a| - 1]] && b == Front(b) + [b[|b| - 1]];
      SameButKanaTypeSnoc(Front(a), Front(b), a[|a| - 1], b[|b| - 1]);
    }
  }

  lemma {:induction false} ExpandedKeepsType(a: string, b: string)
    requires SameButKanaType(a, b)
    ensures SameButKanaType(Expanded(a), Expanded(b))
  {
    hide SameButKanaType, ExpandMark;
    LastAlike(a, b);
    if a != "" {
      var c, d := a[|a| - 1], b[|b| - 1];
      ExpandedKeepsType(Front(a), Front(b));
      var x, y := Expanded(Front(a)), Expanded(Front(b));
      LastAlike(x, y);
      ExpandMarkKeepsType(Last(x), Last(y), c, d);
      SameButKanaTypeSnoc(x, y, ExpandMark(Last(x), c), ExpandMark(Last(y), d));
    } else {
      assert a == b == "";
    }
  }

  /** With kana folding on, texts that NFKC keeps and that differ only in the type of their kana are not told apart. */
  lemma KanaTypeIsIgnored(t: UnicodeTables, o: NormalizeOptions, a: string, b: string)
    requires o.kanaFold && t.nfkc(a) == a && t.nfkc(b) == b
    requires SameButKanaType(a, b)
    ensures Normalized(t, o, a) == Normalized(t, o, b)
  {
    if o.expandIterationMarks {
      ExpandedKeepsType(a, b);
      KanaFoldMeaning(Expanded(a), Expanded(b));
    } else {
      KanaFoldMeaning(a, b);
    }
  }

  // ---------------------------------------------------------------------------
  // Iteration marks
  // ---------------------------------------------------------------------------

  const UNVOICED: string := "かきくけこさしすせそたちつてとはひふへほカキクケコサシスセソタチツテトハヒフヘホ"
  const VOICED: string := "がぎぐげござじずぜぞだぢづでどばびぶべぼガギグゲゴザジズゼゾダヂヅデドバビブベボ"

  lemma UnvoicedAre(p: char)
    ensures IsVoiceableKana(p) <==> p in UNVOICED
  {
    assert UNVOICED == "かきくけこさしすせそたちつてとはひふへほ" + "カキクケコサシスセソタチツテトハヒフヘホ";
  }

  lemma VoicedIsNext()
    ensures |UNVOICED| == |VOICED| == 40
    ensures forall k :: 0 <= k < 40 ==> VOICED[k] as int == UNVOICED[k] as int + 1
  {
  }

  lemma VoicedPair(k: nat)
    requires k < 40
    ensures |UNVOICED| == |VOICED| == 40 && AddDakuten(UNVOICED[k]) == VOICED[k]
  {
    hide IsVoiceableKana;
    VoicedIsNext();
    UnvoicedAre(UNVOICED[k]);
  }

  lemma VoiceableIsKana(p: char)
    requires IsVoiceableKana(p)
    ensures IsKana(p)
  {
    hide IsVoiceableKana;
    VoiceableCodes(p);
  }

  /**
   * `r` stands for `c` behind the written `p`: an ideographic mark repeats a kanji, a kana mark repeats kana, a voiced
   * one its voiced form, where it has one; everything else stays.
   */
  predicate Repeats(p: char, c: char, r: char) {
    var kana := 0x3041 <= p as int <= 0x3096 || 0x309D <= p as int <= 0x309F || 0x30A1 <= p as int <= 0x30FF;
    var kanji := 0x3400 <= p as int <= 0x4DBF || 0x4E00 <= p as int <= 0x9FFF
        || 0xF900 <= p as int <= 0xFAFF || 0x20000 <= p as int <= 0x2FFFF;
    && (c as int == 0x3005 ==> r == if kanji then p else c)
    && (c as int == 0x309D || c as int == 0x30FD ==> r == if kana then p else c)
    && (c as int == 0x309E || c as int == 0x30FE ==>
          && (!kana ==> r == c)
          && (kana && p !in UNVOICED ==> r == p)
          && (forall k :: 0 <= k < 40 && p == UNVOICED[k] ==> r == VOICED[k]))
    && (c as int !in {0x3005, 0x309D, 0x309E, 0x30FD, 0x30FE} ==> r == c)
  }

  lemma MarkMeaning(p: char, c: char)
    ensures Repeats(p, c, ExpandMark(Some(p), c))
  {
    hide IsVoiceableKana;
    UnvoicedAre(p);
    VoicedIsNext();
    forall k | 0 <= k < 40 && p == UNVOICED[k] ensures AddDakuten(p) == VOICED[k] && IsKana(p) {
      VoicedPair(k);
      VoiceableIsKana(p);
    }
  }

  /** Each mark repeats what was written before it, so a run of marks repeats the same character. */
  lemma {:induction false} ExpandedMeaning(s: string, i: nat)
    requires i < |s|
    ensures |Expanded(s)| == |s|
    ensures if i == 0 then Expanded(s)[0] == s[0] else Repeats(Expanded(s)[i - 1], s[i], Expanded(s)[i])
  {
    hide Repeats;
    var out := Expanded(Front(s));
    if i < |s| - 1 {
      ExpandedMeaning(Front(s), i);
    } else if i > 0 {
      MarkMeaning(out[i - 1], s[i]);
    }
  }

  // ---------------------------------------------------------------------------
  // Hyphens
  // ---------------------------------------------------------------------------

  /** The hyphens, dashes and minus signs become '-', and nothing else changes. */
  lemma HyphensMeaning(s: string, i: nat)
    requires i < |s|
    ensures |NormalizeHyphens(s)| == |s|
    ensures NormalizeHyphens(s)[i] ==
            if s[i] as int in {0x2D, 0x2010, 0x2011, 0x2012, 0x2013, 0x2014, 0x2015, 0x2212, 0xFF0D} then '-' else s[i]
  {
  }

  // ---------------------------------------------------------------------------
  // Steps that leave characters out
  // ---------------------------------------------------------------------------

  /** `r` consists of the characters of `s` at the positions `at`, in order. */
  ghost predicate Picks(r: string, s: string, at: seq<int>) {
    PicksBelow(r, s, |s|, at)
  }

  ghost predicate PicksBelow(r: string, s: string, n: nat, at: seq<int>)
    requires n <= |s|
  {
    && |at| == |r|
    && (forall k :: 0 <= k < |at| ==> 0 <= at[k] < n && r[k] == s[at[k]])
    && (forall j, k :: 0 <= j < k < |at| ==> at[j] < at[k])
  }

  function OneMore(at: seq<int>, n: int, keep: bool): seq<int> {
    if keep then at + [n] else at
  }

  /** One more character of `s` is read, and kept or not. */
  lemma PicksOneMore(r: string, after: string, s: string, n: nat, at: seq<int>, keep: bool)
    requires n < |s| && PicksBelow(r, s, n, at) && after == r + (if keep then [s[n]] else "")
    ensures PicksBelow(after, s, n + 1, OneMore(at, n, keep))
    ensures n in OneMore(at, n, keep) <==> keep
    ensures forall i :: 0 <= i < n ==> (i in OneMore(at, n, keep) <==> i in at)
  {
    if !keep { assert after == r; }
  }

  lemma {:induction false} LengtheningPicked(s: string, n: nat) returns (at: seq<int>)
    requires n <= |s|
    ensures PicksBelow(WithoutLengthening(s, n), s, n, at)
    ensures forall i :: 0 <= i < n ==> (i in at <==> !IsLengthening(s, i))
  {
    if n == 0 {
      at := [];
    } else {
      hide PicksBelow, OneMore, IsLengthening;
      var before := LengtheningPicked(s, n - 1);
      var keep := !IsLengthening(s, n - 1);
      at := OneMore(before, n - 1, keep);
      PicksOneMore(WithoutLengthening(s, n - 1), WithoutLengthening(s, n), s, n - 1, before, keep);
    }
  }

  /** A prolonged-sound mark is left out exactly behind kana, itself included, and nothing else is. */
  lemma ChoonpuMeaning(s: string) returns (at: seq<int>)
    ensures Picks(ChoonpuFolded(s), s, at)
    ensures forall i :: 0 <= i < |s| ==>
              (i !in at <==>
                && s[i] as int == 0x30FC && i > 0
                && (0x3041 <= s[i - 1] as int <= 0x3096 || 0x309D <= s[i - 1] as int <= 0x309F
                    || 0x30A1 <= s[i - 1] as int <= 0x30FF))
  {
    at := LengtheningPicked(s, |s|);
    ChoonpuIsLocal(s, |s|);
    assert s[..|s|] == s;
  }

  lemma {:induction false} GroupingPicked(s: string, n: nat) returns (at: seq<int>)
    requires n <= |s|
    ensures PicksBelow(UngroupedTo(s, n), s, n, at)
    ensures forall i :: 0 <= i < n ==> (i in at <==> !GroupsDigits(s, i))
  {
    if n == 0 {
      at := [];
    } else {
      hide PicksBelow, OneMore, GroupsDigits;
      var before := GroupingPicked(s, n - 1);
      var keep := !GroupsDigits(s, n - 1);
      at := OneMore(before, n - 1, keep);
      PicksOneMore(UngroupedTo(s, n - 1), UngroupedTo(s, n), s, n - 1, before, keep);
    }
  }

  /** A comma is left out exactly between two ASCII digits of the input, and nothing else is. */
  lemma GroupingMeaning(s: string) returns (at: seq<int>)
    ensures Picks(Ungrouped(s), s, at)
    ensures forall i :: 0 <= i < |s| ==>
              (i !in at <==>
                && s[i] as int == 0x2C && 0 < i < |s| - 1
                && 0x30 <= s[i - 1] as int <= 0x39 && 0x30 <= s[i + 1] as int <= 0x39)
  {
    at := GroupingPicked(s, |s|);
  }

  /** Exactly the combining marks from U+0300 to U+036F are not among the positions. */
  ghost predicate LeavesOutMarks(s: string, at: seq<int>) {
    forall i :: 0 <= i < |s| ==> (i !in at <==> 0x300 <= s[i] as int <= 0x36F)
  }

  lemma LeavesOutMarksSnoc(front: string, c: char, before: seq<int>)
    requires LeavesOutMarks(front, before) && forall i :: i in before ==> 0 <= i < |front|
    ensures LeavesOutMarks(front + [c], OneMore(before, |front|, !(0x300 <= c as int <= 0x36F)))
  {
    var s, at := front + [c], OneMore(before, |front|, !(0x300 <= c as int <= 0x36F));
    forall i | 0 <= i < |s| ensures i !in at <==> 0x300 <= s[i] as int <= 0x36F {
      if i < |front| { assert s[i] == front[i]; }
    }
  }

  /** Of the decomposed text the combining marks are left out, and nothing else is. */
  lemma {:induction false} CombiningMarksMeaning(s: string) returns (at: seq<int>)
    ensures Picks(WithoutCombiningMarks(s), s, at) && LeavesOutMarks(s, at)
  {
    if s == "" {
      at := [];
    } else {
      hide PicksBelow, OneMore, WithoutCombiningMarks, LeavesOutMarks;
      var front, c := Front(s), s[|s| - 1];
      var before := CombiningMarksMeaning(front);
      var r, keep := WithoutCombiningMarks(front), !(0x300 <= c as int <= 0x36F);
      assert front + [c] == s;
      StripLast(front, c);
      PicksLonger(r, front, before, c);
      PicksOneMore(r, WithoutCombiningMarks(s), s, |front|, before, keep);
      LeavesOutMarksSnoc(front, c, before);
      at := OneMore(before, |front|, keep);
    }
  }

  lemma PicksLonger(r: string, s: string, at: seq<int>, c: char)
    requires Picks(r, s, at)
    ensures PicksBelow(r, s + [c], |s|, at)
    ensures forall i :: i in at ==> 0 <= i < |s|
  {
  }

  lemma StripLast(front: string, c: char)
    ensures WithoutCombiningMarks(front + [c]) ==
            if 0x300 <= c as int <= 0x36F then WithoutCombiningMarks(front) else WithoutCombiningMarks(front) + [c]
  {
    var r := WithoutCombiningMarks(front);
    StripAppend(front, [c]);
    StripCons(c, "");
    assert [c] + "" == [c] && r + "" == r;
  }

  // ---------------------------------------------------------------------------
  // Whitespace
  // ---------------------------------------------------------------------------

  /** The code points with the Unicode property `White_Space`. */
  const WHITE_SPACE: set<int> := {
    0x9, 0xA, 0xB, 0xC, 0xD, 0x20, 0x85, 0xA0, 0x1680, 0x2000, 0x2001, 0x2002, 0x2003, 0x2004, 0x2005, 0x2006, 0x2007,
    0x2008, 0x2009, 0x200A, 0x2028, 0x2029, 0x202F, 0x205F, 0x3000}

  /** The characters of `r` come from the positions `at` of `s`, with a space for whatever whitespace. */
  ghost predicate Spaced(r: string, s: string, at: seq<int>) {
    && |at| == |r|
    && (forall k :: 0 <= k < |at| ==>
          0 <= at[k] < |s| && r[k] == if s[at[k]] as int in WHITE_SPACE then ' ' else s[at[k]])
    && (forall j, k :: 0 <= j < k < |at| ==> at[j] < at[k])
  }

  lemma WhitespaceCodes(c: char)
    ensures IsWhitespace(c) <==> c as int in WHITE_SPACE
  {
  }

  lemma SpacedSnoc(r: string, s: string, at: seq<int>, c: char)
    requires Spaced(r, s, at)
    ensures Spaced(r, s + [c], at)
    ensures c as int !in WHITE_SPACE ==> Spaced(r + [c], s + [c], at + [|s|])
    ensures c as int !in WHITE_SPACE && s != "" && s[|s| - 1] as int in WHITE_SPACE && |s| - 1 !in at ==>
              Spaced(r + " " + [c], s + [c], at + [|s| - 1, |s|])
  {
    forall k | 0 <= k < |at| ensures s != "" && |s| - 1 !in at ==> at[k] < |s| - 1 {
      assert at[k] in at;
    }
  }

  /** A character of a word, or the last whitespace between two words. */
  ghost predicate Separates(s: string, i: nat)
    requires i < |s|
  {
    s[i] as int !in WHITE_SPACE
    || (i + 1 < |s| && s[i + 1] as int !in WHITE_SPACE && exists j :: 0 <= j < i && s[j] as int !in WHITE_SPACE)
  }

  lemma SeparatesSnoc(s: string, c: char, i: nat)
    requires i < |s|
    ensures i < |s| - 1 || s[i] as int !in WHITE_SPACE || c as int in WHITE_SPACE ==>
              (Separates(s + [c], i) <==> Separates(s, i))
    ensures i == |s| - 1 && s[i] as int in WHITE_SPACE ==>
              && !Separates(s, i)
              && (Separates(s + [c], i) <==>
                    c as int !in WHITE_SPACE && exists j :: 0 <= j < i && s[j] as int !in WHITE_SPACE)
  {
    var x := s + [c];
    assert x[|s|] == c && forall j :: 0 <= j < |s| ==> x[j] == s[j];
  }

  lemma {:induction false} CollapsedToNothing(s: string)
    ensures Collapsed(s) == "" <==> forall j :: 0 <= j < |s| ==> s[j] as int in WHITE_SPACE
  {
    if s != "" {
      CollapsedToNothing(Front(s));
      WhitespaceCodes(s[|s| - 1]);
    }
  }

  lemma WhitespaceSnoc(front: string, c: char, before: seq<int>) returns (at: seq<int>)
    requires Spaced(Collapsed(front), front, before)
    requires forall i :: 0 <= i < |front| ==> (i in before <==> Separates(front, i))
    ensures Spaced(Collapsed(front + [c]), front + [c], at)
    ensures forall i :: i in at <==>
              || i in before
              || (!IsWhitespace(c) && i == |front|)
              || (!IsWhitespace(c) && EndsInSpace(front) && Collapsed(front) != "" && i == |front| - 1)
  {
    var s := front + [c];
    assert Front(s) == front;
    WhitespaceCodes(c);
    if front != "" {
      WhitespaceCodes(front[|front| - 1]);
      SeparatesSnoc(front, c, |front| - 1);
    }
    SpacedSnoc(Collapsed(front), front, before, c);
    hide Spaced, Separates, WHITE_SPACE;
    if IsWhitespace(c) {
      at := before;
    } else if EndsInSpace(front) && Collapsed(front) != "" {
      at := before + [|front| - 1, |front|];
    } else {
      at := before + [|front|];
      assert Collapsed(front) + "" == Collapsed(front);
    }
  }

  lemma SpacedBelow(r: string, s: string, at: seq<int>)
    requires Spaced(r, s, at)
    ensures forall i :: i in at ==> 0 <= i < |s|
  {
  }

  lemma SeparatesLast(front: string, c: char)
    ensures Separates(front + [c], |front|) <==> !IsWhitespace(c)
  {
    WhitespaceCodes(c);
    assert (front + [c])[|front|] == c;
  }

  /** Whether a space is due behind `front`. */
  lemma PendingSpace(front: string)
    requires EndsInSpace(front)
    ensures front[|front| - 1] as int in WHITE_SPACE
    ensures Collapsed(front) != "" <==> exists j :: 0 <= j < |front| - 1 && front[j] as int !in WHITE_SPACE
  {
    WhitespaceCodes(front[|front| - 1]);
    CollapsedToNothing(front);
  }

  lemma SeparatesAt(front: string, c: char, i: nat)
    requires i <= |front|
    ensures Separates(front + [c], i) <==>
              || (i < |front| && Separates(front, i))
              || (!IsWhitespace(c) && i == |front|)
              || (!IsWhitespace(c) && EndsInSpace(front) && Collapsed(front) != "" && i == |front| - 1)
  {
    hide Separates, Collapsed, WHITE_SPACE, IsWhitespace;
    if i == |front| {
      SeparatesLast(front, c);
    } else {
      SeparatesSnoc(front, c, i);
      WhitespaceCodes(c);
      WhitespaceCodes(front[|front| - 1]);
      if EndsInSpace(front) { PendingSpace(front); }
    }
  }

  /** Words stay, one space is left for the whitespace between two of them, none at the ends. */
  lemma {:induction false} WhitespaceMeaning(s: string) returns (at: seq<int>)
    ensures Spaced(Collapsed(s), s, at)
    ensures forall i :: 0 <= i < |s| ==> (i in at <==> Separates(s, i))
  {
    if s == "" {
      at := [];
    } else {
      hide Spaced, Separates, Collapsed, IsWhitespace;
      var front, c := Front(s), s[|s| - 1];
      assert s == front + [c];
      var before := WhitespaceMeaning(front);
      SpacedBelow(Collapsed(front), front, before);
      at := WhitespaceSnoc(front, c, before);
      forall i | 0 <= i < |s| ensures i in at <==> Separates(s, i) {
        SeparatesAt(front, c, i);
      }
    }
  }

  // ---------------------------------------------------------------------------
  // The pipeline
  // ---------------------------------------------------------------------------

  /** NFKC always comes first, then the enabled steps in this order, each on what the one before it wrote. */
  lemma StepsInOrder(t: UnicodeTables, o: NormalizeOptions, input: string, steps: seq<string>)
    requires |steps| == 9 && steps[0] == t.nfkc(input)
    requires steps[1] == if o.expandIterationMarks then Expanded(steps[0]) else steps[0]
    requires steps[2] == if o.kanaFold then KanaFold(steps[1]) else steps[1]
    requires steps[3] == if o.foldChoonpu then ChoonpuFolded(steps[2]) else steps[2]
    requires steps[4] == if o.lowercase then Lowercase(t, steps[3]) else steps[3]
    requires steps[5] == if o.foldDiacritics then t.nfc(WithoutCombiningMarks(t.nfd(steps[4]))) else steps[4]
    requires steps[6] == if o.normalizeHyphens then NormalizeHyphens(steps[5]) else steps[5]
    requires steps[7] == if o.stripDigitGrouping then Ungrouped(steps[6]) else steps[6]
    requires steps[8] == if o.collapseWhitespace then Collapsed(steps[7]) else steps[7]
    ensures Normalized(t, o, input) == steps[8]
  {
  }
}
