/** What a host can rely on over whole runs, across storing, searching and re-encoding. */
module Guarantees {
  import opened Wrappers
  import opened Text
  import opened Config
  import opened Steps
  import opened Normalize
  import opened EditDistance
  import opened Packing
  import opened HitOrder
  import opened IndexState
  import opened Like
  import opened Substring
  import opened Scoring
  import opened Strategies
  import opened RecordSearch
  import opened RankedRecords
  import opened RecordLayer
  import Runs

  // ---------------------------------------------------------------------------
  // Every reachable index can be searched
  // ---------------------------------------------------------------------------

  /** The precondition of every search holds in every reachable state. */
  lemma ReachableIsSearchable(t: UnicodeTables, calls: seq<Runs.Call>)
    ensures var s := Runs.Run(t, Runs.System(Runs.FRESH, None), calls).store;
            Agree(s) && InSync(Tables(s.docs, Norms(s), NormRevs(s)))
  {
    Runs.FreshInvariant(t);
    Runs.RunKeeps(t, Runs.System(Runs.FRESH, None), calls);
    AgreeInSync(Runs.Run(t, Runs.System(Runs.FRESH, None), calls).store);
  }

  lemma OccursInItself(f: char -> char, q: string)
    ensures Contains(FoldCase(f, q), FoldCase(f, q))
  {
    var x := FoldCase(f, q);
    assert x[0..0 + |x|] == x;
    assert OccursAt(x, x, 0);
  }

  lemma HasOwnTerms(q: string)
    ensures HasAllTerms(q, Words(q))
  {
    OccursInItself(AsciiFold, q);
    WholeQueryHasAllTerms(q, q);
  }

  predicate ByEditDistance(st: Strategy) {
    st.LevenshteinStrategy? || st.DamerauLevenshteinStrategy?
  }

  /** Some word of the text leaves out one character of it at most, or a quarter. */
  predicate HasLongWord(q: string) {
    exists w :: w in Words(q) && (|q| - |w| <= 1 || 4 * (|q| - |w|) <= |q|)
  }

  /** A word of a text is as far from it as it is shorter. */
  lemma DistanceToWord(k: Kernel, q: string, w: string)
    requires w in Words(q)
    ensures Distance(k, q, w) == |q| - |w|
  {
    WordsOccur(q, w);
    var i: nat :| OccursAt(q, w, i);
    SplitAround(q, i, i + |w|);
    DistanceToPart(k, q[..i], w, q[i + |w|..]);
  }

  lemma SplitAround(q: string, i: nat, j: nat)
    requires i <= j <= |q|
    ensures q == q[..i] + q[i..j] + q[j..]
  {
  }

  lemma OneWord(w: string)
    requires IsWord(w)
    ensures Words(w) == [w]
  {
    WordsAppendWord("", w);
    assert "" + w == w && Words("") == [];
    assert [] + [w] == [w];
  }

  lemma OwnWords(k: Kernel, q: string)
    ensures ByWords(k, q).Score(q).Some? <==> HasLongWord(q)
    ensures IsWord(q) ==> ByWords(k, q).Score(q) == Some(0.0)
  {
    forall w | w in Words(q) ensures Distance(k, q, w) == |q| - |w| { DistanceToWord(k, q, w); }
    WordScoreMeaning(k, q, q, 0);
    if IsWord(q) {
      OneWord(q);
      assert Words(q)[0] == q;
      DistanceZero(k, q, q);
    }
  }

  /**
   * Searching for a text just indexed finds it, because text and query are normalized alike: the unranked strategies
   * select its id (all terms, if it has any), trigram similarity scores it as a perfect match, and the edit distances
   * find it exactly if one of its words leaves out no more of the text than the query may differ from a word.
   */
  lemma IndexedTextIsFound(t: UnicodeTables, o: NormalizeOptions, s: Store, id: int, text: string, st: Strategy)
    requires Normalized(t, o, text) != ""
    ensures var q := Normalized(t, o, text);
            var norm := Norms(Indexed(t, o, s, id, text));
            && (st.FuzzyTrigramStrategy? ==> Hit(id, 0.0) in Hits(st.ScorerFor(q), norm))
            && (!st.IsRanked() ==>
                  (id in MatchingIds(st, t.ftsFold, norm, q) <==> st.AllTermsStrategy? ==> Words(q) != []))
            && (ByEditDistance(st) ==>
                  ((exists h :: h in Hits(st.ScorerFor(q), norm) && h.id == id) <==> HasLongWord(q)))
            && (ByEditDistance(st) && IsWord(q) ==> Hit(id, 0.0) in Hits(st.ScorerFor(q), norm))
  {
    var q := Normalized(t, o, text);
    var norm := Norms(Indexed(t, o, s, id, text));
    assert norm[id] == q;
    match st {
      case SubstringStrategy => OccursInItself(FoldingFor(t.ftsFold, q), q);
      case PrefixStrategy => assert q[..|q|] == q;
      case SuffixStrategy => assert q[|q| - |q|..] == q;
      case AllTermsStrategy => HasOwnTerms(q);
      case FuzzyTrigramStrategy => PerfectTrigramScore(q, q);
      case _ =>
        OwnWords(st.ScorerFor(q).kernel, q);
        if st.ScorerFor(q).Score(q).Some? {
          assert Hit(id, st.ScorerFor(q).Score(q).value) in Hits(st.ScorerFor(q), norm);
        }
    }
  }

  // ---------------------------------------------------------------------------
  // The field count a host gives for record searches must not be too small
  // ---------------------------------------------------------------------------

  /** Record 0 with the query in both its fields, record 1 with a word one edit away, one field bit. */
  const TWO_RECORDS: map<int, string> := map[0 := "a", 1 := "a", 2 := "b"]

  const LETTER: Scorer := ByWords(Levenshtein, "a")

  lemma LetterScores()
    ensures LETTER.Score("a") == Some(0.0) && LETTER.Score("b") == Some(1.0)
  {
    LetterScore("a", 0);
    LetterScore("b", 1);
  }

  lemma LetterScore(w: string, d: nat)
    requires |w| == 1 && IsWord(w) && d == if w == "a" then 0 else 1
    ensures LETTER.Score(w) == Some(d as real)
  {
    OneWord(w);
    EntryBounds(Levenshtein, "a", w, 1, 1);
    DistanceZero(Levenshtein, "a", w);
    assert Words(w)[0] == w;
    WordScoreMeaning(Levenshtein, "a", w, d);
  }

  lemma TwoRecordsHits()
    ensures Hits(LETTER, TWO_RECORDS) == Elements(TWO_AHEAD)
  {
    hide Elements;
    LetterScores();
    forall h ensures h in Hits(LETTER, TWO_RECORDS) <==> h in Elements(TWO_AHEAD) {
      TwoRecordsHit(h);
    }
  }

  lemma TwoRecordsHit(h: Hit)
    ensures h in Hits(LETTER, TWO_RECORDS) <==> h in Elements(TWO_AHEAD)
  {
    LetterScores();
    assert forall id :: id in TWO_RECORDS <==> id == 0 || id == 1 || id == 2;
    assert h in Elements(TWO_AHEAD) <==> h == Hit(0, 0.0) || h == Hit(1, 0.0) || h == Hit(2, 1.0);
    if h in Elements(TWO_AHEAD) {
      assert h.id in TWO_RECORDS && Hit(h.id, LETTER.Score(TWO_RECORDS[h.id]).value) == h;
    }
  }

  /** Asked for two records and told of one field each, the search finds one record of two. */
  lemma UnderstatedFieldsLoseARecord(out: seq<RecordHit>)
    requires RecordAnswer(out, Take(FullRanking(LETTER, TWO_RECORDS), RawLimit(2, 1)), 1, 2)
    ensures |out| == 1 && |AllRecords(LETTER, TWO_RECORDS, 1)| == 2
  {
    hide RecordRanking;
    TwoRecordsHits();
    ProductIsTimes(2, 1);
    TwoAheadLoses();
    assert |out| == |AsHits(out)|;
  }

  // ---------------------------------------------------------------------------
  // Changing the field bits is invisible to record searches
  // ---------------------------------------------------------------------------

  lemma RepackedIsRelabelled(s: Store, from: nat, to: nat)
    requires Runs.CanRepack(s, from, to)
    ensures Relabelled(Norms(Repacked(s, from, to)), Norms(s), from, to)
  {
    var after, before := Norms(Repacked(s, from, to)), Norms(s);
    RepackedKeys(s, from, to);
    RepackedBack(s, from, to);
    forall id | id in before ensures Repack(from, to, id) in after && after[Repack(from, to, id)] == before[id] {
      RepackedValue(s, from, to, id);
    }
  }

  /** Every ranked record search answers the same before and after, in ids, scores and matched slots. */
  lemma FieldBitsAreInvisible(s: Store, from: nat, to: nat, scorer: Scorer, out: seq<RecordHit>, n: nat, limit: nat)
    requires Runs.CanRepack(s, from, to)
    ensures RecordAnswer(out, Take(FullRanking(scorer, Norms(Repacked(s, from, to))), n), to, limit) <==>
            RecordAnswer(out, Take(FullRanking(scorer, Norms(s)), n), from, limit)
  {
    RepackedIsRelabelled(s, from, to);
    RecordAnswerUnchanged(out, scorer, Norms(Repacked(s, from, to)), Norms(s), from, to, n, limit);
  }

  /** In every reachable state, changing the field bits and changing them back restores index and engine exactly. */
  lemma FieldBitsCanBeUndone(t: UnicodeTables, calls: seq<Runs.Call>, n: byte)
    ensures var sys := Runs.Run(t, Runs.System(Runs.FRESH, None), calls);
            sys.engine.Some? && Runs.CanRepack(sys.store, sys.engine.value.bits, n) && sys.engine.value.bits < 256 ==>
              Runs.Step(t, Runs.Step(t, sys, Runs.ChangeFieldBits(n)), Runs.ChangeFieldBits(sys.engine.value.bits)) ==
                  sys
  {
    Runs.FreshInvariant(t);
    Runs.RunKeeps(t, Runs.System(Runs.FRESH, None), calls);
    Runs.RunKeepsIds(t, Runs.System(Runs.FRESH, None), calls);
    var sys := Runs.Run(t, Runs.System(Runs.FRESH, None), calls);
    if sys.engine.Some? && Runs.CanRepack(sys.store, sys.engine.value.bits, n) && sys.engine.value.bits < 256 {
      forall id | id in sys.store.entries ensures id <= I64_MAX {
        assert IsI64(id);
      }
      RepackUndone(t, sys.store, sys.engine.value, n);
    }
  }

  lemma RepackUndone(t: UnicodeTables, s: Store, h: Runs.Handle, n: byte)
    requires Agree(s) && s.bits == Some(h.bits) && Runs.CanRepack(s, h.bits, n) && h.bits < 256
    requires forall id :: id in s.entries ==> id <= I64_MAX
    ensures var sys := Runs.System(s, Some(h));
            Runs.Step(t, Runs.Step(t, sys, Runs.ChangeFieldBits(n)), Runs.ChangeFieldBits(h.bits)) == sys
  {
    var there := Repacked(s, h.bits, n);
    RepackBackRestores(s, h.bits, n);
    Runs.StepRepack(t, s, h, n);
    Runs.StepRepack(t, there, h.(bits := n), h.bits);
  }
}
