/** What a query of whitespace finds. */
module BlankQueries {
  import opened Wrappers
  import opened HitOrder
  import opened Text
  import opened Config
  import opened Normalize
  import opened EditDistance
  import opened Substring
  import opened Scoring
  import opened Strategies
  import opened Guarantees

  /** The query has no hit in any table. */
  ghost predicate FindsNothing(st: Strategy, fold: char -> char, q: string) {
    forall norm :: HitIds(st, fold, norm, q) == {}
  }

  /** The documents that the strategy finds. */
  ghost function HitIds(st: Strategy, fold: char -> char, norm: map<int, string>, q: string): set<int> {
    if st.IsRanked() then set h | h in Hits(st.ScorerFor(q), norm) :: h.id else SelectedIds(st, fold, norm, q)
  }

  /** A table with one document. */
  function OneDocument(doc: string): map<int, string> {
    map[0 := doc]
  }

  lemma {:induction false} BlankHasNoWords(q: string)
    requires q == "" || IsBlank(q)
    ensures Words(q) == []
  {
    if q != "" { BlankHasNoWords(q[..|q| - 1]); }
  }

  lemma BlankIsFar(k: Kernel, q: string, doc: string)
    requires IsBlank(q) && |q| >= 2
    ensures ByWords(k, q).Score(doc) == None
  {
    forall w | w in Words(doc) ensures Distance(k, q, w) >= |q| {
      WordIsNotBlank(q, w);
      NothingSharedIsFar(k, q, w);
    }
    WordScoreMeaning(k, q, doc, 0);
  }

  lemma WordIsNotBlank(q: string, w: string)
    requires IsBlank(q) && IsWord(w)
    ensures NothingShared(q, w)
  {
  }

  /** One whitespace character is one substitution away from any word of one character. */
  lemma BlankNearLetter(k: Kernel, q: string)
    requires IsBlank(q) && |q| == 1
    ensures ByWords(k, q).Score("a").Some?
  {
    assert IsWord("a");
    OneWord("a");
    EntryBounds(k, q, "a", 1, 1);
    WordScoreMeaning(k, q, "a", 0);
    assert Words("a")[0] == "a";
  }

  /** The strategies that find nothing for whitespace. */
  predicate IgnoresBlank(st: Strategy, q: string) {
    st.AllTermsStrategy? || (ByEditDistance(st) && |q| >= 2)
  }

  lemma HitIdsByScore(st: Strategy, fold: char -> char, norm: map<int, string>, q: string, id: int)
    requires st.IsRanked()
    ensures id in HitIds(st, fold, norm, q) <==> id in norm && st.ScorerFor(q).Score(norm[id]).Some?
  {
    if id in norm && st.ScorerFor(q).Score(norm[id]).Some? {
      assert Hit(id, st.ScorerFor(q).Score(norm[id]).value) in Hits(st.ScorerFor(q), norm);
    }
  }

  lemma IgnoredFindsNothing(st: Strategy, fold: char -> char, norm: map<int, string>, q: string)
    requires IsBlank(q) && IgnoresBlank(st, q)
    ensures HitIds(st, fold, norm, q) == {}
  {
    if st.AllTermsStrategy? {
      BlankHasNoWords(q);
    } else {
      forall id ensures id !in HitIds(st, fold, norm, q) {
        HitIdsByScore(st, fold, norm, q, id);
        if id in norm { BlankIsFar(st.ScorerFor(q).kernel, q, norm[id]); }
      }
    }
  }

  /** A document that the query finds: the query itself, or one letter for the edit distances. */
  function Witness(st: Strategy, q: string): string {
    if ByEditDistance(st) then "a" else q
  }

  lemma WitnessIsFound(st: Strategy, fold: char -> char, q: string)
    requires IsBlank(q) && !IgnoresBlank(st, q)
    ensures 0 in HitIds(st, fold, OneDocument(Witness(st, q)), q)
  {
    var norm := OneDocument(Witness(st, q));
    if st.IsRanked() {
      HitIdsByScore(st, fold, norm, q, 0);
      if st.FuzzyTrigramStrategy? {
        PerfectTrigramScore(q, q);
      } else {
        BlankNearLetter(st.ScorerFor(q).kernel, q);
      }
    } else {
      SelectedMeaning(st, fold, norm, q);
      match st {
        case SubstringStrategy => OccursInItself(FoldingFor(fold, q), q);
        case PrefixStrategy => assert q[..|q|] == q;
        case SuffixStrategy => assert q[|q| - |q|..] == q;
      }
    }
  }

  /** All-terms finds nothing for whitespace, the edit distances for two characters of it or more, the others do. */
  lemma BlankSearch(st: Strategy, fold: char -> char, q: string)
    requires IsBlank(q)
    ensures FindsNothing(st, fold, q) <==> IgnoresBlank(st, q)
  {
    if IgnoresBlank(st, q) {
      forall norm ensures HitIds(st, fold, norm, q) == {} { IgnoredFindsNothing(st, fold, norm, q); }
    } else {
      WitnessIsFound(st, fold, q);
      assert HitIds(st, fold, OneDocument(Witness(st, q)), q) != {};
    }
  }

  /** A query of whitespace finds nothing in any index exactly if whitespace is collapsed or the strategy ignores it. */
  lemma BlankQueryFindsNothing(t: UnicodeTables, o: NormalizeOptions, st: Strategy, query: string)
    requires IsBlank(t.nfkc(query)) && t.nfkc(t.nfkc(query)) == t.nfkc(query) && BlankIsPlain(t, o)
    ensures var q := Normalized(t, o, query);
            (q == "" || FindsNothing(st, t.ftsFold, q)) <==> o.collapseWhitespace || IgnoresBlank(st, t.nfkc(query))
  {
    BlankQuery(t, o, query);
    if !o.collapseWhitespace { BlankSearch(st, t.ftsFold, t.nfkc(query)); }
  }
}
