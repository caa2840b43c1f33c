/** Substring search: a trigram phrase for three characters or more, LIKE below that. */
module Substring {
  import opened Text
  import opened HitOrder
  import opened RangeScan
  import opened Like
  import opened Trigrams

  function PhraseIds(fold: char -> char, docs: map<int, string>, q: string): set<int> {
    set id | id in docs && Matches(fold, docs[id], Quoted(q))
  }

  function LikeIds(norm: map<int, string>, pattern: string): set<int> {
    set id | id in norm && LikeMatch(pattern, norm[id])
  }

  /** The documents that contain the query after folding both with `f`. */
  ghost function ContainingIds(f: char -> char, norm: map<int, string>, q: string): set<int> {
    set id | id in norm && Contains(FoldCase(f, norm[id]), FoldCase(f, q))
  }

  lemma LikeIdsContain(norm: map<int, string>, q: string)
    ensures LikeIds(norm, ContainsPattern(q)) == ContainingIds(AsciiFold, norm, q)
  {
    forall id | id in norm
      ensures LikeMatch(ContainsPattern(q), norm[id]) <==>
          Contains(FoldCase(AsciiFold, norm[id]), FoldCase(AsciiFold, q))
    {
      LikeIsContainment(q, norm[id]);
    }
  }

  lemma PhraseIdsContain(fold: char -> char, docs: map<int, string>, q: string)
    requires |q| >= 3
    ensures PhraseIds(fold, docs, q) == ContainingIds(fold, docs, q)
  {
    PhraseIsLiteral(q);
    forall id | id in docs
      ensures Matches(fold, docs[id], Quoted(q)) <==> Contains(FoldCase(fold, docs[id]), FoldCase(fold, q))
    {
      PhraseIsContainment(fold, docs[id], q);
      if PhraseMatches(fold, docs[id], q) { assert q in ParseOr(Quoted(q)).value; }
    }
  }

  /** The folding in force for a query: FTS5's own for the trigram branch, ASCII case for LIKE. */
  function FoldingFor(fold: char -> char, q: string): char -> char {
    if |q| < 3 then AsciiFold else fold
  }

  method SubstringSearch(fold: char -> char, docs: map<int, string>, norm: map<int, string>, q: string, limit: nat,
                         offset: nat)
    returns (hits: seq<Hit>)
    ensures Selects(hits, ContainingIds(FoldingFor(fold, q), if |q| < 3 then norm else docs, q), offset, limit)
  {
    if |q| < 3 {
      var escaped := EscapeLike(q);
      LikeIdsContain(norm, q);
      hits := SelectRows(LikeIds(norm, "%" + (escaped + "%")), offset, limit);
    } else {
      PhraseIdsContain(fold, docs, q);
      hits := SelectRows(PhraseIds(fold, docs, q), offset, limit);
    }
  }

  method SubstringCount(fold: char -> char, docs: map<int, string>, norm: map<int, string>, q: string) returns (n: nat)
    ensures n == |ContainingIds(FoldingFor(fold, q), if |q| < 3 then norm else docs, q)|
  {
    if |q| < 3 {
      var escaped := EscapeLike(q);
      LikeIdsContain(norm, q);
      n := |LikeIds(norm, "%" + (escaped + "%"))|;
    } else {
      PhraseIdsContain(fold, docs, q);
      n := |PhraseIds(fold, docs, q)|;
    }
  }

  /** Text on which a folding does nothing. */
  ghost predicate FoldedAlready(f: char -> char, s: string) {
    FoldCase(f, s) == s
  }

  /** On text that is already folded, both branches are plain containment. */
  lemma FoldedTextIsLiteral(f: char -> char, norm: map<int, string>, q: string)
    requires FoldedAlready(f, q) && forall id :: id in norm ==> FoldedAlready(f, norm[id])
    ensures ContainingIds(f, norm, q) == set id | id in norm && Contains(norm[id], q)
  {
    forall id | id in norm ensures FoldCase(f, norm[id]) == norm[id] {
      assert FoldedAlready(f, norm[id]);
    }
  }
}
