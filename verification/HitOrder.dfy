/** Search hits and their deterministic order: score first, id second. */
module HitOrder {

  /** A document (or, after collapsing, a record) id with its score; a smaller score is a better match. */
  datatype Hit = Hit(id: int, score: real)

  predicate Before(a: Hit, b: Hit) {
    a.score < b.score || (a.score == b.score && a.id < b.id)
  }

  predicate StrictlySorted(hits: seq<Hit>) {
    forall i, j :: 0 <= i < j < |hits| ==> Before(hits[i], hits[j])
  }

  function Elements<T>(s: seq<T>): set<T> {
    set x | x in s
  }

  predicate Distinct<T(==)>(s: seq<T>) {
    forall i, j :: 0 <= i < j < |s| ==> s[i] != s[j]
  }

  function Take<T>(s: seq<T>, limit: nat): seq<T> {
    if limit < |s| then s[..limit] else s
  }

  /** The page `[offset, offset + limit)` of a sequence, cut short where the sequence ends. */
  function Slice<T>(s: seq<T>, offset: nat, limit: nat): seq<T> {
    if offset < |s| then Take(s[offset..], limit) else []
  }

  // ---------------------------------------------------------------------------
  // The ranking of a set of hits
  // ---------------------------------------------------------------------------

  lemma FirstExists(s: set<Hit>)
    requires s != {}
    ensures exists m :: m in s && forall h :: h in s && h != m ==> Before(m, h)
  {
    var x :| x in s;
    var rest := s - {x};
    if rest == {} {
      assert s == {x};
    } else {
      FirstExists(rest);
      var m :| m in rest && forall h :: h in rest && h != m ==> Before(m, h);
      var best := if Before(x, m) then x else m;
      assert forall h :: h in s ==> h == x || h in rest;
      assert best in s && forall h :: h in s && h != best ==> Before(best, h);
    }
  }

  ghost function First(s: set<Hit>): (m: Hit)
    requires s != {}
    ensures m in s && forall h :: h in s && h != m ==> Before(m, h)
  {
    FirstExists(s);
    var m :| m in s && forall h :: h in s && h != m ==> Before(m, h);
    m
  }

  /** All hits of `s`, best first. */
  ghost function Ranking(s: set<Hit>): (r: seq<Hit>)
    ensures StrictlySorted(r)
    ensures forall h :: h in r <==> h in s
    ensures |r| == |s|
  {
    if s == {} then [] else
      var m := First(s);
      var rest := Ranking(s - {m});
      assert forall h :: h in rest ==> Before(m, h);
      [m] + rest
  }

  lemma HeadIsFirst(r: seq<Hit>, s: set<Hit>)
    requires StrictlySorted(r) && s != {}
    requires forall h :: h in r <==> h in s
    ensures r != [] && r[0] == First(s)
    ensures forall h :: h in r[1..] <==> h in s - {First(s)}
  {
    var m := First(s);
    assert m in r;
    var at :| 0 <= at < |r| && r[at] == m;
    assert at == 0 || Before(r[0], m);
    assert r[0] in s;
    assert r == [r[0]] + r[1..];
    assert forall k :: 0 <= k < |r[1..]| ==> Before(r[0], r[1..][k]);
  }

  /** A strictly sorted sequence is determined by its elements. */
  lemma {:induction false} RankingUnique(r: seq<Hit>, s: set<Hit>)
    requires StrictlySorted(r)
    requires forall h :: h in r <==> h in s
    ensures r == Ranking(s)
    decreases |r|
  {
    if s == {} {
      assert forall h :: h !in r;
    } else {
      HeadIsFirst(r, s);
      RankingUnique(r[1..], s - {First(s)});
    }
  }

  /** If every hit of `low` comes before every other hit of `all`, ranking `all` starts with ranking `low`. */
  lemma RankingInitialSegment(low: set<Hit>, all: set<Hit>)
    requires low <= all
    requires forall x, y :: x in low && y in all - low ==> Before(x, y)
    ensures Ranking(all) == Ranking(low) + Ranking(all - low)
  {
    var r := Ranking(low) + Ranking(all - low);
    forall i, j | 0 <= i < j < |r| ensures Before(r[i], r[j]) {
      if i < |low| <= j {
        assert r[i] in Ranking(low) && r[j] in Ranking(all - low);
      }
    }
    assert forall h :: h in r <==> h in Ranking(low) || h in Ranking(all - low);
    RankingUnique(r, all);
  }

  lemma TakeComesFirst(r: seq<Hit>, n: nat, x: Hit, y: Hit)
    requires StrictlySorted(r)
    requires x in Take(r, n) && y in r && y !in Take(r, n)
    ensures Before(x, y)
  {
    var t := Take(r, n);
    var i :| 0 <= i < |t| && t[i] == x;
    var j :| 0 <= j < |r| && r[j] == y;
    assert forall k :: 0 <= k < |t| ==> t[k] == r[k] && t[k] != y;
  }

  /** The first `n` ranked hits come before all the others. */
  lemma TakeIsInitialSegment(all: set<Hit>, n: nat)
    ensures var top := Elements(Take(Ranking(all), n));
            && top <= all
            && Ranking(top) == Take(Ranking(all), n)
            && forall x, y :: x in top && y in all - top ==> Before(x, y)
  {
    var r := Ranking(all);
    var t := Take(r, n);
    assert forall k :: 0 <= k < |t| ==> t[k] == r[k] && t[k] in r;
    RankingUnique(t, Elements(t));
    forall x, y | x in Elements(t) && y in all - Elements(t) ensures Before(x, y) {
      TakeComesFirst(r, n, x, y);
    }
  }

  // ---------------------------------------------------------------------------
  // Sorting, as `sort_by(score, id)` does
  // ---------------------------------------------------------------------------

  predicate Sorted(hits: seq<Hit>) {
    forall i, j :: 0 <= i < j < |hits| ==> !Before(hits[j], hits[i])
  }

  lemma SortedCons(h: Hit, rest: seq<Hit>)
    requires Sorted(rest)
    requires forall x :: x in rest ==> !Before(x, h)
    ensures Sorted([h] + rest)
  {
    var r := [h] + rest;
    assert forall i :: 1 <= i < |r| ==> r[i] == rest[i - 1];
  }

  lemma SortedSuffix(h: Hit, sorted: seq<Hit>)
    requires Sorted(sorted) && sorted != [] && !Before(sorted[0], h)
    ensures forall x :: x in sorted ==> !Before(x, h)
  {
    forall x | x in sorted ensures !Before(x, h) {
      var k :| 0 <= k < |sorted| && sorted[k] == x;
      assert k == 0 || !Before(sorted[k], sorted[0]);
    }
  }

  lemma SortedMembers(h: Hit, sorted: seq<Hit>, rest: seq<Hit>)
    requires Sorted(sorted) && sorted != [] && Before(sorted[0], h)
    requires multiset(rest) == multiset(sorted[1..]) + multiset{h}
    ensures forall x :: x in rest ==> !Before(x, sorted[0])
  {
    forall x | x in rest ensures !Before(x, sorted[0]) {
      assert x in multiset(rest);
      assert x == h || x in sorted[1..];
    }
  }

  function Insert(h: Hit, sorted: seq<Hit>): (r: seq<Hit>)
    requires Sorted(sorted)
    ensures Sorted(r)
    ensures multiset(r) == multiset(sorted) + multiset{h}
    ensures |r| == |sorted| + 1
  {
    if sorted == [] then [h]
    else if Before(sorted[0], h) then
      var rest := Insert(h, sorted[1..]);
      assert sorted == [sorted[0]] + sorted[1..];
      SortedMembers(h, sorted, rest);
      SortedCons(sorted[0], rest);
      [sorted[0]] + rest
    else
      SortedSuffix(h, sorted);
      SortedCons(h, sorted);
      [h] + sorted
  }

  function SortHits(hits: seq<Hit>): (r: seq<Hit>)
    ensures Sorted(r)
    ensures multiset(r) == multiset(hits)
    ensures |r| == |hits|
  {
    if hits == [] then [] else
      assert hits == hits[..|hits| - 1] + [hits[|hits| - 1]];
      Insert(hits[|hits| - 1], SortHits(hits[..|hits| - 1]))
  }

  lemma DistinctMultiplicity<T>(s: seq<T>)
    requires Distinct(s)
    ensures forall x :: x in s ==> multiset(s)[x] == 1
  {
    if s != [] {
      assert s == s[..|s| - 1] + [s[|s| - 1]];
      DistinctMultiplicity(s[..|s| - 1]);
      assert forall x :: x in s ==> x in s[..|s| - 1] || x == s[|s| - 1];
      assert s[|s| - 1] !in s[..|s| - 1];
    }
  }

  lemma MultiplicityDistinct<T>(s: seq<T>)
    requires forall x :: x in s ==> multiset(s)[x] == 1
    ensures Distinct(s)
  {
    forall i, j | 0 <= i < j < |s| ensures s[i] != s[j] {
      assert s == s[..j] + [s[j]] + s[j + 1..];
      assert multiset(s)[s[j]] == multiset(s[..j])[s[j]] + 1 + multiset(s[j + 1..])[s[j]];
      assert s[j] !in s[..j];
      assert s[..j][i] == s[i];
    }
  }

  /** Sorting distinct hits yields the ranking of their set: the input order never shows. */
  lemma SortIsRanking(hits: seq<Hit>)
    requires Distinct(hits)
    ensures SortHits(hits) == Ranking(Elements(hits))
  {
    var r := SortHits(hits);
    DistinctMultiplicity(hits);
    assert forall x :: x in r <==> x in multiset(r);
    assert forall x :: x in hits <==> x in multiset(hits);
    assert Distinct(r) by {
      forall x | x in r ensures multiset(r)[x] == 1 { assert x in hits; }
      MultiplicityDistinct(r);
    }
    assert StrictlySorted(r);
    RankingUnique(r, Elements(hits));
  }

  /** `sort_by` then `truncate`. */
  method RankAndTruncate(hits: seq<Hit>, limit: nat) returns (out: seq<Hit>)
    ensures Distinct(hits) ==> out == Take(Ranking(Elements(hits)), limit)
    ensures out == Take(SortHits(hits), limit)
  {
    out := SortHits(hits);
    if Distinct(hits) { SortIsRanking(hits); }
    if limit < |out| { out := out[..limit]; }
  }

  // ---------------------------------------------------------------------------
  // Pages
  // ---------------------------------------------------------------------------

  /** Dropping `offset` from the first `limit + offset` results leaves exactly that page of the whole. */
  lemma PageOfTake<T>(s: seq<T>, offset: nat, limit: nat)
    ensures var fetched := Take(s, limit + offset);
            fetched[(if offset < |fetched| then offset else |fetched|)..] == Slice(s, offset, limit)
  {
  }

  function Pages<T>(s: seq<T>, perPage: nat, count: nat): seq<T> {
    if count == 0 then [] else Pages(s, perPage, count - 1) + Slice(s, (count - 1) * perPage, perPage)
  }

  lemma TakeThenSlice<T>(s: seq<T>, n: nat, perPage: nat)
    ensures Take(s, n) + Slice(s, n, perPage) == Take(s, n + perPage)
  {
  }

  /** Reading pages 0, 1, ... in turn reads the whole sequence in order, nothing twice and nothing lost. */
  lemma {:induction false} PagesTile<T>(s: seq<T>, perPage: nat, count: nat)
    ensures Pages(s, perPage, count) == Take(s, count * perPage)
  {
    if count > 0 {
      PagesTile(s, perPage, count - 1);
      TakeThenSlice(s, (count - 1) * perPage, perPage);
      assert (count - 1) * perPage + perPage == count * perPage;
    }
  }
}
