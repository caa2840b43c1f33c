/** Prefix and suffix search as range scans in byte order. */
module RangeScan {
  import opened Wrappers
  import opened Text
  import opened Utf8
  import opened HitOrder

  // ---------------------------------------------------------------------------
  // The exclusive upper bound
  // ---------------------------------------------------------------------------

  /** The next code point, if it is a Unicode scalar value. */
  function NextChar(c: char): (r: Option<char>)
    ensures r.None? <==> c == '\U{D7FF}' || c == '\U{10FFFF}'
  {
    if c == '\U{D7FF}' || c == '\U{10FFFF}' then None else Some((c as int + 1) as char)
  }

  function UpperBound(s: string): Option<string> {
    if s == "" then None
    else
      var front, next := s[..|s| - 1], NextChar(s[|s| - 1]);
      if next.Some? then Some(front + [next.value]) else UpperBound(front)
  }

  method RangeUpperBound(s: string) returns (r: Option<string>)
    ensures r == UpperBound(s)
  {
    var chars := s;
    while chars != ""
      invariant UpperBound(s) == UpperBound(chars)
      decreases |chars|
    {
      var last := chars[|chars| - 1];
      chars := chars[..|chars| - 1];
      var next := NextChar(last);
      if next.Some? { return Some(chars + [next.value]); }
    }
    return None;
  }

  /** The trailing characters that `RangeUpperBound` drops because they have no successor. */
  function Popped(s: string): string {
    if s == "" || NextChar(s[|s| - 1]).Some? then "" else Popped(s[..|s| - 1]) + [s[|s| - 1]]
  }

  /** The query loses no precision: every dropped character is U+10FFFF. */
  predicate ExactRange(q: string) {
    '\U{D7FF}' !in Popped(q)
  }

  ghost predicate FollowedBySuccessor(q: string, k: int) {
    exists j :: 0 <= j < |q| && k < j && q[j] as int != 0xD7FF && q[j] as int != 0x10FFFF
  }

  lemma FollowedSnoc(front: string, c: char, k: int)
    requires 0 <= k < |front|
    ensures FollowedBySuccessor(front + [c], k) <==>
              FollowedBySuccessor(front, k) || (c as int != 0xD7FF && c as int != 0x10FFFF)
  {
    var q := front + [c];
    assert q[|front|] == c;
    if FollowedBySuccessor(front, k) {
      var j :| 0 <= j < |front| && k < j && front[j] as int != 0xD7FF && front[j] as int != 0x10FFFF;
      assert q[j] == front[j];
    }
  }

  /** That is, some character with a successor follows each U+D7FF. */
  lemma {:induction false} ExactRangeMeaning(q: string)
    ensures ExactRange(q) <==> forall k :: 0 <= k < |q| && q[k] as int == 0xD7FF ==> FollowedBySuccessor(q, k)
  {
    if q != "" {
      var front, c := q[..|q| - 1], q[|q| - 1];
      assert q == front + [c];
      ExactRangeMeaning(front);
      hide FollowedBySuccessor;
      forall k | 0 <= k < |front|
        ensures FollowedBySuccessor(q, k) <==> FollowedBySuccessor(front, k) || NextChar(c).Some?
      {
        FollowedSnoc(front, c, k);
      }
      LastIsNotFollowed(q);
      assert forall k :: 0 <= k < |front| ==> q[k] == front[k];
    }
  }

  lemma LastIsNotFollowed(q: string)
    ensures !FollowedBySuccessor(q, |q| - 1)
  {
  }

  // ---------------------------------------------------------------------------
  // What the range contains
  // ---------------------------------------------------------------------------

  /** `value >= key [AND value < upper]`, comparing bytes. */
  predicate InRange(value: string, key: string, upper: Option<string>) {
    !BytesLess(Encode(value), Encode(key)) && (upper.Some? ==> BytesLess(Encode(value), Encode(upper.value)))
  }

  lemma LessAsymmetric(s: string, t: string)
    ensures Less(s, t) ==> !Less(t, s) && s != t
  {
    if s != "" && t != "" { LessAsymmetric(s[1..], t[1..]); }
  }

  lemma InRangeByCodePoints(value: string, key: string, upper: Option<string>)
    ensures InRange(value, key, upper) <==> AtMost(key, value) && (upper.Some? ==> Less(value, upper.value))
  {
    ByteOrderIsCodePointOrder(value, key);
    LessTotal(value, key);
    LessAsymmetric(value, key);
    LessAsymmetric(key, value);
    if upper.Some? { ByteOrderIsCodePointOrder(value, upper.value); }
  }

  lemma {:induction false} AtMostSamePrefix(p: string, s: string, t: string)
    ensures AtMost(p + s, p + t) <==> AtMost(s, t)
    ensures Less(p + s, p + t) <==> Less(s, t)
  {
    if p == "" {
      assert p + s == s && p + t == t;
    } else {
      assert (p + s)[1..] == p[1..] + s && (p + t)[1..] == p[1..] + t;
      AtMostSamePrefix(p[1..], s, t);
      assert p + s == p + t <==> p[1..] + s == p[1..] + t by {
        assert p + s == [p[0]] + (p[1..] + s) && p + t == [p[0]] + (p[1..] + t);
      }
    }
  }

  /** Between `p + [c] + tail` and `p + [d]`, with `d` the successor of `c`, everything starts with `p + [c]`. */
  lemma {:induction false} BetweenSuccessors(v: string, p: string, c: char, d: char, tail: string)
    requires NextChar(c) == Some(d)
    requires AtMost(p + [c] + tail, v) && Less(v, p + [d])
    ensures HasPrefix(v, p + [c]) && AtMost(tail, v[|p| + 1..])
  {
    var low := p + [c] + tail;
    if p == "" {
      assert low[0] == c && low[1..] == tail && (p + [d])[1..] == "";
      assert v[0] == c;
      assert v[..1] == p + [c];
    } else {
      assert low[1..] == p[1..] + [c] + tail && (p + [d])[1..] == p[1..] + [d];
      assert v != "" && v[0] == p[0];
      assert low == [p[0]] + low[1..] && v == [v[0]] + v[1..];
      BetweenSuccessors(v[1..], p[1..], c, d, tail);
      assert v[..|p| + 1] == [v[0]] + v[1..][..|p|];
      assert p + [c] == [p[0]] + (p[1..] + [c]);
      assert v[1..][|p|..] == v[|p| + 1..];
    }
  }

  /** `base` is what is left of the query after popping; its last character is the one that is incremented. */
  predicate SplitsAt(q: string, base: string) {
    q == base + Popped(q) &&
    if base == "" then UpperBound(q) == None
    else
      var next := NextChar(base[|base| - 1]);
      next.Some? && UpperBound(q) == Some(base[..|base| - 1] + [next.value])
  }

  lemma {:induction false} PoppedSplits(q: string) returns (base: string)
    ensures SplitsAt(q, base)
    ensures forall k :: 0 <= k < |Popped(q)| ==> NextChar(Popped(q)[k]).None?
  {
    if q == "" || NextChar(q[|q| - 1]).Some? {
      base := q;
    } else {
      base := PoppedSplits(q[..|q| - 1]);
      assert q == q[..|q| - 1] + [q[|q| - 1]];
    }
  }

  lemma LessNext(p: string, c: char, d: char, w: string)
    requires c < d
    ensures Less(p + [c] + w, p + [d])
  {
    assert p + [c] + w == p + ([c] + w);
    AtMostSamePrefix(p, [c] + w, [d]);
  }

  lemma ExtensionsInRange(p: string, c: char, d: char, tail: string, v: string)
    requires NextChar(c) == Some(d) && HasPrefix(v, p + [c])
    ensures Less(v, p + [d])
    ensures AtMost(p + [c] + tail, v) <==> AtMost(tail, v[|p| + 1..])
  {
    var rest := v[|p| + 1..];
    assert v == p + [c] + rest;
    AtMostSamePrefix(p + [c], tail, rest);
    LessNext(p, c, d, rest);
  }

  /** The range holds exactly the extensions of the unpopped part that are not below the popped tail. */
  lemma RangeShape(q: string, base: string, v: string)
    requires SplitsAt(q, base)
    ensures InRange(v, q, UpperBound(q)) <==> HasPrefix(v, base) && AtMost(Popped(q), v[|base|..])
  {
    var tail := Popped(q);
    InRangeByCodePoints(v, q, UpperBound(q));
    if base == "" {
      assert q == tail && v[0..] == v;
    } else {
      var p, c := base[..|base| - 1], base[|base| - 1];
      var d := NextChar(c).value;
      assert base == p + [c];
      if AtMost(q, v) && Less(v, p + [d]) { BetweenSuccessors(v, p, c, d, tail); }
      if HasPrefix(v, base) { ExtensionsInRange(p, c, d, tail, v); }
    }
  }

  lemma PrefixIsAtMost(q: string, w: string)
    ensures AtMost(q, q + w)
  {
    assert q + "" == q;
    AtMostSamePrefix(q, "", w);
  }

  lemma PrefixSplits(v: string, base: string, tail: string)
    ensures HasPrefix(v, base + tail) <==> HasPrefix(v, base) && HasPrefix(v[|base|..], tail)
  {
    if HasPrefix(v, base + tail) {
      assert v[..|base|] == v[..|base + tail|][..|base|];
      assert v[|base|..][..|tail|] == v[..|base + tail|][|base|..];
    }
    if HasPrefix(v, base) && HasPrefix(v[|base|..], tail) {
      assert v[..|base + tail|] == v[..|base|] + v[|base|..][..|tail|];
    }
  }

  /** Every string that starts with the query is in the range. */
  lemma PrefixesAreInRange(v: string, q: string)
    requires HasPrefix(v, q)
    ensures InRange(v, q, UpperBound(q))
  {
    var base := PoppedSplits(q);
    RangeShape(q, base, v);
    PrefixSplits(v, base, Popped(q));
    var rest := v[|base|..];
    assert rest == Popped(q) + rest[|Popped(q)|..];
    PrefixIsAtMost(Popped(q), rest[|Popped(q)|..]);
  }

  lemma {:induction false} OnlyMaxAbove(tail: string, w: string)
    requires AtMost(tail, w) && forall k :: 0 <= k < |tail| ==> tail[k] == '\U{10FFFF}'
    ensures HasPrefix(w, tail)
  {
    if tail != "" && tail != w {
      OnlyMaxAbove(tail[1..], w[1..]);
      assert w[..|tail|] == [w[0]] + w[1..][..|tail| - 1];
      assert tail == [tail[0]] + tail[1..];
    }
  }

  /** A string above a tail that contains U+D7FF need not start with it. */
  lemma JustAbove(tail: string, k: nat)
    requires k < |tail| && tail[k] == '\U{D7FF}'
    ensures var w := tail[..k] + ['\U{E000}']; AtMost(tail, w) && !HasPrefix(w, tail)
  {
    var w := tail[..k] + ['\U{E000}'];
    assert tail == tail[..k] + tail[k..];
    AtMostSamePrefix(tail[..k], tail[k..], ['\U{E000}']);
    assert |w| == k + 1 && w[k] != tail[k];
    assert |tail| == k + 1 ==> w[..|tail|] == w;
  }

  /** The range scan is prefix search exactly when no dropped character is U+D7FF. */
  lemma RangeIsPrefixSearch(q: string)
    ensures (forall v :: InRange(v, q, UpperBound(q)) <==> HasPrefix(v, q)) <==> ExactRange(q)
  {
    var base := PoppedSplits(q);
    var tail := Popped(q);
    if ExactRange(q) {
      assert forall k :: 0 <= k < |tail| ==> tail[k] in tail;
      forall v ensures InRange(v, q, UpperBound(q)) <==> HasPrefix(v, q) {
        if HasPrefix(v, q) { PrefixesAreInRange(v, q); }
        RangeShape(q, base, v);
        PrefixSplits(v, base, tail);
        if InRange(v, q, UpperBound(q)) { OnlyMaxAbove(tail, v[|base|..]); }
      }
    } else {
      var k :| 0 <= k < |tail| && tail[k] == '\U{D7FF}';
      JustAbove(tail, k);
      var w := tail[..k] + ['\U{E000}'];
      var v := base + w;
      assert v[..|base|] == base && v[|base|..] == w;
      RangeShape(q, base, v);
      PrefixSplits(v, base, tail);
      assert InRange(v, q, UpperBound(q)) && !HasPrefix(v, q);
    }
  }

  // ---------------------------------------------------------------------------
  // Queries over a column
  // ---------------------------------------------------------------------------

  /** The ids whose value lies in the range. */
  function RangeIds(column: map<int, string>, key: string, upper: Option<string>): set<int> {
    set id | id in column && InRange(column[id], key, upper)
  }

  function PrefixIds(column: map<int, string>, q: string): set<int> {
    set id | id in column && HasPrefix(column[id], q)
  }

  function SuffixIds(column: map<int, string>, q: string): set<int> {
    set id | id in column && HasSuffix(column[id], q)
  }

  function Window(total: nat, offset: nat, limit: nat): nat {
    if total <= offset then 0 else if total - offset < limit then total - offset else limit
  }

  /** A statement without `ORDER BY`: as many distinct matching rows as fit, all with score 0. */
  ghost predicate Selects(hits: seq<Hit>, ids: set<int>, offset: nat, limit: nat) {
    && |hits| == Window(|ids|, offset, limit)
    && (forall i :: 0 <= i < |hits| ==> hits[i].id in ids && hits[i].score == 0.0)
    && (forall i, j :: 0 <= i < j < |hits| ==> hits[i].id != hits[j].id)
  }

  /** Steps through the selected rows in whatever order storage yields them. */
  method SelectRows(ids: set<int>, offset: nat, limit: nat) returns (hits: seq<Hit>)
    ensures Selects(hits, ids, offset, limit)
  {
    hits := [];
    var rest, skipped := ids, 0;
    while rest != {} && |hits| < limit
      invariant rest <= ids && |ids| == |rest| + skipped + |hits|
      invariant skipped <= offset && (hits != [] ==> skipped == offset)
      invariant |hits| <= limit
      invariant forall i :: 0 <= i < |hits| ==> hits[i].id in ids - rest && hits[i].score == 0.0
      invariant forall i, j :: 0 <= i < j < |hits| ==> hits[i].id != hits[j].id
      decreases rest
    {
      assert (forall x: int :: x !in rest) ==> rest == {};
      var id :| id in rest;
      rest := rest - {id};
      if skipped < offset {
        skipped := skipped + 1;
      } else {
        hits := hits + [Hit(id, 0.0)];
      }
    }
  }

  /** When every row is asked for, every matching row is returned. */
  lemma SelectsAll(hits: seq<Hit>, ids: set<int>, limit: nat)
    requires Selects(hits, ids, 0, limit) && |ids| <= limit
    ensures (set h | h in hits :: h.id) == ids
  {
    var found := set i: int | 0 <= i < |hits| :: hits[i].id;
    IndexedCardinality(hits, |hits|);
    assert (set i: int | 0 <= i < |hits| :: hits[i].id) <= ids;
    SubsetSize(found, ids);
    forall id | id in ids ensures id in (set h | h in hits :: h.id) {
      assert id in found;
      var i :| 0 <= i < |hits| && hits[i].id == id;
      assert hits[i] in hits;
    }
  }

  lemma {:induction false} IndexedCardinality(hits: seq<Hit>, n: nat)
    requires n <= |hits| && forall i, j :: 0 <= i < j < |hits| ==> hits[i].id != hits[j].id
    ensures |set i: int | 0 <= i < n :: hits[i].id| == n
  {
    var s := set i: int | 0 <= i < n :: hits[i].id;
    if n == 0 {
      assert s == {};
    } else {
      IndexedCardinality(hits, n - 1);
      var before := set i: int | 0 <= i < n - 1 :: hits[i].id;
      assert s == before + {hits[n - 1].id};
    }
  }

  method PrefixSearch(norm: map<int, string>, q: string, limit: nat, offset: nat) returns (hits: seq<Hit>)
    ensures Selects(hits, RangeIds(norm, q, UpperBound(q)), offset, limit)
    ensures PrefixIds(norm, q) <= RangeIds(norm, q, UpperBound(q))
    ensures ExactRange(q) ==> Selects(hits, PrefixIds(norm, q), offset, limit)
  {
    var upper := RangeUpperBound(q);
    PrefixRange(norm, q);
    hits := SelectRows(RangeIds(norm, q, upper), offset, limit);
  }

  lemma PrefixRange(column: map<int, string>, q: string)
    ensures PrefixIds(column, q) <= RangeIds(column, q, UpperBound(q))
    ensures ExactRange(q) ==> PrefixIds(column, q) == RangeIds(column, q, UpperBound(q))
  {
    forall id | id in PrefixIds(column, q) ensures id in RangeIds(column, q, UpperBound(q)) {
      PrefixesAreInRange(column[id], q);
    }
    RangeIsPrefixSearch(q);
  }

  method PrefixCount(norm: map<int, string>, q: string) returns (n: nat)
    ensures n == |RangeIds(norm, q, UpperBound(q))|
    ensures |PrefixIds(norm, q)| <= n
    ensures ExactRange(q) ==> n == |PrefixIds(norm, q)|
  {
    var upper := RangeUpperBound(q);
    PrefixRange(norm, q);
    SubsetSize(PrefixIds(norm, q), RangeIds(norm, q, upper));
    n := |RangeIds(norm, q, upper)|;
  }

  /** The reversed column the suffix scan runs over. */
  ghost predicate Mirrors(normRev: map<int, string>, norm: map<int, string>) {
    normRev.Keys == norm.Keys && forall id :: id in norm ==> normRev[id] == Reverse(norm[id])
  }

  lemma SuffixRange(normRev: map<int, string>, norm: map<int, string>, q: string)
    requires Mirrors(normRev, norm)
    ensures SuffixIds(norm, q) == PrefixIds(normRev, Reverse(q))
  {
    forall id | id in norm ensures HasSuffix(norm[id], q) <==> HasPrefix(normRev[id], Reverse(q)) {
      SuffixIsReversedPrefix(norm[id], q);
    }
  }

  method SuffixSearch(normRev: map<int, string>, ghost norm: map<int, string>, q: string, limit: nat, offset: nat)
    returns (hits: seq<Hit>)
    requires Mirrors(normRev, norm)
    ensures Selects(hits, RangeIds(normRev, Reverse(q), UpperBound(Reverse(q))), offset, limit)
    ensures SuffixIds(norm, q) <= RangeIds(normRev, Reverse(q), UpperBound(Reverse(q)))
    ensures ExactRange(Reverse(q)) ==> Selects(hits, SuffixIds(norm, q), offset, limit)
  {
    var rq := Reverse(q);
    var upper := RangeUpperBound(rq);
    SuffixRange(normRev, norm, q);
    PrefixRange(normRev, rq);
    hits := SelectRows(RangeIds(normRev, rq, upper), offset, limit);
  }

  method SuffixCount(normRev: map<int, string>, ghost norm: map<int, string>, q: string) returns (n: nat)
    requires Mirrors(normRev, norm)
    ensures n == |RangeIds(normRev, Reverse(q), UpperBound(Reverse(q)))|
    ensures |SuffixIds(norm, q)| <= n
    ensures ExactRange(Reverse(q)) ==> n == |SuffixIds(norm, q)|
  {
    var rq := Reverse(q);
    var upper := RangeUpperBound(rq);
    SuffixRange(normRev, norm, q);
    PrefixRange(normRev, rq);
    SubsetSize(SuffixIds(norm, q), RangeIds(normRev, rq, upper));
    n := |RangeIds(normRev, rq, upper)|;
  }
}
