/**
 * Marking matches of the normalized text in the raw text.
 * Offsets into the raw text are character boundaries; lengths of normalized text are UTF-8 bytes.
 */
module Highlight {
  import opened Wrappers
  import opened Text
  import opened Utf8

  // ---------------------------------------------------------------------------
  // Matches
  // ---------------------------------------------------------------------------

  /** The first occurrence at or after `i`. */
  function FindFrom(hay: string, needle: string, i: nat): (r: Option<nat>)
    requires needle != ""
    ensures r.Some? ==> i <= r.value && OccursAt(hay, needle, r.value)
    decreases |hay| - i
  {
    if i + |needle| > |hay| then None
    else if OccursAt(hay, needle, i) then Some(i)
    else FindFrom(hay, needle, i + 1)
  }

  /** The greedy non-overlapping occurrences from `i` on (`match_indices`). */
  function MatchesFrom(hay: string, needle: string, i: nat): (r: seq<nat>)
    requires needle != ""
    decreases |hay| - i
  {
    var p := FindFrom(hay, needle, i);
    if p.None? then [] else [p.value] + MatchesFrom(hay, needle, p.value + |needle|)
  }

  lemma {:induction false} FindFromIsFirst(hay: string, needle: string, i: nat, k: nat)
    requires needle != "" && i <= k && OccursAt(hay, needle, k)
    ensures FindFrom(hay, needle, i).Some? && FindFrom(hay, needle, i).value <= k
    decreases |hay| - i
  {
    if !OccursAt(hay, needle, i) { FindFromIsFirst(hay, needle, i + 1, k); }
  }

  predicate AllOccur(hay: string, needle: string, m: seq<nat>) {
    forall k :: 0 <= k < |m| ==> OccursAt(hay, needle, m[k])
  }

  predicate Apart(m: seq<nat>, width: nat) {
    forall k :: 0 < k < |m| ==> m[k - 1] + width <= m[k]
  }

  predicate Overlapped(o: nat, m: seq<nat>, width: nat) {
    exists k :: 0 <= k < |m| && m[k] <= o < m[k] + width
  }

  lemma {:induction false} MatchesApart(hay: string, needle: string, i: nat)
    requires needle != ""
    ensures var m := MatchesFrom(hay, needle, i);
            AllOccur(hay, needle, m) && Apart(m, |needle|) && (m != [] ==> i <= m[0])
    decreases |hay| - i
  {
    var p := FindFrom(hay, needle, i);
    if p.Some? {
      MatchesApart(hay, needle, p.value + |needle|);
      var rest := MatchesFrom(hay, needle, p.value + |needle|);
      assert forall k :: 0 < k <= |rest| ==> ([p.value] + rest)[k] == rest[k - 1];
    }
  }

  lemma OverlappedCons(o: nat, p: nat, rest: seq<nat>, width: nat)
    ensures Overlapped(o, [p] + rest, width) <==> p <= o < p + width || Overlapped(o, rest, width)
  {
    var m := [p] + rest;
    if p <= o < p + width { assert m[0] <= o; }
    if Overlapped(o, rest, width) {
      var k :| 0 <= k < |rest| && rest[k] <= o < rest[k] + width;
      assert m[k + 1] == rest[k];
    }
  }

  /** No occurrence is missed: each one starts inside a listed match. */
  lemma {:induction false} MatchesComplete(hay: string, needle: string, i: nat, o: nat)
    requires needle != "" && i <= o && OccursAt(hay, needle, o)
    ensures Overlapped(o, MatchesFrom(hay, needle, i), |needle|)
    decreases |hay| - i
  {
    FindFromIsFirst(hay, needle, i, o);
    var p := FindFrom(hay, needle, i).value;
    var next := p + |needle|;
    OverlappedCons(o, p, MatchesFrom(hay, needle, next), |needle|);
    if next <= o { MatchesComplete(hay, needle, next, o); }
  }

  /** The matches are the occurrences found greedily: apart from each other, and none could be added. */
  lemma MatchesAreGreedy(hay: string, needle: string)
    requires needle != ""
    ensures var m := MatchesFrom(hay, needle, 0);
            && AllOccur(hay, needle, m) && Apart(m, |needle|)
            && forall o: nat :: OccursAt(hay, needle, o) ==> Overlapped(o, m, |needle|)
  {
    MatchesApart(hay, needle, 0);
    forall o: nat | OccursAt(hay, needle, o) ensures Overlapped(o, MatchesFrom(hay, needle, 0), |needle|) {
      MatchesComplete(hay, needle, 0, o);
    }
  }

  // ---------------------------------------------------------------------------
  // Rendering spans
  // ---------------------------------------------------------------------------

  datatype Span = Span(start: nat, end: nat)

  function EndOfSpans(spans: seq<Span>): nat {
    if spans == [] then 0 else spans[|spans| - 1].end
  }

  /** Spans in order, apart from each other, inside a text of `n` characters. */
  predicate Ordered(spans: seq<Span>, n: nat) {
    spans == [] ||
    (Ordered(spans[..|spans| - 1], n)
     && EndOfSpans(spans[..|spans| - 1]) <= spans[|spans| - 1].start <= spans[|spans| - 1].end <= n)
  }

  /** The text up to the end of the last span, with a marker pair around every span. */
  function Rendered(raw: string, spans: seq<Span>, before: string, after: string): string
    requires Ordered(spans, |raw|)
  {
    if spans == [] then ""
    else
      var front, s := spans[..|spans| - 1], spans[|spans| - 1];
      Rendered(raw, front, before, after) + raw[EndOfSpans(front)..s.start] + before + raw[s.start..s.end] + after
  }

  lemma EndInside(spans: seq<Span>, n: nat)
    requires Ordered(spans, n)
    ensures EndOfSpans(spans) <= n
  {
  }

  function Marked(raw: string, spans: seq<Span>, before: string, after: string): string
    requires Ordered(spans, |raw|)
  {
    EndInside(spans, |raw|);
    Rendered(raw, spans, before, after) + raw[EndOfSpans(spans)..]
  }

  /** Deletes the markers of the given lengths around each span. */
  function WithoutMarkers(out: string, spans: seq<Span>, before: nat, after: nat): string
    decreases |spans|
  {
    if spans == [] then out
    else
      var n := |spans| - 1;
      var p := spans[n].start + n * (before + after);
      var q := p + before + (spans[n].end - spans[n].start);
      if !(0 <= p <= p + before <= q <= q + after <= |out|) then out
      else WithoutMarkers(out[..p], spans[..n], before, after) + out[p + before..q] + out[q + after..]
  }

  /** The text `a + before + middle + after + rest`, cut at its markers. */
  lemma Pieces(out: string, a: string, before: string, middle: string, after: string, rest: string)
    requires out == a + before + middle + after + rest
    ensures var p := |a|;
            var q := p + |before| + |middle|;
            && q + |after| <= |out|
            && out[..p] == a && out[p + |before|..q] == middle && out[q + |after|..] == rest
  {
  }

  lemma LastDeleted(out: string, spans: seq<Span>, a: string, before: string, middle: string, after: string,
                    rest: string)
    requires spans != [] && out == a + before + middle + after + rest
    requires var s := spans[|spans| - 1];
             |a| == s.start + (|spans| - 1) * (|before| + |after|) && |middle| == s.end - s.start
    ensures WithoutMarkers(out, spans, |before|, |after|) ==
            WithoutMarkers(a, spans[..|spans| - 1], |before|, |after|) + middle + rest
  {
    Pieces(out, a, before, middle, after, rest);
  }

  lemma {:induction false} RenderedDeleted(raw: string, spans: seq<Span>, before: string, after: string, rest: string)
    requires Ordered(spans, |raw|)
    ensures EndOfSpans(spans) <= |raw|
    ensures WithoutMarkers(Rendered(raw, spans, before, after) + rest, spans, |before|, |after|) ==
        raw[..EndOfSpans(spans)] + rest
  {
    if spans == [] {
      assert "" + rest == raw[..0] + rest;
    } else {
      var n := |spans| - 1;
      var front, s := spans[..n], spans[n];
      var gap, middle := raw[EndOfSpans(front)..s.start], raw[s.start..s.end];
      RenderedDeleted(raw, front, before, after, gap);
      RenderedLength(raw, front, before, after);
      var a := Rendered(raw, front, before, after) + gap;
      var out := Rendered(raw, spans, before, after) + rest;
      LastDeleted(out, spans, a, before, middle, after, rest);
      Adjacent(raw, EndOfSpans(front), s.start, s.end);
      assert WithoutMarkers(a, front, |before|, |after|) == raw[..EndOfSpans(front)] + gap;
    }
  }

  lemma Adjacent(s: string, i: nat, j: nat, k: nat)
    requires i <= j <= k <= |s|
    ensures s[..i] + s[i..j] + s[j..k] == s[..k]
  {
  }

  /** Deleting the markers from the highlighted text gives back the raw text. */
  lemma MarkersDeleted(raw: string, spans: seq<Span>, before: string, after: string)
    requires Ordered(spans, |raw|)
    ensures WithoutMarkers(Marked(raw, spans, before, after), spans, |before|, |after|) == raw
  {
    EndInside(spans, |raw|);
    RenderedDeleted(raw, spans, before, after, raw[EndOfSpans(spans)..]);
    assert raw[..EndOfSpans(spans)] + raw[EndOfSpans(spans)..] == raw;
  }

  /** The marked text is longer by exactly one marker pair per span. */
  lemma {:induction false} MarkedLength(raw: string, spans: seq<Span>, before: string, after: string)
    requires Ordered(spans, |raw|)
    ensures |Marked(raw, spans, before, after)| == |raw| + |spans| * (|before| + |after|)
  {
    RenderedLength(raw, spans, before, after);
  }

  lemma {:induction false} RenderedLength(raw: string, spans: seq<Span>, before: string, after: string)
    requires Ordered(spans, |raw|)
    ensures |Rendered(raw, spans, before, after)| == EndOfSpans(spans) + |spans| * (|before| + |after|)
  {
    if spans != [] {
      var n, w := |spans| - 1, |before| + |after|;
      RenderedLength(raw, spans[..n], before, after);
      assert (n + 1) * w == n * w + w;
    }
  }

  ghost predicate InSpans(i: nat, spans: seq<Span>) {
    exists k :: 0 <= k < |spans| && spans[k].start <= i < spans[k].end
  }

  /** The spans of the matches themselves. */
  function MatchSpans(matches: seq<nat>, width: nat): seq<Span> {
    seq(|matches|, i requires 0 <= i < |matches| => Span(matches[i], matches[i] + width))
  }

  lemma {:induction false} MatchSpansOrdered(hay: string, needle: string, matches: seq<nat>)
    requires AllOccur(hay, needle, matches) && Apart(matches, |needle|)
    ensures Ordered(MatchSpans(matches, |needle|), |hay|)
  {
    if matches != [] {
      var front, p := matches[..|matches| - 1], matches[|matches| - 1];
      MatchSpansOrdered(hay, needle, front);
      assert OccursAt(hay, needle, p);
      OrderedSnoc(MatchSpans(front, |needle|), Span(p, p + |needle|), |hay|);
      MatchSpansSnoc(front, p, |needle|);
      assert matches == front + [p];
    }
  }

  lemma MatchSpansSnoc(matches: seq<nat>, p: nat, width: nat)
    ensures MatchSpans(matches + [p], width) == MatchSpans(matches, width) + [Span(p, p + width)]
  {
  }

  /** Wraps every non-overlapping occurrence of the needle. */
  method HighlightOccurrences(hay: string, needle: string, before: string, after: string) returns (out: string)
    ensures needle == "" ==> out == hay
    ensures needle != "" ==>
              var spans := MatchSpans(MatchesFrom(hay, needle, 0), |needle|);
              Ordered(spans, |hay|) && out == Marked(hay, spans, before, after)
  {
    if needle == "" { return hay; }
    var matches := MatchesFrom(hay, needle, 0);
    MatchesAreGreedy(hay, needle);
    MatchSpansOrdered(hay, needle, matches);
    ghost var spans := MatchSpans(matches, |needle|);
    if matches == [] { return hay; }
    out := RenderMatches(hay, matches, |needle|, before, after);
  }

  /** The rendering loop of `HighlightOccurrences`. */
  method RenderMatches(hay: string, matches: seq<nat>, width: nat, before: string, after: string) returns (out: string)
    requires Ordered(MatchSpans(matches, width), |hay|)
    ensures out == Marked(hay, MatchSpans(matches, width), before, after)
  {
    ghost var spans := MatchSpans(matches, width);
    out := "";
    var prevEnd: nat := 0;
    for i := 0 to |matches|
      invariant prevEnd <= |hay| && RenderedAs(out, prevEnd, hay, spans[..i], before, after)
    {
      var pos := matches[i];
      RenderOne(out, prevEnd, hay, spans, i, before, after);
      out := out + hay[prevEnd..pos] + before + hay[pos..pos + width] + after;
      prevEnd := pos + width;
    }
    assert spans[..|matches|] == spans;
    out := out + hay[prevEnd..];
  }

  /** What the rendering loops have written so far. */
  ghost predicate RenderedAs(out: string, prevEnd: nat, raw: string, spans: seq<Span>, before: string, after: string) {
    Ordered(spans, |raw|) && prevEnd == EndOfSpans(spans) && out == Rendered(raw, spans, before, after)
  }

  lemma RenderOne(out: string, prevEnd: nat, raw: string, spans: seq<Span>, i: nat, before: string, after: string)
    requires i < |spans| && RenderedAs(out, prevEnd, raw, spans[..i], before, after)
    requires prevEnd <= spans[i].start <= spans[i].end <= |raw| || Ordered(spans, |raw|)
    ensures prevEnd <= spans[i].start <= spans[i].end <= |raw|
    ensures RenderedAs(out + raw[prevEnd..spans[i].start] + before + raw[spans[i].start..spans[i].end] + after,
        spans[i].end,
                       raw, spans[..i + 1], before, after)
  {
    if Ordered(spans, |raw|) { OrderedPrefix(spans, |raw|, i + 1); }
    assert spans[..i + 1][..i] == spans[..i];
  }

  lemma {:induction false} OrderedPrefix(spans: seq<Span>, n: nat, i: nat)
    requires Ordered(spans, n) && i <= |spans|
    ensures Ordered(spans[..i], n)
    decreases |spans| - i
  {
    if i < |spans| {
      OrderedPrefix(spans, n, i + 1);
      assert spans[..i + 1][..i] == spans[..i];
    } else {
      assert spans[..i] == spans;
    }
  }

  // ---------------------------------------------------------------------------
  // Mapping normalized offsets back to raw boundaries
  // ---------------------------------------------------------------------------

  /** Bytes of the normal form of the first `i` characters; the table's first entry is 0 by construction. */
  function PrefixBytes(raw: string, normalize: string -> string, i: nat): nat
    requires i <= |raw|
  {
    if i == 0 then 0 else ByteLen(normalize(raw[..i]))
  }

  /** Longer prefixes never normalize to fewer bytes. */
  ghost predicate Monotone(raw: string, normalize: string -> string) {
    forall i, j :: 0 <= i <= j <= |raw| ==> PrefixBytes(raw, normalize, i) <= PrefixBytes(raw, normalize, j)
  }

  /** The last boundary whose prefix normalizes to at most `off` bytes. */
  ghost predicate IsStart(raw: string, normalize: string -> string, off: nat, i: nat) {
    && i <= |raw| && PrefixBytes(raw, normalize, i) <= off
    && forall j :: i < j <= |raw| ==> off < PrefixBytes(raw, normalize, j)
  }

  /** The first boundary whose prefix normalizes to at least `off` bytes, or the end of the text. */
  ghost predicate IsEnd(raw: string, normalize: string -> string, off: nat, i: nat) {
    && i <= |raw| && (i == |raw| || off <= PrefixBytes(raw, normalize, i))
    && forall j :: 0 <= j < i ==> PrefixBytes(raw, normalize, j) < off
  }

  /** An entry of the table: a raw boundary and the bytes its prefix normalizes to. */
  datatype Bound = Bound(boundary: nat, bytes: nat)

  /** The table up to the first boundary that reaches `cap`; from there on its value is repeated. */
  ghost predicate IsTable(bounds: seq<Bound>, raw: string, normalize: string -> string, cap: nat) {
    && |bounds| == |raw| + 1
    && (forall i :: 0 <= i < |bounds| ==> bounds[i].boundary == i)
    && exists stop: nat :: CutAt(bounds, raw, normalize, cap, stop)
  }

  ghost predicate CutAt(bounds: seq<Bound>, raw: string, normalize: string -> string, cap: nat, stop: nat) {
    && |bounds| == |raw| + 1 && stop <= |raw|
    && (forall i :: 0 <= i <= stop ==> bounds[i].bytes == PrefixBytes(raw, normalize, i))
    && (forall i :: stop < i <= |raw| ==> bounds[i].bytes == PrefixBytes(raw, normalize, stop))
    && (stop == |raw| || cap <= PrefixBytes(raw, normalize, stop))
  }

  method BuildBounds(raw: string, normalize: string -> string, cap: nat) returns (bounds: seq<Bound>)
    ensures IsTable(bounds, raw, normalize, cap)
  {
    bounds := [Bound(0, 0)];
    for i := 0 to |raw|
      invariant |bounds| == i + 1
      invariant forall k :: 0 <= k <= i ==> bounds[k] == Bound(k, PrefixBytes(raw, normalize, k))
    {
      var bytes := ByteLen(normalize(raw[..i + 1]));
      bounds := bounds + [Bound(i + 1, bytes)];
      if bytes >= cap {
        for j := i + 1 to |raw|
          invariant |bounds| == j + 1
          invariant forall k :: 0 <= k <= i + 1 ==> bounds[k] == Bound(k, PrefixBytes(raw, normalize, k))
          invariant forall k :: i + 1 < k <= j ==> bounds[k] == Bound(k, bytes)
        {
          bounds := bounds + [Bound(j + 1, bytes)];
        }
        assert CutAt(bounds, raw, normalize, cap, i + 1);
        return;
      }
    }
    assert CutAt(bounds, raw, normalize, cap, |raw|);
  }

  /** The number of leading entries below the limit, by binary search. */
  method PartitionPoint(bounds: seq<Bound>, off: nat, strict: bool) returns (idx: nat)
    ensures idx <= |bounds|
    ensures Partitioned(bounds, off, strict) ==>
              && (forall k :: 0 <= k < idx ==> Below(bounds[k], off, strict))
              && (forall k :: idx <= k < |bounds| ==> !Below(bounds[k], off, strict))
  {
    var lo, hi := 0, |bounds|;
    while lo < hi
      invariant lo <= hi <= |bounds|
      invariant Partitioned(bounds, off, strict) ==>
                  && (forall k :: 0 <= k < lo ==> Below(bounds[k], off, strict))
                  && (forall k :: hi <= k < |bounds| ==> !Below(bounds[k], off, strict))
    {
      var mid := (lo + hi) / 2;
      if Below(bounds[mid], off, strict) { lo := mid + 1; } else { hi := mid; }
    }
    idx := lo;
  }

  /** `bytes < off`, or `bytes <= off`. */
  predicate Below(b: Bound, off: nat, strict: bool) {
    if strict then b.bytes < off else b.bytes <= off
  }

  ghost predicate Partitioned(bounds: seq<Bound>, off: nat, strict: bool) {
    forall i, j :: 0 <= i <= j < |bounds| && Below(bounds[j], off, strict) ==> Below(bounds[i], off, strict)
  }

  lemma TableMonotone(bounds: seq<Bound>, raw: string, normalize: string -> string, cap: nat, off: nat, strict: bool)
    requires IsTable(bounds, raw, normalize, cap) && Monotone(raw, normalize)
    ensures Partitioned(bounds, off, strict)
  {
    forall i, j | 0 <= i <= j < |bounds| ensures bounds[i].bytes <= bounds[j].bytes {
    }
  }

  /** Below the cap the cut table answers as the full one would. */
  lemma TableAgrees(bounds: seq<Bound>, raw: string, normalize: string -> string, cap: nat, off: nat, strict: bool,
                    i: nat)
    requires IsTable(bounds, raw, normalize, cap) && Monotone(raw, normalize) && i <= |raw|
    requires if strict then off <= cap else off < cap
    ensures Below(bounds[i], off, strict) <==> Below(Bound(i, PrefixBytes(raw, normalize, i)), off, strict)
  {
  }

  method StartFor(bounds: seq<Bound>, off: nat, ghost raw: string, ghost normalize: string -> string, ghost cap: nat)
    returns (i: nat)
    requires IsTable(bounds, raw, normalize, cap) && off < cap
    ensures i <= |raw|
    ensures Monotone(raw, normalize) ==> IsStart(raw, normalize, off, i)
  {
    var idx := PartitionPoint(bounds, off, false);
    i := if idx == 0 then 0 else bounds[idx - 1].boundary;
    if Monotone(raw, normalize) {
      TableMonotone(bounds, raw, normalize, cap, off, false);
      forall j | 0 <= j <= |raw| ensures Below(bounds[j], off, false) <==> PrefixBytes(raw, normalize, j) <= off {
        TableAgrees(bounds, raw, normalize, cap, off, false, j);
      }
      assert PrefixBytes(raw, normalize, 0) == 0;
      assert Below(bounds[0], off, false);
    }
  }

  method EndFor(bounds: seq<Bound>, off: nat, raw: string, ghost normalize: string -> string, ghost cap: nat)
    returns (i: nat)
    requires IsTable(bounds, raw, normalize, cap) && off <= cap
    ensures i <= |raw|
    ensures Monotone(raw, normalize) ==> IsEnd(raw, normalize, off, i)
  {
    var idx := PartitionPoint(bounds, off, true);
    i := if idx >= |bounds| then |raw| else bounds[idx].boundary;
    if Monotone(raw, normalize) {
      TableMonotone(bounds, raw, normalize, cap, off, true);
      forall j | 0 <= j <= |raw| ensures Below(bounds[j], off, true) <==> PrefixBytes(raw, normalize, j) < off {
        TableAgrees(bounds, raw, normalize, cap, off, true, j);
      }
    }
  }

  // ---------------------------------------------------------------------------
  // Marking the raw text
  // ---------------------------------------------------------------------------

  /** A match as a byte range of the normalized text. */
  datatype Range = Range(start: nat, end: nat)

  function RangeOf(norm: string, needle: string, p: nat): Range
    requires OccursAt(norm, needle, p)
  {
    Range(ByteLen(norm[..p]), ByteLen(norm[..p + |needle|]))
  }

  function MatchRanges(norm: string, needle: string): seq<Range>
    requires needle != ""
  {
    MatchesApart(norm, needle, 0);
    var m := MatchesFrom(norm, needle, 0);
    seq(|m|, i requires 0 <= i < |m| && OccursAt(norm, needle, m[i]) => RangeOf(norm, needle, m[i]))
  }

  predicate OrderedRanges(ranges: seq<Range>) {
    && (forall k :: 0 <= k < |ranges| ==> ranges[k].start < ranges[k].end)
    && (forall k :: 0 < k < |ranges| ==> ranges[k - 1].end <= ranges[k].start)
  }

  lemma {:induction false} ByteLenGrows(s: string, i: nat, j: nat)
    requires i <= j <= |s|
    ensures ByteLen(s[..i]) <= ByteLen(s[..j]) && (i < j ==> ByteLen(s[..i]) < ByteLen(s[..j]))
  {
    if i < j {
      ByteLenGrows(s, i, j - 1);
      assert s[..j][..j - 1] == s[..j - 1];
    }
  }

  lemma RangesInOrder(norm: string, needle: string, p: nat, q: nat)
    requires needle != "" && OccursAt(norm, needle, p) && OccursAt(norm, needle, q) && p + |needle| <= q
    ensures RangeOf(norm, needle, p).end <= RangeOf(norm, needle, q).start
  {
    ByteLenGrows(norm, p + |needle|, q);
  }

  lemma RangeNotEmpty(norm: string, needle: string, p: nat)
    requires needle != "" && OccursAt(norm, needle, p)
    ensures RangeOf(norm, needle, p).start < RangeOf(norm, needle, p).end
  {
    ByteLenGrows(norm, p, p + |needle|);
  }

  lemma MatchRangesOrdered(norm: string, needle: string)
    requires needle != ""
    ensures OrderedRanges(MatchRanges(norm, needle))
  {
    MatchesApart(norm, needle, 0);
    var m, ranges := MatchesFrom(norm, needle, 0), MatchRanges(norm, needle);
    forall k | 0 <= k < |ranges| ensures ranges[k].start < ranges[k].end { RangeNotEmpty(norm, needle, m[k]); }
    forall k | 0 < k < |ranges|
      ensures ranges[k - 1].end <= ranges[k].start
    {
      RangesInOrder(norm, needle, m[k - 1], m[k]);
    }
  }

  /** Raw position `i` belongs to the source of a range. */
  ghost predicate SourceOf(raw: string, normalize: string -> string, r: Range, i: nat) {
    exists a: nat, b: nat :: IsStart(raw, normalize, r.start, a) && IsEnd(raw, normalize, r.end, b) && a <= i < b
  }

  ghost predicate Covered(raw: string, normalize: string -> string, ranges: seq<Range>, i: nat) {
    exists k :: 0 <= k < |ranges| && SourceOf(raw, normalize, ranges[k], i)
  }

  /** The spans written so far mark exactly the sources of the ranges seen so far. */
  ghost predicate MarksSources(spans: seq<Span>, raw: string, normalize: string -> string, ranges: seq<Range>) {
    && |spans| == |ranges|
    && (forall i: nat :: InSpans(i, spans) <==> Covered(raw, normalize, ranges, i))
    && (ranges != [] ==> IsEnd(raw, normalize, ranges[|ranges| - 1].end, EndOfSpans(spans)))
  }

  /** Each span runs from the source's start, or the previous end if that is later, to the source's end. */
  ghost predicate SpanExact(spans: seq<Span>, raw: string, normalize: string -> string, r: Range, k: nat)
    requires k < |spans|
  {
    var prev := if k == 0 then 0 else spans[k - 1].end;
    IsEnd(raw, normalize, r.end, spans[k].end)
    && exists a: nat :: IsStart(raw, normalize, r.start, a) && spans[k].start == if a > prev then a else prev
  }

  ghost predicate SpansExact(spans: seq<Span>, raw: string, normalize: string -> string, ranges: seq<Range>) {
    |spans| == |ranges| && forall k :: 0 <= k < |spans| ==> SpanExact(spans, raw, normalize, ranges[k], k)
  }

  lemma NextSpanExact(spans: seq<Span>, raw: string, normalize: string -> string, ranges: seq<Range>, r: Range, a: nat,
                      b: nat, rs: nat)
    requires SpansExact(spans, raw, normalize, ranges)
    requires IsStart(raw, normalize, r.start, a) && IsEnd(raw, normalize, r.end, b)
    requires rs == if a > EndOfSpans(spans) then a else EndOfSpans(spans)
    ensures SpansExact(spans + [Span(rs, b)], raw, normalize, ranges + [r])
  {
    var more, wider := spans + [Span(rs, b)], ranges + [r];
    forall k | 0 <= k < |more| ensures SpanExact(more, raw, normalize, wider[k], k) {
      if k < |spans| {
        assert SpanExact(spans, raw, normalize, ranges[k], k);
        assert more[k] == spans[k] && (k > 0 ==> more[k - 1] == spans[k - 1]);
      }
    }
  }

  lemma StartUnique(raw: string, normalize: string -> string, off: nat, i: nat, j: nat)
    requires IsStart(raw, normalize, off, i) && IsStart(raw, normalize, off, j)
    ensures i == j
  {
  }

  lemma EndUnique(raw: string, normalize: string -> string, off: nat, i: nat, j: nat)
    requires IsEnd(raw, normalize, off, i) && IsEnd(raw, normalize, off, j)
    ensures i == j
  {
  }

  lemma StartBeforeEnd(raw: string, normalize: string -> string, s: nat, e: nat, a: nat, b: nat)
    requires Monotone(raw, normalize) && s < e && IsStart(raw, normalize, s, a) && IsEnd(raw, normalize, e, b)
    ensures a <= b
  {
    var m := if b < a then b else a;
    assert PrefixBytes(raw, normalize, m) <= PrefixBytes(raw, normalize, a);
  }

  lemma StartsGrow(raw: string, normalize: string -> string, s: nat, s': nat, a: nat, a': nat)
    requires s <= s' && IsStart(raw, normalize, s, a) && IsStart(raw, normalize, s', a')
    ensures a <= a'
  {
  }

  lemma EndsGrow(raw: string, normalize: string -> string, e: nat, e': nat, b: nat, b': nat)
    requires e <= e' && IsEnd(raw, normalize, e, b) && IsEnd(raw, normalize, e', b')
    ensures b <= b'
  {
  }

  lemma SourceIs(raw: string, normalize: string -> string, r: Range, a: nat, b: nat, i: nat)
    requires IsStart(raw, normalize, r.start, a) && IsEnd(raw, normalize, r.end, b)
    ensures SourceOf(raw, normalize, r, i) <==> a <= i < b
  {
    if SourceOf(raw, normalize, r, i) {
      var x: nat, y: nat :| IsStart(raw, normalize, r.start, x) && IsEnd(raw, normalize, r.end, y) && x <= i < y;
      StartUnique(raw, normalize, r.start, a, x);
      EndUnique(raw, normalize, r.end, b, y);
    }
  }

  lemma CoveredSnoc(raw: string, normalize: string -> string, ranges: seq<Range>, r: Range, a: nat, b: nat, i: nat)
    requires IsStart(raw, normalize, r.start, a) && IsEnd(raw, normalize, r.end, b)
    ensures Covered(raw, normalize, ranges + [r], i) <==> Covered(raw, normalize, ranges, i) || a <= i < b
  {
    var more := ranges + [r];
    if Covered(raw, normalize, more, i) {
      var k :| 0 <= k < |more| && SourceOf(raw, normalize, more[k], i);
      if k < |ranges| {
        assert ranges[k] == more[k];
      } else {
        SourceIs(raw, normalize, r, a, b, i);
      }
    }
    if Covered(raw, normalize, ranges, i) {
      var k :| 0 <= k < |ranges| && SourceOf(raw, normalize, ranges[k], i);
      assert more[k] == ranges[k];
    }
    if a <= i < b {
      SourceIs(raw, normalize, r, a, b, i);
      assert more[|ranges|] == r;
    }
  }

  lemma InSpansSnoc(i: nat, spans: seq<Span>, s: Span)
    ensures InSpans(i, spans + [s]) <==> InSpans(i, spans) || s.start <= i < s.end
  {
    var more := spans + [s];
    if InSpans(i, spans) {
      var k :| 0 <= k < |spans| && spans[k].start <= i < spans[k].end;
      assert more[k] == spans[k];
    }
    if s.start <= i < s.end { assert more[|spans|] == s; }
  }

  /** The next span, pushed right past the previous one, adds exactly the part of its source not yet marked. */
  lemma NextSpan(spans: seq<Span>, raw: string, normalize: string -> string, ranges: seq<Range>, r: Range, a: nat,
                 b: nat)
    requires Monotone(raw, normalize) && OrderedRanges(ranges + [r])
    requires MarksSources(spans, raw, normalize, ranges)
    requires IsStart(raw, normalize, r.start, a) && IsEnd(raw, normalize, r.end, b)
    ensures var prev := EndOfSpans(spans);
            var rs := if a > prev then a else prev;
            var re := if b > rs then b else rs;
            re == b && MarksSources(spans + [Span(rs, re)], raw, normalize, ranges + [r])
  {
    var prev := EndOfSpans(spans);
    var rs := if a > prev then a else prev;
    var more := ranges + [r];
    assert r == more[|ranges|] && forall k :: 0 <= k < |ranges| ==> more[k] == ranges[k];
    StartBeforeEnd(raw, normalize, r.start, r.end, a, b);
    if ranges != [] {
      var last := ranges[|ranges| - 1];
      assert more[|ranges| - 1].end <= more[|ranges|].start;
      EndsGrow(raw, normalize, last.end, r.end, prev, b);
    }
    forall i: nat ensures InSpans(i, spans + [Span(rs, b)]) <==> Covered(raw, normalize, more, i) {
      CoveredSnoc(raw, normalize, ranges, r, a, b, i);
      InSpansSnoc(i, spans, Span(rs, b));
      if a <= i < prev { MarkedBefore(raw, normalize, ranges, r, a, prev, i); }
    }
  }

  /** What of the next source lies before the previous end is part of the previous source. */
  lemma MarkedBefore(raw: string, normalize: string -> string, ranges: seq<Range>, r: Range, a: nat, prev: nat, i: nat)
    requires OrderedRanges(ranges + [r]) && ranges != []
    requires IsStart(raw, normalize, r.start, a) && IsEnd(raw, normalize, ranges[|ranges| - 1].end, prev)
    requires a <= i < prev
    ensures Covered(raw, normalize, ranges, i)
  {
    var n := |ranges| - 1;
    var more := ranges + [r];
    assert more[n] == ranges[n] && more[n + 1] == r;
    var x := StartExists(raw, normalize, ranges[n].start);
    StartsGrow(raw, normalize, ranges[n].start, r.start, x, a);
    SourceIs(raw, normalize, ranges[n], x, prev, i);
  }

  lemma StartExists(raw: string, normalize: string -> string, off: nat) returns (i: nat)
    ensures IsStart(raw, normalize, off, i)
  {
    i := |raw|;
    while i > 0 && off < PrefixBytes(raw, normalize, i)
      invariant i <= |raw| && forall j :: i < j <= |raw| ==> off < PrefixBytes(raw, normalize, j)
    {
      i := i - 1;
    }
  }

  lemma OrderedSnoc(spans: seq<Span>, s: Span, n: nat)
    requires Ordered(spans, n) && EndOfSpans(spans) <= s.start <= s.end <= n
    ensures Ordered(spans + [s], n)
  {
    assert (spans + [s])[..|spans|] == spans;
  }

  /** `out` is the raw text with a marker pair around each of `spans`, one per match of the needle. */
  ghost predicate HighlightedAt(spans: seq<Span>, out: string, raw: string, norm: string, needle: string,
                                before: string, after: string, normalize: string -> string)
    requires needle != ""
  {
    && Ordered(spans, |raw|) && out == Marked(raw, spans, before, after)
    && |spans| == |MatchesFrom(norm, needle, 0)|
    && (Monotone(raw, normalize) ==>
          && MarksSources(spans, raw, normalize, MatchRanges(norm, needle))
          && SpansExact(spans, raw, normalize, MatchRanges(norm, needle)))
  }

  /**
   * Marks the matches of the needle in the raw text: one marker pair per match and nothing else inserted.
   * When prefix lengths never decrease, the marked characters are exactly the sources of the matches.
   */
  method HighlightRaw(raw: string, norm: string, needle: string, before: string, after: string,
                      normalize: string -> string)
    returns (out: string)
    ensures needle == "" ==> out == raw
    ensures needle != "" ==> exists spans :: HighlightedAt(spans, out, raw, norm, needle, before, after, normalize)
  {
    if needle == "" { return raw; }
    var ranges := MatchRanges(norm, needle);
    if ranges == [] {
      assert HighlightedAt([], raw, raw, norm, needle, before, after, normalize);
      return raw;
    }
    MatchRangesOrdered(norm, needle);
    RangesUpTo(ranges);
    var bounds := BuildBounds(raw, normalize, ranges[|ranges| - 1].end);
    ghost var spans;
    out, spans := MarkRanges(raw, ranges, bounds, before, after, normalize);
    assert HighlightedAt(spans, out, raw, norm, needle, before, after, normalize);
  }

  /** Ranges in order end with the largest offset. */
  lemma RangesUpTo(ranges: seq<Range>)
    requires OrderedRanges(ranges) && ranges != []
    ensures forall k :: 0 <= k < |ranges| ==>
        ranges[k].start < ranges[|ranges| - 1].end && ranges[k].end <= ranges[|ranges| - 1].end
  {
    var n := |ranges| - 1;
    var k := n;
    while k > 0
      invariant 0 <= k <= n && forall j :: k <= j <= n ==> ranges[j].end <= ranges[n].end
    {
      k := k - 1;
      assert ranges[k].end <= ranges[k + 1].start;
    }
  }

  /** The marking loop of `HighlightRaw`. */
  method MarkRanges(raw: string, ranges: seq<Range>, bounds: seq<Bound>, before: string, after: string,
                    ghost normalize: string -> string)
    returns (out: string, ghost spans: seq<Span>)
    requires OrderedRanges(ranges) && ranges != []
    requires IsTable(bounds, raw, normalize, ranges[|ranges| - 1].end)
    ensures Ordered(spans, |raw|) && |spans| == |ranges| && out == Marked(raw, spans, before, after)
    ensures Monotone(raw, normalize) ==>
              MarksSources(spans, raw, normalize, ranges) && SpansExact(spans, raw, normalize, ranges)
  {
    RangesUpTo(ranges);
    ghost var cap := ranges[|ranges| - 1].end;
    out, spans := "", [];
    var prevEnd: nat := 0;
    for i := 0 to |ranges|
      invariant |spans| == i && prevEnd <= |raw| && RenderedAs(out, prevEnd, raw, spans, before, after)
      invariant Monotone(raw, normalize) ==>
                  MarksSources(spans, raw, normalize, ranges[..i]) && SpansExact(spans, raw, normalize, ranges[..i])
    {
      var s := StartFor(bounds, ranges[i].start, raw, normalize, cap);
      var e := EndFor(bounds, ranges[i].end, raw, normalize, cap);
      var rs := if s > prevEnd then s else prevEnd;
      var re := if e > rs then e else rs;
      if Monotone(raw, normalize) {
        NextMarked(spans, raw, normalize, ranges, i, s, e);
      }
      AppendSpan(out, prevEnd, raw, spans, Span(rs, re), before, after);
      out := out + raw[prevEnd..rs] + before + raw[rs..re] + after;
      spans := spans + [Span(rs, re)];
      prevEnd := re;
    }
    assert ranges[..|ranges|] == ranges;
    out := out + raw[prevEnd..];
  }

  lemma NextMarked(spans: seq<Span>, raw: string, normalize: string -> string, ranges: seq<Range>, i: nat, s: nat,
                   e: nat)
    requires Monotone(raw, normalize) && OrderedRanges(ranges) && i < |ranges|
    requires MarksSources(spans, raw, normalize, ranges[..i]) && SpansExact(spans, raw, normalize, ranges[..i])
    requires IsStart(raw, normalize, ranges[i].start, s) && IsEnd(raw, normalize, ranges[i].end, e)
    ensures var prev := EndOfSpans(spans);
            var rs := if s > prev then s else prev;
            var re := if e > rs then e else rs;
            && MarksSources(spans + [Span(rs, re)], raw, normalize, ranges[..i + 1])
            && SpansExact(spans + [Span(rs, re)], raw, normalize, ranges[..i + 1])
  {
    RangesPrefix(ranges, i);
    NextBoth(spans, raw, normalize, ranges[..i], ranges[i], s, e);
  }

  lemma NextBoth(spans: seq<Span>, raw: string, normalize: string -> string, ranges: seq<Range>, r: Range, s: nat,
                 e: nat)
    requires Monotone(raw, normalize) && OrderedRanges(ranges + [r])
    requires MarksSources(spans, raw, normalize, ranges) && SpansExact(spans, raw, normalize, ranges)
    requires IsStart(raw, normalize, r.start, s) && IsEnd(raw, normalize, r.end, e)
    ensures var prev := EndOfSpans(spans);
            var rs := if s > prev then s else prev;
            var re := if e > rs then e else rs;
            && MarksSources(spans + [Span(rs, re)], raw, normalize, ranges + [r])
            && SpansExact(spans + [Span(rs, re)], raw, normalize, ranges + [r])
  {
    var prev := EndOfSpans(spans);
    NextSpan(spans, raw, normalize, ranges, r, s, e);
    NextSpanExact(spans, raw, normalize, ranges, r, s, e, if s > prev then s else prev);
  }

  lemma RangesPrefix(ranges: seq<Range>, i: nat)
    requires OrderedRanges(ranges) && i < |ranges|
    ensures ranges[..i] + [ranges[i]] == ranges[..i + 1] && OrderedRanges(ranges[..i] + [ranges[i]])
  {
    assert ranges[..i] + [ranges[i]] == ranges[..i + 1];
  }

  lemma AppendSpan(out: string, prevEnd: nat, raw: string, spans: seq<Span>, s: Span, before: string, after: string)
    requires RenderedAs(out, prevEnd, raw, spans, before, after) && prevEnd <= s.start <= s.end <= |raw|
    ensures RenderedAs(out + raw[prevEnd..s.start] + before + raw[s.start..s.end] + after, s.end, raw, spans + [s],
        before, after)
  {
    OrderedSnoc(spans, s, |raw|);
    assert (spans + [s])[..|spans|] == spans;
  }

  // ---------------------------------------------------------------------------
  // What the source of a match normalizes to
  // ---------------------------------------------------------------------------

  /** Normalizing more of the text only appends. */
  ghost predicate Appending(raw: string, normalize: string -> string) {
    normalize("") == "" && forall i, j :: 0 <= i <= j <= |raw| ==> normalize(raw[..i]) <= normalize(raw[..j])
  }

  lemma PrefixLength(norm: string, u: string, p: nat)
    requires u <= norm && p <= |norm|
    ensures ByteLen(u) <= ByteLen(norm[..p]) <==> |u| <= p
    ensures ByteLen(norm[..p]) <= ByteLen(u) <==> p <= |u|
  {
    assert u == norm[..|u|];
    if |u| <= p { ByteLenGrows(norm, |u|, p); }
    if p <= |u| { ByteLenGrows(norm, p, |u|); }
  }

  /**
   * For an appending normalizer, what normalizing adds between the two ends of a match's source contains the match.
   */
  lemma SourceContainsMatch(raw: string, normalize: string -> string, needle: string, p: nat, a: nat, b: nat)
    requires Appending(raw, normalize) && needle != "" && OccursAt(normalize(raw), needle, p)
    requires var r := RangeOf(normalize(raw), needle, p);
             IsStart(raw, normalize, r.start, a) && IsEnd(raw, normalize, r.end, b)
    ensures var u, v := normalize(raw[..a]), normalize(raw[..b]);
            u <= v <= normalize(raw) && Contains(v[|u|..], needle)
  {
    var norm, u, v := normalize(raw), normalize(raw[..a]), normalize(raw[..b]);
    assert raw[..|raw|] == raw && raw[..0] == "";
    PrefixLength(norm, u, p);
    PrefixLength(norm, v, p + |needle|);
    assert |u| <= p && p + |needle| <= |v|;
    OccursInSlice(norm, needle, p, |u|, |v|);
    assert v == norm[..|v|] && u == norm[..|u|];
  }

  lemma OccursInSlice(s: string, q: string, p: nat, i: nat, j: nat)
    requires OccursAt(s, q, p) && i <= p && p + |q| <= j <= |s|
    ensures Contains(s[..j][i..], q)
  {
    var part := s[..j][i..];
    assert |part| == j - i && forall k :: 0 <= k < |part| ==> part[k] == s[i + k];
    var here, there := part[p - i..p - i + |q|], s[p..p + |q|];
    assert forall k :: 0 <= k < |q| ==> here[k] == part[p - i + k] && there[k] == s[p + k];
    assert here == there;
    assert OccursAt(part, q, p - i);
  }

  // ---------------------------------------------------------------------------
  // There is only one exact highlighting
  // ---------------------------------------------------------------------------

  lemma {:induction false} SpanDetermined(spans: seq<Span>, other: seq<Span>, raw: string, normalize: string -> string,
                                          ranges: seq<Range>, k: nat)
    requires SpansExact(spans, raw, normalize, ranges) && SpansExact(other, raw, normalize, ranges) && k < |ranges|
    ensures spans[k] == other[k]
  {
    var prev := 0;
    if k > 0 {
      SpanDetermined(spans, other, raw, normalize, ranges, k - 1);
      prev := spans[k - 1].end;
    }
    var r := ranges[k];
    assert SpanExact(spans, raw, normalize, r, k) && SpanExact(other, raw, normalize, r, k);
    var a: nat :| IsStart(raw, normalize, r.start, a) && spans[k].start == if a > prev then a else prev;
    var b: nat :| IsStart(raw, normalize, r.start, b) && other[k].start == if b > prev then b else prev;
    StartUnique(raw, normalize, r.start, a, b);
    EndUnique(raw, normalize, r.end, spans[k].end, other[k].end);
  }

  /** When prefix lengths never decrease, the contract of `HighlightRaw` leaves one output only. */
  lemma HighlightDetermined(out: string, other: string, raw: string, norm: string, needle: string,
                            before: string, after: string, normalize: string -> string)
    requires needle != "" && Monotone(raw, normalize)
    requires exists spans :: HighlightedAt(spans, out, raw, norm, needle, before, after, normalize)
    requires exists spans :: HighlightedAt(spans, other, raw, norm, needle, before, after, normalize)
    ensures out == other
  {
    var x :| HighlightedAt(x, out, raw, norm, needle, before, after, normalize);
    var y :| HighlightedAt(y, other, raw, norm, needle, before, after, normalize);
    var ranges := MatchRanges(norm, needle);
    forall k | 0 <= k < |ranges| ensures x[k] == y[k] {
      SpanDetermined(x, y, raw, normalize, ranges, k);
    }
    assert x == y;
  }

  // ---------------------------------------------------------------------------
  // The identity normalizer
  // ---------------------------------------------------------------------------

  function Identity(s: string): string { s }

  lemma IdentityBytes(raw: string, i: nat)
    requires i <= |raw|
    ensures PrefixBytes(raw, Identity, i) == ByteLen(raw[..i])
  {
  }

  lemma IdentityMonotone(raw: string)
    ensures Monotone(raw, Identity)
  {
    forall i, j | 0 <= i <= j <= |raw| ensures PrefixBytes(raw, Identity, i) <= PrefixBytes(raw, Identity, j) {
      IdentityBytes(raw, i);
      IdentityBytes(raw, j);
      ByteLenGrows(raw, i, j);
    }
  }

  lemma IdentityBoundary(raw: string, p: nat)
    requires p <= |raw|
    ensures IsStart(raw, Identity, ByteLen(raw[..p]), p) && IsEnd(raw, Identity, ByteLen(raw[..p]), p)
  {
    forall j: nat | j <= |raw|
      ensures j < p ==> PrefixBytes(raw, Identity, j) < ByteLen(raw[..p])
      ensures p < j ==> ByteLen(raw[..p]) < PrefixBytes(raw, Identity, j)
    {
      IdentityBytes(raw, j);
      if j < p { ByteLenGrows(raw, j, p); }
      if p < j { ByteLenGrows(raw, p, j); }
    }
    IdentityBytes(raw, p);
  }

  /** With nothing to fold, `highlight_raw` writes what `highlight_occurrences` writes. */
  lemma IdentityIsOccurrences(out: string, raw: string, needle: string, before: string, after: string)
    requires needle != "" && exists spans :: HighlightedAt(spans, out, raw, raw, needle, before, after, Identity)
    ensures var spans := MatchSpans(MatchesFrom(raw, needle, 0), |needle|);
            Ordered(spans, |raw|) && out == Marked(raw, spans, before, after)
  {
    var spans :| HighlightedAt(spans, out, raw, raw, needle, before, after, Identity);
    IdentityMonotone(raw);
    IdentitySpans(raw, needle, spans);
  }

  lemma RangesPerMatch(raw: string, needle: string)
    requires needle != ""
    ensures |MatchRanges(raw, needle)| == |MatchesFrom(raw, needle, 0)|
  {
  }

  lemma IdentitySpans(raw: string, needle: string, spans: seq<Span>)
    requires needle != "" && SpansExact(spans, raw, Identity, MatchRanges(raw, needle))
    ensures spans == MatchSpans(MatchesFrom(raw, needle, 0), |needle|)
  {
    var m := MatchesFrom(raw, needle, 0);
    RangesPerMatch(raw, needle);
    IdentitySpansAt(raw, needle, spans, m);
    SameSpans(spans, m, |needle|);
  }

  lemma SameSpans(spans: seq<Span>, m: seq<nat>, width: nat)
    requires |spans| == |m| && forall k :: 0 <= k < |m| ==> spans[k] == Span(m[k], m[k] + width)
    ensures spans == MatchSpans(m, width)
  {
  }

  lemma IdentitySpansAt(raw: string, needle: string, spans: seq<Span>, m: seq<nat>)
    requires needle != "" && m == MatchesFrom(raw, needle, 0) && |spans| == |m|
    requires SpansExact(spans, raw, Identity, MatchRanges(raw, needle))
    ensures forall k :: 0 <= k < |m| ==> spans[k] == Span(m[k], m[k] + |needle|)
  {
    MatchesApart(raw, needle, 0);
    forall k | 0 <= k < |m| ensures spans[k] == Span(m[k], m[k] + |needle|) {
      IdentitySpanAt(raw, needle, spans, m, k);
    }
  }

  lemma {:induction false} IdentitySpanAt(raw: string, needle: string, spans: seq<Span>, m: seq<nat>, k: nat)
    requires needle != "" && m == MatchesFrom(raw, needle, 0) && k < |m|
    requires AllOccur(raw, needle, m) && Apart(m, |needle|)
        && SpansExact(spans, raw, Identity, MatchRanges(raw, needle))
    ensures spans[k] == Span(m[k], m[k] + |needle|)
  {
    if k > 0 { IdentitySpanAt(raw, needle, spans, m, k - 1); }
    assert MatchRanges(raw, needle)[k] == RangeOf(raw, needle, m[k]);
    assert SpanExact(spans, raw, Identity, MatchRanges(raw, needle)[k], k);
    IdentitySpan(raw, needle, spans, m, k);
  }

  lemma IdentitySpan(raw: string, needle: string, spans: seq<Span>, m: seq<nat>, k: nat)
    requires needle != "" && m == MatchesFrom(raw, needle, 0) && k < |m| == |spans|
    requires AllOccur(raw, needle, m) && Apart(m, |needle|)
    requires k > 0 ==> spans[k - 1] == Span(m[k - 1], m[k - 1] + |needle|)
    requires SpanExact(spans, raw, Identity, RangeOf(raw, needle, m[k]), k)
    ensures spans[k] == Span(m[k], m[k] + |needle|)
  {
    var r := RangeOf(raw, needle, m[k]);
    IdentityBoundary(raw, m[k]);
    IdentityBoundary(raw, m[k] + |needle|);
    EndUnique(raw, Identity, r.end, spans[k].end, m[k] + |needle|);
    var prev := if k == 0 then 0 else spans[k - 1].end;
    var a: nat :| IsStart(raw, Identity, r.start, a) && spans[k].start == if a > prev then a else prev;
    StartUnique(raw, Identity, r.start, a, m[k]);
  }
}
