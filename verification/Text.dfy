/** Strings of Unicode scalar values: whitespace, words, prefixes, suffixes, containment. */
module Text {
  import opened Wrappers

  /** The Unicode `White_Space` property. */
  predicate IsWhitespace(c: char) {
    || '\U{0009}' <= c <= '\U{000D}' || c == ' ' || c == '\U{0085}' || c == '\U{00A0}' || c == '\U{1680}'
    || '\U{2000}' <= c <= '\U{200A}' || c == '\U{2028}' || c == '\U{2029}' || c == '\U{202F}'
    || c == '\U{205F}' || c == '\U{3000}'
  }

  predicate IsAsciiDigit(c: char) {
    '0' <= c <= '9'
  }

  function Last(s: string): Option<char> {
    if s == "" then None else Some(s[|s| - 1])
  }

  /** Every character folded. */
  function FoldCase(fold: char -> char, s: string): (r: string)
    ensures |r| == |s| && forall i :: 0 <= i < |s| ==> r[i] == fold(s[i])
  {
    seq(|s|, i requires 0 <= i < |s| => fold(s[i]))
  }

  predicate HasPrefix(s: string, q: string) {
    |q| <= |s| && s[..|q|] == q
  }

  predicate HasSuffix(s: string, q: string) {
    |q| <= |s| && s[|s| - |q|..] == q
  }

  predicate OccursAt(s: string, q: string, i: nat) {
    i + |q| <= |s| && s[i..i + |q|] == q
  }

  ghost predicate Contains(s: string, q: string) {
    exists i: nat :: OccursAt(s, q, i)
  }

  lemma OccursTransitive(s: string, q: string, t: string, i: nat, j: nat)
    requires OccursAt(s, q, i) && OccursAt(q, t, j)
    ensures OccursAt(s, t, i + j)
  {
    var here := s[i + j..i + j + |t|];
    forall k | 0 <= k < |t| ensures here[k] == t[k] {
      assert s[i..i + |q|][j + k] == q[j + k];
      assert q[j..j + |t|][k] == t[k];
    }
  }

  lemma ContainsTransitive(s: string, q: string, t: string)
    requires Contains(s, q) && Contains(q, t)
    ensures Contains(s, t)
  {
    var i: nat :| OccursAt(s, q, i);
    var j: nat :| OccursAt(q, t, j);
    OccursTransitive(s, q, t, i, j);
  }

  function Reverse(s: string): (r: string)
    ensures |r| == |s| && forall i :: 0 <= i < |s| ==> r[i] == s[|s| - 1 - i]
  {
    seq(|s|, i requires 0 <= i < |s| => s[|s| - 1 - i])
  }

  /** A suffix of `s` is a prefix of the reversed `s`. */
  lemma SuffixIsReversedPrefix(s: string, q: string)
    ensures HasSuffix(s, q) <==> HasPrefix(Reverse(s), Reverse(q))
    ensures Reverse(Reverse(s)) == s
  {
    if |q| <= |s| {
      var tail, head := s[|s| - |q|..], Reverse(s)[..|q|];
      assert forall k :: 0 <= k < |q| ==> head[k] == tail[|q| - 1 - k];
      if tail == q { assert head == Reverse(q); }
      if head == Reverse(q) {
        forall k | 0 <= k < |q| ensures tail[k] == q[k] {
          assert head[|q| - 1 - k] == tail[k];
        }
      }
    }
  }

  // ---------------------------------------------------------------------------
  // Words
  // ---------------------------------------------------------------------------

  predicate EndsInWord(s: string) {
    s != "" && !IsWhitespace(s[|s| - 1])
  }

  predicate IsWord(w: string) {
    w != "" && forall k :: 0 <= k < |w| ==> !IsWhitespace(w[k])
  }

  /** The whitespace-separated words of `s`, in order (`split_whitespace`). */
  function Words(s: string): (ws: seq<string>)
    ensures EndsInWord(s) ==> ws != []
    ensures forall k :: 0 <= k < |ws| ==> IsWord(ws[k])
  {
    if s == "" then []
    else
      var front, c := s[..|s| - 1], s[|s| - 1];
      var ws := Words(front);
      if IsWhitespace(c) then ws
      else if EndsInWord(front) then
        ws[..|ws| - 1] + [ws[|ws| - 1] + [c]]
      else ws + [[c]]
  }

  /** `s[i..j]` is a longest run of non-whitespace. */
  predicate WordAt(s: string, i: nat, j: nat) {
    && i < j <= |s|
    && (forall k :: i <= k < j ==> !IsWhitespace(s[k]))
    && (i == 0 || IsWhitespace(s[i - 1]))
    && (j == |s| || IsWhitespace(s[j]))
  }

  /** The positions of the words. */
  function Spans(s: string): (r: seq<(nat, nat)>)
    ensures |r| == |Words(s)|
  {
    if s == "" then []
    else
      var front, c := s[..|s| - 1], s[|s| - 1];
      var r := Spans(front);
      if IsWhitespace(c) then r
      else if EndsInWord(front) then r[..|r| - 1] + [(r[|r| - 1].0, |s|)]
      else r + [(|front|, |s|)]
  }

  /** `r` lists runs of `s`, spelling `ws`; only the last of them may reach the end. */
  ghost predicate SpansFit(s: string, r: seq<(nat, nat)>, ws: seq<string>) {
    && |r| == |ws|
    && (forall k :: 0 <= k < |r| ==> WordAt(s, r[k].0, r[k].1) && ws[k] == s[r[k].0..r[k].1])
    && (forall k :: 0 <= k < |r| - 1 ==> r[k].1 < |s|)
    && (EndsInWord(s) <==> r != [] && r[|r| - 1].1 == |s|)
  }

  lemma SpansFitWhitespace(front: string, c: char, r: seq<(nat, nat)>, ws: seq<string>)
    requires SpansFit(front, r, ws) && IsWhitespace(c)
    ensures SpansFit(front + [c], r, ws)
  {
    forall k | 0 <= k < |r| ensures WordAt(front + [c], r[k].0, r[k].1) && ws[k] == (front + [c])[r[k].0..r[k].1] {
      assert WordAt(front, r[k].0, r[k].1);
    }
  }

  lemma SpansFitExtend(front: string, c: char, r: seq<(nat, nat)>, ws: seq<string>)
    requires SpansFit(front, r, ws) && !IsWhitespace(c) && EndsInWord(front)
    ensures SpansFit(front + [c], r[..|r| - 1] + [(r[|r| - 1].0, |front| + 1)], ws[..|ws| - 1] + [ws[|ws| - 1] + [c]])
  {
    var s, n := front + [c], |r| - 1;
    assert WordAt(front, r[n].0, r[n].1);
    assert s[r[n].0..|s|] == front[r[n].0..] + [c];
    forall k | 0 <= k < n ensures WordAt(s, r[k].0, r[k].1) && ws[k] == s[r[k].0..r[k].1] {
      assert WordAt(front, r[k].0, r[k].1);
    }
  }

  lemma SpansFitNew(front: string, c: char, r: seq<(nat, nat)>, ws: seq<string>)
    requires SpansFit(front, r, ws) && !IsWhitespace(c) && !EndsInWord(front)
    ensures SpansFit(front + [c], r + [(|front|, |front| + 1)], ws + [[c]])
  {
    var s := front + [c];
    assert s[|front|..|s|] == [c];
    forall k | 0 <= k < |r| ensures r[k].1 < |front| && WordAt(s, r[k].0, r[k].1) && ws[k] == s[r[k].0..r[k].1] {
      assert WordAt(front, r[k].0, r[k].1);
    }
  }

  lemma {:induction false} SpansFitWords(s: string)
    ensures SpansFit(s, Spans(s), Words(s))
  {
    if s != "" {
      var front, c := s[..|s| - 1], s[|s| - 1];
      assert s == front + [c];
      SpansFitWords(front);
      var r, ws := Spans(front), Words(front);
      if IsWhitespace(c) {
        SpansFitWhitespace(front, c, r, ws);
      } else if EndsInWord(front) {
        SpansFitExtend(front, c, r, ws);
      } else {
        SpansFitNew(front, c, r, ws);
      }
    }
  }

  /** Every longest run of non-whitespace is among the spans. */
  lemma {:induction false} SpansComplete(s: string, i: nat, j: nat) returns (k: nat)
    requires WordAt(s, i, j)
    ensures k < |Spans(s)| && Spans(s)[k] == (i, j)
  {
    hide Words, SpansFit;
    var front, c := s[..|s| - 1], s[|s| - 1];
    assert s == front + [c];
    if j == |s| && i == |front| {
      k := |Spans(front)|;
    } else {
      var end := if j == |s| then |front| else j;
      WordAtFront(front, c, i, j);
      k := SpansComplete(front, i, end);
      SpansFitWords(front);
      SpansKept(Spans(front), front, c, k);
    }
  }

  /** A word that did not just begin is one in the text before the last character too. */
  lemma WordAtFront(front: string, c: char, i: nat, j: nat)
    requires WordAt(front + [c], i, j) && i < |front|
    ensures WordAt(front, i, if j == |front| + 1 then |front| else j)
    ensures j <= |front| + 1 && (j == |front| + 1 ==> !IsWhitespace(c)) && (j == |front| ==> IsWhitespace(c))
  {
    var s := front + [c];
    assert s[|front|] == c;
    assert forall k :: 0 <= k < |front| ==> s[k] == front[k];
  }

  lemma SpansKept(r: seq<(nat, nat)>, front: string, c: char, k: nat)
    requires SpansFit(front, r, Words(front)) && r == Spans(front) && k < |r|
    ensures var rs := Spans(front + [c]);
            && |r| <= |rs|
            && (IsWhitespace(c) || r[k].1 < |front| ==> rs[k] == r[k])
            && (!IsWhitespace(c) && r[k].1 == |front| ==> rs[k] == (r[k].0, |front| + 1))
  {
    assert (front + [c])[..|front|] == front;
  }

  /** The words of `s` are its longest runs of non-whitespace and nothing else. */
  lemma WordsAreRuns(s: string, w: string)
    ensures w in Words(s) <==> exists i: nat, j: nat :: WordAt(s, i, j) && s[i..j] == w
  {
    SpansFitWords(s);
    if w in Words(s) {
      var k :| 0 <= k < |Words(s)| && Words(s)[k] == w;
      var (i, j) := Spans(s)[k];
      assert WordAt(s, i, j) && s[i..j] == w;
    }
    if i: nat, j: nat :| WordAt(s, i, j) && s[i..j] == w {
      var k := SpansComplete(s, i, j);
      assert Words(s)[k] == w;
    }
  }

  lemma WordsOccur(s: string, w: string)
    requires w in Words(s)
    ensures Contains(s, w)
  {
    WordsAreRuns(s, w);
    var i: nat, j: nat :| WordAt(s, i, j) && s[i..j] == w;
    assert OccursAt(s, w, i);
  }
}
