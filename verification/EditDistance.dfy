/** Edit distances over code points, with an early cut-off at `max`. */
module EditDistance {
  import opened Wrappers

  /** Which edits count: the OSA kernel also swaps two adjacent characters at cost 1. */
  datatype Kernel = Levenshtein | Osa

  /**
   * An edit script, innermost constructor first: each constructor consumes from the source and
   * produces into the target to the right of what `before` handled, so no character is edited twice.
   */
  datatype Script =
    | Done
    | Keep(before: Script, c: char)
    | Substitute(before: Script, c: char, d: char)
    | Insert(before: Script, d: char)
    | Delete(before: Script, c: char)
    | Swap(before: Script, c: char, d: char)
  {
    function Source(): string {
      match this
      case Done => ""
      case Keep(s, c) => s.Source() + [c]
      case Substitute(s, c, _) => s.Source() + [c]
      case Insert(s, _) => s.Source()
      case Delete(s, c) => s.Source() + [c]
      case Swap(s, c, d) => s.Source() + [c, d]
    }

    function Target(): string {
      match this
      case Done => ""
      case Keep(s, c) => s.Target() + [c]
      case Substitute(s, _, d) => s.Target() + [d]
      case Insert(s, d) => s.Target() + [d]
      case Delete(s, _) => s.Target()
      case Swap(s, c, d) => s.Target() + [d, c]
    }

    function Cost(): nat {
      match this
      case Done => 0
      case Keep(s, _) => s.Cost()
      case _ => before.Cost() + 1
    }

    predicate Allowed(k: Kernel) {
      match this
      case Done => true
      case Swap(s, _, _) => k.Osa? && s.Allowed(k)
      case _ => before.Allowed(k)
    }
  }

  ghost predicate Turns(s: Script, k: Kernel, a: string, b: string) {
    s.Allowed(k) && s.Source() == a && s.Target() == b
  }

  /** `d` is the least cost of an allowed script from `a` to `b`. */
  ghost predicate LeastCost(k: Kernel, a: string, b: string, d: nat) {
    && (exists s :: Turns(s, k, a, b) && s.Cost() == d)
    && (forall s :: Turns(s, k, a, b) ==> d <= s.Cost())
  }

  // ---------------------------------------------------------------------------
  // The dynamic-programming table
  // ---------------------------------------------------------------------------

  /** Entry (i, j): the distance between the first `i` characters of `a` and the first `j` of `b`. */
  function Entry(k: Kernel, a: string, b: string, i: nat, j: nat): nat
    requires i <= |a| && j <= |b|
    decreases i + j, 1
  {
    if i == 0 then j else if j == 0 then i else InnerEntry(k, a, b, i, j)
  }

  function InnerEntry(k: Kernel, a: string, b: string, i: nat, j: nat): nat
    requires 0 < i <= |a| && 0 < j <= |b|
    decreases i + j, 0
  {
    var cost := if a[i - 1] != b[j - 1] then 1 else 0;
    var v := Min(Min(Entry(k, a, b, i - 1, j) + 1, Entry(k, a, b, i, j - 1) + 1), Entry(k, a, b, i - 1, j - 1) + cost);
    if Swappable(k, a, b, i, j) then Min(v, Entry(k, a, b, i - 2, j - 2) + 1) else v
  }

  predicate Swappable(k: Kernel, a: string, b: string, i: nat, j: nat)
    requires 0 < i <= |a| && 0 < j <= |b|
  {
    k.Osa? && i > 1 && j > 1 && a[i - 1] == b[j - 2] && a[i - 2] == b[j - 1]
  }

  /** One step of the recurrence, from the four entries it reads. */
  lemma EntryStep(k: Kernel, a: string, b: string, i: nat, j: nat)
    requires 0 < i <= |a| && 0 < j <= |b|
    ensures var cost := if a[i - 1] != b[j - 1] then 1 else 0;
            var v := Min(Min(Entry(k, a, b, i - 1, j) + 1, Entry(k, a, b, i, j - 1) + 1),
                Entry(k, a, b, i - 1, j - 1) + cost);
            Entry(k, a, b, i, j) == if Swappable(k, a, b, i, j) then Min(v, Entry(k, a, b, i - 2, j - 2) + 1) else v
  {
  }

  /** No entry exceeds a neighbour plus the cost of the move from it. */
  lemma EntryMoves(k: Kernel, a: string, b: string, i: nat, j: nat)
    requires i <= |a| && j <= |b|
    ensures i > 0 ==> Entry(k, a, b, i, j) <= Entry(k, a, b, i - 1, j) + 1
    ensures j > 0 ==> Entry(k, a, b, i, j) <= Entry(k, a, b, i, j - 1) + 1
    ensures i > 0 && j > 0 ==>
              Entry(k, a, b, i, j) <= Entry(k, a, b, i - 1, j - 1) + if a[i - 1] != b[j - 1] then 1 else 0
    ensures i > 0 && j > 0 && Swappable(k, a, b, i, j) ==> Entry(k, a, b, i, j) <= Entry(k, a, b, i - 2, j - 2) + 1
  {
    if i > 0 && j > 0 { EntryStep(k, a, b, i, j); }
  }

  function Distance(k: Kernel, a: string, b: string): nat {
    Entry(k, a, b, |a|, |b|)
  }

  lemma PrefixSnoc(a: string, i: nat, t: string, c: char)
    requires i <= |a| && a[..i] == t + [c]
    ensures 0 < i && a[i - 1] == c && t == a[..i - 1]
  {
    assert a[..i][i - 1] == c;
    assert a[..i - 1] == a[..i][..i - 1];
  }

  lemma PrefixSnoc2(a: string, i: nat, t: string, c: char, d: char)
    requires i <= |a| && a[..i] == t + [c, d]
    ensures 1 < i && a[i - 2] == c && a[i - 1] == d && t == a[..i - 2]
  {
    assert t + [c, d] == (t + [c]) + [d];
    PrefixSnoc(a, i, t + [c], d);
    PrefixSnoc(a, i - 1, t, c);
  }

  lemma Snoc(a: string, i: nat)
    requires 0 < i <= |a|
    ensures a[..i] == a[..i - 1] + [a[i - 1]]
    ensures 1 < i ==> a[..i] == a[..i - 2] + [a[i - 2], a[i - 1]]
  {
  }

  /** No allowed script is cheaper than the table entry. */
  lemma {:induction false} EntryIsLowerBound(k: Kernel, a: string, b: string, i: nat, j: nat, s: Script)
    requires i <= |a| && j <= |b|
    requires Turns(s, k, a[..i], b[..j])
    ensures Entry(k, a, b, i, j) <= s.Cost()
  {
    EntryMoves(k, a, b, i, j);
    match s
    case Done =>
    case Keep(t, c) =>
      PrefixSnoc(a, i, t.Source(), c);
      PrefixSnoc(b, j, t.Target(), c);
      EntryIsLowerBound(k, a, b, i - 1, j - 1, t);
    case Substitute(t, c, d) =>
      PrefixSnoc(a, i, t.Source(), c);
      PrefixSnoc(b, j, t.Target(), d);
      EntryIsLowerBound(k, a, b, i - 1, j - 1, t);
    case Insert(t, d) =>
      PrefixSnoc(b, j, t.Target(), d);
      EntryIsLowerBound(k, a, b, i, j - 1, t);
    case Delete(t, c) =>
      PrefixSnoc(a, i, t.Source(), c);
      EntryIsLowerBound(k, a, b, i - 1, j, t);
    case Swap(t, c, d) =>
      PrefixSnoc2(a, i, t.Source(), c, d);
      PrefixSnoc2(b, j, t.Target(), d, c);
      EntryIsLowerBound(k, a, b, i - 2, j - 2, t);
  }

  lemma TurnsInsert(t: Script, k: Kernel, a: string, b: string, i: nat, j: nat)
    requires i <= |a| && 0 < j <= |b| && Turns(t, k, a[..i], b[..j - 1])
    ensures Turns(Insert(t, b[j - 1]), k, a[..i], b[..j])
  {
    Snoc(b, j);
  }

  lemma TurnsDelete(t: Script, k: Kernel, a: string, b: string, i: nat, j: nat)
    requires 0 < i <= |a| && j <= |b| && Turns(t, k, a[..i - 1], b[..j])
    ensures Turns(Delete(t, a[i - 1]), k, a[..i], b[..j])
  {
    Snoc(a, i);
  }

  function KeepOrSubstitute(t: Script, c: char, d: char): Script {
    if c == d then Keep(t, c) else Substitute(t, c, d)
  }

  lemma TurnsKeepOrSubstitute(t: Script, k: Kernel, a: string, b: string, i: nat, j: nat)
    requires 0 < i <= |a| && 0 < j <= |b| && Turns(t, k, a[..i - 1], b[..j - 1])
    ensures Turns(KeepOrSubstitute(t, a[i - 1], b[j - 1]), k, a[..i], b[..j])
  {
    Snoc(a, i);
    Snoc(b, j);
  }

  lemma TurnsSwap(t: Script, k: Kernel, a: string, b: string, i: nat, j: nat)
    requires 0 < i <= |a| && 0 < j <= |b| && Swappable(k, a, b, i, j) && Turns(t, k, a[..i - 2], b[..j - 2])
    ensures Turns(Swap(t, a[i - 2], a[i - 1]), k, a[..i], b[..j])
  {
    Snoc(a, i);
    Snoc(b, j);
  }

  datatype Move = Stay | Inserting | Deleting | Swapping | Replacing

  /** The move that attains the table entry, tried in the order insert, delete, swap, keep or substitute. */
  function BestMove(k: Kernel, a: string, b: string, i: nat, j: nat): Move
    requires i <= |a| && j <= |b|
  {
    var e := Entry(k, a, b, i, j);
    if i == 0 && j == 0 then Stay
    else if i == 0 || (j > 0 && e == Entry(k, a, b, i, j - 1) + 1) then Inserting
    else if j == 0 || e == Entry(k, a, b, i - 1, j) + 1 then Deleting
    else if Swappable(k, a, b, i, j) && e == Entry(k, a, b, i - 2, j - 2) + 1 then Swapping
    else Replacing
  }

  lemma BestMoveAttains(k: Kernel, a: string, b: string, i: nat, j: nat)
    requires i <= |a| && j <= |b|
    ensures var e := Entry(k, a, b, i, j);
            match BestMove(k, a, b, i, j)
            case Stay => i == 0 && j == 0 && e == 0
            case Inserting => j > 0 && e == Entry(k, a, b, i, j - 1) + 1
            case Deleting => i > 0 && e == Entry(k, a, b, i - 1, j) + 1
            case Swapping => Swappable(k, a, b, i, j) && e == Entry(k, a, b, i - 2, j - 2) + 1
            case Replacing =>
              i > 0 && j > 0 && e == Entry(k, a, b, i - 1, j - 1) + if a[i - 1] != b[j - 1] then 1 else 0
  {
    if i > 0 && j > 0 { EntryStep(k, a, b, i, j); }
  }

  /** A script that attains the table entry. */
  lemma {:induction false} BestScript(k: Kernel, a: string, b: string, i: nat, j: nat) returns (s: Script)
    requires i <= |a| && j <= |b|
    ensures Turns(s, k, a[..i], b[..j]) && s.Cost() == Entry(k, a, b, i, j)
  {
    BestMoveAttains(k, a, b, i, j);
    match BestMove(k, a, b, i, j) {
      case Stay =>
        s := Done;
      case Inserting =>
        var t := BestScript(k, a, b, i, j - 1);
        TurnsInsert(t, k, a, b, i, j);
        s := Insert(t, b[j - 1]);
      case Deleting =>
        var t := BestScript(k, a, b, i - 1, j);
        TurnsDelete(t, k, a, b, i, j);
        s := Delete(t, a[i - 1]);
      case Swapping =>
        var t := BestScript(k, a, b, i - 2, j - 2);
        TurnsSwap(t, k, a, b, i, j);
        s := Swap(t, a[i - 2], a[i - 1]);
      case Replacing =>
        var t := BestScript(k, a, b, i - 1, j - 1);
        TurnsKeepOrSubstitute(t, k, a, b, i, j);
        s := KeepOrSubstitute(t, a[i - 1], b[j - 1]);
    }
  }

  /** The last table entry is the least cost over all scripts, and the only such number. */
  lemma DistanceIsLeastCost(k: Kernel, a: string, b: string, d: nat)
    ensures LeastCost(k, a, b, d) <==> d == Distance(k, a, b)
  {
    assert a[..|a|] == a && b[..|b|] == b;
    var best := BestScript(k, a, b, |a|, |b|);
    forall s | Turns(s, k, a, b) ensures Distance(k, a, b) <= s.Cost() {
      EntryIsLowerBound(k, a, b, |a|, |b|, s);
    }
  }

  // ---------------------------------------------------------------------------
  // Why the cut-offs are safe
  // ---------------------------------------------------------------------------

  lemma {:induction false} EntryAtLeast(k: Kernel, a: string, b: string, i: nat, j: nat)
    requires i <= |a| && j <= |b|
    ensures i - j <= Entry(k, a, b, i, j) && j - i <= Entry(k, a, b, i, j)
  {
    BestMoveAttains(k, a, b, i, j);
    match BestMove(k, a, b, i, j) {
      case Stay =>
      case Inserting => EntryAtLeast(k, a, b, i, j - 1);
      case Deleting => EntryAtLeast(k, a, b, i - 1, j);
      case Swapping => EntryAtLeast(k, a, b, i - 2, j - 2);
      case Replacing => EntryAtLeast(k, a, b, i - 1, j - 1);
    }
  }

  lemma {:induction false} EntryAtMost(k: Kernel, a: string, b: string, i: nat, j: nat)
    requires i <= |a| && j <= |b|
    ensures Entry(k, a, b, i, j) <= if i < j then j else i
  {
    if i > 0 && j > 0 {
      EntryMoves(k, a, b, i, j);
      EntryAtMost(k, a, b, i - 1, j - 1);
    }
  }

  /** The distance is never below the difference in length, nor above the longer length. */
  lemma EntryBounds(k: Kernel, a: string, b: string, i: nat, j: nat)
    requires i <= |a| && j <= |b|
    ensures i - j <= Entry(k, a, b, i, j) && j - i <= Entry(k, a, b, i, j)
    ensures Entry(k, a, b, i, j) <= if i < j then j else i
  {
    EntryAtLeast(k, a, b, i, j);
    EntryAtMost(k, a, b, i, j);
  }

  ghost predicate RowAbove(k: Kernel, a: string, b: string, i: nat, max: nat)
    requires i <= |a|
  {
    forall j :: 0 <= j <= |b| ==> max < Entry(k, a, b, i, j)
  }

  /**
   * Once a whole row exceeds `max`, so does the next one. A swap reads two rows back, but the entry it
   * reads is then at least as large as its diagonal successor in the row already known to be above `max`.
   */
  lemma {:induction false} NextRowAbove(k: Kernel, a: string, b: string, i: nat, max: nat, j: nat)
    requires i < |a| && j <= |b| && RowAbove(k, a, b, i, max)
    ensures max < Entry(k, a, b, i + 1, j)
  {
    assert max < Entry(k, a, b, i, j);
    if j == 0 {
      EntryBounds(k, a, b, i, 0);
    } else {
      NextRowAbove(k, a, b, i, max, j - 1);
      assert max < Entry(k, a, b, i, j - 1);
      EntryStep(k, a, b, i + 1, j);
      if Swappable(k, a, b, i + 1, j) { EntryMoves(k, a, b, i, j - 1); }
    }
  }

  /** A row above `max` settles the answer. */
  lemma {:induction false} RowCutOff(k: Kernel, a: string, b: string, i: nat, max: nat)
    requires i <= |a| && RowAbove(k, a, b, i, max)
    ensures max < Distance(k, a, b)
    decreases |a| - i
  {
    if i < |a| {
      var next := i + 1;
      forall j | 0 <= j <= |b| ensures max < Entry(k, a, b, next, j) { NextRowAbove(k, a, b, i, max, j); }
      RowCutOff(k, a, b, next, max);
    }
  }

  // ---------------------------------------------------------------------------
  // The kernels
  // ---------------------------------------------------------------------------

  /** What a kernel answers: the distance when it is within `max`, nothing otherwise. */
  function Within(k: Kernel, a: string, b: string, max: nat): Option<nat> {
    if Distance(k, a, b) <= max then Some(Distance(k, a, b)) else None
  }

  lemma WithinMeaning(k: Kernel, a: string, b: string, max: nat)
    ensures Within(k, a, b, max).Some? ==> LeastCost(k, a, b, Within(k, a, b, max).value)
    ensures Within(k, a, b, max).None? ==> forall s :: Turns(s, k, a, b) ==> max < s.Cost()
  {
    DistanceIsLeastCost(k, a, b, Distance(k, a, b));
  }

  ghost predicate RowHolds(row: array<nat>, k: Kernel, a: string, b: string, i: nat)
    reads row
  {
    i <= |a| && row.Length == |b| + 1 && forall j {:trigger row[j]} :: 0 <= j <= |b| ==> row[j] == Entry(k, a, b, i, j)
  }

  /** Entries 0 to `n` of row `i`. */
  function Row(k: Kernel, a: string, b: string, i: nat, n: nat): (row: seq<nat>)
    requires i <= |a| && n <= |b|
    ensures |row| == n + 1 && forall j :: 0 <= j <= n ==> row[j] == Entry(k, a, b, i, j)
  {
    if n == 0 then [Entry(k, a, b, i, 0)] else Row(k, a, b, i, n - 1) + [Entry(k, a, b, i, n)]
  }

  predicate IsLeast(m: nat, s: seq<nat>) {
    m in s && forall j :: 0 <= j < |s| ==> m <= s[j]
  }

  lemma LeastSnoc(m: nat, s: seq<nat>, x: nat)
    requires IsLeast(m, s)
    ensures IsLeast(Min(m, x), s + [x])
  {
    assert Min(m, x) == m || (s + [x])[|s|] == Min(m, x);
  }

  lemma LeastFirst(i: nat)
    ensures IsLeast(i, [i])
  {
  }

  /** The loop body of `LevenshteinRow`: one cell from its neighbours. */
  method LevenshteinCell(a: string, b: string, i: nat, j: nat, prev: array<nat>, left: nat) returns (v: nat)
    requires 0 < i <= |a| && 0 < j <= |b|
    requires RowHolds(prev, Levenshtein, a, b, i - 1)
    requires left == Entry(Levenshtein, a, b, i, j - 1)
    ensures v == Entry(Levenshtein, a, b, i, j)
  {
    EntryStep(Levenshtein, a, b, i, j);
    var cost := if a[i - 1] != b[j - 1] then 1 else 0;
    v := Min(Min(prev[j] + 1, left + 1), prev[j - 1] + cost);
  }

  /** The inner loop of `LevenshteinWithin`: row `i` from row `i - 1`, with its minimum. */
  method LevenshteinRow(a: string, b: string, i: nat, prev: array<nat>, curr: array<nat>) returns (rowMin: nat)
    requires 0 < i <= |a| && prev != curr && curr.Length == |b| + 1
    requires RowHolds(prev, Levenshtein, a, b, i - 1)
    modifies curr
    ensures RowHolds(curr, Levenshtein, a, b, i)
    ensures IsLeast(rowMin, Row(Levenshtein, a, b, i, |b|))
  {
    curr[0] := i;
    rowMin := curr[0];
    LeastFirst(i);
    for j := 1 to |b| + 1
      invariant RowHolds(prev, Levenshtein, a, b, i - 1)
      invariant forall x {:trigger curr[x]} :: 0 <= x < j ==> curr[x] == Entry(Levenshtein, a, b, i, x)
      invariant IsLeast(rowMin, Row(Levenshtein, a, b, i, j - 1))
    {
      var v := LevenshteinCell(a, b, i, j, prev, curr[j - 1]);
      curr[j] := v;
      LeastSnoc(rowMin, Row(Levenshtein, a, b, i, j - 1), v);
      rowMin := Min(rowMin, v);
    }
  }

  /** Classic Levenshtein distance with two rolling rows. */
  method LevenshteinWithin(a: string, b: string, max: nat) returns (r: Option<nat>)
    ensures r.Some? ==> r.value <= max && LeastCost(Levenshtein, a, b, r.value)
    ensures r.None? ==> forall s :: Turns(s, Levenshtein, a, b) ==> max < s.Cost()
    ensures r == Within(Levenshtein, a, b, max)
  {
    WithinMeaning(Levenshtein, a, b, max);
    EntryBounds(Levenshtein, a, b, |a|, |b|);
    var n, m := |a|, |b|;
    if (if n < m then m - n else n - m) > max { return None; }
    if n == 0 { return Some(m); }
    if m == 0 { return Some(n); }
    var prev := new nat[m + 1](j => j);
    var curr := new nat[m + 1](_ => 0);
    for i := 1 to n + 1
      invariant prev != curr && fresh(prev) && fresh(curr) && curr.Length == m + 1
      invariant RowHolds(prev, Levenshtein, a, b, i - 1)
    {
      var rowMin := LevenshteinRow(a, b, i, prev, curr);
      if rowMin > max {
        RowCutOff(Levenshtein, a, b, i, max);
        return None;
      }
      prev, curr := curr, prev;
    }
    var d := prev[m];
    return if d > max then None else Some(d);
  }

  /** The loop body of `OsaRow`: one cell from its neighbours. */
  method OsaCell(a: string, b: string, i: nat, j: nat, prev2: array<nat>, prev1: array<nat>, left: nat)
    returns (v: nat)
    requires 0 < i <= |a| && 0 < j <= |b| && prev2.Length == |b| + 1
    requires RowHolds(prev1, Osa, a, b, i - 1)
    requires i > 1 ==> RowHolds(prev2, Osa, a, b, i - 2)
    requires left == Entry(Osa, a, b, i, j - 1)
    ensures v == Entry(Osa, a, b, i, j)
  {
    EntryStep(Osa, a, b, i, j);
    var cost := if a[i - 1] != b[j - 1] then 1 else 0;
    v := Min(Min(prev1[j] + 1, left + 1), prev1[j - 1] + cost);
    if i > 1 && j > 1 && a[i - 1] == b[j - 2] && a[i - 2] == b[j - 1] {
      v := Min(v, prev2[j - 2] + 1);
    }
  }

  /** The inner loop of `OsaWithin`: row `i` from rows `i - 1` and `i - 2`, with its minimum. */
  method OsaRow(a: string, b: string, i: nat, prev2: array<nat>, prev1: array<nat>, curr: array<nat>)
    returns (rowMin: nat)
    requires 0 < i <= |a| && prev2 != curr && prev1 != curr && curr.Length == prev2.Length == |b| + 1
    requires RowHolds(prev1, Osa, a, b, i - 1)
    requires i > 1 ==> RowHolds(prev2, Osa, a, b, i - 2)
    modifies curr
    ensures RowHolds(curr, Osa, a, b, i)
    ensures IsLeast(rowMin, Row(Osa, a, b, i, |b|))
  {
    curr[0] := i;
    rowMin := curr[0];
    LeastFirst(i);
    for j := 1 to |b| + 1
      invariant RowHolds(prev1, Osa, a, b, i - 1)
      invariant i > 1 ==> RowHolds(prev2, Osa, a, b, i - 2)
      invariant forall x {:trigger curr[x]} :: 0 <= x < j ==> curr[x] == Entry(Osa, a, b, i, x)
      invariant IsLeast(rowMin, Row(Osa, a, b, i, j - 1))
    {
      var v := OsaCell(a, b, i, j, prev2, prev1, curr[j - 1]);
      curr[j] := v;
      LeastSnoc(rowMin, Row(Osa, a, b, i, j - 1), v);
      rowMin := Min(rowMin, v);
    }
  }

  /** Optimal string alignment distance with three rolling rows. */
  method OsaWithin(a: string, b: string, max: nat) returns (r: Option<nat>)
    ensures r.Some? ==> r.value <= max && LeastCost(Osa, a, b, r.value)
    ensures r.None? ==> forall s :: Turns(s, Osa, a, b) ==> max < s.Cost()
    ensures r == Within(Osa, a, b, max)
  {
    WithinMeaning(Osa, a, b, max);
    EntryBounds(Osa, a, b, |a|, |b|);
    var n, m := |a|, |b|;
    if (if n < m then m - n else n - m) > max { return None; }
    if n == 0 { return Some(m); }
    if m == 0 { return Some(n); }
    var prev2 := new nat[m + 1](_ => 0);
    var prev1 := new nat[m + 1](j => j);
    var curr := new nat[m + 1](_ => 0);
    for i := 1 to n + 1
      invariant prev2 != prev1 && prev2 != curr && prev1 != curr
      invariant fresh(prev2) && fresh(prev1) && fresh(curr)
      invariant prev2.Length == curr.Length == m + 1
      invariant RowHolds(prev1, Osa, a, b, i - 1)
      invariant i > 1 ==> RowHolds(prev2, Osa, a, b, i - 2)
    {
      var rowMin := OsaRow(a, b, i, prev2, prev1, curr);
      if rowMin > max {
        RowCutOff(Osa, a, b, i, max);
        return None;
      }
      prev2, prev1 := prev1, prev2;
      prev1, curr := curr, prev1;
    }
    var d := prev1[m];
    return if d > max then None else Some(d);
  }

  // ---------------------------------------------------------------------------
  // Laws of the distances
  // ---------------------------------------------------------------------------

  /** The script read backwards. */
  function Inverse(s: Script): (t: Script)
    ensures t.Source() == s.Target() && t.Target() == s.Source() && t.Cost() == s.Cost()
    ensures forall k :: s.Allowed(k) ==> t.Allowed(k)
  {
    match s
    case Done => Done
    case Keep(r, c) => Keep(Inverse(r), c)
    case Substitute(r, c, d) => Substitute(Inverse(r), d, c)
    case Insert(r, d) => Delete(Inverse(r), d)
    case Delete(r, c) => Insert(Inverse(r), c)
    case Swap(r, c, d) => Swap(Inverse(r), d, c)
  }

  /** Both distances are symmetric. */
  lemma DistanceSymmetric(k: Kernel, a: string, b: string)
    ensures Distance(k, a, b) == Distance(k, b, a)
  {
    forall x, y ensures Distance(k, y, x) <= Distance(k, x, y) {
      DistanceIsLeastCost(k, x, y, Distance(k, x, y));
      DistanceIsLeastCost(k, y, x, Distance(k, y, x));
      var s :| Turns(s, k, x, y) && s.Cost() == Distance(k, x, y);
      assert Turns(Inverse(s), k, y, x);
    }
  }

  /** Running one swap-free script after another, as one script. */
  function Compose(s: Script, t: Script): (r: Script)
    requires s.Allowed(Levenshtein) && t.Allowed(Levenshtein) && s.Target() == t.Source()
    ensures r.Allowed(Levenshtein) && r.Source() == s.Source() && r.Target() == t.Target()
    ensures r.Cost() <= s.Cost() + t.Cost()
    decreases s, t
  {
    if s.Delete? then Delete(Compose(s.before, t), s.c)
    else if t.Insert? then Insert(Compose(s, t.before), t.d)
    else if s.Done? || t.Done? then
      Snocs(s, t);
      Done
    else
      Snocs(s, t);
      var r := Compose(s.before, t.before);
      var produced := if t.Substitute? then t.d else t.c;
      if t.Delete? then (if s.Insert? then r else Delete(r, s.c))
      else if s.Insert? then Insert(r, produced)
      else if s.Keep? && t.Keep? then Keep(r, s.c)
      else Substitute(r, s.c, produced)
  }

  lemma Snocs(s: Script, t: Script)
    requires s.Target() == t.Source()
    ensures (s.Keep? || s.Substitute? || s.Insert?) && (t.Keep? || t.Substitute? || t.Delete?) ==>
              && s.before.Target() == t.before.Source()
              && (if s.Keep? then s.c else s.d) == t.c
    ensures s.Done? ==> !(t.Keep? || t.Substitute? || t.Delete?)
    ensures t.Done? ==> !(s.Keep? || s.Substitute? || s.Insert?)
  {
    if (s.Keep? || s.Substitute? || s.Insert?) && (t.Keep? || t.Substitute? || t.Delete?) {
      var x := if s.Keep? then s.c else s.d;
      assert s.before.Target() + [x] == t.before.Source() + [t.c];
      assert (s.before.Target() + [x])[..|s.before.Target()|] == s.before.Target();
      assert (t.before.Source() + [t.c])[..|t.before.Source()|] == t.before.Source();
      assert |s.before.Target()| == |t.before.Source()|;
    }
  }

  lemma LevenshteinTriangle(a: string, b: string, c: string)
    ensures Distance(Levenshtein, a, c) <= Distance(Levenshtein, a, b) + Distance(Levenshtein, b, c)
  {
    DistanceIsLeastCost(Levenshtein, a, b, Distance(Levenshtein, a, b));
    DistanceIsLeastCost(Levenshtein, b, c, Distance(Levenshtein, b, c));
    DistanceIsLeastCost(Levenshtein, a, c, Distance(Levenshtein, a, c));
    var s :| Turns(s, Levenshtein, a, b) && s.Cost() == Distance(Levenshtein, a, b);
    var t :| Turns(t, Levenshtein, b, c) && t.Cost() == Distance(Levenshtein, b, c);
    assert Turns(Compose(s, t), Levenshtein, a, c);
  }

  /** A swap spelled as two substitutions. */
  function WithoutSwaps(s: Script): (t: Script)
    ensures t.Allowed(Levenshtein) && t.Source() == s.Source() && t.Target() == s.Target()
    ensures t.Cost() <= 2 * s.Cost()
  {
    match s
    case Done => Done
    case Keep(r, c) => Keep(WithoutSwaps(r), c)
    case Substitute(r, c, d) => Substitute(WithoutSwaps(r), c, d)
    case Insert(r, d) => Insert(WithoutSwaps(r), d)
    case Delete(r, c) => Delete(WithoutSwaps(r), c)
    case Swap(r, c, d) =>
      var w := WithoutSwaps(r);
      assert w.Source() + [c, d] == w.Source() + [c] + [d];
      assert w.Target() + [d, c] == w.Target() + [d] + [c];
      Substitute(Substitute(w, c, d), d, c)
  }

  lemma {:induction false} SwapFreeIsAllowed(s: Script)
    requires s.Allowed(Levenshtein)
    ensures s.Allowed(Osa)
  {
    if !s.Done? { SwapFreeIsAllowed(s.before); }
  }

  /** Swaps only ever help, and save at most half. */
  lemma OsaVersusLevenshtein(a: string, b: string)
    ensures Distance(Osa, a, b) <= Distance(Levenshtein, a, b) <= 2 * Distance(Osa, a, b)
  {
    DistanceIsLeastCost(Levenshtein, a, b, Distance(Levenshtein, a, b));
    DistanceIsLeastCost(Osa, a, b, Distance(Osa, a, b));
    var s :| Turns(s, Levenshtein, a, b) && s.Cost() == Distance(Levenshtein, a, b);
    SwapFreeIsAllowed(s);
    assert Turns(s, Osa, a, b);
    var t :| Turns(t, Osa, a, b) && t.Cost() == Distance(Osa, a, b);
    assert Turns(WithoutSwaps(t), Levenshtein, a, b);
  }

  lemma DistanceZero(k: Kernel, a: string, b: string)
    ensures Distance(k, a, b) == 0 <==> a == b
  {
    DistanceIsLeastCost(k, a, b, Distance(k, a, b));
    var s :| Turns(s, k, a, b) && s.Cost() == Distance(k, a, b);
    if s.Cost() == 0 { FreeScript(s); }
    if a == b { KeepAllTurns(k, a); }
  }

  lemma {:induction false} FreeScript(s: Script)
    requires s.Cost() == 0
    ensures s.Source() == s.Target()
  {
    if !s.Done? { FreeScript(s.before); }
  }

  function KeepAll(a: string): (s: Script) {
    if a == "" then Done else Keep(KeepAll(a[..|a| - 1]), a[|a| - 1])
  }

  lemma {:induction false} KeepAllTurns(k: Kernel, a: string)
    ensures Turns(KeepAll(a), k, a, a) && KeepAll(a).Cost() == 0
  {
    if a != "" {
      KeepAllTurns(k, a[..|a| - 1]);
      assert a == a[..|a| - 1] + [a[|a| - 1]];
    }
  }

  // ---------------------------------------------------------------------------
  // The Levenshtein distance as a shortest chain of single-character edits
  // ---------------------------------------------------------------------------

  predicate Inserts(s: string, t: string, i: int, c: char) {
    0 <= i <= |s| && t == s[..i] + [c] + s[i..]
  }

  predicate Deletes(s: string, t: string, i: int) {
    0 <= i < |s| && t == s[..i] + s[i + 1..]
  }

  predicate Substitutes(s: string, t: string, i: int, c: char) {
    0 <= i < |s| && t == s[..i] + [c] + s[i + 1..]
  }

  /** One insertion, deletion or substitution anywhere in the string. */
  ghost predicate OneEdit(s: string, t: string) {
    || (exists i, c :: Inserts(s, t, i, c))
    || (exists i :: Deletes(s, t, i))
    || (exists i, c :: Substitutes(s, t, i, c))
  }

  ghost predicate Chain(path: seq<string>, a: string, b: string) {
    && path != [] && path[0] == a && path[|path| - 1] == b
    && forall i :: 0 <= i < |path| - 1 ==> OneEdit(path[i], path[i + 1])
  }

  function Append(s: Script, t: Script): (r: Script)
    requires s.Allowed(Levenshtein) && t.Allowed(Levenshtein)
    ensures r.Allowed(Levenshtein) && r.Cost() == s.Cost() + t.Cost()
  {
    match t
    case Done => s
    case Keep(q, c) => Keep(Append(s, q), c)
    case Substitute(q, c, d) => Substitute(Append(s, q), c, d)
    case Insert(q, d) => Insert(Append(s, q), d)
    case Delete(q, c) => Delete(Append(s, q), c)
  }

  lemma {:induction false} AppendSource(s: Script, t: Script)
    requires s.Allowed(Levenshtein) && t.Allowed(Levenshtein)
    ensures Append(s, t).Source() == s.Source() + t.Source()
  {
    if !t.Done? { AppendSource(s, t.before); }
  }

  lemma {:induction false} AppendTarget(s: Script, t: Script)
    requires s.Allowed(Levenshtein) && t.Allowed(Levenshtein)
    ensures Append(s, t).Target() == s.Target() + t.Target()
  {
    if !t.Done? { AppendTarget(s, t.before); }
  }

  lemma AppendTurns(s: Script, t: Script, a: string, b: string, c: string, d: string)
    requires Turns(s, Levenshtein, a, b) && Turns(t, Levenshtein, c, d)
    ensures Turns(Append(s, t), Levenshtein, a + c, b + d)
  {
    AppendSource(s, t);
    AppendTarget(s, t);
  }

  /** A script that keeps all but the middle costs what the middle costs. */
  lemma LocalEdit(x: string, mid: Script, y: string)
    requires mid.Allowed(Levenshtein)
    ensures Distance(Levenshtein, x + mid.Source() + y, x + mid.Target() + y) <= mid.Cost()
  {
    var s, t := x + mid.Source() + y, x + mid.Target() + y;
    KeepAllTurns(Levenshtein, x);
    KeepAllTurns(Levenshtein, y);
    AppendTurns(KeepAll(x), mid, x, x, mid.Source(), mid.Target());
    AppendTurns(Append(KeepAll(x), mid), KeepAll(y), x + mid.Source(), x + mid.Target(), y, y);
    DistanceIsLeastCost(Levenshtein, s, t, Distance(Levenshtein, s, t));
  }

  lemma InsertionCostsOne(s: string, i: nat, c: char)
    requires i <= |s|
    ensures Distance(Levenshtein, s, s[..i] + [c] + s[i..]) <= 1
  {
    var mid := Insert(Done, c);
    LocalEdit(s[..i], mid, s[i..]);
    assert s[..i] + mid.Source() + s[i..] == s;
    assert mid.Target() == [c];
  }

  lemma DeletionCostsOne(s: string, i: nat)
    requires i < |s|
    ensures Distance(Levenshtein, s, s[..i] + s[i + 1..]) <= 1
  {
    var mid := Delete(Done, s[i]);
    LocalEdit(s[..i], mid, s[i + 1..]);
    assert mid.Source() == [s[i]];
    assert s[..i] + mid.Source() + s[i + 1..] == s;
    assert s[..i] + mid.Target() + s[i + 1..] == s[..i] + s[i + 1..];
  }

  lemma SubstitutionCostsOne(s: string, i: nat, c: char)
    requires i < |s|
    ensures Distance(Levenshtein, s, s[..i] + [c] + s[i + 1..]) <= 1
  {
    var mid := Substitute(Done, s[i], c);
    LocalEdit(s[..i], mid, s[i + 1..]);
    assert mid.Source() == [s[i]];
    assert s[..i] + mid.Source() + s[i + 1..] == s;
    assert mid.Target() == [c];
  }

  lemma OneEditCostsOne(s: string, t: string)
    requires OneEdit(s, t)
    ensures Distance(Levenshtein, s, t) <= 1
  {
    if i, c :| Inserts(s, t, i, c) {
      InsertionCostsOne(s, i, c);
    } else if i :| Deletes(s, t, i) {
      DeletionCostsOne(s, i);
    } else {
      var i, c :| Substitutes(s, t, i, c);
      SubstitutionCostsOne(s, i, c);
    }
  }

  lemma {:induction false} ChainIsNotShorter(path: seq<string>, a: string, b: string)
    requires Chain(path, a, b)
    ensures Distance(Levenshtein, a, b) <= |path| - 1
    decreases |path|
  {
    if |path| == 1 {
      DistanceZero(Levenshtein, a, b);
    } else {
      var mid := path[|path| - 2];
      var front := path[..|path| - 1];
      assert forall i :: 0 <= i < |front| - 1 ==> OneEdit(front[i], front[i + 1]) by {
        assert forall i :: 0 <= i < |front| ==> front[i] == path[i];
      }
      ChainIsNotShorter(front, a, mid);
      OneEditCostsOne(mid, b);
      LevenshteinTriangle(a, mid, b);
    }
  }

  lemma InsertsSnoc(s: string, t: string, i: int, d: char, c: char)
    requires Inserts(s, t, i, d)
    ensures Inserts(s + [c], t + [c], i, d)
  {
    assert (s + [c])[..i] == s[..i] && (s + [c])[i..] == s[i..] + [c];
  }

  lemma DeletesSnoc(s: string, t: string, i: int, c: char)
    requires Deletes(s, t, i)
    ensures Deletes(s + [c], t + [c], i)
  {
    assert (s + [c])[..i] == s[..i] && (s + [c])[i + 1..] == s[i + 1..] + [c];
  }

  lemma SubstitutesSnoc(s: string, t: string, i: int, d: char, c: char)
    requires Substitutes(s, t, i, d)
    ensures Substitutes(s + [c], t + [c], i, d)
  {
    assert (s + [c])[..i] == s[..i] && (s + [c])[i + 1..] == s[i + 1..] + [c];
  }

  lemma OneEditSnoc(s: string, t: string, c: char)
    requires OneEdit(s, t)
    ensures OneEdit(s + [c], t + [c])
  {
    if i, d :| Inserts(s, t, i, d) {
      InsertsSnoc(s, t, i, d, c);
    } else if i :| Deletes(s, t, i) {
      DeletesSnoc(s, t, i, c);
    } else {
      var i, d :| Substitutes(s, t, i, d);
      SubstitutesSnoc(s, t, i, d, c);
    }
  }

  lemma ChainSnoc(path: seq<string>, a: string, b: string, c: char) returns (r: seq<string>)
    requires Chain(path, a, b)
    ensures Chain(r, a + [c], b + [c]) && |r| == |path|
  {
    r := seq(|path|, i requires 0 <= i < |path| => path[i] + [c]);
    forall i | 0 <= i < |r| - 1 ensures OneEdit(r[i], r[i + 1]) { OneEditSnoc(path[i], path[i + 1], c); }
  }

  lemma ChainStep(path: seq<string>, a: string, b: string, c: string) returns (r: seq<string>)
    requires Chain(path, a, b) && OneEdit(b, c)
    ensures Chain(r, a, c) && |r| == |path| + 1
  {
    r := path + [c];
    forall i | 0 <= i < |r| - 1 ensures OneEdit(r[i], r[i + 1]) {
      if i < |path| - 1 { assert r[i] == path[i] && r[i + 1] == path[i + 1]; }
    }
  }

  lemma {:induction false} ScriptChain(s: Script) returns (path: seq<string>)
    requires s.Allowed(Levenshtein)
    ensures Chain(path, s.Source(), s.Target()) && |path| == s.Cost() + 1
  {
    if s.Done? {
      path := [""];
    } else {
      var p := ScriptChain(s.before);
      var x, y := s.before.Source(), s.before.Target();
      match s
      case Keep(_, c) => path := ChainSnoc(p, x, y, c);
      case Substitute(_, c, d) =>
        var q := ChainSnoc(p, x, y, c);
        assert Substitutes(y + [c], y + [d], |y|, d);
        path := ChainStep(q, x + [c], y + [c], y + [d]);
      case Insert(_, d) =>
        assert Inserts(y, y + [d], |y|, d);
        path := ChainStep(p, x, y, y + [d]);
      case Delete(_, c) =>
        var q := ChainSnoc(p, x, y, c);
        assert Deletes(y + [c], y, |y|);
        path := ChainStep(q, x + [c], y + [c], y);
    }
  }

  /** The Levenshtein distance is the length of a shortest chain of single-character edits. */
  lemma LevenshteinIsShortestChain(a: string, b: string)
    ensures exists path :: Chain(path, a, b) && |path| - 1 == Distance(Levenshtein, a, b)
    ensures forall path :: Chain(path, a, b) ==> Distance(Levenshtein, a, b) <= |path| - 1
  {
    DistanceIsLeastCost(Levenshtein, a, b, Distance(Levenshtein, a, b));
    var s :| Turns(s, Levenshtein, a, b) && s.Cost() == Distance(Levenshtein, a, b);
    var path := ScriptChain(s);
    assert Chain(path, a, b) && |path| - 1 == Distance(Levenshtein, a, b);
    forall p | Chain(p, a, b) ensures Distance(Levenshtein, a, b) <= |p| - 1 { ChainIsNotShorter(p, a, b); }
  }

  // ---------------------------------------------------------------------------
  // Two distances that can be read off
  // ---------------------------------------------------------------------------

  function DeleteAll(a: string): (s: Script)
    ensures s.Allowed(Levenshtein) && s.Source() == a && s.Target() == "" && s.Cost() == |a|
  {
    if a == "" then Done
    else
      assert a == a[..|a| - 1] + [a[|a| - 1]];
      Delete(DeleteAll(a[..|a| - 1]), a[|a| - 1])
  }

  lemma DistanceAtMost(s: Script, k: Kernel, a: string, b: string)
    requires Turns(s, k, a, b)
    ensures Distance(k, a, b) <= s.Cost()
  {
    assert a[..|a|] == a && b[..|b|] == b;
    EntryIsLowerBound(k, a, b, |a|, |b|, s);
  }

  function KeepMore(s: Script, v: string): (r: Script)
    ensures r.Cost() == s.Cost()
  {
    if v == "" then s else Keep(KeepMore(s, v[..|v| - 1]), v[|v| - 1])
  }

  lemma {:induction false} KeepMoreTurns(s: Script, k: Kernel, a: string, b: string, v: string)
    requires Turns(s, k, a, b)
    ensures Turns(KeepMore(s, v), k, a + v, b + v)
  {
    if v == "" {
      assert a + v == a && b + v == b;
    } else {
      var front, c := v[..|v| - 1], v[|v| - 1];
      KeepMoreTurns(s, k, a, b, front);
      assert a + v == a + front + [c] && b + v == b + front + [c];
    }
  }

  lemma SwapIsOneEdit(u: string, c: char, d: char, v: string)
    ensures Distance(Osa, u + [c, d] + v, u + [d, c] + v) <= 1
  {
    KeepAllTurns(Osa, u);
    var swap := Swap(KeepAll(u), c, d);
    assert Turns(swap, Osa, u + [c, d], u + [d, c]);
    KeepMoreTurns(swap, Osa, u + [c, d], u + [d, c], v);
    DistanceAtMost(KeepMore(swap, v), Osa, u + [c, d] + v, u + [d, c] + v);
  }

  lemma DistanceOneIsOneEdit(a: string, b: string)
    requires Distance(Levenshtein, a, b) == 1
    ensures OneEdit(a, b)
  {
    LevenshteinIsShortestChain(a, b);
    var path :| Chain(path, a, b) && |path| == 2;
    assert OneEdit(path[0], path[1]);
  }

  lemma SubstitutesKeeps(a: string, b: string, i: int, x: char, k: nat)
    requires Substitutes(a, b, i, x) && k < |a| && k != i
    ensures |b| == |a| && b[k] == a[k]
  {
  }

  lemma SwapIsNotOneEdit(u: string, c: char, d: char, v: string)
    requires c != d
    ensures !OneEdit(u + [c, d] + v, u + [d, c] + v)
  {
    var a, b, n := u + [c, d] + v, u + [d, c] + v, |u|;
    assert a[n] == c && a[n + 1] == d && b[n] == d && b[n + 1] == c && |a| == |b|;
    forall i, x ensures !Substitutes(a, b, i, x) {
      if Substitutes(a, b, i, x) { SubstitutesKeeps(a, b, i, x, if i == n then n + 1 else n); }
    }
  }

  /** Two neighbouring characters swapped are one edit for one kernel and two for the other. */
  lemma SwapDistance(u: string, c: char, d: char, v: string)
    requires c != d
    ensures Distance(Osa, u + [c, d] + v, u + [d, c] + v) == 1
    ensures Distance(Levenshtein, u + [c, d] + v, u + [d, c] + v) == 2
  {
    hide Distance;
    var a, b := u + [c, d] + v, u + [d, c] + v;
    assert a[|u|] == c && b[|u|] == d;
    SwapIsOneEdit(u, c, d, v);
    DistanceZero(Osa, a, b);
    DistanceZero(Levenshtein, a, b);
    OsaVersusLevenshtein(a, b);
    SwapIsNotOneEdit(u, c, d, v);
    if Distance(Levenshtein, a, b) == 1 { DistanceOneIsOneEdit(a, b); }
  }

  /** From a text to a part of it one deletes the rest and cannot do better. */
  lemma DistanceToPart(k: Kernel, a: string, w: string, b: string)
    ensures Distance(k, a + w + b, w) == |a| + |b|
  {
    hide Entry;
    KeepAllTurns(Levenshtein, w);
    var s := Append(Append(DeleteAll(a), KeepAll(w)), DeleteAll(b));
    AppendTurns(DeleteAll(a), KeepAll(w), a, "", w, w);
    AppendTurns(Append(DeleteAll(a), KeepAll(w)), DeleteAll(b), a + w, "" + w, b, "");
    assert "" + w + "" == w;
    DistanceAtMost(s, Levenshtein, a + w + b, w);
    OsaVersusLevenshtein(a + w + b, w);
    EntryBounds(k, a + w + b, w, |a + w + b|, |w|);
  }

  predicate NothingShared(a: string, b: string) {
    forall i, j :: 0 <= i < |a| && 0 <= j < |b| ==> a[i] != b[j]
  }

  /** What is kept or swapped stands in both texts. */
  lemma KeptIsShared(s: Script)
    ensures s.Keep? || s.Swap? ==> !NothingShared(s.Source(), s.Target())
  {
    if s.Keep? || s.Swap? {
      assert s.c in s.Source() && s.c in s.Target();
    }
  }

  /** Without a common character every character of the source costs an edit of its own. */
  lemma {:induction false} NothingKept(s: Script)
    requires NothingShared(s.Source(), s.Target())
    ensures |s.Source()| <= s.Cost()
  {
    if !s.Done? {
      var t := s.before;
      assert s.Source()[..|t.Source()|] == t.Source() && s.Target()[..|t.Target()|] == t.Target();
      NothingKept(t);
      KeptIsShared(s);
    }
  }

  lemma NothingSharedIsFar(k: Kernel, a: string, b: string)
    requires NothingShared(a, b)
    ensures |a| <= Distance(k, a, b)
  {
    assert a[..|a|] == a && b[..|b|] == b;
    var s := BestScript(k, a, b, |a|, |b|);
    NothingKept(s);
  }
}
