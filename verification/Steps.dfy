/** The dictionary-free normalization steps. */
module Steps {
  import opened Wrappers
  import opened Text

  // ---------------------------------------------------------------------------
  // Character classes
  // ---------------------------------------------------------------------------

  const CHOONPU: char := '\U{30FC}'
  const IDEOGRAPHIC_MARK: char := '\U{3005}'

  predicate IsKana(c: char) {
    '\U{3041}' <= c <= '\U{3096}' || '\U{309D}' <= c <= '\U{309F}' || '\U{30A1}' <= c <= '\U{30FF}'
  }

  predicate IsKanji(c: char) {
    || '\U{3400}' <= c <= '\U{4DBF}' || '\U{4E00}' <= c <= '\U{9FFF}'
    || '\U{F900}' <= c <= '\U{FAFF}' || '\U{20000}' <= c <= '\U{2FFFF}'
  }

  predicate IsDash(c: char) {
    c == '-' || '\U{2010}' <= c <= '\U{2015}' || c == '\U{2212}' || c == '\U{FF0D}'
  }

  predicate IsVoiceableKana(c: char) {
    || c in "かきくけこさしすせそたちつてとはひふへほ"
    || c in "カキクケコサシスセソタチツテトハヒフヘホ"
  }

  function AddDakuten(c: char): char {
    if IsVoiceableKana(c) then (c as int + 1) as char else c
  }

  function ToHiragana(c: char): char {
    if '\U{30A1}' <= c <= '\U{30F6}' then (c as int - 0x60) as char else c
  }

  function UnifyDash(c: char): char {
    if IsDash(c) then '-' else c
  }

  // ---------------------------------------------------------------------------
  // What each step computes, one more input character at a time
  // ---------------------------------------------------------------------------

  predicate IsKanaRepeatMark(c: char) {
    c == '\U{309D}' || c == '\U{30FD}'
  }

  predicate IsVoicedRepeatMark(c: char) {
    c == '\U{309E}' || c == '\U{30FE}'
  }

  /** What `c` becomes when `prev` is the last character written. */
  function ExpandMark(prev: Option<char>, c: char): char {
    if prev.None? then c
    else if c == IDEOGRAPHIC_MARK && IsKanji(prev.value) then prev.value
    else if IsKanaRepeatMark(c) && IsKana(prev.value) then prev.value
    else if IsVoicedRepeatMark(c) && IsKana(prev.value) then AddDakuten(prev.value)
    else c
  }

  function Front(s: string): string
    requires s != ""
  {
    s[..|s| - 1]
  }

  function Expanded(s: string): (r: string)
    ensures |r| == |s|
  {
    if s == "" then "" else
      var out := Expanded(Front(s));
      out + [ExpandMark(Last(out), s[|s| - 1])]
  }

  function MapChars(s: string, f: char -> char): (r: string)
    ensures |r| == |s| && forall i :: 0 <= i < |s| ==> r[i] == f(s[i])
  {
    seq(|s|, i requires 0 <= i < |s| => f(s[i]))
  }

  predicate IsKanaAt(prev: Option<char>) {
    prev.Some? && IsKana(prev.value)
  }

  function ChoonpuFolded(s: string): string {
    if s == "" then "" else
      var out, c := ChoonpuFolded(Front(s)), s[|s| - 1];
      if c == CHOONPU && IsKanaAt(Last(out)) then out else out + [c]
  }

  /** A comma with an ASCII digit directly on both sides. */
  predicate GroupsDigits(s: string, i: nat)
    requires i < |s|
  {
    s[i] == ',' && 0 < i && IsAsciiDigit(s[i - 1]) && i + 1 < |s| && IsAsciiDigit(s[i + 1])
  }

  /** The first `n` characters of `s` without their grouping commas. */
  function UngroupedTo(s: string, n: nat): string
    requires n <= |s|
  {
    if n == 0 then "" else UngroupedTo(s, n - 1) + (if GroupsDigits(s, n - 1) then "" else [s[n - 1]])
  }

  function Ungrouped(s: string): string {
    UngroupedTo(s, |s|)
  }

  predicate EndsInSpace(s: string) {
    s != "" && IsWhitespace(s[|s| - 1])
  }

  function Collapsed(s: string): string {
    if s == "" then "" else
      var front, c := Front(s), s[|s| - 1];
      var out := Collapsed(front);
      if IsWhitespace(c) then out
      else out + (if EndsInSpace(front) && out != "" then " " else "") + [c]
  }

  // ---------------------------------------------------------------------------
  // The loops
  // ---------------------------------------------------------------------------

  lemma PrefixStep(s: string, i: nat)
    requires i < |s|
    ensures s[..i + 1] != "" && Front(s[..i + 1]) == s[..i] && s[..i + 1][i] == s[i]
  {
  }

  method ExpandIterationMarks(input: string) returns (out: string)
    ensures out == Expanded(input)
  {
    out := "";
    for i := 0 to |input|
      invariant out == Expanded(input[..i])
    {
      PrefixStep(input, i);
      var c := input[i];
      var prev := Last(out);
      var replacement :=
        if c == IDEOGRAPHIC_MARK then (if prev.Some? && IsKanji(prev.value) then prev else None)
        else if IsKanaRepeatMark(c) then (if prev.Some? && IsKana(prev.value) then prev else None)
        else if IsVoicedRepeatMark(c) then
          (if prev.Some? && IsKana(prev.value) then Some(AddDakuten(prev.value)) else None)
        else None;
      out := out + [if replacement.Some? then replacement.value else c];
    }
    assert input[..|input|] == input;
  }

  method FoldChoonpu(input: string) returns (out: string)
    ensures out == ChoonpuFolded(input)
  {
    out := "";
    var prevIsKana := false;
    for i := 0 to |input|
      invariant out == ChoonpuFolded(input[..i])
      invariant prevIsKana == IsKanaAt(Last(out))
    {
      PrefixStep(input, i);
      var c := input[i];
      if c == CHOONPU && prevIsKana { continue; }
      out := out + [c];
      prevIsKana := IsKana(c);
    }
    assert input[..|input|] == input;
  }

  method StripDigitGrouping(input: string) returns (out: string)
    ensures out == Ungrouped(input)
  {
    out := "";
    for i := 0 to |input|
      invariant out == UngroupedTo(input, i)
    {
      var c := input[i];
      if c == ',' {
        var prevDigit := 0 < i && IsAsciiDigit(input[i - 1]);
        var nextDigit := i + 1 < |input| && IsAsciiDigit(input[i + 1]);
        if prevDigit && nextDigit { continue; }
      }
      out := out + [c];
    }
  }

  method CollapseWhitespace(input: string) returns (out: string)
    ensures out == Collapsed(input)
  {
    out := "";
    var pendingSpace := false;
    for i := 0 to |input|
      invariant out == Collapsed(input[..i])
      invariant pendingSpace == EndsInSpace(input[..i])
    {
      PrefixStep(input, i);
      var c := input[i];
      if IsWhitespace(c) {
        pendingSpace := true;
      } else {
        if pendingSpace && out != "" { out := out + " "; }
        pendingSpace := false;
        out := out + [c];
      }
    }
    assert input[..|input|] == input;
  }

  function KanaFold(s: string): (r: string)
    ensures |r| == |s| && forall i :: 0 <= i < |s| ==> r[i] == ToHiragana(s[i])
  {
    MapChars(s, ToHiragana)
  }

  function NormalizeHyphens(s: string): (r: string)
    ensures |r| == |s| && forall i :: 0 <= i < |s| ==> r[i] == UnifyDash(s[i])
  {
    MapChars(s, UnifyDash)
  }

  // ---------------------------------------------------------------------------
  // The prolonged-sound flag needs no memory
  // ---------------------------------------------------------------------------

  /** What was written last is kana exactly when what was read last is: a dropped mark is kana, after kana. */
  lemma {:induction false} ChoonpuFlag(s: string)
    ensures IsKanaAt(Last(ChoonpuFolded(s))) <==> IsKanaAt(Last(s))
  {
    if s != "" { ChoonpuFlag(Front(s)); }
  }

  /** A mark that directly follows a kana or another mark. */
  predicate IsLengthening(s: string, i: nat)
    requires i < |s|
  {
    s[i] == CHOONPU && i > 0 && IsKana(s[i - 1])
  }

  function WithoutLengthening(s: string, n: nat): string
    requires n <= |s|
  {
    if n == 0 then "" else WithoutLengthening(s, n - 1) + (if IsLengthening(s, n - 1) then "" else [s[n - 1]])
  }

  /** The loop with its flag drops exactly the marks whose neighbour in the input is kana. */
  lemma {:induction false} ChoonpuIsLocal(s: string, n: nat)
    requires n <= |s|
    ensures ChoonpuFolded(s[..n]) == WithoutLengthening(s, n)
  {
    if n > 0 {
      ChoonpuIsLocal(s, n - 1);
      PrefixStep(s, n - 1);
      ChoonpuFlag(s[..n - 1]);
      var out := ChoonpuFolded(s[..n - 1]);
      assert Last(s[..n - 1]) == if n > 1 then Some(s[n - 2]) else None;
      assert out + "" == out;
    }
  }

  // ---------------------------------------------------------------------------
  // Whitespace collapsing is joining the words
  // ---------------------------------------------------------------------------

  function JoinWords(ws: seq<string>): string {
    if ws == [] then ""
    else if |ws| == 1 then ws[0]
    else JoinWords(ws[..|ws| - 1]) + " " + ws[|ws| - 1]
  }

  lemma JoinWordsExtend(ws: seq<string>, c: char)
    requires ws != []
    ensures JoinWords(ws[..|ws| - 1] + [ws[|ws| - 1] + [c]]) == JoinWords(ws) + [c]
  {
    var longer := ws[..|ws| - 1] + [ws[|ws| - 1] + [c]];
    assert longer[..|longer| - 1] == ws[..|ws| - 1];
  }

  lemma JoinWordsNew(ws: seq<string>, w: string)
    ensures JoinWords(ws + [w]) == if ws == [] then w else JoinWords(ws) + " " + w
  {
    assert (ws + [w])[..|ws|] == ws;
  }

  lemma {:induction false} CollapsedIsJoinedWords(s: string)
    ensures Collapsed(s) == JoinWords(Words(s))
    ensures Words(s) == [] <==> Collapsed(s) == ""
  {
    if s != "" {
      var front, c := Front(s), s[|s| - 1];
      CollapsedIsJoinedWords(front);
      var ws := Words(front);
      if IsWhitespace(c) {
      } else if EndsInWord(front) {
        JoinWordsExtend(ws, c);
      } else {
        JoinWordsNew(ws, [c]);
      }
    }
  }

  lemma WordsSnoc(s: string, c: char)
    requires !IsWhitespace(c)
    ensures var ws := Words(s);
            Words(s + [c]) == if EndsInWord(s) then ws[..|ws| - 1] + [ws[|ws| - 1] + [c]] else ws + [[c]]
  {
    assert Front(s + [c]) == s;
  }

  lemma {:induction false} WordsAppendWord(s: string, w: string)
    requires IsWord(w) && !EndsInWord(s)
    ensures Words(s + w) == Words(s) + [w] && EndsInWord(s + w)
  {
    var init, c := Front(w), w[|w| - 1];
    assert w == init + [c];
    assert s + w == (s + init) + [c];
    WordsSnoc(s + init, c);
    if init == "" {
      assert s + init == s;
    } else {
      assert IsWord(init);
      WordsAppendWord(s, init);
      assert (Words(s) + [init])[..|Words(s)|] == Words(s);
    }
  }

  lemma NoWords()
    ensures Words("") == []
  {
  }

  /** Splitting what `JoinWords` joined gives the words back. */
  lemma {:induction false} WordsOfJoin(ws: seq<string>)
    requires forall k :: 0 <= k < |ws| ==> IsWord(ws[k])
    ensures Words(JoinWords(ws)) == ws
  {
    hide Words;
    NoWords();
    if |ws| == 1 {
      WordsAppendWord("", ws[0]);
      assert "" + ws[0] == ws[0];
    } else if |ws| > 1 {
      var front, w := ws[..|ws| - 1], ws[|ws| - 1];
      WordsOfJoin(front);
      WordsSpace(JoinWords(front));
      WordsAppendWord(JoinWords(front) + " ", w);
      assert ws == front + [w];
    }
  }

  lemma WordsSpace(s: string)
    ensures Words(s + " ") == Words(s) && !EndsInWord(s + " ")
  {
    assert Front(s + " ") == s;
  }

  /** Collapsing whitespace changes no word, and doing it again changes nothing. */
  lemma CollapseKeepsWords(s: string)
    ensures Words(Collapsed(s)) == Words(s)
    ensures Collapsed(Collapsed(s)) == Collapsed(s)
  {
    CollapsedIsJoinedWords(s);
    WordsOfJoin(Words(s));
    CollapsedIsJoinedWords(Collapsed(s));
  }
}
