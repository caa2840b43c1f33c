/**
 * Inputs on which normalizing twice is not normalizing once, one for each way it can happen. The hypotheses are the
 * values of the tables on the characters and strings involved. Last, that the laws assumed of the tables can be met.
 */
module FixedPointExamples {
  import opened Config
  import opened Steps
  import opened Normalize
  import opened UnicodeLaws
  import opened FixedPoints
  import opened FoldingExactly

  const NO_STEPS := NormalizeOptions(false, false, false, false, false, false, false, false)

  lemma TwoChars(a: char, b: char)
    ensures [a, b][1..] == [b] && [b][1..] == "" && Front([a, b]) == [a] && Front([a]) == ""
  {
  }

  lemma ThreeChars(a: char, b: char, c: char)
    ensures Front([a, b, c]) == [a, b] && Front([a, b]) == [a] && Front([a]) == ""
    ensures [a, b, c][1..] == [b, c] && [b, c][1..] == [c] && [c][1..] == ""
  {
  }

  // ---------------------------------------------------------------------------
  // Dropping diacritics
  // ---------------------------------------------------------------------------

  lemma {:induction false} StripShorter(s: string)
    ensures |WithoutCombiningMarks(s)| <= |s|
  {
    if s != "" { StripShorter(s[1..]); }
  }

  lemma {:induction false} StripFixed(s: string)
    ensures WithoutCombiningMarks(s) == s <==> forall i :: 0 <= i < |s| ==> NotDiacritic(s[i])
  {
    if s != "" {
      var u := s[1..];
      assert [s[0]] + u == s;
      StripFixed(u);
      StripShorter(u);
      StripCons(s[0], u);
      AllOfCons(s[0], u);
    }
  }

  lemma AllOfCons(c: char, u: string)
    ensures (forall i :: 0 <= i < |[c] + u| ==> NotDiacritic(([c] + u)[i])) <==>
            NotDiacritic(c) && forall i :: 0 <= i < |u| ==> NotDiacritic(u[i])
  {
    if forall i :: 0 <= i < |[c] + u| ==> NotDiacritic(([c] + u)[i]) {
      forall i | 0 <= i < |u| ensures NotDiacritic(u[i]) { assert ([c] + u)[i + 1] == u[i]; }
      assert ([c] + u)[0] == c;
    }
  }

  lemma {:induction false} StripLeaves(s: string)
    ensures forall i :: 0 <= i < |WithoutCombiningMarks(s)| ==> NotDiacritic(WithoutCombiningMarks(s)[i])
  {
    if s != "" { StripLeaves(s[1..]); }
  }

  // ---------------------------------------------------------------------------
  // One input for each way
  // ---------------------------------------------------------------------------

  /** Lowercasing: the default preset turns J with caron into j and a caron, which compose. */
  lemma LowercaseJoins(t: UnicodeTables)
    requires t.nfkc("J\U{030C}") == "J\U{030C}" && t.nfkc("j\U{030C}") == "\U{01F0}"
    requires t.toLowercase('J') == "j" && IsLower(t, '\U{030C}') && IsLower(t, '\U{01F0}')
    ensures var r := Normalized(t, Loose.Options(), "J\U{030C}");
            r == "j\U{030C}" && Normalized(t, Loose.Options(), r) == "\U{01F0}"
  {
    TwoChars('J', '\U{030C}');
    assert KanaFold("J\U{030C}") == "J\U{030C}";
    assert Lowercase(t, "\U{030C}") == "\U{030C}" + Lowercase(t, "");
    assert Lowercase(t, "J\U{030C}") == "j" + "\U{030C}";
    assert KanaFold("\U{01F0}") == "\U{01F0}";
    assert Lowercase(t, "\U{01F0}") == "\U{01F0}" + Lowercase(t, "");
  }

  /** Expanding an iteration mark: the repeated kana composes with the semi-voiced mark behind the iteration mark. */
  lemma ExpansionJoins(t: UnicodeTables)
    requires t.nfkc("\U{306F}\U{309D}\U{309A}") == "\U{306F}\U{309D}\U{309A}"
    requires t.nfkc("\U{306F}\U{306F}\U{309A}") == "\U{306F}\U{3071}"
    ensures var o := NO_STEPS.(expandIterationMarks := true);
            var r := Normalized(t, o, "\U{306F}\U{309D}\U{309A}");
            r == "\U{306F}\U{306F}\U{309A}" && Normalized(t, o, r) == "\U{306F}\U{3071}"
  {
    ThreeChars('\U{306F}', '\U{309D}', '\U{309A}');
    hide AddDakuten;
    assert Expanded("\U{306F}") == "\U{306F}";
    assert Expanded("\U{306F}\U{309D}") == "\U{306F}\U{306F}";
    assert Expanded("\U{306F}\U{309D}\U{309A}") == "\U{306F}\U{306F}\U{309A}";
    TwoChars('\U{306F}', '\U{3071}');
    assert Expanded("\U{306F}\U{3071}") == "\U{306F}\U{3071}";
  }

  /** Dropping a prolonged-sound mark: the kana before it composes with the voiced mark behind it. */
  lemma DroppingJoins(t: UnicodeTables)
    requires t.nfkc("\U{304B}\U{30FC}\U{3099}") == "\U{304B}\U{30FC}\U{3099}"
    requires t.nfkc("\U{304B}\U{3099}") == "\U{304C}"
    ensures var o := NO_STEPS.(foldChoonpu := true);
            var r := Normalized(t, o, "\U{304B}\U{30FC}\U{3099}");
            r == "\U{304B}\U{3099}" && Normalized(t, o, r) == "\U{304C}"
  {
    ThreeChars('\U{304B}', '\U{30FC}', '\U{3099}');
    assert ChoonpuFolded("\U{304B}") == "\U{304B}";
    assert ChoonpuFolded("\U{304B}\U{30FC}") == "\U{304B}";
    assert ChoonpuFolded("\U{304B}\U{30FC}\U{3099}") == "\U{304B}\U{3099}";
    assert Front("\U{304C}") == "" && ChoonpuFolded("\U{304C}") == "\U{304C}";
  }

  /** The values of the tables on a character with an acute accent, a character behind it, and these two alone. */
  predicate AccentTables(t: UnicodeTables, a: char, c: char) {
    && t.nfkc([a, '\U{0301}', c]) == t.nfd([a, '\U{0301}', c]) == [a, '\U{0301}', c]
    && t.nfkc([a, c]) == t.nfc([a, c]) == [a, c]
  }

  lemma AccentFolded(t: UnicodeTables, a: char, c: char)
    requires AccentTables(t, a, c) && NotDiacritic(a) && NotDiacritic(c)
    ensures FoldDiacritics(t, [a, '\U{0301}', c]) == [a, c]
  {
    assert [a, '\U{0301}', c] == [a] + (['\U{0301}'] + ([c] + ""));
    StripCons(a, ['\U{0301}'] + ([c] + ""));
    StripCons('\U{0301}', [c] + "");
    StripCons(c, "");
    assert [a] + ("" + ([c] + "")) == [a, c];
  }

  lemma PlainKept(t: UnicodeTables, s: string)
    requires t.nfd(s) == t.nfc(s) == s && forall i :: 0 <= i < |s| ==> NotDiacritic(s[i])
    ensures FoldDiacritics(t, s) == s
  {
    StripFixed(s);
  }

  /** Folding diacritics: the prolonged-sound mark behind a dropped accent comes to stand behind the kana. */
  lemma FoldingExposes(t: UnicodeTables)
    requires AccentTables(t, '\U{304B}', '\U{30FC}')
    requires t.nfd("\U{304B}") == t.nfc("\U{304B}") == "\U{304B}"
    ensures var o := NO_STEPS.(foldChoonpu := true, foldDiacritics := true);
            var r := Normalized(t, o, "\U{304B}\U{0301}\U{30FC}");
            r == "\U{304B}\U{30FC}" && Normalized(t, o, r) == "\U{304B}"
  {
    ThreeChars('\U{304B}', '\U{0301}', '\U{30FC}');
    assert ChoonpuFolded("\U{304B}") == "\U{304B}";
    assert ChoonpuFolded("\U{304B}\U{0301}") == "\U{304B}\U{0301}";
    assert ChoonpuFolded("\U{304B}\U{0301}\U{30FC}") == "\U{304B}\U{0301}\U{30FC}";
    AccentFolded(t, '\U{304B}', '\U{30FC}');
    TwoChars('\U{304B}', '\U{30FC}');
    assert ChoonpuFolded("\U{304B}\U{30FC}") == "\U{304B}";
    PlainKept(t, "\U{304B}");
  }

  /** The same with an iteration mark. */
  lemma FoldingExposesIteration(t: UnicodeTables)
    requires AccentTables(t, '\U{304B}', '\U{309D}')
    requires t.nfd("\U{304B}\U{304B}") == t.nfc("\U{304B}\U{304B}") == "\U{304B}\U{304B}"
    ensures var o := NO_STEPS.(expandIterationMarks := true, foldDiacritics := true);
            var r := Normalized(t, o, "\U{304B}\U{0301}\U{309D}");
            r == "\U{304B}\U{309D}" && Normalized(t, o, r) == "\U{304B}\U{304B}"
  {
    ThreeChars('\U{304B}', '\U{0301}', '\U{309D}');
    assert Expanded("\U{304B}") == "\U{304B}";
    assert Expanded("\U{304B}\U{0301}") == "\U{304B}\U{0301}";
    assert Expanded("\U{304B}\U{0301}\U{309D}") == "\U{304B}\U{0301}\U{309D}";
    AccentFolded(t, '\U{304B}', '\U{309D}');
    TwoChars('\U{304B}', '\U{309D}');
    assert Expanded("\U{304B}\U{309D}") == "\U{304B}\U{304B}";
    PlainKept(t, "\U{304B}\U{304B}");
  }

  /** An accent behind a dropped prolonged-sound mark does no harm. */
  lemma AccentBehindDropped(t: UnicodeTables)
    requires t.nfkc("\U{304B}\U{30FC}\U{0301}") == "\U{304B}\U{30FC}\U{0301}"
    requires t.nfd("\U{304B}\U{0301}") == "\U{304B}\U{0301}"
    requires t.nfkc("\U{304B}") == t.nfd("\U{304B}") == t.nfc("\U{304B}") == "\U{304B}"
    ensures var o := NO_STEPS.(foldChoonpu := true, foldDiacritics := true);
            var r := Normalized(t, o, "\U{304B}\U{30FC}\U{0301}");
            r == "\U{304B}" && Normalized(t, o, r) == r
  {
    ThreeChars('\U{304B}', '\U{30FC}', '\U{0301}');
    assert ChoonpuFolded("\U{304B}") == "\U{304B}";
    assert ChoonpuFolded("\U{304B}\U{30FC}") == "\U{304B}";
    assert ChoonpuFolded("\U{304B}\U{30FC}\U{0301}") == "\U{304B}\U{0301}";
    assert "\U{304B}\U{0301}" == ['\U{304B}'] + (['\U{0301}'] + "");
    StripCons('\U{304B}', ['\U{0301}'] + "");
    StripCons('\U{0301}', "");
    PlainKept(t, "\U{304B}");
  }

  // ---------------------------------------------------------------------------
  // The laws are consistent
  // ---------------------------------------------------------------------------

  function Same(s: string): string { s }

  function SameChar(c: char): string { [c] }

  /** Tables of a language without composition, case or compatibility characters. */
  const PLAIN_TABLES := UnicodeTables(Same, Same, Same, SameChar, (c: char) => c)

  lemma {:induction false} StripMarks(m: string)
    requires AllMarks(NotDiacritic, m)
    ensures WithoutCombiningMarks(m) == ""
  {
    if m != "" { StripMarks(m[1..]); }
  }

  /** Without composition and case the laws of NFKC and lowercasing hold, whatever the stable characters are. */
  lemma PlainTablesAreLawful(o: NormalizeOptions)
    ensures Laws(PLAIN_TABLES, NotDiacritic, o) && MarksTell(PLAIN_TABLES, NotDiacritic)
  {
  }

  lemma PlainFolding(s: string)
    ensures FoldDiacritics(PLAIN_TABLES, s) == WithoutCombiningMarks(s)
    ensures DiacriticFolder(PLAIN_TABLES)(s) == WithoutCombiningMarks(s)
  {
  }

  lemma PlainFoldingIsLocal()
    ensures Local(DiacriticFolder(PLAIN_TABLES), NotDiacritic)
  {
    var f := DiacriticFolder(PLAIN_TABLES);
    forall s, i, j | 0 <= i <= j <= |s| && Fixed(f, s) ensures Fixed(f, s[i..j]) {
      PlainFolding(s);
      PlainFolding(s[i..j]);
      StripFixed(s);
      StripFixed(s[i..j]);
    }
    forall a, b ensures f(a + b) == f(a) + f(b) {
      PlainFolding(a + b);
      PlainFolding(a);
      PlainFolding(b);
      StripAppend(a, b);
    }
  }

  lemma PlainFoldingTwice(s: string)
    ensures FoldDiacritics(PLAIN_TABLES, FoldDiacritics(PLAIN_TABLES, s)) == FoldDiacritics(PLAIN_TABLES, s)
  {
    PlainFolding(s);
    StripLeaves(s);
    PlainFolding(WithoutCombiningMarks(s));
    StripFixed(WithoutCombiningMarks(s));
  }

  lemma PlainFoldingKeepsKind(c: char, m: string)
    requires NotDiacritic(c) && AllMarks(NotDiacritic, m)
    ensures KeepsKind(c, FoldDiacritics(PLAIN_TABLES, [c] + m))
  {
    PlainFolding([c] + m);
    StripMarks(m);
    assert ([c] + m)[1..] == m;
    assert WithoutCombiningMarks([c] + m) == [c] + "";
  }

  lemma PlainFoldingDrops(s: string, m: string)
    requires AllDiacritics(m)
    ensures FoldDiacritics(PLAIN_TABLES, s + m) == FoldDiacritics(PLAIN_TABLES, s)
  {
    PlainFolding(s + m);
    PlainFolding(s);
    StripAppend(s, m);
    StripMarks(m);
  }

  lemma PlainFoldingTells(s: string)
    requires FixedChars(DiacriticFolder(PLAIN_TABLES), s)
    ensures FoldDiacritics(PLAIN_TABLES, s) == s
  {
    PlainFolding(s);
    forall i | 0 <= i < |s| ensures NotDiacritic(s[i]) {
      assert Fixed(DiacriticFolder(PLAIN_TABLES), [s[i]]);
      PlainFolding([s[i]]);
      StripFixed([s[i]]);
      assert NotDiacritic([s[i]][0]);
    }
    StripFixed(s);
  }

  lemma PlainFoldingOfMarks(m: string)
    requires AllMarks(NotDiacritic, m)
    ensures FoldDiacritics(PLAIN_TABLES, m) == ""
  {
    PlainFolding(m);
    StripMarks(m);
  }

  lemma PlainFoldingOfHandled(c: char)
    requires IsHandled(c)
    ensures FoldDiacritics(PLAIN_TABLES, [c]) == [c]
  {
    PlainFolding([c]);
    StripFixed([c]);
  }

  lemma PlainDiacriticLaws()
    ensures DiacriticLaws(PLAIN_TABLES, NotDiacritic)
  {
    hide FoldDiacritics, Local, KeepsKind;
    PlainFoldingIsLocal();
    forall s ensures FoldDiacritics(PLAIN_TABLES, FoldDiacritics(PLAIN_TABLES, s)) == FoldDiacritics(PLAIN_TABLES, s) {
      PlainFoldingTwice(s);
    }
    forall c | IsHandled(c) ensures FoldDiacritics(PLAIN_TABLES, [c]) == [c] { PlainFoldingOfHandled(c); }
    forall c, m | NotDiacritic(c) && AllMarks(NotDiacritic, m)
      ensures KeepsKind(c, FoldDiacritics(PLAIN_TABLES, [c] + m))
    {
      PlainFoldingKeepsKind(c, m);
    }
    forall m | AllMarks(NotDiacritic, m) ensures FoldDiacritics(PLAIN_TABLES, m) == "" { PlainFoldingOfMarks(m); }
  }

  lemma PlainFoldingLaws()
    ensures DropsDiacritics(PLAIN_TABLES) && FoldingTells(PLAIN_TABLES, NotDiacritic)
  {
    hide FoldDiacritics;
    forall s, m | AllDiacritics(m) ensures FoldDiacritics(PLAIN_TABLES, s + m) == FoldDiacritics(PLAIN_TABLES, s) {
      PlainFoldingDrops(s, m);
    }
    forall s | FoldingKeepsMarks(PLAIN_TABLES, NotDiacritic, s) ensures FoldDiacritics(PLAIN_TABLES, s) == s {
      PlainFoldingTells(s);
    }
  }

  /** The laws of diacritic folding hold, too: together they can be met. */
  lemma LawsCanBeMet(o: NormalizeOptions)
    ensures Laws(PLAIN_TABLES, NotDiacritic, o) && MarksTell(PLAIN_TABLES, NotDiacritic)
    ensures DiacriticLaws(PLAIN_TABLES, NotDiacritic) && DropsDiacritics(PLAIN_TABLES)
    ensures FoldingTells(PLAIN_TABLES, NotDiacritic)
  {
    hide Laws, MarksTell, DiacriticLaws, DropsDiacritics, FoldingTells;
    PlainTablesAreLawful(o);
    PlainDiacriticLaws();
    PlainFoldingLaws();
  }
}
