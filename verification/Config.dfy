/** Behaviour selectors and the fingerprint under which an index is stamped. */
module Config {
  import opened Wrappers

  /** Opt-in normalization steps on top of NFKC. */
  datatype NormalizeOptions = NormalizeOptions(
    lowercase: bool,
    kanaFold: bool,
    foldDiacritics: bool,
    foldChoonpu: bool,
    expandIterationMarks: bool,
    normalizeHyphens: bool,
    stripDigitGrouping: bool,
    collapseWhitespace: bool)

  datatype NormalizeProfile = Loose | NfkcCaseFold {
    function Options(): NormalizeOptions {
      match this
      case Loose => NormalizeOptions(true, true, false, false, false, false, false, false)
      case NfkcCaseFold => NormalizeOptions(true, false, false, false, false, false, false, false)
    }
  }

  const DEFAULT_FIELD_BITS: nat := 8

  function Flag(on: bool, key: string): string {
    if on then "+" + key else ""
  }

  function Join(parts: seq<string>, sep: string): string {
    if parts == [] then ""
    else if |parts| == 1 then parts[0]
    else Join(parts[..|parts| - 1], sep) + sep + parts[|parts| - 1]
  }

  /** The steps in the order the fingerprint spells them, with their keys. */
  const KEYS: seq<string> := ["lower", "kana", "diacritics", "choonpu", "iter", "hyphen", "digitgroup", "ws"]

  function EnabledSteps(o: NormalizeOptions): seq<bool> {
    [o.lowercase, o.kanaFold, o.foldDiacritics, o.foldChoonpu,
     o.expandIterationMarks, o.normalizeHyphens, o.stripDigitGrouping, o.collapseWhitespace]
  }

  function Flags(on: seq<bool>, keys: seq<string>): string
    requires |on| == |keys|
  {
    if on == [] then "" else Flag(on[0], keys[0]) + Flags(on[1..], keys[1..])
  }

  predicate IsPreset(o: NormalizeOptions) {
    o == Loose.Options() || o == NfkcCaseFold.Options()
  }

  /** The fingerprint: the two presets keep their historical keys, the rest spell out their steps. */
  function FingerprintKey(o: NormalizeOptions): string {
    if o == Loose.Options() then "loose"
    else if o == NfkcCaseFold.Options() then "nfkc_case_fold"
    else "nfkc" + Flags(EnabledSteps(o), KEYS)
  }

  lemma FlagsCons(b: bool, on: seq<bool>, key: string, keys: seq<string>)
    requires |on| == |keys|
    ensures Flags([b] + on, [key] + keys) == Flag(b, key) + Flags(on, keys)
  {
    assert ([b] + on)[1..] == on && ([key] + keys)[1..] == keys;
  }

  lemma FlagsOfTwo(on: seq<bool>, keys: seq<string>)
    requires |on| == |keys| >= 2
    ensures Flags(on, keys) == Flag(on[0], keys[0]) + Flag(on[1], keys[1]) + Flags(on[2..], keys[2..])
  {
    assert on[1..][1..] == on[2..] && keys[1..][1..] == keys[2..];
    Associative(Flag(on[0], keys[0]), Flag(on[1], keys[1]), Flags(on[2..], keys[2..]));
  }

  lemma FlagsOfFour(on: seq<bool>, keys: seq<string>)
    requires |on| == |keys| >= 4
    ensures Flags(on, keys) ==
            Flag(on[0], keys[0]) + Flag(on[1], keys[1]) + (Flag(on[2], keys[2]) + Flag(on[3], keys[3])
            + Flags(on[4..], keys[4..]))
  {
    FlagsOfTwo(on, keys);
    FlagsOfTwo(on[2..], keys[2..]);
    hide Flag, Flags;
    assert on[2..][2..] == on[4..] && keys[2..][2..] == keys[4..];
  }

  lemma FlagsOfEight(on: seq<bool>, keys: seq<string>)
    requires |on| == |keys| == 8
    ensures Flags(on, keys) ==
            Flag(on[0], keys[0]) + Flag(on[1], keys[1]) + (Flag(on[2], keys[2]) + Flag(on[3], keys[3])
            + (Flag(on[4], keys[4]) + Flag(on[5], keys[5]) + (Flag(on[6], keys[6]) + Flag(on[7], keys[7]))))
  {
    FlagsOfFour(on, keys);
    FlagsOfFour(on[4..], keys[4..]);
    var none := Flags(on[4..][4..], keys[4..][4..]);
    assert none == "";
    hide Flag, Flags;
    var last := Flag(on[6], keys[6]) + Flag(on[7], keys[7]);
    assert last + none == last;
  }

  /** The presets and their historical names; every other choice is `nfkc` and one word per step in a fixed order. */
  lemma FingerprintSpelling(o: NormalizeOptions)
    ensures Loose.Options() == NormalizeOptions(true, true, false, false, false, false, false, false)
    ensures NfkcCaseFold.Options() == NormalizeOptions(true, false, false, false, false, false, false, false)
    ensures FingerprintKey(Loose.Options()) == "loose" && FingerprintKey(NfkcCaseFold.Options()) == "nfkc_case_fold"
    ensures o != Loose.Options() && o != NfkcCaseFold.Options() ==>
              FingerprintKey(o) == "nfkc"
              + ((if o.lowercase then "+lower" else "") + (if o.kanaFold then "+kana" else "")
              + ((if o.foldDiacritics then "+diacritics" else "") + (if o.foldChoonpu then "+choonpu" else "")
              + ((if o.expandIterationMarks then "+iter" else "") + (if o.normalizeHyphens then "+hyphen" else "")
              + ((if o.stripDigitGrouping then "+digitgroup" else "") + (if o.collapseWhitespace then "+ws" else "")))))
  {
    hide Flag, Flags;
    FlagsOfEight(EnabledSteps(o), KEYS);
    FlagWords();
    FlagOff();
  }

  lemma FlagOff()
    ensures forall key :: Flag(false, key) == ""
  {
  }

  lemma FlagWords()
    ensures Flag(true, "lower") == "+lower" && Flag(true, "kana") == "+kana"
    ensures Flag(true, "diacritics") == "+diacritics" && Flag(true, "choonpu") == "+choonpu"
    ensures Flag(true, "iter") == "+iter" && Flag(true, "hyphen") == "+hyphen"
    ensures Flag(true, "digitgroup") == "+digitgroup" && Flag(true, "ws") == "+ws"
  {
    FlagWord("lower", "+lower");
    FlagWord("kana", "+kana");
    FlagWord("diacritics", "+diacritics");
    FlagWord("choonpu", "+choonpu");
    FlagWord("iter", "+iter");
    FlagWord("hyphen", "+hyphen");
    FlagWord("digitgroup", "+digitgroup");
    FlagWord("ws", "+ws");
  }

  lemma FlagWord(key: string, word: string)
    requires word == "+" + key
    ensures Flag(true, key) == word
  {
  }

  lemma FlagsConsSnoc(x: bool, on: seq<bool>, b: bool, first: string, keys: seq<string>, key: string)
    requires |on| == |keys| && Flags(on + [b], keys + [key]) == Flags(on, keys) + Flag(b, key)
    ensures Flags([x] + on + [b], [first] + keys + [key]) == Flags([x] + on, [first] + keys) + Flag(b, key)
  {
    FlagsCons(x, on + [b], first, keys + [key]);
    FlagsCons(x, on, first, keys);
    Associative([x], on, [b]);
    Associative([first], keys, [key]);
    Associative(Flag(x, first), Flags(on, keys), Flag(b, key));
  }

  lemma {:induction false} FlagsSnoc(on: seq<bool>, keys: seq<string>, b: bool, key: string)
    requires |on| == |keys|
    ensures Flags(on + [b], keys + [key]) == Flags(on, keys) + Flag(b, key)
  {
    if on == [] {
      FlagsCons(b, [], key, []);
      assert on + [b] == [b] + [] && keys + [key] == [key] + [];
    } else {
      FlagsSnoc(on[1..], keys[1..], b, key);
      FlagsConsSnoc(on[0], on[1..], b, keys[0], keys[1..], key);
      assert on == [on[0]] + on[1..] && keys == [keys[0]] + keys[1..];
    }
  }

  /** The vector of parts while the first `n` steps have been considered. */
  ghost predicate Spelled(parts: seq<string>, on: seq<bool>, n: nat)
    requires |on| == 8 && n <= 8
  {
    parts != [] && Join(parts, "+") == "nfkc" + Flags(on[..n], KEYS[..n])
  }

  lemma TakeOneMore<T>(s: seq<T>, n: nat)
    requires n < |s|
    ensures s[..n + 1] == s[..n] + [s[n]]
  {
  }

  function PushIf(parts: seq<string>, on: seq<bool>, n: nat): (r: seq<string>)
    requires |on| == 8 && n < 8 && Spelled(parts, on, n)
    ensures Spelled(r, on, n + 1)
  {
    PushSpells(parts, on[..n], KEYS[..n], on[n], KEYS[n]);
    TakeOneMore(on, n);
    TakeOneMore(KEYS, n);
    if on[n] then parts + [KEYS[n]] else parts
  }

  lemma PushSpells(parts: seq<string>, on: seq<bool>, keys: seq<string>, b: bool, key: string)
    requires parts != [] && |on| == |keys| && Join(parts, "+") == "nfkc" + Flags(on, keys)
    ensures Join(if b then parts + [key] else parts, "+") == "nfkc" + Flags(on + [b], keys + [key])
  {
    FlagsSnoc(on, keys, b, key);
    Associative("nfkc", Flags(on, keys), Flag(b, key));
    if b { JoinPush(parts, key, "+"); }
  }

  lemma JoinPush(parts: seq<string>, key: string, sep: string)
    requires parts != []
    ensures Join(parts + [key], sep) == Join(parts, sep) + (sep + key)
  {
    assert (parts + [key])[..|parts|] == parts;
  }

  method Fingerprint(o: NormalizeOptions) returns (key: string)
    ensures key == FingerprintKey(o)
  {
    if o == Loose.Options() { return "loose"; }
    if o == NfkcCaseFold.Options() { return "nfkc_case_fold"; }
    var on := EnabledSteps(o);
    var parts := ["nfkc"];
    assert Spelled(parts, on, 0) by { assert "nfkc" + "" == "nfkc"; }
    parts := PushIf(parts, on, 0);
    parts := PushIf(parts, on, 1);
    parts := PushIf(parts, on, 2);
    parts := PushIf(parts, on, 3);
    parts := PushIf(parts, on, 4);
    parts := PushIf(parts, on, 5);
    parts := PushIf(parts, on, 6);
    parts := PushIf(parts, on, 7);
    assert on[..8] == on && KEYS[..8] == KEYS;
    key := Join(parts, "+");
  }

  // ---------------------------------------------------------------------------
  // Different options never share a fingerprint
  // ---------------------------------------------------------------------------

  /** Two keys that differ at some common position. */
  predicate Clash(x: string, y: string) {
    exists n :: 0 <= n < |x| && n < |y| && x[n] != y[n]
  }

  /** A non-empty list of flags starts with one of its keys. */
  lemma {:induction false} FlagsHead(on: seq<bool>, keys: seq<string>) returns (i: nat)
    requires |on| == |keys| && Flags(on, keys) != ""
    ensures i < |keys| && |Flags(on, keys)| > |keys[i]| && Flags(on, keys)[1..|keys[i]| + 1] == keys[i]
  {
    if on[0] {
      i := 0;
    } else {
      var j := FlagsHead(on[1..], keys[1..]);
      assert Flags(on, keys) == Flags(on[1..], keys[1..]);
      i := j + 1;
    }
  }

  lemma FlagIsNotTail(key: string, rest: string, on: seq<bool>, keys: seq<string>)
    requires |on| == |keys| && forall i :: 0 <= i < |keys| ==> Clash(key, keys[i])
    ensures Flag(true, key) + rest != Flags(on, keys)
  {
    var mine, tail := Flag(true, key) + rest, Flags(on, keys);
    if tail != "" {
      var i := FlagsHead(on, keys);
      assert mine[1..|key| + 1] == key;
      hide Flag, Flags;
      var n :| 0 <= n < |key| && n < |keys[i]| && key[n] != keys[i][n];
      SliceAt(mine, key, n);
      SliceAt(tail, keys[i], n);
    }
  }

  lemma SliceAt(s: string, key: string, n: nat)
    requires |s| > |key| && s[1..|key| + 1] == key && n < |key|
    ensures s[n + 1] == key[n]
  {
    assert s[1..|key| + 1][n] == s[n + 1];
  }

  /** Keys that clash pairwise make the list of flags decodable. */
  lemma {:induction false} FlagsInjective(on: seq<bool>, other: seq<bool>, keys: seq<string>)
    requires |on| == |other| == |keys| && Flags(on, keys) == Flags(other, keys)
    requires forall i, j :: 0 <= i < j < |keys| ==> Clash(keys[i], keys[j])
    ensures on == other
  {
    if on != [] {
      var key, tail := Flag(true, keys[0]), keys[1..];
      if on[0] && !other[0] { FlagIsNotTail(keys[0], Flags(on[1..], tail), other[1..], tail); }
      if !on[0] && other[0] { FlagIsNotTail(keys[0], Flags(other[1..], tail), on[1..], tail); }
      assert on[0] == other[0];
      var flag := Flag(on[0], keys[0]);
      assert Flags(on, keys)[|flag|..] == Flags(on[1..], tail);
      assert Flags(other, keys)[|flag|..] == Flags(other[1..], tail);
      FlagsInjective(on[1..], other[1..], tail);
      assert on == [on[0]] + on[1..] && other == [other[0]] + other[1..];
    }
  }

  lemma KeysClash()
    ensures forall i, j :: 0 <= i < j < |KEYS| ==> Clash(KEYS[i], KEYS[j])
  {
    forall i, j | 0 <= i < j < |KEYS| ensures Clash(KEYS[i], KEYS[j]) {
      if i == 2 && j == 6 {
        assert KEYS[i][2] == 'a' && KEYS[j][2] == 'g';
      } else {
        assert KEYS[i][0] != KEYS[j][0];
      }
    }
  }

  lemma CustomStart(o: NormalizeOptions)
    requires o != Loose.Options() && o != NfkcCaseFold.Options()
    ensures var key := FingerprintKey(o);
            |key| >= 4 && key[0] == 'n' && key[4..] == Flags(EnabledSteps(o), KEYS) && (|key| > 4 ==> key[4] == '+')
  {
    FlagsStart(EnabledSteps(o), KEYS);
  }

  lemma {:induction false} FlagsStart(on: seq<bool>, keys: seq<string>)
    requires |on| == |keys|
    ensures Flags(on, keys) == "" || Flags(on, keys)[0] == '+'
  {
    if on != [] && !on[0] {
      FlagsStart(on[1..], keys[1..]);
      assert Flags(on, keys) == Flags(on[1..], keys[1..]);
    }
  }

  lemma StepsInjective(o: NormalizeOptions, p: NormalizeOptions)
    requires EnabledSteps(o) == EnabledSteps(p)
    ensures o == p
  {
    var s, t := EnabledSteps(o), EnabledSteps(p);
    assert s[0] == t[0] && s[1] == t[1] && s[2] == t[2] && s[3] == t[3];
    assert s[4] == t[4] && s[5] == t[5] && s[6] == t[6] && s[7] == t[7];
  }

  lemma PresetKeys(o: NormalizeOptions, p: NormalizeOptions)
    requires IsPreset(o) && IsPreset(p) && o != p
    ensures FingerprintKey(o) != FingerprintKey(p)
  {
    assert "loose"[0] != "nfkc_case_fold"[0];
  }

  lemma PresetIsNotCustom(o: NormalizeOptions, p: NormalizeOptions)
    requires IsPreset(o) && !IsPreset(p)
    ensures FingerprintKey(o) != FingerprintKey(p)
  {
    CustomStart(p);
    var y := FingerprintKey(p);
    assert y[0] == 'n' && (|y| > 4 ==> y[4] == '+');
    if o == Loose.Options() {
      assert "loose"[0] == 'l';
    } else {
      assert |"nfkc_case_fold"| > 4 && "nfkc_case_fold"[4] == '_';
    }
  }

  lemma CustomKeys(o: NormalizeOptions, p: NormalizeOptions)
    requires !IsPreset(o) && !IsPreset(p) && FingerprintKey(o) == FingerprintKey(p)
    ensures o == p
  {
    CustomStart(o);
    CustomStart(p);
    KeysClash();
    FlagsInjective(EnabledSteps(o), EnabledSteps(p), KEYS);
    StepsInjective(o, p);
  }

  /** The fingerprint identifies the options: an index is never taken for one built differently. */
  lemma FingerprintInjective(o: NormalizeOptions, p: NormalizeOptions)
    requires FingerprintKey(o) == FingerprintKey(p)
    ensures o == p
  {
    if IsPreset(o) && IsPreset(p) {
      if o != p { PresetKeys(o, p); }
    } else if IsPreset(o) {
      PresetIsNotCustom(o, p);
    } else if IsPreset(p) {
      PresetIsNotCustom(p, o);
    } else {
      CustomKeys(o, p);
    }
  }
}
