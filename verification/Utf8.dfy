/** UTF-8 (RFC 3629, section 3) and the byte order by which SQLite compares text. */
module Utf8 {
  import opened Wrappers

  function EncodeChar(c: char): (bytes: seq<byte>)
    ensures 1 <= |bytes| <= 4
  {
    var n := c as int;
    if n < 0x80 then [n]
    else if n < 0x800 then [0xC0 + n / 0x40, 0x80 + n % 0x40]
    else if n < 0x10000 then [0xE0 + n / 0x1000, 0x80 + n / 0x40 % 0x40, 0x80 + n % 0x40]
    else [0xF0 + n / 0x40000, 0x80 + n / 0x1000 % 0x40, 0x80 + n / 0x40 % 0x40, 0x80 + n % 0x40]
  }

  /** The six bits of a continuation byte. */
  function Continuation(b: byte): (bits: int)
    requires 0x80 <= b <= 0xBF
    ensures 0 <= bits < 64
  {
    b - 0x80
  }

  /** One byte below 0x80, else a lead byte that tells the length and six bits a byte (RFC 3629, section 3). */
  lemma EncodeCharMeaning(c: char)
    ensures var b, n := EncodeChar(c), c as int;
            && (forall k :: 1 <= k < |b| ==> 0x80 <= b[k] <= 0xBF)
            && (n <= 0x7F ==> b == [n])
            && (0x80 <= n <= 0x7FF ==> |b| == 2 && n == (b[0] as int - 0xC0) * 64 + Continuation(b[1]))
            && (0x800 <= n <= 0xFFFF ==>
                  |b| == 3 && n == (b[0] as int - 0xE0) * 4096 + Continuation(b[1]) * 64 + Continuation(b[2]))
            && (0x10000 <= n ==>
                  |b| == 4 && n == (b[0] as int - 0xF0) * 262144 + Continuation(b[1]) * 4096 + Continuation(b[2]) * 64
                                   + Continuation(b[3]))
  {
    DigitsOfDigits(c as int);
  }

  function Encode(s: string): seq<byte> {
    if s == "" then [] else EncodeChar(s[0]) + Encode(s[1..])
  }

  /** `len_utf8` */
  function CharLen(c: char): (n: nat)
    ensures 1 <= n <= 4
  {
    var n := c as int;
    if n < 0x80 then 1 else if n < 0x800 then 2 else if n < 0x10000 then 3 else 4
  }

  /** `str::len`: the bytes of a string. */
  function ByteLen(s: string): nat {
    if s == "" then 0 else ByteLen(s[..|s| - 1]) + CharLen(s[|s| - 1])
  }

  lemma {:induction false} EncodeAppend(s: string, c: char)
    ensures Encode(s + [c]) == Encode(s) + EncodeChar(c)
  {
    if s == "" {
      assert s + [c] == [c] && [c][1..] == "";
      assert EncodeChar(c) + [] == EncodeChar(c);
    } else {
      EncodeAppend(s[1..], c);
      assert (s + [c])[1..] == s[1..] + [c];
    }
  }

  /** Byte lengths are the lengths of the encodings. */
  lemma {:induction false} ByteLenIsEncodedLength(s: string)
    ensures ByteLen(s) == |Encode(s)|
  {
    if s != "" {
      ByteLenIsEncodedLength(s[..|s| - 1]);
      EncodeAppend(s[..|s| - 1], s[|s| - 1]);
      assert s == s[..|s| - 1] + [s[|s| - 1]];
    }
  }

  /** `memcmp` order, a proper prefix first. */
  predicate BytesLess(a: seq<byte>, b: seq<byte>) {
    b != [] && (a == [] || a[0] < b[0] || (a[0] == b[0] && BytesLess(a[1..], b[1..])))
  }

  /** The same order on code points. */
  predicate Less(s: string, t: string) {
    t != "" && (s == "" || s[0] < t[0] || (s[0] == t[0] && Less(s[1..], t[1..])))
  }

  predicate AtMost(s: string, t: string) {
    s == t || Less(s, t)
  }

  /** Comparing base-64 digits from the top is comparing the numbers. */
  lemma TopDigitDecides(n: nat, m: nat)
    requires n < m
    ensures n / 0x40 < m / 0x40 || (n / 0x40 == m / 0x40 && n % 0x40 < m % 0x40)
  {
  }

  lemma DigitsOfDigits(n: nat)
    ensures n / 0x1000 == n / 0x40 / 0x40 && n / 0x40000 == n / 0x40 / 0x40 / 0x40
    ensures n / 0x1000 % 0x40 == n / 0x40 / 0x40 % 0x40
  {
  }

  lemma EncodeCharLength(c: char, d: char)
    requires c < d && |EncodeChar(c)| != |EncodeChar(d)|
    ensures EncodeChar(c)[0] < EncodeChar(d)[0]
  {
  }

  lemma EncodeCharSameLength(c: char, d: char) returns (k: nat)
    requires c < d && |EncodeChar(c)| == |EncodeChar(d)|
    ensures k < |EncodeChar(c)| && EncodeChar(c)[k] < EncodeChar(d)[k]
    ensures forall i :: 0 <= i < k ==> EncodeChar(c)[i] == EncodeChar(d)[i]
  {
    var n, m := c as int, d as int;
    DigitsOfDigits(n);
    DigitsOfDigits(m);
    TopDigitDecides(n, m);
    if n / 0x40 < m / 0x40 { TopDigitDecides(n / 0x40, m / 0x40); }
    if n / 0x1000 < m / 0x1000 { TopDigitDecides(n / 0x1000, m / 0x1000); }
    var len := |EncodeChar(c)|;
    k := if len == 1 || n / 0x40 == m / 0x40 then len - 1
         else if len == 2 || n / 0x1000 == m / 0x1000 then len - 2
         else if len == 3 || n / 0x40000 == m / 0x40000 then len - 3
         else 0;
  }

  /** The encodings of two different characters differ at a common position, the smaller character first. */
  lemma EncodeCharDiffers(c: char, d: char) returns (k: nat)
    requires c < d
    ensures k < |EncodeChar(c)| && k < |EncodeChar(d)|
    ensures EncodeChar(c)[..k] == EncodeChar(d)[..k] && EncodeChar(c)[k] < EncodeChar(d)[k]
  {
    if |EncodeChar(c)| != |EncodeChar(d)| {
      EncodeCharLength(c, d);
      k := 0;
    } else {
      k := EncodeCharSameLength(c, d);
    }
  }

  lemma {:induction false} BytesLessSamePrefix(p: seq<byte>, a: seq<byte>, b: seq<byte>)
    ensures BytesLess(p + a, p + b) <==> BytesLess(a, b)
  {
    if p == [] {
      assert p + a == a && p + b == b;
    } else {
      assert (p + a)[1..] == p[1..] + a && (p + b)[1..] == p[1..] + b;
      BytesLessSamePrefix(p[1..], a, b);
    }
  }

  lemma BytesLessAt(a: seq<byte>, b: seq<byte>, k: nat)
    requires k < |a| && k < |b| && a[..k] == b[..k] && a[k] < b[k]
    ensures BytesLess(a, b) && !BytesLess(b, a)
  {
    BytesLessSamePrefix(a[..k], a[k..], b[k..]);
    BytesLessSamePrefix(a[..k], b[k..], a[k..]);
    assert a == a[..k] + a[k..] && b == a[..k] + b[k..];
  }

  lemma DifferentHeads(s: string, t: string)
    requires s != "" && t != "" && s[0] < t[0]
    ensures BytesLess(Encode(s), Encode(t)) && !BytesLess(Encode(t), Encode(s))
  {
    var k := EncodeCharDiffers(s[0], t[0]);
    assert Encode(s)[..k] == EncodeChar(s[0])[..k] && Encode(t)[..k] == EncodeChar(t[0])[..k];
    assert Encode(s)[k] == EncodeChar(s[0])[k] && Encode(t)[k] == EncodeChar(t[0])[k];
    BytesLessAt(Encode(s), Encode(t), k);
  }

  /** Comparing UTF-8 bytes is comparing code points (RFC 3629, section 1). */
  lemma {:induction false} ByteOrderIsCodePointOrder(s: string, t: string)
    ensures BytesLess(Encode(s), Encode(t)) <==> Less(s, t)
  {
    if s != "" && t != "" {
      if s[0] < t[0] {
        DifferentHeads(s, t);
      } else if t[0] < s[0] {
        DifferentHeads(t, s);
      } else {
        BytesLessSamePrefix(EncodeChar(s[0]), Encode(s[1..]), Encode(t[1..]));
        ByteOrderIsCodePointOrder(s[1..], t[1..]);
      }
    }
  }

  /** Different strings have different encodings. */
  lemma {:induction false} EncodeInjective(s: string, t: string)
    ensures Encode(s) == Encode(t) <==> s == t
  {
    LessTotal(s, t);
    ByteOrderIsCodePointOrder(s, t);
    ByteOrderIsCodePointOrder(t, s);
    BytesLessIrreflexive(Encode(s));
  }

  lemma {:induction false} LessTotal(s: string, t: string)
    ensures s == t || Less(s, t) || Less(t, s)
  {
    if s != "" && t != "" && s[0] == t[0] {
      LessTotal(s[1..], t[1..]);
      assert s == [s[0]] + s[1..] && t == [t[0]] + t[1..];
    }
  }

  lemma {:induction false} BytesLessIrreflexive(a: seq<byte>)
    ensures !BytesLess(a, a)
  {
    if a != [] { BytesLessIrreflexive(a[1..]); }
  }
}
