/**
  base64url (section 5 of RFC 4648): the raw and padded encodings, and the decoder with its
  rule for adding padding.  The library decoder underneath skips CR and LF wherever they stand
  and ignores the unused low bits of the last character; both are modelled.
 */
module Base64Url {
  import opened Basics

  type Byte = x: int | 0 <= x < 256
  type Sextet = x: int | 0 <= x < 64

  // ----- The alphabet -----

  predicate InAlphabet(c: char) {
    'A' <= c <= 'Z' || 'a' <= c <= 'z' || '0' <= c <= '9' || c == '-' || c == '_'
  }

  function CharOf(x: Sextet): (c: char)
    ensures InAlphabet(c) && ValueOf(c) == x
  {
    if x < 26 then 'A' + x as char
    else if x < 52 then 'a' + (x - 26) as char
    else if x < 62 then '0' + (x - 52) as char
    else if x == 62 then '-'
    else '_'
  }

  function ValueOf(c: char): Sextet
    requires InAlphabet(c)
  {
    if 'A' <= c <= 'Z' then c as int - 'A' as int
    else if 'a' <= c <= 'z' then c as int - 'a' as int + 26
    else if '0' <= c <= '9' then c as int - '0' as int + 52
    else if c == '-' then 62
    else 63
  }

  /** The alphabet of section 5 of RFC 4648, in the order of the values. */
  const UPPER := "ABCDEFGHIJKLMNOPQRSTUVWXYZ"
  const LOWER := "abcdefghijklmnopqrstuvwxyz"
  const DIGITS := "0123456789"
  const ALPHABET := UPPER + LOWER + DIGITS + "-_"

  lemma AlphabetInOrder(x: Sextet)
    ensures |ALPHABET| == 64 && CharOf(x) == ALPHABET[x]
  {
    assert |UPPER| == 26 && |LOWER| == 26 && |DIGITS| == 10;
    if x < 26 {
      assert ALPHABET[x] == UPPER[x];
    } else if x < 52 {
      assert ALPHABET[x] == LOWER[x - 26];
    } else if x < 62 {
      assert ALPHABET[x] == DIGITS[x - 52];
    }
  }

  /** The characters used are those of the alphabet, each for its position in it. */
  lemma AlphabetExactly(c: char)
    ensures InAlphabet(c) <==> c in ALPHABET
    ensures InAlphabet(c) ==> |ALPHABET| == 64 && ALPHABET[ValueOf(c)] == c
  {
    if InAlphabet(c) {
      CharOfValueOf(c);
      AlphabetInOrder(ValueOf(c));
    }
    if c in ALPHABET {
      var i :| 0 <= i < |ALPHABET| && ALPHABET[i] == c;
      AlphabetInOrder(0);
      AlphabetInOrder(i);
    }
  }

  predicate AllInAlphabet(s: string) {
    forall i :: 0 <= i < |s| ==> InAlphabet(s[i])
  }

  function Chars(x: seq<Sextet>): (s: string)
    ensures |s| == |x| && AllInAlphabet(s)
  {
    seq(|x|, i requires 0 <= i < |x| => CharOf(x[i]))
  }

  function Values(s: string): (x: seq<Sextet>)
    requires AllInAlphabet(s)
    ensures |x| == |s|
  {
    seq(|s|, i requires 0 <= i < |s| => ValueOf(s[i]))
  }

  lemma CharOfValueOf(c: char)
    requires InAlphabet(c)
    ensures CharOf(ValueOf(c)) == c
  {
  }

  lemma CharsAndValues(x: seq<Sextet>, s: string)
    requires AllInAlphabet(s)
    ensures Values(Chars(x)) == x && Chars(Values(s)) == s
  {
    forall i | 0 <= i < |s|
      ensures Chars(Values(s))[i] == s[i]
    {
      CharOfValueOf(s[i]);
    }
  }

  // ----- Regrouping eights and sixes -----

  /** The bytes as six-bit groups, the last one filled up with zero bits. */
  function Sextets(b: seq<Byte>): seq<Sextet> {
    if |b| == 0 then []
    else if |b| == 1 then Ungroup(b[0], 0, 0)[..2]
    else if |b| == 2 then Ungroup(b[0], b[1], 0)[..3]
    else Ungroup(b[0], b[1], b[2]) + Sextets(b[3..])
  }

  /** Three bytes as a group of four sextets. */
  function Ungroup(b0: Byte, b1: Byte, b2: Byte): (x: seq<Sextet>)
    ensures |x| == 4
  {
    [b0 / 4, b0 % 4 * 16 + b1 / 16, b1 % 16 * 4 + b2 / 64, b2 % 64]
  }

  /** The three bytes in a group of four sextets. */
  function Group(x0: Sextet, x1: Sextet, x2: Sextet, x3: Sextet): (b: seq<Byte>)
    ensures |b| == 3
  {
    [x0 * 4 + x1 / 16, x1 % 16 * 16 + x2 / 4, x2 % 4 * 64 + x3]
  }

  /** The whole bytes in a sequence of sextets; left-over bits are dropped. */
  function Bytes(x: seq<Sextet>): seq<Byte> {
    if |x| < 2 then []
    else if |x| == 2 then Group(x[0], x[1], 0, 0)[..1]
    else if |x| == 3 then Group(x[0], x[1], x[2], 0)[..2]
    else Group(x[0], x[1], x[2], x[3]) + Bytes(x[4..])
  }

  /** How many sextets hold n bytes. */
  function SextetCount(n: nat): (m: nat)
    ensures 3 * m == 4 * n + (if m % 4 == 0 then 0 else if m % 4 == 2 then 2 else 1)
    ensures m % 4 != 1
  {
    if n < 3 then (if n == 0 then 0 else n + 1) else 4 + SextetCount(n - 3)
  }

  lemma {:induction false} SextetsLength(b: seq<Byte>)
    ensures |Sextets(b)| == SextetCount(|b|)
  {
    if |b| >= 3 {
      SextetsLength(b[3..]);
    }
  }

  lemma {:induction false} BytesLength(x: seq<Sextet>)
    requires |x| % 4 != 1
    ensures SextetCount(|Bytes(x)|) == |x|
    decreases |x|
  {
    if |x| >= 4 {
      BytesLength(x[4..]);
    }
  }

  lemma GroupOfBytes(b0: Byte, b1: Byte, b2: Byte)
    ensures var x := Ungroup(b0, b1, b2); Group(x[0], x[1], x[2], x[3]) == [b0, b1, b2]
    ensures b1 == b2 == 0 ==> Ungroup(b0, b1, b2)[2] == 0
    ensures b2 == 0 ==> Ungroup(b0, b1, b2)[3] == 0
  {
    DigitSixteen(b0 % 4, b1 / 16);
    DigitFour(b1 % 16, b2 / 64);
  }

  lemma DigitSixteen(q: nat, r: nat)
    requires r < 16
    ensures (q * 16 + r) / 16 == q && (q * 16 + r) % 16 == r
  {
  }

  lemma DigitFour(q: nat, r: nat)
    requires r < 4
    ensures (q * 4 + r) / 4 == q && (q * 4 + r) % 4 == r
  {
  }

  lemma {:induction false} BytesOfSextets(b: seq<Byte>)
    ensures Bytes(Sextets(b)) == b
  {
    if |b| == 1 {
      GroupOfBytes(b[0], 0, 0);
      assert b == [b[0], 0, 0][..1];
    } else if |b| == 2 {
      GroupOfBytes(b[0], b[1], 0);
      assert b == [b[0], b[1], 0][..2];
    } else if |b| >= 3 {
      BytesOfSextets(b[3..]);
      GroupOfBytes(b[0], b[1], b[2]);
      BytesOfGroup(Ungroup(b[0], b[1], b[2]), Sextets(b[3..]));
      assert b == [b[0], b[1], b[2]] + b[3..];
    }
  }

  lemma BytesOfGroup(x: seq<Sextet>, rest: seq<Sextet>)
    requires |x| == 4
    ensures Bytes(x + rest) == Group(x[0], x[1], x[2], x[3]) + Bytes(rest)
  {
    assert (x + rest)[4..] == rest;
  }

  // ----- Encoding -----

  function RawEncode(b: seq<Byte>): (s: string)
    ensures AllInAlphabet(s)
  {
    Chars(Sextets(b))
  }

  /** The padding that brings a text of this length to whole groups of four, where that is possible. */
  function Padding(length: nat): string {
    if length % 4 == 2 then "==" else if length % 4 == 3 then "=" else ""
  }

  function PaddedEncode(b: seq<Byte>): string {
    RawEncode(b) + Padding(|RawEncode(b)|)
  }

  lemma PaddingFacts(n: nat)
    ensures Padding(n + 4) == Padding(n)
    ensures n % 4 != 1 ==> Padding(n + |Padding(n)|) == ""
  {
  }

  // ----- Decoding -----

  /** The library decoder on text without line breaks. */
  function DecodeGroups(t: string): Option<seq<Byte>> {
    if t == "" then Some([])
    else if |t| < 4 || !InAlphabet(t[0]) || !InAlphabet(t[1]) then None
    else if InAlphabet(t[2]) && InAlphabet(t[3]) then
      var rest := DecodeGroups(t[4..]);
      if rest.None? then None
      else Some(Group(ValueOf(t[0]), ValueOf(t[1]), ValueOf(t[2]), ValueOf(t[3])) + rest.value)
    else if |t| > 4 || t[3] != '=' then None
    else if InAlphabet(t[2]) then Some(Group(ValueOf(t[0]), ValueOf(t[1]), ValueOf(t[2]), 0)[..2])
    else if t[2] == '=' then Some(Group(ValueOf(t[0]), ValueOf(t[1]), 0, 0)[..1])
    else None
  }

  predicate IsLineBreak(c: char) {
    c == '\r' || c == '\n'
  }

  function WithoutLineBreaks(s: string): (r: string)
    ensures forall i :: 0 <= i < |r| ==> !IsLineBreak(r[i])
    ensures |r| <= |s|
  {
    if s == "" then ""
    else if IsLineBreak(s[0]) then WithoutLineBreaks(s[1..])
    else [s[0]] + WithoutLineBreaks(s[1..])
  }

  /** Padding is added by the length of the text as given, line breaks included. */
  function Decode(s: string): Option<seq<Byte>> {
    DecodeGroups(WithoutLineBreaks(s + Padding(|s|)))
  }

  // ----- Line breaks -----

  lemma FirstKeptOrDropped(c: char, s: string)
    ensures WithoutLineBreaks([c] + s) == if IsLineBreak(c) then WithoutLineBreaks(s) else [c] + WithoutLineBreaks(s)
  {
    assert ([c] + s)[1..] == s;
  }

  /** Dropping line breaks works piece by piece. */
  lemma {:induction false} LineBreaksDropped(a: string, b: string)
    ensures WithoutLineBreaks(a + b) == WithoutLineBreaks(a) + WithoutLineBreaks(b)
  {
    if a == "" {
      assert a + b == b;
    } else {
      LineBreaksDropped(a[1..], b);
      OneMoreInFront(a[0], a[1..], b, WithoutLineBreaks(a[1..]), WithoutLineBreaks(b));
      assert [a[0]] + a[1..] == a;
    }
  }

  lemma OneMoreInFront(c: char, a: string, b: string, x: string, y: string)
    requires WithoutLineBreaks(a) == x && WithoutLineBreaks(a + b) == x + y
    ensures WithoutLineBreaks(([c] + a) + b) == WithoutLineBreaks([c] + a) + y
  {
    FirstKeptOrDropped(c, a);
    FirstKeptOrDropped(c, a + b);
    Associate([c], a, b);
    Associate([c], x, y);
  }

  lemma Associate(a: string, b: string, c: string)
    ensures (a + b) + c == a + (b + c)
  {
  }

  /** Of single characters CR and LF are dropped, and no other. */
  lemma LineBreakExactly(c: char)
    ensures WithoutLineBreaks([c]) == if c as int == 10 || c as int == 13 then "" else [c]
  {
    assert [c][1..] == "" && WithoutLineBreaks("") == "";
  }

  lemma {:induction false} NoLineBreaks(s: string)
    requires forall i :: 0 <= i < |s| ==> !IsLineBreak(s[i])
    ensures WithoutLineBreaks(s) == s
  {
    if s != "" {
      NoLineBreaks(s[1..]);
      assert s == [s[0]] + s[1..];
    }
  }

  lemma {:induction false} LineBreaksThenPadding(s: string, n: nat)
    ensures WithoutLineBreaks(s + Padding(n)) == WithoutLineBreaks(s) + Padding(n)
  {
    if s == "" {
      NoLineBreaks(Padding(n));
      assert "" + Padding(n) == Padding(n);
    } else {
      LineBreaksThenPadding(s[1..], n);
      assert (s + Padding(n))[1..] == s[1..] + Padding(n);
    }
  }

  // ----- Round trips -----

  /** Padded text is decoded to the bytes of its sextets. */
  lemma {:induction false} DecodeGroupsOf(x: seq<Sextet>)
    requires |x| % 4 != 1
    ensures DecodeGroups(Chars(x) + Padding(|x|)) == Some(Bytes(x))
    decreases |x|
  {
    var t := Chars(x) + Padding(|x|);
    assert forall i :: 0 <= i < |x| ==> t[i] == CharOf(x[i]);
    if |x| >= 4 {
      DecodeGroupsOf(x[4..]);
      PaddingFacts(|x[4..]|);
      assert t[4..] == Chars(x[4..]) + Padding(|x[4..]|);
    } else if |x| == 3 {
      assert t[3] == '=' && |t| == 4;
    } else if |x| == 2 {
      assert t[2] == t[3] == '=' && |t| == 4;
    }
  }

  /** Text without line breaks is decoded as it stands, once padded. */
  lemma DecodePlain(s: string)
    requires forall i :: 0 <= i < |s| ==> InAlphabet(s[i]) || s[i] == '='
    ensures Decode(s) == DecodeGroups(s + Padding(|s|))
  {
    NoLineBreaks(s + Padding(|s|));
  }

  /** Padded text gets no more padding. */
  lemma DecodePadded(s: string)
    requires AllInAlphabet(s) && |s| % 4 != 1
    ensures Decode(s + Padding(|s|)) == DecodeGroups(s + Padding(|s|))
  {
    var t := s + Padding(|s|);
    PaddingFacts(|s|);
    assert t + "" == t;
    NoLineBreaks(t);
  }

  lemma PaddedRoundTrip(b: seq<Byte>)
    ensures DecodeGroups(PaddedEncode(b)) == Some(b)
    ensures Decode(PaddedEncode(b)) == Some(b)
  {
    SextetsLength(b);
    BytesOfSextets(b);
    DecodeGroupsOf(Sextets(b));
    DecodePadded(RawEncode(b));
  }

  /** The decoder undoes the raw and the padded encoding of every byte sequence. */
  lemma RoundTrip(b: seq<Byte>)
    ensures Decode(RawEncode(b)) == Some(b)
    ensures Decode(PaddedEncode(b)) == Some(b)
    ensures |RawEncode(b)| == SextetCount(|b|) && |RawEncode(b)| % 4 != 1
  {
    SextetsLength(b);
    PaddedRoundTrip(b);
    DecodePlain(RawEncode(b));
  }

  // ----- What is accepted -----

  function PadCount(t: string): nat {
    if t == "" || t[|t| - 1] != '=' then 0 else if |t| >= 2 && t[|t| - 2] == '=' then 2 else 1
  }

  /** What comes before the padding. */
  function Body(t: string): string {
    t[..|t| - PadCount(t)]
  }

  /** Whole groups of four, all in the alphabet up to one or two closing pad characters. */
  predicate WellPadded(t: string) {
    |t| % 4 == 0 && AllInAlphabet(Body(t))
  }

  lemma BodyOfRest(t: string)
    requires |t| >= 8
    ensures PadCount(t[4..]) == PadCount(t)
    ensures Body(t) == t[..4] + Body(t[4..])
  {
  }

  lemma {:induction false} DecodeGroupsAccepts(t: string)
    ensures DecodeGroups(t).Some? <==> WellPadded(t)
    decreases |t|
  {
    if |t| >= 8 {
      DecodeGroupsAccepts(t[4..]);
      BodyOfRest(t);
      var b, b' := Body(t), Body(t[4..]);
      if AllInAlphabet(b) {
        assert forall i :: 0 <= i < |b'| ==> b'[i] == b[i + 4];
        assert forall i :: 0 <= i < 4 ==> t[i] == b[i];
      }
    } else if |t| == 4 {
      assert t[4..] == "";
      var b := Body(t);
      assert forall i :: 0 <= i < |b| ==> b[i] == t[i];
      assert AllInAlphabet(b) ==> InAlphabet(b[0]) && InAlphabet(b[1]);
    } else if 4 < |t| {
      DecodeGroupsAccepts(t[4..]);
    }
  }

  /** Exactly what the decoder accepts, line breaks, padding and all. */
  lemma Accepts(s: string)
    ensures Decode(s).Some? <==> WellPadded(WithoutLineBreaks(s) + Padding(|s|))
  {
    LineBreaksThenPadding(s, |s|);
    DecodeGroupsAccepts(WithoutLineBreaks(s) + Padding(|s|));
  }

  /** Text of length 1 mod 4 gets no padding; it is accepted only if its line breaks make up for the odd character. */
  lemma LengthOneModFour(s: string)
    requires |s| % 4 == 1
    ensures Decode(s).Some? <==> WellPadded(WithoutLineBreaks(s))
    ensures WithoutLineBreaks(s) == s ==> Decode(s).None?
  {
    Accepts(s);
    assert WithoutLineBreaks(s) + Padding(|s|) == WithoutLineBreaks(s);
  }

  /** So the length alone does not reject: a lone line feed is accepted as the empty byte sequence. */
  lemma LoneLineFeedAccepted()
    ensures |"\n"| % 4 == 1 && Decode("\n") == Some([])
  {
    assert "\n" + Padding(1) == "\n";
    assert WithoutLineBreaks("\n"[1..]) == "";
  }

  // ----- What is computed: one number in two notations -----

  /** Sextets read as the digits of a number to base 64, after acc. */
  function Number64(acc: nat, x: seq<Sextet>): nat
    decreases |x|
  {
    if x == [] then acc else Number64(acc * 64 + x[0], x[1..])
  }

  /** Bytes read as the digits of a number to base 256, after acc. */
  function Number256(acc: nat, b: seq<Byte>): nat
    decreases |b|
  {
    if b == [] then acc else Number256(acc * 256 + b[0], b[1..])
  }

  /** A number with room made below it for the bits that this many sextets leave unused. */
  function Shift(n: nat, length: nat): nat {
    if length % 4 == 2 then n * 16 else if length % 4 == 3 then n * 4 else n
  }

  /** The unused bits: the low four or two bits of the last sextet. */
  function Spare(x: seq<Sextet>): nat {
    if |x| % 4 == 2 then x[|x| - 1] % 16 else if |x| % 4 == 3 then x[|x| - 1] % 4 else 0
  }

  lemma Period(n: nat, x: seq<Sextet>)
    requires |x| >= 4
    ensures Shift(n, |x[4..]|) == Shift(n, |x|) && Spare(x[4..]) == Spare(x)
  {
  }

  function Four(acc: nat, x0: Sextet, x1: Sextet, x2: Sextet, x3: Sextet): nat {
    (((acc * 64 + x0) * 64 + x1) * 64 + x2) * 64 + x3
  }

  function Three(acc: nat, b0: Byte, b1: Byte, b2: Byte): nat {
    ((acc * 256 + b0) * 256 + b1) * 256 + b2
  }

  lemma Number64Two(acc: nat, x: seq<Sextet>)
    requires |x| >= 2
    ensures Number64(acc, x) == Number64((acc * 64 + x[0]) * 64 + x[1], x[2..])
  {
    var acc' := acc * 64 + x[0];
    assert Number64(acc, x) == Number64(acc', x[1..]);
    assert x[1..][1..] == x[2..];
  }

  lemma Number64Four(acc: nat, x: seq<Sextet>)
    requires |x| >= 4
    ensures Number64(acc, x) == Number64(Four(acc, x[0], x[1], x[2], x[3]), x[4..])
  {
    Number64Two(acc, x);
    Number64Two((acc * 64 + x[0]) * 64 + x[1], x[2..]);
    assert x[2..][2..] == x[4..];
  }

  lemma Number256Two(acc: nat, b: seq<Byte>)
    requires |b| >= 2
    ensures Number256(acc, b) == Number256((acc * 256 + b[0]) * 256 + b[1], b[2..])
  {
    var acc' := acc * 256 + b[0];
    assert Number256(acc, b) == Number256(acc', b[1..]);
    assert b[1..][1..] == b[2..];
  }

  lemma Number256Three(acc: nat, b: seq<Byte>)
    requires |b| >= 3
    ensures Number256(acc, b) == Number256(Three(acc, b[0], b[1], b[2]), b[3..])
  {
    var acc' := (acc * 256 + b[0]) * 256 + b[1];
    Number256Two(acc, b);
    assert Number256(acc', b[2..]) == Number256(acc' * 256 + b[2], b[2..][1..]);
    assert b[2..][1..] == b[3..];
  }

  /** Regrouping bits does not change the number. */
  lemma SameBits(acc: nat, x0: Sextet, x1: Sextet, x2: Sextet, x3: Sextet)
    ensures var g := Group(x0, x1, x2, x3); Four(acc, x0, x1, x2, x3) == Three(acc, g[0], g[1], g[2])
  {
  }

  /** Fewer than four sextets. */
  lemma TailNumber(acc: nat, x: seq<Sextet>)
    requires 2 <= |x| <= 3
    ensures Number64(acc, x) == Shift(Number256(acc, Bytes(x)), |x|) + Spare(x)
  {
    var b := Bytes(x);
    Number64Two(acc, x);
    if |x| == 2 {
      assert x[2..] == [] && b[1..] == [];
      assert Number256(acc, b) == acc * 256 + b[0];
    } else {
      assert x[2..] == [x[2]] && b[2..] == [];
      Number256Two(acc, b);
    }
  }

  /** Sextets write the number of their bytes, and the unused bits after it. */
  lemma {:induction false} BytesNumber(acc: nat, x: seq<Sextet>)
    requires |x| % 4 != 1
    ensures Number64(acc, x) == Shift(Number256(acc, Bytes(x)), |x|) + Spare(x)
    decreases |x|
  {
    if |x| == 0 {
      assert x == [] && Bytes(x) == [];
    } else if |x| < 4 {
      TailNumber(acc, x);
    } else {
      var acc' := Four(acc, x[0], x[1], x[2], x[3]);
      BytesNumber(acc', x[4..]);
      GroupNumber(acc, x, Number256(acc', Bytes(x[4..])));
    }
  }

  lemma GroupNumber(acc: nat, x: seq<Sextet>, n: nat)
    requires |x| >= 4 && n == Number256(Four(acc, x[0], x[1], x[2], x[3]), Bytes(x[4..]))
    requires Number64(Four(acc, x[0], x[1], x[2], x[3]), x[4..]) == Shift(n, |x[4..]|) + Spare(x[4..])
    ensures Number256(acc, Bytes(x)) == n
    ensures Number64(acc, x) == Shift(n, |x|) + Spare(x)
  {
    Number64Four(acc, x);
    BytesNumberGroup(acc, x);
    Period(n, x);
  }

  lemma BytesNumberGroup(acc: nat, x: seq<Sextet>)
    requires |x| >= 4
    ensures Number256(acc, Bytes(x)) == Number256(Four(acc, x[0], x[1], x[2], x[3]), Bytes(x[4..]))
  {
    var g, rest := Group(x[0], x[1], x[2], x[3]), Bytes(x[4..]);
    SameBits(acc, x[0], x[1], x[2], x[3]);
    Number256Three(acc, g + rest);
    assert (g + rest)[3..] == rest;
  }

  lemma {:induction false} NothingSpare(b: seq<Byte>)
    ensures Spare(Sextets(b)) == 0
  {
    if |b| >= 3 {
      NothingSpare(b[3..]);
      assert Sextets(b)[4..] == Sextets(b[3..]);
      Period(0, Sextets(b));
    }
  }

  /** Digits and length determine the sequence. */
  lemma {:induction false} SameNumberSameDigits(acc: nat, x: seq<Sextet>, acc': nat, x': seq<Sextet>)
    requires |x| == |x'| && Number64(acc, x) == Number64(acc', x')
    ensures acc == acc' && x == x'
    decreases |x|
  {
    if x != [] {
      SameNumberSameDigits(acc * 64 + x[0], x[1..], acc' * 64 + x'[0], x'[1..]);
      assert x == [x[0]] + x[1..] && x' == [x'[0]] + x'[1..];
    }
  }

  /** The encoding is the one text of its length that writes the number of the bytes, shifted by the unused bits. */
  lemma EncodingIsTheOnlyOne(b: seq<Byte>, s: string)
    requires AllInAlphabet(s) && |s| == SextetCount(|b|)
    ensures s == RawEncode(b) <==> Number64(0, Values(s)) == Shift(Number256(0, b), |s|)
  {
    var x := Sextets(b);
    SextetsLength(b);
    BytesOfSextets(b);
    BytesNumber(0, x);
    NothingSpare(b);
    CharsAndValues(x, s);
    if Number64(0, Values(s)) == Shift(Number256(0, b), |s|) {
      SameNumberSameDigits(0, Values(s), 0, x);
    }
  }

  /** Well-padded text is its body and the padding for the length of the body. */
  lemma BodyAndPadding(t: string)
    requires WellPadded(t)
    ensures t == Body(t) + Padding(|Body(t)|) && |Body(t)| % 4 != 1
  {
    var body, p := Body(t), PadCount(t);
    assert |t| == |body| + p && t == body + t[|body|..];
    assert t[|body|..] == if p == 0 then "" else if p == 1 then "=" else "==";
  }

  /** The part of a text that carries bits: without line breaks and padding. */
  function Payload(s: string): string {
    Body(WithoutLineBreaks(s) + Padding(|s|))
  }

  lemma PayloadOfPlainText(s: string)
    requires AllInAlphabet(s)
    ensures Payload(s) == s
  {
    NoLineBreaks(s);
    var t := s + Padding(|s|);
    assert s != "" ==> t[|s| - 1] == s[|s| - 1];
    assert t[..|s|] == s;
  }

  /**
    Accepted text, whatever its line breaks and padding, writes the number of the bytes it decodes to, and
    the unused bits after it.  Encoding those bytes gives the text back exactly when it is free of line
    breaks and padding and its unused bits are zero.
   */
  lemma DecodeIsInverseOnCanonicalText(s: string)
    requires Decode(s).Some?
    ensures AllInAlphabet(Payload(s))
    ensures Number64(0, Values(Payload(s)))
         == Shift(Number256(0, Decode(s).value), |Payload(s)|) + Spare(Values(Payload(s)))
    ensures RawEncode(Decode(s).value) == Payload(s) <==> Spare(Values(Payload(s))) == 0
    ensures RawEncode(Decode(s).value) == s <==> AllInAlphabet(s) && Spare(Values(s)) == 0
  {
    Accepts(s);
    PayloadNumber(s);
    if AllInAlphabet(s) {
      PayloadOfPlainText(s);
    }
  }

  lemma PayloadNumber(s: string)
    requires WellPadded(WithoutLineBreaks(s) + Padding(|s|))
    ensures var body := Payload(s);
            && Decode(s).Some?
            && Number64(0, Values(body)) == Shift(Number256(0, Decode(s).value), |body|) + Spare(Values(body))
            && (RawEncode(Decode(s).value) == body <==> Spare(Values(body)) == 0)
  {
    var body := Payload(s);
    var x := Values(body);
    LineBreaksThenPadding(s, |s|);
    BodyAndPadding(WithoutLineBreaks(s) + Padding(|s|));
    CharsAndValues(x, body);
    DecodeGroupsOf(x);
    BytesNumber(0, x);
    BytesLength(x);
    EncodingIsTheOnlyOne(Bytes(x), body);
  }
}
