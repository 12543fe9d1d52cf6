/**
  The string operations that the token, header and key-list formats rest on.
  A string is a sequence of Unicode characters, that is, valid UTF-8 in the source.
 */
module Text {

  /** The position of the first c, or the length when there is none. */
  function IndexOf(s: string, c: char): (i: nat)
    ensures i <= |s| && c !in s[..i]
    ensures i < |s| ==> s[i] == c
  {
    if s == "" || s[0] == c then 0
    else
      var i := 1 + IndexOf(s[1..], c);
      assert s[..i] == [s[0]] + s[1..][..i - 1];
      i
  }

  /** All the pieces between separators; one piece when there is none. */
  function Split(s: string, c: char): (parts: seq<string>)
    ensures |parts| >= 1
    decreases |s|
  {
    var i := IndexOf(s, c);
    if i == |s| then [s] else [s[..i]] + Split(s[i + 1..], c)
  }

  /** At most n pieces, the last one being all that is left. */
  function SplitN(s: string, c: char, n: nat): (parts: seq<string>)
    requires n >= 1
    ensures 1 <= |parts| <= n
    decreases n
  {
    var i := IndexOf(s, c);
    if n == 1 || i == |s| then [s] else [s[..i]] + SplitN(s[i + 1..], c, n - 1)
  }

  function Join(parts: seq<string>, c: char): string
    requires |parts| >= 1
  {
    if |parts| == 1 then parts[0] else parts[0] + [c] + Join(parts[1..], c)
  }

  /** No piece holds a separator. */
  ghost predicate Free(parts: seq<string>, c: char) {
    forall i :: 0 <= i < |parts| ==> c !in parts[i]
  }

  lemma {:induction false} IndexOfIs(s: string, c: char, k: nat)
    requires k <= |s| && c !in s[..k] && (k < |s| ==> s[k] == c)
    ensures IndexOf(s, c) == k
  {
    if k > 0 {
      assert s[0] in s[..k];
      assert s[1..][..k - 1] == s[..k][1..];
      IndexOfIs(s[1..], c, k - 1);
    }
  }

  lemma IndexOfAbsent(s: string, c: char)
    ensures IndexOf(s, c) == |s| <==> c !in s
  {
    assert s[..|s|] == s;
  }

  /** The first piece, and what is left for the others. */
  lemma SplitFirst(a: string, c: char, b: string)
    requires c !in a
    ensures Split(a, c) == [a]
    ensures Split(a + [c] + b, c) == [a] + Split(b, c)
  {
    var s := a + [c] + b;
    assert a[..|a|] == a;
    IndexOfIs(a, c, |a|);
    assert s[..|a|] == a && s[|a| + 1..] == b;
    IndexOfIs(s, c, |a|);
  }

  lemma {:induction false} SplitPieces(s: string, c: char)
    ensures Free(Split(s, c), c)
    ensures Join(Split(s, c), c) == s
    decreases |s|
  {
    var i := IndexOf(s, c);
    if i < |s| {
      SplitPieces(s[i + 1..], c);
      assert Split(s, c)[1..] == Split(s[i + 1..], c);
      assert s == s[..i] + [c] + s[i + 1..];
    } else {
      assert s[..i] == s;
    }
  }

  lemma {:induction false} SplitJoin(parts: seq<string>, c: char)
    requires |parts| >= 1 && Free(parts, c)
    ensures Split(Join(parts, c), c) == parts
  {
    if |parts| == 1 {
      SplitFirst(parts[0], c, "");
    } else {
      SplitJoin(parts[1..], c);
      SplitFirst(parts[0], c, Join(parts[1..], c));
    }
  }

  function CountOf(s: string, c: char): nat {
    if s == "" then 0 else (if s[0] == c then 1 else 0) + CountOf(s[1..], c)
  }

  /** There is one piece more than there are separators. */
  lemma {:induction false} PieceCount(s: string, c: char)
    ensures |Split(s, c)| == CountOf(s, c) + 1
    decreases |s|
  {
    var i := IndexOf(s, c);
    CountUpTo(s, c, i);
    if i < |s| {
      PieceCount(s[i + 1..], c);
      assert s[i..][1..] == s[i + 1..];
    }
  }

  lemma {:induction false} CountUpTo(s: string, c: char, i: nat)
    requires i <= |s| && c !in s[..i]
    ensures CountOf(s, c) == CountOf(s[i..], c)
  {
    if i > 0 {
      assert s[0] in s[..i];
      assert s[1..][..i - 1] == s[..i][1..] && s[1..][i - 1..] == s[i..];
      CountUpTo(s[1..], c, i - 1);
    } else {
      assert s[i..] == s;
    }
  }

  /** Cutting a string into pieces in the only way there is. */
  lemma SplitIsUnique(s: string, c: char, parts: seq<string>)
    requires |parts| >= 1 && Free(parts, c)
    ensures Join(parts, c) == s <==> Split(s, c) == parts
  {
    SplitPieces(s, c);
    SplitJoin(parts, c);
  }

  lemma {:induction false} JoinSnoc(parts: seq<string>, c: char, b: string)
    requires |parts| >= 1
    ensures Join(parts + [b], c) == Join(parts, c) + [c] + b
  {
    var more := parts + [b];
    assert more[1..] == parts[1..] + [b];
    if |parts| == 1 {
      assert more[1..] == [b];
    } else {
      var rest := Join(parts[1..], c);
      JoinSnoc(parts[1..], c, b);
      assert parts[0] + [c] + (rest + [c] + b) == parts[0] + [c] + rest + [c] + b;
    }
  }

  /** The last piece, and what is left for the others. */
  lemma SplitLast(a: string, c: char, b: string)
    requires c !in b
    ensures Split(a + [c] + b, c) == Split(a, c) + [b]
  {
    SplitPieces(a, c);
    JoinSnoc(Split(a, c), c, b);
    SplitJoin(Split(a, c) + [b], c);
  }

  /** A string is cut at its last separator in one way. */
  lemma LastCutIsUnique(a: string, c: char, b: string, a': string, b': string)
    requires c !in b && c !in b' && a + [c] + b == a' + [c] + b'
    ensures a == a' && b == b'
  {
    SplitLast(a, c, b);
    SplitLast(a', c, b');
    var parts, parts' := Split(a, c) + [b], Split(a', c) + [b'];
    assert parts[..|parts| - 1] == Split(a, c) && parts'[..|parts'| - 1] == Split(a', c);
    assert parts[|parts| - 1] == b && parts'[|parts'| - 1] == b';
    SplitPieces(a, c);
    SplitPieces(a', c);
  }

  /** Cutting off the first piece. */
  lemma SplitNFirst(a: string, c: char, b: string, n: nat)
    requires n >= 2 && c !in a
    ensures SplitN(a + [c] + b, c, n) == [a] + SplitN(b, c, n - 1)
  {
    var s := a + [c] + b;
    assert s[..|a|] == a && s[|a| + 1..] == b;
    IndexOfIs(s, c, |a|);
  }

  /** Undoing the first cut. */
  lemma SplitNRejoins(s: string, c: char, n: nat)
    requires n >= 2 && |SplitN(s, c, n)| >= 2
    ensures var parts, i := SplitN(s, c, n), IndexOf(s, c);
            i < |s| && s == parts[0] + [c] + s[i + 1..] && c !in parts[0] && parts[1..] == SplitN(s[i + 1..], c, n - 1)
  {
    var i := IndexOf(s, c);
    assert s == s[..i] + [c] + s[i + 1..];
  }

  /** Two pieces come out of one cut at the first separator. */
  lemma SplitInTwo(s: string, c: char, a: string, b: string)
    ensures SplitN(s, c, 2) == [a, b] <==> s == a + [c] + b && c !in a
  {
    if SplitN(s, c, 2) == [a, b] {
      SplitNRejoins(s, c, 2);
      assert [a, b][1..] == [b];
    }
    if s == a + [c] + b && c !in a {
      SplitNFirst(a, c, b, 2);
    }
  }

  /** Three pieces come out of cuts at the first two separators; the third piece may hold more. */
  lemma SplitInThree(s: string, c: char, a: string, b: string, d: string)
    ensures SplitN(s, c, 3) == [a, b, d] <==> s == a + [c] + (b + [c] + d) && c !in a && c !in b
  {
    if SplitN(s, c, 3) == [a, b, d] {
      ThreeRejoin(s, c, a, b, d);
    }
    if s == a + [c] + (b + [c] + d) && c !in a && c !in b {
      SplitNFirst(a, c, b + [c] + d, 3);
      SplitInTwo(b + [c] + d, c, b, d);
    }
  }

  lemma ThreeRejoin(s: string, c: char, a: string, b: string, d: string)
    requires SplitN(s, c, 3) == [a, b, d]
    ensures s == a + [c] + (b + [c] + d) && c !in a && c !in b
  {
    var rest := s[IndexOf(s, c) + 1..];
    SplitNRejoins(s, c, 3);
    assert [a, b, d][1..] == [b, d];
    SplitInTwo(rest, c, b, d);
  }

  // ----- Case -----

  /**
    Lower case as far as it can matter when comparing with a lower-case ASCII word: the capital
    ASCII letters, and the two other characters whose lower case is an ASCII letter.
   */
  function LowerChar(c: char): char {
    if 'A' <= c <= 'Z' then c + ('a' - 'A') else if c == '\U{212A}' then 'k' else if c == '\U{0130}' then 'i' else c
  }

  function Lower(s: string): (r: string)
    ensures |r| == |s|
  {
    seq(|s|, i requires 0 <= i < |s| => LowerChar(s[i]))
  }

  /** The spellings of the scheme for tokens. */
  lemma BearerSpellings(s: string)
    ensures Lower(s) == "bearer" <==>
            && |s| == 6 && s[0] in "bB" && s[1] in "eE" && s[2] in "aA"
            && s[3] in "rR" && s[4] in "eE" && s[5] in "rR"
  {
    SixLetters(Lower(s), "bearer");
  }

  /** The spellings of the scheme for keys; I with a dot and the Kelvin sign have i and k as their lower case. */
  lemma ApiKeySpellings(s: string)
    ensures Lower(s) == "apikey" <==>
            && |s| == 6 && s[0] in "aA" && s[1] in "pP" && s[2] in "iI\U{0130}"
            && s[3] in "kK\U{212A}" && s[4] in "eE" && s[5] in "yY"
  {
    SixLetters(Lower(s), "apikey");
  }

  lemma SixLetters(a: string, b: string)
    requires |b| == 6
    ensures a == b <==>
            && |a| == 6 && a[0] == b[0] && a[1] == b[1] && a[2] == b[2]
            && a[3] == b[3] && a[4] == b[4] && a[5] == b[5]
  {
  }

  /** The spellings of the algorithm that is never permitted. */
  lemma NoneSpellings(s: string)
    ensures Lower(s) == "none" <==> |s| == 4 && s[0] in "nN" && s[1] in "oO" && s[2] in "nN" && s[3] in "eE"
  {
    var a := Lower(s);
    assert a == "none" <==> |a| == 4 && a[0] == 'n' && a[1] == 'o' && a[2] == 'n' && a[3] == 'e';
  }

  // ----- Surrounding white space -----

  /** The characters that Unicode calls white space. */
  predicate IsSpace(c: char) {
    var n := c as int;
    || 9 <= n <= 13 || n == 0x20 || n == 0x85 || n == 0xA0 || n == 0x1680 || 0x2000 <= n <= 0x200A
    || n == 0x2028 || n == 0x2029 || n == 0x202F || n == 0x205F || n == 0x3000
  }

  /** The characters with the White_Space property of Unicode. */
  const WHITE_SPACE := "\t\n\U{000B}\U{000C}\r \U{0085}\U{00A0}\U{1680}"
    + "\U{2000}\U{2001}\U{2002}\U{2003}\U{2004}\U{2005}\U{2006}\U{2007}\U{2008}\U{2009}\U{200A}"
    + "\U{2028}\U{2029}\U{202F}\U{205F}\U{3000}"

  lemma SpaceExactly(c: char)
    ensures IsSpace(c) <==> c in WHITE_SPACE
  {
  }

  predicate Trimmed(s: string) {
    s == "" || (!IsSpace(s[0]) && !IsSpace(s[|s| - 1]))
  }

  function TrimSpace(s: string): (r: string)
    ensures Trimmed(r)
    ensures Trimmed(s) <==> r == s
    ensures forall c :: c in r ==> c in s
    decreases |s|
  {
    if s == "" then s
    else if IsSpace(s[0]) then TrimSpace(s[1..])
    else if IsSpace(s[|s| - 1]) then TrimSpace(s[..|s| - 1])
    else s
  }

  /** Trimming takes white space off the two ends and nothing else. */
  lemma {:induction false} TrimSpaceTakesOnlySpace(s: string) returns (i: nat, j: nat)
    ensures i <= j <= |s| && TrimSpace(s) == s[i..j]
    ensures forall k :: 0 <= k < i || j <= k < |s| ==> IsSpace(s[k])
    decreases |s|
  {
    i, j := 0, |s|;
    if s != "" && IsSpace(s[0]) {
      var rest := s[1..];
      i, j := TrimSpaceTakesOnlySpace(rest);
      assert forall k :: 0 < k < |s| ==> s[k] == rest[k - 1];
      i, j := i + 1, j + 1;
      assert s[i..j] == rest[i - 1..j - 1];
    } else if s != "" && IsSpace(s[|s| - 1]) {
      var rest := s[..|s| - 1];
      i, j := TrimSpaceTakesOnlySpace(rest);
      assert s[i..j] == rest[i..j];
    }
  }
}
