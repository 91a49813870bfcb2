/**
 * The few java.lang.String operations the backend relies on, over Dafny strings.
 * A Dafny `char` is a Unicode scalar value; a Java String is a sequence of UTF-16
 * code units, so the scan that works on units (`codePointAt`) is modelled on the
 * UTF-16 encoding of a Dafny string.
 */
module JavaText {

  type CodeUnit = u: int | 0 <= u < 0x1_0000

  predicate IsHighSurrogate(u: int) { 0xD800 <= u <= 0xDBFF }

  predicate IsLowSurrogate(u: int) { 0xDC00 <= u <= 0xDFFF }

  /** The UTF-16 code units of one character: one unit in the BMP, a surrogate pair above it. */
  function Utf16Char(c: char): (units: seq<CodeUnit>)
    ensures 1 <= |units| <= 2
  {
    var v := c as int;
    if v < 0x1_0000 then [v]
    else [0xD800 + (v - 0x1_0000) / 0x400, 0xDC00 + (v - 0x1_0000) % 0x400]
  }

  /** The UTF-16 code units of a string, as a Java String holds them. */
  function Utf16(s: string): seq<CodeUnit>
  {
    if s == [] then [] else Utf16Char(s[0]) + Utf16(s[1..])
  }

  /**
   * String.codePointAt(i): the unit at i, combined with the next one when the two
   * form a surrogate pair. At the low half of a pair it yields the low surrogate.
   */
  function CodePointAt(units: seq<CodeUnit>, i: nat): int
    requires i < |units|
  {
    var u: int := units[i];
    if IsHighSurrogate(u) && i + 1 < |units| && IsLowSurrogate(units[i + 1])
    then 0x1_0000 + (u - 0xD800) * 0x400 + (units[i + 1] as int - 0xDC00)
    else u
  }

  lemma CodePointAtShift(a: seq<CodeUnit>, b: seq<CodeUnit>, j: nat)
    requires j < |b|
    ensures CodePointAt(a + b, |a| + j) == CodePointAt(b, j)
  {
    assert (a + b)[|a| + j] == b[j];
    if j + 1 < |b| {
      assert (a + b)[|a| + j + 1] == b[j + 1];
    }
  }

  /** Decoding the first character's units gives that character back; a second unit is a low surrogate. */
  lemma CodePointAtHead(c: char, b: seq<CodeUnit>)
    ensures CodePointAt(Utf16Char(c) + b, 0) == c as int
    ensures |Utf16Char(c)| == 2 ==> IsLowSurrogate(CodePointAt(Utf16Char(c) + b, 1))
  {
    var u := Utf16Char(c) + b;
    var v := c as int;
    if v >= 0x1_0000 {
      var q, r := (v - 0x1_0000) / 0x400, (v - 0x1_0000) % 0x400;
      assert u[0] == 0xD800 + q && u[1] == 0xDC00 + r;
      assert q * 0x400 + r == v - 0x1_0000;
    }
  }

  /** Every character of s is what Java's unit-by-unit scan of Utf16(s) meets at its first unit. */
  lemma {:induction false} ScanMeetsEveryChar(s: string, k: nat)
    requires k < |s|
    ensures exists i :: 0 <= i < |Utf16(s)| && CodePointAt(Utf16(s), i) == s[k] as int
  {
    var head, rest := Utf16Char(s[0]), Utf16(s[1..]);
    assert Utf16(s) == head + rest;
    CodePointAtHead(s[0], rest);
    if k == 0 {
      assert CodePointAt(Utf16(s), 0) == s[0] as int;
    } else {
      ScanMeetsEveryChar(s[1..], k - 1);
      var j :| 0 <= j < |rest| && CodePointAt(rest, j) == s[1..][k - 1] as int;
      CodePointAtShift(head, rest, j);
      assert CodePointAt(Utf16(s), |head| + j) == s[k] as int;
    }
  }

  /** Apart from the characters of s, the scan of Utf16(s) meets only low surrogates (at the second unit of a pair). */
  lemma {:induction false} ScanMeetsOnlyChars(s: string, i: nat)
    requires i < |Utf16(s)|
    ensures IsLowSurrogate(CodePointAt(Utf16(s), i)) ||
      exists k :: 0 <= k < |s| && CodePointAt(Utf16(s), i) == s[k] as int
  {
    var head, rest := Utf16Char(s[0]), Utf16(s[1..]);
    assert Utf16(s) == head + rest;
    CodePointAtHead(s[0], rest);
    if i == 0 {
      assert CodePointAt(Utf16(s), 0) == s[0] as int;
    } else if i < |head| {
      assert IsLowSurrogate(CodePointAt(Utf16(s), i));
    } else {
      var j := i - |head|;
      CodePointAtShift(head, rest, j);
      ScanMeetsOnlyChars(s[1..], j);
      if !IsLowSurrogate(CodePointAt(rest, j)) {
        var k :| 0 <= k < |s[1..]| && CodePointAt(rest, j) == s[1..][k] as int;
        assert CodePointAt(Utf16(s), i) == s[k + 1] as int;
      }
    }
  }

  /** String.trim(): drops every leading and trailing character at or below U+0020. */
  function Trim(s: string): string
  {
    TrimEnd(TrimStart(s))
  }

  function TrimStart(s: string): (t: string)
    ensures |t| <= |s| && t == s[|s| - |t|..]
    ensures t == [] || t[0] > ' '
  {
    if s != [] && s[0] <= ' ' then TrimStart(s[1..]) else s
  }

  function TrimEnd(s: string): (t: string)
    ensures |t| <= |s| && t == s[..|t|]
    ensures t == [] || t[|t| - 1] > ' '
  {
    if s != [] && s[|s| - 1] <= ' ' then TrimEnd(s[..|s| - 1]) else s
  }

  /** A string equals its trim() exactly when it neither starts nor ends with a character at or below U+0020. */
  lemma TrimFixedPoint(s: string)
    ensures Trim(s) == s <==> s == [] || (s[0] > ' ' && s[|s| - 1] > ' ')
  {
    if s != [] && s[0] > ' ' && s[|s| - 1] > ' ' {
      assert TrimStart(s) == s;
      assert TrimEnd(s) == s;
    }
    if Trim(s) == s && s != [] {
      assert Trim(s)[0] == TrimStart(s)[0];
    }
  }

  /** What the case mapping of every locale but Turkish and Azerbaijani does to an ASCII character. */
  function LowerChar(c: char): char
  {
    if 'A' <= c <= 'Z' then (c as int + 32) as char else c
  }

  /** LowerChar applied to each character of a string. */
  function AsciiLowerCase(s: string): (t: string)
    ensures |t| == |s| && forall i :: 0 <= i < |s| ==> t[i] == LowerChar(s[i])
  {
    seq(|s|, i requires 0 <= i < |s| => LowerChar(s[i]))
  }

  predicate IsAscii(s: string) { forall c :: c in s ==> c as int < 0x80 }

  predicate HasNoAsciiUpper(s: string) { forall c :: c in s ==> !('A' <= c <= 'Z') }

  /**
   * String.toLowerCase() under the JVM's default locale. Beyond ASCII the
   * mapping depends on the Unicode tables and on context (U+0130 becomes two
   * characters, a final sigma differs from an inner one), so it is a parameter
   * of the model, constrained only by LowerCaseLaws.
   */
  type CaseMapping = string -> string

  /**
   * What the mapping guarantees: its result holds no upper-case ASCII letter,
   * and on an ASCII string it lower-cases 'A'..'Z' and keeps everything else
   * (not so in the Turkish and Azerbaijani locales, where 'I' becomes U+0131).
   */
  ghost predicate LowerCaseLaws(lower: CaseMapping)
  {
    forall s :: HasNoAsciiUpper(lower(s)) && (IsAscii(s) ==> lower(s) == AsciiLowerCase(s))
  }

  /** String.replace(from, to) for one-character strings: every `from` becomes `to`. */
  function Replace(s: string, from: char, to: char): (t: string)
    ensures |t| == |s| && forall i :: 0 <= i < |s| ==> t[i] == (if s[i] == from then to else s[i])
  {
    seq(|s|, i requires 0 <= i < |s| => if s[i] == from then to else s[i])
  }

  /**
   * The maximal runs of s between occurrences of sep, empty runs included: the
   * shape a regular expression of the form `w(sep w)*` is checked against.
   */
  function Pieces(s: string, sep: char): (ps: seq<string>)
    ensures |ps| >= 1
    ensures forall i :: 0 <= i < |ps| ==> sep !in ps[i]
  {
    if s == [] then [[]]
    else
      var rest := Pieces(s[1..], sep);
      if s[0] == sep then [[]] + rest
      else [[s[0]] + rest[0]] + rest[1..]
  }

  /** The pieces glued back together with sep between them. */
  function Join(ps: seq<string>, sep: char): string
    requires |ps| >= 1
  {
    if |ps| == 1 then ps[0] else ps[0] + [sep] + Join(ps[1..], sep)
  }

  /** Splitting and joining are inverse: no character is lost or added. */
  lemma {:induction false} JoinPieces(s: string, sep: char)
    ensures Join(Pieces(s, sep), sep) == s
  {
    if s != [] {
      var rest := Pieces(s[1..], sep);
      JoinPieces(s[1..], sep);
      if s[0] == sep {
        assert Pieces(s, sep)[1..] == rest;
      } else {
        var ps := Pieces(s, sep);
        if |rest| > 1 {
          assert ps[1..] == rest[1..];
          assert Join(rest, sep) == rest[0] + [sep] + Join(rest[1..], sep);
        }
      }
    }
  }

  /** Every character of a joined string is a separator or lies in one of the pieces. */
  lemma {:induction false} JoinMembers(ps: seq<string>, sep: char, c: char)
    requires |ps| >= 1 && c in Join(ps, sep) && c != sep
    ensures exists i :: 0 <= i < |ps| && c in ps[i]
  {
    if |ps| > 1 {
      if c !in ps[0] {
        JoinMembers(ps[1..], sep, c);
        var i :| 0 <= i < |ps[1..]| && c in ps[1..][i];
        assert c in ps[i + 1];
      }
    }
  }

  /** Every character of s other than sep lies in one of its pieces. */
  lemma PiecesCover(s: string, sep: char, k: nat)
    requires k < |s| && s[k] != sep
    ensures exists i :: 0 <= i < |Pieces(s, sep)| && s[k] in Pieces(s, sep)[i]
  {
    JoinPieces(s, sep);
    JoinMembers(Pieces(s, sep), sep, s[k]);
  }

  /** A string that ends with the separator has an empty last piece. */
  lemma {:induction false} PiecesLastEmpty(s: string, sep: char)
    requires s != [] && s[|s| - 1] == sep
    ensures Pieces(s, sep)[|Pieces(s, sep)| - 1] == []
  {
    if |s| > 1 {
      PiecesLastEmpty(s[1..], sep);
      var rest := Pieces(s[1..], sep);
      if s[0] != sep && |rest| == 1 {
        assert s[1..] != [] && sep in s[1..];
        JoinPieces(s[1..], sep);
        assert false;
      }
    }
  }

  /** A string without sep is a single piece. */
  lemma {:induction false} PiecesWithoutSep(s: string, sep: char)
    ensures sep !in s ==> Pieces(s, sep) == [s]
  {
    if s != [] {
      PiecesWithoutSep(s[1..], sep);
      assert sep !in s ==> sep !in s[1..] && s[0] != sep;
      assert s == [s[0]] + s[1..];
    }
  }

  /** Splitting at a last separator: the pieces before it, then the rest as one piece. */
  lemma {:induction false} PiecesSplitLast(a: string, sep: char, b: string)
    requires sep !in b
    ensures Pieces(a + [sep] + b, sep) == Pieces(a, sep) + [b]
  {
    var s := a + [sep] + b;
    if a == [] {
      assert s[1..] == b;
      PiecesWithoutSep(b, sep);
    } else {
      assert s[1..] == a[1..] + [sep] + b;
      PiecesSplitLast(a[1..], sep, b);
      var rest := Pieces(a[1..], sep);
      assert Pieces(s[1..], sep) == rest + [b];
      if a[0] != sep {
        assert (rest + [b])[1..] == rest[1..] + [b];
      }
    }
  }

  /** The last position of c in s, or -1 when there is none. */
  function LastIndex(s: string, c: char): (k: int)
    ensures -1 <= k < |s|
    ensures k == -1 <==> c !in s
    ensures 0 <= k ==> s[k] == c && c !in s[k + 1..]
  {
    if s == [] then -1
    else if s[|s| - 1] == c then |s| - 1
    else
      var k := LastIndex(s[..|s| - 1], c);
      assert k == -1 ==> s == s[..|s| - 1] + [s[|s| - 1]];
      assert 0 <= k ==> s[k + 1..] == s[..|s| - 1][k + 1..] + [s[|s| - 1]];
      k
  }

  /** Every sep in s is followed by a character other than sep: none at the end, none doubled. */
  predicate SepsFollowed(s: string, sep: char)
  {
    forall i :: 0 <= i < |s| && s[i] == sep ==> i + 1 < |s| && s[i + 1] != sep
  }

  /**
   * s is one or more non-empty runs of characters satisfying ok with single
   * seps between them: the strings a regular expression `w+(sep w+)*` accepts
   * when w is the character class ok.
   */
  predicate SeparatedRuns(s: string, sep: char, ok: char -> bool)
  {
    && s != [] && s[0] != sep && SepsFollowed(s, sep)
    && forall i :: 0 <= i < |s| ==> s[i] == sep || ok(s[i])
  }

  /** Every piece after the first is non-empty exactly when every sep is followed by a non-sep. */
  lemma {:induction false} PiecesTailNonEmpty(s: string, sep: char)
    ensures (forall i :: 1 <= i < |Pieces(s, sep)| ==> |Pieces(s, sep)[i]| > 0) <==> SepsFollowed(s, sep)
  {
    if s != [] {
      var t := s[1..];
      var rest := Pieces(t, sep);
      var ps := Pieces(s, sep);
      PiecesTailNonEmpty(t, sep);
      assert |rest[0]| > 0 <==> t != [] && t[0] != sep;
      assert SepsFollowed(s, sep) <==> (s[0] == sep ==> 1 < |s| && s[1] != sep) && SepsFollowed(t, sep) by {
        assert forall i :: 0 <= i < |t| ==> t[i] == s[i + 1];
      }
      if s[0] == sep {
        assert ps == [[]] + rest;
        assert forall i :: 1 <= i < |ps| ==> ps[i] == rest[i - 1];
        if forall i :: 1 <= i < |ps| ==> |ps[i]| > 0 {
          forall j | 0 <= j < |rest| ensures |rest[j]| > 0 {
            assert ps[j + 1] == rest[j];
          }
        }
        assert t != [] ==> t[0] == s[1];
      } else {
        assert ps[1..] == rest[1..];
        assert forall i :: 1 <= i < |ps| ==> ps[i] == rest[i];
      }
    }
  }

  /** Every character of a piece is a character of the joined string. */
  lemma {:induction false} JoinContains(ps: seq<string>, sep: char, i: nat, c: char)
    requires i < |ps| && c in ps[i]
    ensures c in Join(ps, sep)
  {
    if i > 0 {
      JoinContains(ps[1..], sep, i - 1, c);
    }
  }

  /** Pieces are non-empty runs of ok characters exactly when the string has the shape of `w+(sep w+)*`. */
  lemma PiecesSeparatedRuns(s: string, sep: char, ok: char -> bool)
    ensures (forall i :: 0 <= i < |Pieces(s, sep)| ==>
               |Pieces(s, sep)[i]| > 0 && forall c :: c in Pieces(s, sep)[i] ==> ok(c))
      <==> SeparatedRuns(s, sep, ok)
  {
    var ps := Pieces(s, sep);
    PiecesTailNonEmpty(s, sep);
    JoinPieces(s, sep);
    assert |ps[0]| > 0 <==> s != [] && s[0] != sep;
    var piecesOk := forall i, c :: 0 <= i < |ps| && c in ps[i] ==> ok(c);
    var charsOk := forall k :: 0 <= k < |s| ==> s[k] == sep || ok(s[k]);
    if piecesOk {
      forall k | 0 <= k < |s| && s[k] != sep ensures ok(s[k]) {
        PiecesCover(s, sep, k);
      }
    }
    if charsOk {
      forall i, c | 0 <= i < |ps| && c in ps[i] ensures ok(c) {
        JoinContains(ps, sep, i, c);
        assert c != sep;
        var k :| 0 <= k < |s| && s[k] == c;
      }
    }
    assert piecesOk <==> charsOk;
  }

  predicate IsDigit(c: char) { '0' <= c <= '9' }

  function DigitChar(d: int): (c: char)
    requires 0 <= d < 10
    ensures IsDigit(c)
  {
    ('0' as int + d) as char
  }

  function DigitValue(c: char): nat
    requires IsDigit(c)
  {
    c as int - '0' as int
  }

  /** The value of a string of decimal digits, most significant first. */
  function DigitsValue(s: string): nat
    requires forall c :: c in s ==> IsDigit(c)
  {
    if s == [] then 0
    else
      assert s[|s| - 1] in s;
      DigitsValue(s[..|s| - 1]) * 10 + DigitValue(s[|s| - 1])
  }

  /** String.format("%03d", n) for 0 <= n < 1000: three digits, zero-padded. */
  function FormatThreeDigits(n: int): (s: string)
    requires 0 <= n < 1000
    ensures |s| == 3 && forall c :: c in s ==> IsDigit(c)
  {
    [DigitChar(n / 100), DigitChar(n / 10 % 10), DigitChar(n % 10)]
  }

  /** Reading the three digits back gives the number that was formatted. */
  lemma FormatThreeDigitsValue(n: int)
    requires 0 <= n < 1000
    ensures DigitsValue(FormatThreeDigits(n)) == n
  {
    var s := FormatThreeDigits(n);
    assert s[..2][..1] == [s[0]];
    assert s[..2][1] == s[1];
    assert DigitsValue(s[..2][..1]) == n / 100;
    assert DigitsValue(s[..2]) == (n / 100) * 10 + n / 10 % 10;
  }
}
