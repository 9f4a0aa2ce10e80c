/**
 * The few Python string operations the core relies on: `str.split(sep)`,
 * `str.strip()`, `str(n)` for a non-negative int and `int(s)` for a decimal string.
 */
module Strings {
  import opened Wrappers

  /** `s.split(sep)` for a one-character separator: every occurrence splits, so there is always one piece more than separators. */
  function Split(s: string, sep: char): (r: seq<string>)
    ensures |r| >= 1
    decreases |s|
  {
    if |s| == 0 then [""]
    else
      var rest := Split(s[1..], sep);
      if s[0] == sep then [""] + rest else [[s[0]] + rest[0]] + rest[1..]
  }

  /** `sep.join(parts)`. */
  function Join(parts: seq<string>, sep: char): string
    decreases |parts|
  {
    if |parts| == 0 then ""
    else if |parts| == 1 then parts[0]
    else parts[0] + [sep] + Join(parts[1..], sep)
  }

  predicate NoSep(parts: seq<string>, sep: char)
  {
    forall i :: 0 <= i < |parts| ==> sep !in parts[i]
  }

  /** Joining the pieces of a split gives the string back. */
  lemma {:induction false} JoinSplit(s: string, sep: char)
    ensures Join(Split(s, sep), sep) == s
    decreases |s|
  {
    if |s| > 0 {
      var rest := Split(s[1..], sep);
      JoinSplit(s[1..], sep);
      if s[0] == sep {
        assert Split(s, sep) == [""] + rest;
        assert Join([""] + rest, sep) == "" + [sep] + Join(rest, sep) by {
          assert ([""] + rest)[1..] == rest;
        }
        assert s == [s[0]] + s[1..];
      } else {
        var parts := [[s[0]] + rest[0]] + rest[1..];
        assert Split(s, sep) == parts;
        if |rest| == 1 {
          assert Join(parts, sep) == [s[0]] + rest[0];
        } else {
          assert parts[1..] == rest[1..];
          assert Join(rest, sep) == rest[0] + [sep] + Join(rest[1..], sep);
          assert Join(parts, sep) == [s[0]] + rest[0] + [sep] + Join(rest[1..], sep);
        }
        assert s == [s[0]] + s[1..];
      }
    }
  }

  /** No piece of a split contains the separator. */
  lemma {:induction false} SplitNoSep(s: string, sep: char)
    ensures NoSep(Split(s, sep), sep)
    decreases |s|
  {
    if |s| > 0 {
      SplitNoSep(s[1..], sep);
    }
  }

  /** A string without the separator splits into itself. */
  lemma {:induction false} SplitWithoutSep(s: string, sep: char)
    requires sep !in s
    ensures Split(s, sep) == [s]
    decreases |s|
  {
    if |s| > 0 {
      assert sep !in s[1..] by {
        forall k | 0 <= k < |s[1..]| ensures s[1..][k] != sep { assert s[1..][k] == s[k + 1]; }
      }
      SplitWithoutSep(s[1..], sep);
      assert s == [s[0]] + s[1..];
    }
  }

  /** Splitting `a + sep + b`, with no separator in `a`, splits off `a` and then splits `b`. */
  lemma {:induction false} SplitAfterPiece(a: string, b: string, sep: char)
    requires sep !in a
    ensures Split(a + [sep] + b, sep) == [a] + Split(b, sep)
    decreases |a|
  {
    if |a| == 0 {
      assert a + [sep] + b == [sep] + b;
      assert ([sep] + b)[1..] == b;
    } else {
      var s := a + [sep] + b;
      assert s[1..] == a[1..] + [sep] + b;
      assert sep !in a[1..] by {
        forall k | 0 <= k < |a[1..]| ensures a[1..][k] != sep { assert a[1..][k] == a[k + 1]; }
      }
      SplitAfterPiece(a[1..], b, sep);
      assert [a[0]] + a[1..] == a;
    }
  }

  /** Splitting a join of separator-free pieces gives the pieces back. */
  lemma {:induction false} SplitJoin(parts: seq<string>, sep: char)
    requires |parts| >= 1 && NoSep(parts, sep)
    ensures Split(Join(parts, sep), sep) == parts
    decreases |parts|
  {
    if |parts| == 1 {
      SplitWithoutSep(parts[0], sep);
    } else {
      assert NoSep(parts[1..], sep) by {
        forall k | 0 <= k < |parts[1..]| ensures sep !in parts[1..][k] { assert parts[1..][k] == parts[k + 1]; }
      }
      SplitJoin(parts[1..], sep);
      assert sep !in parts[0];
      SplitAfterPiece(parts[0], Join(parts[1..], sep), sep);
      assert [parts[0]] + parts[1..] == parts;
    }
  }

  /** The characters Python's `str.isspace` accepts, which `str.strip()` removes. */
  predicate IsSpace(c: char)
  {
    var n := c as int;
    n == 0x20 || (0x09 <= n <= 0x0d) || (0x1c <= n <= 0x1f) || n == 0x85 || n == 0xa0
    || n == 0x1680 || (0x2000 <= n <= 0x200a) || n == 0x2028 || n == 0x2029
    || n == 0x202f || n == 0x205f || n == 0x3000
  }

  function LStrip(s: string): (r: string)
    ensures |r| <= |s| && r == s[|s| - |r|..]
    ensures |r| > 0 ==> !IsSpace(r[0])
    ensures forall k :: 0 <= k < |s| - |r| ==> IsSpace(s[k])
  {
    if |s| > 0 && IsSpace(s[0]) then LStrip(s[1..]) else s
  }

  function RStrip(s: string): (r: string)
    ensures |r| <= |s| && r == s[..|r|]
    ensures |r| > 0 ==> !IsSpace(r[|r| - 1])
    ensures forall k :: |r| <= k < |s| ==> IsSpace(s[k])
  {
    if |s| > 0 && IsSpace(s[|s| - 1]) then RStrip(s[..|s| - 1]) else s
  }

  /** `s.strip()`: leading and trailing whitespace removed. */
  function Strip(s: string): string
  {
    LStrip(RStrip(s))
  }

  /** A string that neither starts nor ends with whitespace is its own strip. */
  lemma StripNoOuterSpace(s: string)
    requires |s| > 0 && !IsSpace(s[0]) && !IsSpace(s[|s| - 1])
    ensures Strip(s) == s
  {
  }

  /** A leading whitespace character is stripped away. */
  lemma StripLeadingSpace(c: char, s: string)
    requires IsSpace(c) && |s| > 0 && !IsSpace(s[|s| - 1])
    ensures Strip([c] + s) == Strip(s)
  {
    var t := [c] + s;
    assert RStrip(t) == t;
    assert RStrip(s) == s;
    assert t[1..] == s;
  }

  /** The non-empty pieces, in order (the `if x != ""` filter). */
  function NonEmpty(parts: seq<string>): (r: seq<string>)
    ensures |r| <= |parts|
    ensures forall i :: 0 <= i < |r| ==> r[i] != ""
  {
    if parts == [] then []
    else if parts[0] == "" then NonEmpty(parts[1..])
    else [parts[0]] + NonEmpty(parts[1..])
  }

  /** `[x for x in s.strip().split(" ") if x != ""]`. */
  function Tokens(s: string): seq<string>
  {
    NonEmpty(Split(Strip(s), ' '))
  }

  lemma {:induction false} NonEmptyAll(parts: seq<string>)
    requires forall i :: 0 <= i < |parts| ==> parts[i] != ""
    ensures NonEmpty(parts) == parts
  {
    if parts != [] {
      NonEmptyAll(parts[1..]);
    }
  }

  /** The tokens of a string built by joining non-empty, space-free words with single spaces are the words. */
  lemma TokensOfJoin(words: seq<string>)
    requires |words| >= 1 && NoSep(words, ' ')
    requires forall i :: 0 <= i < |words| ==> words[i] != ""
    requires !IsSpace(words[0][0]) && !IsSpace(Last(words)[|Last(words)| - 1])
    ensures Tokens(Join(words, ' ')) == words
  {
    var s := Join(words, ' ');
    JoinFirstLast(words, ' ');
    StripNoOuterSpace(s);
    SplitJoin(words, ' ');
    NonEmptyAll(words);
  }

  function Last(parts: seq<string>): string
    requires |parts| >= 1
  {
    parts[|parts| - 1]
  }

  /** A join of non-empty pieces starts with the first piece's first character and ends with the last piece's last. */
  lemma {:induction false} JoinFirstLast(parts: seq<string>, sep: char)
    requires |parts| >= 1 && forall i :: 0 <= i < |parts| ==> parts[i] != ""
    ensures var s := Join(parts, sep); |s| > 0 && s[0] == parts[0][0] && s[|s| - 1] == Last(parts)[|Last(parts)| - 1]
    decreases |parts|
  {
    if |parts| > 1 {
      JoinFirstLast(parts[1..], sep);
      assert Last(parts[1..]) == Last(parts);
    }
  }

  /** Two space-free words joined by a space, behind a whitespace character and a space, are the tokens. */
  lemma TokensOfSpacedPair(c: char, s1: string, s2: string)
    requires IsSpace(c) && s1 != [] && s2 != [] && ' ' !in s1 && ' ' !in s2
    requires !IsSpace(s1[0]) && !IsSpace(s2[|s2| - 1])
    ensures Tokens([c] + " " + s1 + " " + s2) == [s1, s2]
  {
    StripOfSpacedPair(c, s1, s2);
    StripNoOuterSpace(s1 + " " + s2);
    SameStripSameTokens([c] + " " + s1 + " " + s2, s1 + " " + s2);
    TokensOfPair(s1, s2);
  }

  lemma SameStripSameTokens(x: string, y: string)
    requires Strip(x) == Strip(y)
    ensures Tokens(x) == Tokens(y)
  {
  }

  lemma StripOfSpacedPair(c: char, s1: string, s2: string)
    requires IsSpace(c) && s1 != [] && s2 != [] && !IsSpace(s1[0]) && !IsSpace(s2[|s2| - 1])
    ensures Strip([c] + " " + s1 + " " + s2) == s1 + " " + s2
    ensures |s1 + " " + s2| > 0 && !IsSpace((s1 + " " + s2)[0]) && !IsSpace((s1 + " " + s2)[|s1 + " " + s2| - 1])
  {
    var rest := s1 + " " + s2;
    assert [c] + " " + s1 + " " + s2 == [c] + (" " + rest);
    assert rest[0] == s1[0] && rest[|rest| - 1] == s2[|s2| - 1];
    StripTwoLeading(c, rest);
  }

  /** Three space-free words joined by single spaces are the tokens. */
  lemma TokensOfTriple(s0: string, s1: string, s2: string)
    requires s0 != [] && s1 != [] && s2 != [] && ' ' !in s0 && ' ' !in s1 && ' ' !in s2
    requires !IsSpace(s0[0]) && !IsSpace(s2[|s2| - 1])
    ensures Tokens(s0 + " " + s1 + " " + s2) == [s0, s1, s2]
  {
    var words := [s0, s1, s2];
    assert Join(words, ' ') == s0 + " " + s1 + " " + s2 by {
      assert words[1..] == [s1, s2];
      JoinPair(s1, s2);
    }
    assert Last(words) == s2;
    assert NoSep(words, ' ');
    TokensOfJoin(words);
  }

  lemma JoinPair(s1: string, s2: string)
    ensures Join([s1, s2], ' ') == s1 + " " + s2
  {
    var words := [s1, s2];
    assert words[1..] == [s2];
  }

  lemma StripTwoLeading(c: char, rest: string)
    requires IsSpace(c) && |rest| > 0 && !IsSpace(rest[0]) && !IsSpace(rest[|rest| - 1])
    ensures Strip([c] + (" " + rest)) == rest
  {
    assert (" " + rest)[|" " + rest| - 1] == rest[|rest| - 1];
    StripLeadingSpace(c, " " + rest);
    assert " " + rest == [' '] + rest;
    StripLeadingSpace(' ', rest);
    StripNoOuterSpace(rest);
  }

  lemma TokensOfPair(s1: string, s2: string)
    requires s1 != [] && s2 != [] && ' ' !in s1 && ' ' !in s2
    requires !IsSpace(s1[0]) && !IsSpace(s2[|s2| - 1])
    ensures Tokens(s1 + " " + s2) == [s1, s2]
  {
    var words := [s1, s2];
    JoinPair(s1, s2);
    assert Last(words) == s2;
    assert NoSep(words, ' ');
    TokensOfJoin(words);
  }

  /** A string of digits contains no whitespace. */
  lemma DigitsHaveNoSpace(s: string)
    requires AllDigits(s)
    ensures ' ' !in s && (s != [] ==> !IsSpace(s[0]) && !IsSpace(s[|s| - 1]))
  {
  }

  predicate IsDigit(c: char)
  {
    '0' <= c <= '9'
  }

  predicate AllDigits(s: string)
  {
    forall i :: 0 <= i < |s| ==> IsDigit(s[i])
  }

  function DigitChar(d: nat): (c: char)
    requires d < 10
    ensures IsDigit(c) && (c as int) - ('0' as int) == d
  {
    ('0' as int + d) as char
  }

  /** `str(n)` for a non-negative int: its decimal digits, most significant first, no leading zero. */
  function NatToString(n: nat): string
  {
    if n < 10 then [DigitChar(n)] else NatToString(n / 10) + [DigitChar(n % 10)]
  }

  /** The value of a string of decimal digits. */
  function DigitsValue(s: string): nat
    requires AllDigits(s)
  {
    if s == [] then 0 else 10 * DigitsValue(s[..|s| - 1]) + ((s[|s| - 1] as int) - ('0' as int))
  }

  /** `str(n)` is a non-empty string of digits whose value is `n`. */
  lemma {:induction false} NatToStringValue(n: nat)
    ensures var s := NatToString(n); |s| >= 1 && AllDigits(s) && DigitsValue(s) == n
  {
    if n >= 10 {
      NatToStringValue(n / 10);
      var s := NatToString(n);
      assert s[..|s| - 1] == NatToString(n / 10);
    }
  }

  /** Removes the single underscores Python allows between digits. */
  function RemoveUnderscores(s: string): (r: string)
    ensures |r| <= |s|
  {
    if s == [] then [] else if s[0] == '_' then RemoveUnderscores(s[1..]) else [s[0]] + RemoveUnderscores(s[1..])
  }

  /** The digit string Python's `int()` accepts after the sign: digits, single underscores only between digits. */
  predicate Numeral(s: string)
  {
    && |s| > 0 && IsDigit(s[0]) && IsDigit(s[|s| - 1])
    && (forall i :: 0 <= i < |s| ==> IsDigit(s[i]) || s[i] == '_')
    && (forall i :: 0 <= i < |s| - 1 ==> !(s[i] == '_' && s[i + 1] == '_'))
  }

  lemma {:induction false} RemoveUnderscoresDigits(s: string)
    requires forall i :: 0 <= i < |s| ==> IsDigit(s[i]) || s[i] == '_'
    ensures AllDigits(RemoveUnderscores(s))
  {
    if s != [] {
      RemoveUnderscoresDigits(s[1..]);
    }
  }

  lemma {:induction false} RemoveUnderscoresNone(s: string)
    requires AllDigits(s)
    ensures RemoveUnderscores(s) == s
  {
    if s != [] {
      RemoveUnderscoresNone(s[1..]);
    }
  }

  /**
   * Python's `int(s)` for base 10: surrounding whitespace ignored, an optional sign,
   * then ASCII digits with single underscores between them; anything else raises
   * ValueError (None here).
   */
  function PyInt(s: string): Option<int>
  {
    var t := Strip(s);
    var negative := |t| > 0 && t[0] == '-';
    var body := if |t| > 0 && (t[0] == '+' || t[0] == '-') then t[1..] else t;
    if Numeral(body) then
      RemoveUnderscoresDigits(body);
      var v: int := DigitsValue(RemoveUnderscores(body));
      Some(if negative then -v else v)
    else None
  }

  /** `int(str(n)) == n`. */
  lemma PyIntNatToString(n: nat)
    ensures PyInt(NatToString(n)) == Some(n)
  {
    var s := NatToString(n);
    NatToStringValue(n);
    DigitsHaveNoSpace(s);
    StripNoOuterSpace(s);
    assert IsDigit(s[0]) && s[0] != '+' && s[0] != '-';
    assert Numeral(s) by {
      forall i | 0 <= i < |s| - 1 ensures !(s[i] == '_' && s[i + 1] == '_') {
        assert IsDigit(s[i]);
      }
    }
    RemoveUnderscoresNone(s);
    assert DigitsValue(RemoveUnderscores(s)) == n;
  }
}
