/**
 * Character classes and string operations of Python that the handlers use:
 * the regular-expression classes `[0-9]`, `[A-Z]`, `[a-z]`, `str(n)` for an
 * integer, `int(text)`, and `str.split(sep)`.
 */
module Text {
  import opened Wrappers

  predicate IsDigit(c: char) { '0' <= c <= '9' }
  predicate IsUpper(c: char) { 'A' <= c <= 'Z' }
  predicate IsLower(c: char) { 'a' <= c <= 'z' }

  /** `re.search(r'[0-9]', s)` finds a match. */
  predicate HasDigit(s: string) { exists c :: c in s && IsDigit(c) }
  /** `re.search(r'[A-Z]', s)` finds a match. */
  predicate HasUpper(s: string) { exists c :: c in s && IsUpper(c) }
  /** `re.search(r'[a-z]', s)` finds a match. */
  predicate HasLower(s: string) { exists c :: c in s && IsLower(c) }

  predicate AllDigits(s: string) { forall i :: 0 <= i < |s| ==> IsDigit(s[i]) }

  function DigitChar(d: nat): char
    requires d < 10
  {
    ('0' as int + d) as char
  }

  function DigitValue(c: char): nat
    requires IsDigit(c)
  {
    c as int - '0' as int
  }

  /** The decimal digits of `n` without leading zeros, as `str(n)` writes them. */
  function NatToString(n: nat): (r: string)
    ensures |r| > 0 && AllDigits(r)
    decreases n
  {
    if n < 10 then [DigitChar(n)] else NatToString(n / 10) + [DigitChar(n % 10)]
  }

  /** Python's `str(n)` for an integer. */
  function IntToString(n: int): (r: string)
    ensures |r| > 0
    ensures n >= 0 ==> AllDigits(r)
    ensures n < 0 ==> r[0] == '-' && AllDigits(r[1..])
  {
    if n < 0 then "-" + NatToString(-n) else NatToString(n)
  }

  /** The value of a string of decimal digits, most significant first. */
  function DigitsValue(s: string): nat
    requires AllDigits(s)
    decreases |s|
  {
    if s == [] then 0 else DigitsValue(s[..|s| - 1]) * 10 + DigitValue(s[|s| - 1])
  }

  /**
   * Python's `int(text)` on the texts made of an optional sign and one or
   * more ASCII digits; every other text is a failure (None).
   */
  function ParseInt(s: string): Option<int> {
    if |s| > 0 && (s[0] == '-' || s[0] == '+') then
      var digits := s[1..];
      if |digits| > 0 && AllDigits(digits) then
        var v: int := DigitsValue(digits);
        Some(if s[0] == '-' then -v else v)
      else None
    else if |s| > 0 && AllDigits(s) then Some(DigitsValue(s))
    else None
  }

  lemma {:induction false} NatToStringValue(n: nat)
    ensures DigitsValue(NatToString(n)) == n
    decreases n
  {
    if n >= 10 {
      var s := NatToString(n);
      NatToStringValue(n / 10);
      assert s[..|s| - 1] == NatToString(n / 10);
    }
  }

  /** `int(str(n)) == n`. */
  lemma ParseIntOfIntToString(n: int)
    ensures ParseInt(IntToString(n)) == Some(n)
  {
    if n < 0 {
      NatToStringValue(-n);
      assert IntToString(n)[1..] == NatToString(-n);
    } else {
      NatToStringValue(n);
    }
  }

  /** `str(n)` contains no character that is neither a digit nor the leading minus sign. */
  lemma IntToStringChars(n: int, c: char)
    requires c in IntToString(n)
    ensures IsDigit(c) || (c == '-' && n < 0)
  {
    var s := IntToString(n);
    var i :| 0 <= i < |s| && s[i] == c;
    if n < 0 && i > 0 {
      assert s[1..][i - 1] == c;
    }
  }

  /** Python's `s.split(sep)`: the pieces between the occurrences of `sep`; always at least one. */
  function Split(s: string, sep: char): (r: seq<string>)
    ensures |r| > 0
    decreases |s|
  {
    if s == [] then [""]
    else
      var rest := Split(s[1..], sep);
      if s[0] == sep then [""] + rest else [[s[0]] + rest[0]] + rest[1..]
  }

  /** Python's `sep.join(parts)`. */
  function Join(parts: seq<string>, sep: char): string
    decreases |parts|
  {
    if parts == [] then ""
    else if |parts| == 1 then parts[0]
    else parts[0] + [sep] + Join(parts[1..], sep)
  }

  /** No piece of `s.split(sep)` holds the separator. */
  lemma {:induction false} SplitPiecesLackSep(s: string, sep: char)
    ensures forall i :: 0 <= i < |Split(s, sep)| ==> sep !in Split(s, sep)[i]
    decreases |s|
  {
    if s != [] {
      SplitPiecesLackSep(s[1..], sep);
    }
  }

  /** Splitting loses nothing: joining the pieces gives the text back. */
  lemma {:induction false} SplitJoin(s: string, sep: char)
    ensures Join(Split(s, sep), sep) == s
    decreases |s|
  {
    if s != [] {
      SplitJoin(s[1..], sep);
      var rest := Split(s[1..], sep);
      if s[0] == sep {
        assert Split(s, sep) == [""] + rest;
        assert s == [sep] + s[1..];
      } else {
        var first := [s[0]] + rest[0];
        assert Split(s, sep) == [first] + rest[1..];
        if |rest| == 1 {
          assert Join(rest, sep) == rest[0];
          assert s == [s[0]] + s[1..];
        } else {
          assert Join(rest, sep) == rest[0] + [sep] + Join(rest[1..], sep);
          assert ([first] + rest[1..])[1..] == rest[1..];
        }
      }
    }
  }

  /** A text without the separator is one piece. */
  lemma {:induction false} SplitNoSep(s: string, sep: char)
    requires sep !in s
    ensures Split(s, sep) == [s]
    decreases |s|
  {
    if s != [] {
      SplitNoSep(s[1..], sep);
      assert [s[0]] + s[1..] == s;
    }
  }

  /** The first occurrence of the separator ends the first piece. */
  lemma {:induction false} SplitAtFirst(a: string, sep: char, b: string)
    requires sep !in a
    ensures Split(a + [sep] + b, sep) == [a] + Split(b, sep)
    decreases |a|
  {
    if a == [] {
      assert a + [sep] + b == [sep] + b;
      assert (a + [sep] + b)[1..] == b;
    } else {
      assert (a + [sep] + b)[1..] == a[1..] + [sep] + b;
      SplitAtFirst(a[1..], sep, b);
      assert [a[0]] + a[1..] == a;
    }
  }

  /** Text before the separator and the remainder that contains it: at least two pieces. */
  lemma {:induction false} SplitWithSep(s: string, sep: char)
    requires sep in s
    ensures |Split(s, sep)| >= 2
    decreases |s|
  {
    if s[0] != sep {
      SplitWithSep(s[1..], sep);
    }
  }

  /** The last piece of `s.split(sep)`, as `parts[len(parts) - 1]` picks it. */
  function LastPiece(s: string, sep: char): string {
    var parts := Split(s, sep);
    parts[|parts| - 1]
  }

  /** The last piece holds no separator. */
  lemma LastPieceLacksSep(s: string, sep: char)
    ensures sep !in LastPiece(s, sep)
  {
    SplitPiecesLackSep(s, sep);
  }

  lemma LastPieceOfTail(s: string, sep: char)
    requires s != [] && sep in s[1..]
    ensures LastPiece(s, sep) == LastPiece(s[1..], sep)
  {
    SplitWithSep(s[1..], sep);
  }

  lemma LastPieceOfLastRun(s: string, sep: char)
    requires s != [] && sep !in s[1..]
    ensures LastPiece(s, sep) == if s[0] == sep then s[1..] else s
  {
    var tail := s[1..];
    SplitNoSep(tail, sep);
    if s[0] == sep {
      assert Split(s, sep) == ["", tail];
    } else {
      assert Split(s, sep) == [[s[0]] + tail];
      assert [s[0]] + tail == s;
    }
  }

  /**
   * The last piece is the text after the last separator: it is either the
   * whole text, when there is no separator, or the suffix right after one.
   */
  lemma {:induction false} LastPieceIsSuffix(s: string, sep: char)
    ensures var r := LastPiece(s, sep);
      |r| <= |s| && s[|s| - |r|..] == r &&
      (sep in s <==> |r| < |s|) &&
      (|r| < |s| ==> s[|s| - |r| - 1] == sep)
    decreases |s|
  {
    if s != [] {
      var tail := s[1..];
      if sep in tail {
        LastPieceIsSuffix(tail, sep);
        LastPieceOfTail(s, sep);
        var r := LastPiece(tail, sep);
        assert s[|s| - |r|..] == tail[|tail| - |r|..];
        assert s[|s| - |r| - 1] == tail[|tail| - |r| - 1];
      } else {
        LastPieceOfLastRun(s, sep);
      }
    }
  }

  /** Whatever precedes a separator does not change the last piece of what follows it. */
  lemma {:induction false} LastPieceSkipsPrefix(x: string, sep: char, b: string)
    ensures LastPiece(x + [sep] + b, sep) == LastPiece(b, sep)
    decreases |x|
  {
    var s := x + [sep] + b;
    if x == [] {
      assert s == [sep] + b;
      assert s[1..] == b;
    } else {
      assert s[1..] == x[1..] + [sep] + b;
      assert sep in s[1..] by { assert s[1..][|x| - 1] == sep; }
      SplitWithSep(s[1..], sep);
      LastPieceSkipsPrefix(x[1..], sep, b);
    }
  }

  /** The last piece after an explicit separator is what follows it, when that holds no separator. */
  lemma LastPieceAfterSep(a: string, sep: char, b: string)
    requires sep !in b
    ensures LastPiece(a + [sep] + b, sep) == b
  {
    LastPieceSkipsPrefix(a, sep, b);
    SplitNoSep(b, sep);
  }
}
