/**
 * The pieces of the Kotlin standard library the leaderboard decoder relies on:
 * `String.split` with a one-character delimiter and no limit, `String.toIntOrNull`
 * in radix 10, and `Int.toString`, which is the canonical way a score is written.
 * Strings are modelled as `seq<char>`. A Dafny `char` is a Unicode scalar
 * value, not a UTF-16 code unit: a character outside the Basic Multilingual
 * Plane is one `char` here but two in Kotlin, and a lone surrogate has no
 * counterpart. Every character the decoder tests for (the delimiters, the
 * signs and the digits) is ASCII, so the pieces it cuts and the values it
 * reads do not depend on that difference.
 */
module KotlinText {
  import opened Options

  /** Bounds of Kotlin's 32-bit `Int`. */
  const IntMin: int := -0x8000_0000
  const IntMax: int := 0x7fff_ffff

  predicate InIntRange(n: int) {
    IntMin <= n <= IntMax
  }

  /** Number of occurrences of `d` in `s`. */
  function Occurrences(s: string, d: char): nat {
    multiset(s)[d]
  }

  // ---------------------------------------------------------------------------
  // split / joinToString
  // ---------------------------------------------------------------------------

  /**
   * `s.split(d.toString())`: the pieces of `s` between occurrences of `d`.
   * Empty pieces are kept, including a leading and a trailing one, so there is
   * always one piece more than there are delimiters.
   */
  function Split(s: string, d: char): (parts: seq<string>)
    ensures |parts| == Occurrences(s, d) + 1
    ensures forall i :: 0 <= i < |parts| ==> d !in parts[i]
  {
    if s == [] then [[]]
    else
      var rest := Split(s[1..], d);
      assert s == [s[0]] + s[1..];
      if s[0] == d then [[]] + rest
      else [[s[0]] + rest[0]] + rest[1..]
  }

  /** `parts.joinToString(d.toString())`: the pieces with one `d` between neighbours. */
  function Join(parts: seq<string>, d: char): (s: string)
  {
    if |parts| == 0 then []
    else if |parts| == 1 then parts[0]
    else parts[0] + [d] + Join(parts[1..], d)
  }

  /** Joining the pieces of a split gives back the string that was split. */
  lemma {:induction false} JoinSplit(s: string, d: char)
    ensures Join(Split(s, d), d) == s
  {
    if s != [] {
      var rest := Split(s[1..], d);
      JoinSplit(s[1..], d);
      assert s == [s[0]] + s[1..];
      if s[0] == d {
        assert Join(Split(s, d), d) == [] + [d] + Join(rest, d) by {
          assert Split(s, d) == [[]] + rest;
          assert ([[]] + rest)[1..] == rest;
        }
      } else {
        JoinSplitHead(s[0], rest, d);
      }
    }
  }

  /** One step of `JoinSplit`: a character other than the delimiter joins the first piece. */
  lemma JoinSplitHead(c: char, rest: seq<string>, d: char)
    requires |rest| > 0
    ensures Join([[c] + rest[0]] + rest[1..], d) == [c] + Join(rest, d)
  {
    var parts := [[c] + rest[0]] + rest[1..];
    if |rest| > 1 {
      assert parts[1..] == rest[1..];
    }
  }

  /** Every piece is made of characters of the string split: none is invented. */
  lemma {:induction false} SplitPieceFrom(s: string, d: char, i: nat, c: char)
    requires c !in s
    requires i < |Split(s, d)|
    ensures c !in Split(s, d)[i]
  {
    if s != [] {
      assert s == [s[0]] + s[1..];
      var rest := Split(s[1..], d);
      if s[0] == d {
        if i > 0 { SplitPieceFrom(s[1..], d, i - 1, c); }
      } else {
        SplitPieceFrom(s[1..], d, i, c);
      }
    }
  }

  /** A string without the delimiter splits into itself alone. */
  lemma {:induction false} SplitNoDelimiter(p: string, d: char)
    requires d !in p
    ensures Split(p, d) == [p]
  {
    if p != [] {
      SplitNoDelimiter(p[1..], d);
      assert [p[0]] + p[1..] == p;
    }
  }

  /** A delimiter-free prefix followed by the delimiter becomes the first piece. */
  lemma {:induction false} SplitPrefix(p: string, d: char, t: string)
    requires d !in p
    ensures Split(p + [d] + t, d) == [p] + Split(t, d)
  {
    var s := p + [d] + t;
    if p == [] {
      assert s[0] == d && s[1..] == t;
    } else {
      assert s[0] == p[0] && s[1..] == p[1..] + [d] + t;
      SplitPrefix(p[1..], d, t);
      assert [p[0]] + p[1..] == p;
    }
  }

  /**
   * Splitting a join gives back the pieces, provided there is at least one
   * piece and no piece contains the delimiter.
   */
  lemma {:induction false} SplitJoin(parts: seq<string>, d: char)
    requires |parts| > 0
    requires forall i :: 0 <= i < |parts| ==> d !in parts[i]
    ensures Split(Join(parts, d), d) == parts
  {
    if |parts| == 1 {
      SplitNoDelimiter(parts[0], d);
    } else {
      SplitJoin(parts[1..], d);
      SplitPrefix(parts[0], d, Join(parts[1..], d));
      assert [parts[0]] + parts[1..] == parts;
    }
  }

  // ---------------------------------------------------------------------------
  // toIntOrNull / toString
  // ---------------------------------------------------------------------------

  predicate IsDigit(c: char) {
    '0' <= c <= '9'
  }

  predicate AllDigits(s: string) {
    forall i :: 0 <= i < |s| ==> IsDigit(s[i])
  }

  function DigitValue(c: char): nat
    requires IsDigit(c)
  {
    (c as int) - ('0' as int)
  }

  function DigitChar(n: nat): (c: char)
    requires n < 10
    ensures IsDigit(c) && DigitValue(c) == n
  {
    (('0' as int) + n) as char
  }

  /** The number a string of decimal digits denotes, most significant digit first. */
  function DigitsValue(s: string): nat
    requires AllDigits(s)
  {
    if s == [] then 0
    else DigitsValue(s[..|s| - 1]) * 10 + DigitValue(s[|s| - 1])
  }

  /** The magnitude part of `toIntOrNull`: at least one digit, and a result that fits an `Int`. */
  function ParseMagnitude(digits: string, negative: bool): (r: Option<int>)
    ensures r.Some? <==> |digits| > 0 && AllDigits(digits)
                         && InIntRange(if negative then -(DigitsValue(digits) as int) else DigitsValue(digits))
    ensures r.Some? ==> r.value == if negative then -(DigitsValue(digits) as int) else DigitsValue(digits)
  {
    if |digits| == 0 || !AllDigits(digits) then None
    else
      var v := if negative then -(DigitsValue(digits) as int) else DigitsValue(digits);
      if InIntRange(v) then Some(v) else None
  }

  /**
   * `s.toIntOrNull()`: an optional leading `-` or `+`, then one or more ASCII
   * digits whose value, with the sign applied, lies in the range of `Int`.
   * Anything else (the empty string, a sign alone, any other character, an
   * overflow) gives `None`.
   */
  function ToIntOrNull(s: string): (r: Option<int>)
    ensures r.Some? ==> InIntRange(r.value)
    ensures r.Some? ==> |s| > 0 && (IsDigit(s[0]) || s[0] == '-' || s[0] == '+')
    ensures r.Some? ==> AllDigits(s[1..])
    ensures r.Some? <==> |s| > 0 && |Unsigned(s)| > 0 && AllDigits(Unsigned(s)) && InIntRange(SignedValue(s))
    ensures r.Some? ==> r.value == SignedValue(s)
  {
    if |s| == 0 then None
    else if s[0] == '-' then ParseMagnitude(s[1..], true)
    else if s[0] == '+' then ParseMagnitude(s[1..], false)
    else ParseMagnitude(s, false)
  }

  /** The text after an optional leading sign. */
  function Unsigned(s: string): string
    requires |s| > 0
  {
    if s[0] == '-' || s[0] == '+' then s[1..] else s
  }

  /** The value of a sign-prefixed digit string: its digits' value, negated after a `-`. */
  function SignedValue(s: string): int
    requires |s| > 0 && AllDigits(Unsigned(s))
  {
    if s[0] == '-' then -(DigitsValue(s[1..]) as int) else DigitsValue(Unsigned(s))
  }

  /** Decimal digits of `n`, most significant first, without leading zeros. */
  function Digits(n: nat): (s: string)
    ensures |s| > 0 && AllDigits(s)
    ensures DigitsValue(s) == n
  {
    if n < 10 then [DigitChar(n)]
    else
      var s := Digits(n / 10) + [DigitChar(n % 10)];
      assert s[..|s| - 1] == Digits(n / 10);
      s
  }

  /** `n.toString()`: a `-` for a negative number, then the digits of its magnitude. */
  function Decimal(n: int): (s: string)
    ensures |s| > 0
    ensures forall i :: 0 <= i < |s| ==> IsDigit(s[i]) || (i == 0 && s[i] == '-')
  {
    if n < 0 then "-" + Digits(-n) else Digits(n)
  }

  /**
   * Texts `toString` never writes: leading zeros, a `+` and `-0` are still
   * read, while a sign alone or an empty text is not a number.
   */
  lemma ToIntOrNullNonCanonical()
    ensures ToIntOrNull("007") == Some(7)
    ensures ToIntOrNull("+7") == Some(7)
    ensures ToIntOrNull("-0") == Some(0)
    ensures ToIntOrNull("+") == None && ToIntOrNull("-") == None && ToIntOrNull("") == None
  {
    assert DigitsValue("00") == 0 by {
      assert "00"[..1] == "0";
    }
    assert "007"[..2] == "00";
    assert "+7"[1..] == "7" && "-0"[1..] == "0";
  }

  /** `toIntOrNull` reads back what `toString` writes, for every `Int`. */
  lemma DecimalRoundTrip(n: int)
    requires InIntRange(n)
    ensures ToIntOrNull(Decimal(n)) == Some(n)
  {
    if n < 0 {
      assert Decimal(n)[1..] == Digits(-n);
    }
  }

  /** Exactly the `Int` values whose written form is read back are accepted. */
  lemma ToIntOrNullRejectsOverflow(n: int)
    requires !InIntRange(n)
    ensures ToIntOrNull(Decimal(n)) == None
  {
    if n < 0 {
      assert Decimal(n)[1..] == Digits(-n);
    }
  }
}
