/** The JavaScript string built-ins that the progress-bar script relies on:
    `String.prototype.split` on a one-character separator, `parseInt` with no
    radix argument, the decimal text of an integral `Number`, and
    `String.prototype.replace` with a one-character global pattern. */
module JsText {
  import opened Wrappers

  // ---------------------------------------------------------------------
  // split

  /** `s.split(sep)`: the maximal pieces of `s` between occurrences of `sep`.
      The empty string splits into one empty piece. */
  function Split(s: string, sep: char): (parts: seq<string>)
    ensures |parts| >= 1
    decreases |s|
  {
    if |s| == 0 then [""]
    else
      var rest := Split(s[1..], sep);
      if s[0] == sep then [""] + rest
      else [[s[0]] + rest[0]] + rest[1..]
  }

  /** `parts.join(sep)`, the inverse of `Split`. */
  function Join(parts: seq<string>, sep: char): string
    requires |parts| >= 1
    decreases |parts|
  {
    if |parts| == 1 then parts[0] else parts[0] + [sep] + Join(parts[1..], sep)
  }

  /** No piece produced by `Split` contains the separator. */
  lemma {:induction false} SplitPiecesHaveNoSeparator(s: string, sep: char)
    ensures forall k :: 0 <= k < |Split(s, sep)| ==> sep !in Split(s, sep)[k]
    decreases |s|
  {
    if |s| > 0 {
      SplitPiecesHaveNoSeparator(s[1..], sep);
      var rest := Split(s[1..], sep);
      if s[0] != sep {
        assert sep !in rest[0];
        assert sep !in [s[0]] + rest[0];
      }
    }
  }

  /** Joining the pieces back with the separator restores the string. */
  lemma {:induction false} JoinSplit(s: string, sep: char)
    ensures Join(Split(s, sep), sep) == s
    decreases |s|
  {
    if |s| > 0 {
      JoinSplit(s[1..], sep);
      var rest := Split(s[1..], sep);
      if s[0] != sep {
        var parts := Split(s, sep);
        assert parts[0] == [s[0]] + rest[0];
        if |rest| == 1 {
          assert Join(parts, sep) == [s[0]] + rest[0];
        } else {
          assert parts[1..] == rest[1..];
          assert Join(parts, sep) == [s[0]] + (rest[0] + [sep] + Join(rest[1..], sep));
        }
      }
    }
  }

  /** A string without the separator is a single piece. */
  lemma {:induction false} SplitWithoutSeparator(s: string, sep: char)
    requires sep !in s
    ensures Split(s, sep) == [s]
    decreases |s|
  {
    if |s| > 0 {
      assert sep !in s[1..] by { assert forall c :: c in s[1..] ==> c in s; }
      SplitWithoutSeparator(s[1..], sep);
      assert [s[0]] + s[1..] == s;
    }
  }

  /** Splitting distributes over a separator placed between two strings. */
  lemma {:induction false} SplitAround(a: string, b: string, sep: char)
    ensures Split(a + [sep] + b, sep) == Split(a, sep) + Split(b, sep)
    decreases |a|
  {
    var s := a + [sep] + b;
    if |a| == 0 {
      assert s[1..] == b;
    } else {
      assert s[1..] == a[1..] + [sep] + b;
      SplitAround(a[1..], b, sep);
    }
  }

  /** Splitting a join gives back the pieces, when no piece holds the separator. */
  lemma {:induction false} SplitJoin(parts: seq<string>, sep: char)
    requires |parts| >= 1
    requires forall k :: 0 <= k < |parts| ==> sep !in parts[k]
    ensures Split(Join(parts, sep), sep) == parts
    decreases |parts|
  {
    SplitWithoutSeparator(parts[0], sep);
    if |parts| > 1 {
      SplitJoin(parts[1..], sep);
      SplitAround(parts[0], Join(parts[1..], sep), sep);
      assert [parts[0]] + parts[1..] == parts;
    }
  }

  // ---------------------------------------------------------------------
  // decimal text of an integer

  predicate IsDecimalDigit(c: char) { '0' <= c <= '9' }

  function DigitChar(d: nat): (c: char)
    requires d < 10
    ensures IsDecimalDigit(c)
  {
    ('0' as int + d) as char
  }

  /** The decimal digits of `n`, most significant first, no leading zeros. */
  function NatToDecimal(n: nat): (s: string)
    ensures |s| >= 1
    ensures forall k :: 0 <= k < |s| ==> IsDecimalDigit(s[k])
    ensures |s| > 1 ==> s[0] != '0'
    decreases n
  {
    if n < 10 then [DigitChar(n)] else NatToDecimal(n / 10) + [DigitChar(n % 10)]
  }

  /** `String(x)` for an integral `Number` of magnitude at most 2^53. */
  function IntToString(i: int): string
  {
    if i < 0 then "-" + NatToDecimal(-i) else NatToDecimal(i)
  }

  // ---------------------------------------------------------------------
  // parseInt

  /** The characters that `parseInt` strips from the front: the ECMAScript
      WhiteSpace and LineTerminator code points (the Zs category included). */
  predicate IsJsWhitespace(c: char)
  {
    || c == '\t' || c == '\n' || c == '\U{000B}' || c == '\U{000C}' || c == '\r'
    || c == ' ' || c == '\U{00A0}' || c == '\U{1680}'
    || ('\U{2000}' <= c <= '\U{200A}')
    || c == '\U{2028}' || c == '\U{2029}' || c == '\U{202F}' || c == '\U{205F}'
    || c == '\U{3000}' || c == '\U{FEFF}'
  }

  function TrimStart(s: string): (t: string)
    ensures |t| <= |s| && t == s[|s| - |t|..]
    ensures |t| > 0 ==> !IsJsWhitespace(t[0])
    decreases |s|
  {
    if |s| > 0 && IsJsWhitespace(s[0]) then TrimStart(s[1..]) else s
  }

  /** The value of `c` as a digit in base `radix` (10 or 16), if it is one. */
  function DigitValue(c: char, radix: nat): Option<nat>
  {
    if '0' <= c <= '9' && (c as int - '0' as int) < radix then Some(c as int - '0' as int)
    else if radix == 16 && 'a' <= c <= 'f' then Some(c as int - 'a' as int + 10)
    else if radix == 16 && 'A' <= c <= 'F' then Some(c as int - 'A' as int + 10)
    else None
  }

  /** The length of the longest prefix of `s` made of base-`radix` digits. */
  function DigitRun(s: string, radix: nat): (n: nat)
    ensures n <= |s|
    ensures forall k :: 0 <= k < n ==> DigitValue(s[k], radix).Some?
    ensures n < |s| ==> DigitValue(s[n], radix).None?
    decreases |s|
  {
    if |s| > 0 && DigitValue(s[0], radix).Some? then 1 + DigitRun(s[1..], radix) else 0
  }

  /** Every character of `s` is a base-`radix` digit. */
  predicate AllDigits(s: string, radix: nat)
  {
    forall k :: 0 <= k < |s| ==> DigitValue(s[k], radix).Some?
  }

  /** The number written by the digit string `s` in base `radix`. */
  function DigitsValue(s: string, radix: nat): nat
    requires AllDigits(s, radix)
    decreases |s|
  {
    if |s| == 0 then 0
    else DigitsValue(s[..|s| - 1], radix) * radix + DigitValue(s[|s| - 1], radix).value
  }

  /** `parseInt(s)`: `None` stands for `NaN`. Leading white space is skipped,
      one sign is read, a `0x`/`0X` prefix selects base 16, and the longest
      run of digits that follows is the value; text after it is ignored. */
  function ParseInt(s: string): Option<int>
  {
    var t := TrimStart(s);
    if |t| > 0 && t[0] == '-' then
      match ParseMagnitude(t[1..])
      case Some(m) => Some(-(m as int))
      case None => None
    else if |t| > 0 && t[0] == '+' then ParseMagnitude(t[1..])
    else ParseMagnitude(t)
  }

  /** The unsigned part of `parseInt`, after white space and sign. */
  function ParseMagnitude(u: string): Option<nat>
  {
    if |u| >= 2 && u[0] == '0' && (u[1] == 'x' || u[1] == 'X') then ParseDigits(u[2..], 16)
    else ParseDigits(u, 10)
  }

  /** The value of the longest prefix of base-`radix` digits, if it is not empty. */
  function ParseDigits(u: string, radix: nat): Option<nat>
  {
    var n := DigitRun(u, radix);
    if n == 0 then None else Some(DigitsValue(u[..n], radix))
  }

  lemma {:induction false} DecimalValue(n: nat)
    ensures AllDigits(NatToDecimal(n), 10)
    ensures DigitsValue(NatToDecimal(n), 10) == n
    decreases n
  {
    if n >= 10 {
      DecimalValue(n / 10);
      var s := NatToDecimal(n);
      assert s[..|s| - 1] == NatToDecimal(n / 10);
    }
  }

  lemma {:induction false} DecimalDigitRun(s: string)
    requires AllDigits(s, 10)
    ensures DigitRun(s, 10) == |s|
    decreases |s|
  {
    if |s| > 0 {
      DecimalDigitRun(s[1..]);
    }
  }

  /** A run of decimal digits parses to its value. */
  lemma DecimalMagnitude(d: string)
    requires |d| >= 1
    requires AllDigits(d, 10)
    ensures ParseMagnitude(d) == Some(DigitsValue(d, 10))
  {
    if |d| >= 2 {
      assert DigitValue(d[1], 10).Some?;
    }
    DecimalDigitRun(d);
    assert d[..|d|] == d;
  }

  /** A run of decimal digits, with nothing before it, parses to its value. */
  lemma ParseUnsigned(d: string)
    requires |d| >= 1
    requires AllDigits(d, 10)
    ensures ParseInt(d) == Some(DigitsValue(d, 10) as int)
  {
    DecimalMagnitude(d);
    assert DigitValue(d[0], 10).Some?;
    assert d[0] != '-' && d[0] != '+' && !IsJsWhitespace(d[0]);
    assert TrimStart(d) == d;
  }

  /** A minus sign followed by a run of decimal digits parses to the negated value. */
  lemma ParseNegative(s: string)
    requires |s| >= 2 && s[0] == '-'
    requires AllDigits(s[1..], 10)
    ensures ParseInt(s) == Some(-(DigitsValue(s[1..], 10) as int))
  {
    assert TrimStart(s) == s;
    DecimalMagnitude(s[1..]);
  }

  lemma NegativeTextShape(n: nat)
    ensures IntToString(-(n as int)) == if n == 0 then NatToDecimal(0) else "-" + NatToDecimal(n)
    ensures ("-" + NatToDecimal(n))[1..] == NatToDecimal(n)
  {
  }

  lemma ParseNegativeText(n: nat)
    requires n > 0
    ensures ParseInt(IntToString(-(n as int))) == Some(-(n as int))
  {
    NegativeTextShape(n);
    DecimalValue(n);
    ParseNegative("-" + NatToDecimal(n));
  }

  lemma ParseUnsignedText(n: nat)
    ensures ParseInt(IntToString(n)) == Some(n)
  {
    DecimalValue(n);
    ParseUnsigned(NatToDecimal(n));
  }

  /** `parseInt` reads back the decimal text of every integer. */
  lemma ParseIntToString(i: int)
    ensures ParseInt(IntToString(i)) == Some(i)
  {
    if i < 0 {
      ParseNegativeText(-i);
    } else {
      ParseUnsignedText(i);
    }
  }

  // ---------------------------------------------------------------------
  // replace with a one-character global pattern

  /** `s.replace(/c/g, rep)`: every occurrence of `c` replaced by `rep`,
      inserted literally. JavaScript expands the `$` patterns (`$&`, `$$`,
      and the two context patterns) in a replacement string; the five entity
      texts that `escapeHtml` uses contain no `$`, so for them the two agree. */
  function ReplaceAll(s: string, c: char, rep: string): (r: string)
    ensures c !in rep ==> c !in r
    decreases |s|
  {
    if |s| == 0 then ""
    else (if s[0] == c then rep else [s[0]]) + ReplaceAll(s[1..], c, rep)
  }

  lemma {:induction false} ReplaceAllAppend(a: string, b: string, c: char, rep: string)
    ensures ReplaceAll(a + b, c, rep) == ReplaceAll(a, c, rep) + ReplaceAll(b, c, rep)
    decreases |a|
  {
    if |a| > 0 {
      assert (a + b)[1..] == a[1..] + b;
      ReplaceAllAppend(a[1..], b, c, rep);
    } else {
      assert a + b == b;
    }
  }

  lemma ReplaceAllSingle(x: char, c: char, rep: string)
    ensures ReplaceAll([x], c, rep) == if x == c then rep else [x]
  {
    assert [x][1..] == [];
  }

  /** A string without `c` is left unchanged. */
  lemma {:induction false} ReplaceAllAbsent(s: string, c: char, rep: string)
    requires c !in s
    ensures ReplaceAll(s, c, rep) == s
    decreases |s|
  {
    if |s| > 0 {
      assert c !in s[1..] by { assert forall x :: x in s[1..] ==> x in s; }
      ReplaceAllAbsent(s[1..], c, rep);
      assert [s[0]] + s[1..] == s;
    }
  }

  /** Replacing `c` leaves every other character that was absent still absent. */
  lemma {:induction false} ReplaceAllKeepsAbsent(s: string, c: char, rep: string, d: char)
    requires d !in s && d !in rep
    ensures d !in ReplaceAll(s, c, rep)
    decreases |s|
  {
    if |s| > 0 {
      assert d !in s[1..] by { assert forall x :: x in s[1..] ==> x in s; }
      ReplaceAllKeepsAbsent(s[1..], c, rep, d);
    }
  }
}
