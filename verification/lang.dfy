/** The pieces of the Java platform that the parser leans on: the 32-bit `int`,
    `Integer.toString`, `Collectors.joining` / `List.toString`, and
    `String.replaceAll` with a pattern that has no regular-expression features. */
module Lang {

  /** Java's `int`. */
  newtype int32 = x: int | -0x8000_0000 <= x < 0x8000_0000

  /** A Java reference that may be `null`. */
  datatype Option<+T> = None | Some(value: T)

  /** Narrowing of an integral value to `int`: the low 32 bits, read as two's complement. */
  function ToInt32(n: int): (r: int32)
    ensures (r as int - n) % 0x1_0000_0000 == 0
    ensures -0x8000_0000 <= n < 0x8000_0000 ==> r as int == n
  {
    ((n + 0x8000_0000) % 0x1_0000_0000 - 0x8000_0000) as int32
  }

  // ---------------------------------------------------------------------------
  // Integer.toString

  function DigitChar(d: nat): char
    requires d < 10
  {
    "0123456789"[d]
  }

  predicate IsDigit(c: char) {
    '0' <= c <= '9'
  }

  /** Decimal digits of `n`, most significant first, without leading zeros. */
  function NatToDecimal(n: nat): string
    decreases n
  {
    if n < 10 then [DigitChar(n)] else NatToDecimal(n / 10) + [DigitChar(n % 10)]
  }

  /** `Integer.toString(n)`: a minus sign for negative values, then the digits of |n|. */
  function IntToDecimal(n: int): string {
    if n < 0 then "-" + NatToDecimal(-n) else NatToDecimal(n)
  }

  /** The value of a string of decimal digits (reference reading of a decimal). */
  function DigitsValue(s: string): int
    decreases |s|
  {
    if s == [] then 0 else 10 * DigitsValue(s[..|s| - 1]) + (s[|s| - 1] as int - '0' as int)
  }

  function DecimalValue(s: string): int {
    if |s| > 0 && s[0] == '-' then -DigitsValue(s[1..]) else DigitsValue(s)
  }

  lemma {:induction false} NatToDecimalCorrect(n: nat)
    ensures var d := NatToDecimal(n);
      && |d| > 0
      && (forall k :: 0 <= k < |d| ==> IsDigit(d[k]))
      && (d[0] == '0' ==> n == 0)
      && DigitsValue(d) == n
    decreases n
  {
    var d := NatToDecimal(n);
    if n >= 10 {
      NatToDecimalCorrect(n / 10);
      var h := NatToDecimal(n / 10);
      assert d == h + [DigitChar(n % 10)];
      assert d[..|d| - 1] == h;
    }
  }

  /** `Integer.toString` is read back by `DecimalValue`: the rendering loses nothing. */
  lemma IntToDecimalRoundTrip(n: int)
    ensures DecimalValue(IntToDecimal(n)) == n
    ensures |IntToDecimal(n)| > 0 && (IntToDecimal(n)[0] == '-' <==> n < 0)
  {
    var d := IntToDecimal(n);
    if n < 0 {
      NatToDecimalCorrect(-n);
      assert d == "-" + NatToDecimal(-n);
      assert d[0] == '-';
      assert d[1..] == NatToDecimal(-n);
      assert DecimalValue(d) == -DigitsValue(NatToDecimal(-n));
    } else {
      NatToDecimalCorrect(n);
      assert d == NatToDecimal(n);
      assert IsDigit(d[0]);
    }
  }

  // ---------------------------------------------------------------------------
  // Joining and splitting

  /** `Collectors.joining(sep)`: the parts in order, `sep` between neighbours. */
  function Join(parts: seq<string>, sep: string): string
    decreases |parts|
  {
    if |parts| == 0 then ""
    else if |parts| == 1 then parts[0]
    else parts[0] + sep + Join(parts[1..], sep)
  }

  /** Reference inverse of `Join` for a one-character separator: the pieces of `s`
      between occurrences of `sep` (always at least one piece). */
  function Split(s: string, sep: char): (r: seq<string>)
    ensures |r| >= 1
    decreases |s|
  {
    if |s| == 0 then [""]
    else
      var rest := Split(s[1..], sep);
      if s[0] == sep then [""] + rest else [[s[0]] + rest[0]] + rest[1..]
  }

  lemma {:induction false} SplitNoSeparator(p: string, sep: char)
    requires sep !in p
    ensures Split(p, sep) == [p]
    decreases |p|
  {
    if |p| > 0 {
      SplitNoSeparator(p[1..], sep);
      assert [p[0]] + p[1..] == p;
    }
  }

  lemma {:induction false} SplitAfterPiece(p: string, sep: char, t: string)
    requires sep !in p
    ensures Split(p + [sep] + t, sep) == [p] + Split(t, sep)
    decreases |p|
  {
    var s := p + [sep] + t;
    if |p| == 0 {
      assert s[1..] == t;
    } else {
      assert s[1..] == p[1..] + [sep] + t;
      SplitAfterPiece(p[1..], sep, t);
      assert [p[0]] + p[1..] == p;
    }
  }

  /** Joining pieces that do not contain the separator can be undone by splitting. */
  lemma {:induction false} SplitJoin(parts: seq<string>, sep: char)
    requires |parts| >= 1
    requires forall k :: 0 <= k < |parts| ==> sep !in parts[k]
    ensures Split(Join(parts, [sep]), sep) == parts
    decreases |parts|
  {
    if |parts| == 1 {
      SplitNoSeparator(parts[0], sep);
    } else {
      SplitJoin(parts[1..], sep);
      SplitAfterPiece(parts[0], sep, Join(parts[1..], [sep]));
      assert [parts[0]] + parts[1..] == parts;
    }
  }

  // ---------------------------------------------------------------------------
  // Literal search and replace

  predicate StartsWith(s: string, pat: string) {
    |pat| <= |s| && s[..|pat|] == pat
  }

  /** `pat` occurs somewhere in `s`. */
  predicate Occurs(s: string, pat: string)
    decreases |s|
  {
    StartsWith(s, pat) || (|s| > 0 && Occurs(s[1..], pat))
  }

  /** `s.replaceAll(pat, rep)` for a pattern and replacement without regular-expression
      or group syntax: scan left to right, replace each match, resume after it. */
  function ReplaceAll(s: string, pat: string, rep: string): string
    requires |pat| > 0
    decreases |s|
  {
    if |s| < |pat| then s
    else if s[..|pat|] == pat then rep + ReplaceAll(s[|pat|..], pat, rep)
    else [s[0]] + ReplaceAll(s[1..], pat, rep)
  }

  lemma {:induction false} OccursFirstChar(s: string, pat: string)
    requires |pat| > 0
    ensures Occurs(s, pat) ==> pat[0] in s
    decreases |s|
  {
    if |s| > 0 {
      StartsWithHead(s, pat);
      OccursFirstChar(s[1..], pat);
    }
  }

  lemma {:induction false} OccursInSuffix(s: string, pat: string, m: nat)
    requires m <= |s|
    ensures Occurs(s[m..], pat) ==> Occurs(s, pat)
    decreases m
  {
    if m > 0 {
      assert s[m..] == s[1..][m - 1..];
      OccursInSuffix(s[1..], pat, m - 1);
    }
  }

  lemma {:induction false} OccursNeedsRoom(s: string, pat: string)
    ensures Occurs(s, pat) ==> |pat| <= |s|
    decreases |s|
  {
    if |s| > 0 {
      OccursNeedsRoom(s[1..], pat);
    }
  }

  lemma StartsWithHead(s: string, q: string)
    ensures StartsWith(s, q) && |q| > 0 ==> s[0] == q[0] && s[0] in q
  {
  }

  lemma {:induction false} OccursPastForeign(a: string, b: string, q: string)
    requires |q| > 0
    requires forall k :: 0 <= k < |a| ==> a[k] !in q
    ensures Occurs(a + b, q) ==> Occurs(b, q)
    decreases |a|
  {
    if |a| > 0 {
      StartsWithHead(a + b, q);
      assert (a + b)[1..] == a[1..] + b;
      OccursPastForeign(a[1..], b, q);
    } else {
      assert a + b == b;
    }
  }

  /** Text that `s` does not contain comes through `ReplaceAll` untouched. */
  lemma {:induction false} ReplaceAllAbsent(s: string, pat: string, rep: string)
    requires |pat| > 0 && !Occurs(s, pat)
    ensures ReplaceAll(s, pat, rep) == s
    decreases |s|
  {
    if |s| >= |pat| {
      assert !StartsWith(s, pat);
      ReplaceAllAbsent(s[1..], pat, rep);
      assert [s[0]] + s[1..] == s;
    }
  }

  /** A prefix of the output that holds no character of `rep` was copied from the input. */
  lemma {:induction false} ReplaceAllCopiedPrefix(t: string, pat: string, rep: string, j: nat)
    requires |pat| > 0 && |rep| > 0
    requires j <= |ReplaceAll(t, pat, rep)|
    requires forall k :: 0 <= k < j ==> ReplaceAll(t, pat, rep)[k] !in rep
    ensures j <= |t| && ReplaceAll(t, pat, rep)[..j] == t[..j]
    decreases |t|
  {
    var r := ReplaceAll(t, pat, rep);
    assert j > 0 ==> r[0] !in rep;
    if |t| < |pat| || j == 0 {
    } else if t[..|pat|] == pat {
      assert false;
    } else {
      var r' := ReplaceAll(t[1..], pat, rep);
      assert r == [t[0]] + r';
      forall k | 0 <= k < j - 1 ensures r'[k] !in rep {
        assert r'[k] == r[k + 1];
      }
      ReplaceAllCopiedPrefix(t[1..], pat, rep, j - 1);
      assert r[..j] == [t[0]] + r'[..j - 1];
      assert t[..j] == [t[0]] + t[1..][..j - 1];
    }
  }

  /** Where no match starts at the front, an output that starts with `q` came from an
      input that starts with `q`, as long as no character of `rep` belongs to `q`. */
  lemma ReplaceAllCopiedStart(t: string, pat: string, rep: string, q: string)
    requires |pat| > 0 && |rep| > 0 && |q| > 0
    requires |t| >= |pat| && t[..|pat|] != pat
    requires forall k :: 0 <= k < |rep| ==> rep[k] !in q
    ensures StartsWith(ReplaceAll(t, pat, rep), q) ==> StartsWith(t, q)
  {
    var r := ReplaceAll(t, pat, rep);
    var r' := ReplaceAll(t[1..], pat, rep);
    assert r == [t[0]] + r';
    if StartsWith(r, q) {
      var j := |q| - 1;
      forall k | 0 <= k < j ensures r'[k] !in rep {
        assert r'[k] == q[k + 1];
      }
      ReplaceAllCopiedPrefix(t[1..], pat, rep, j);
      assert t[..|q|] == [t[0]] + t[1..][..j];
      assert r[..|q|] == [t[0]] + r'[..j];
    }
  }

  /** After `ReplaceAll(t, pat, rep)` no occurrence of `q` is left, when `q` is the
      pattern itself or was absent from `t`, and no character of `rep` belongs to `q`. */
  lemma {:induction false} ReplaceAllLeavesNo(t: string, pat: string, rep: string, q: string)
    requires |pat| > 0 && |rep| > 0 && |q| > 0
    requires forall k :: 0 <= k < |rep| ==> rep[k] !in q
    requires q == pat || !Occurs(t, q)
    ensures !Occurs(ReplaceAll(t, pat, rep), q)
    decreases |t|
  {
    var r := ReplaceAll(t, pat, rep);
    if |t| < |pat| {
      OccursNeedsRoom(t, q);
    } else if t[..|pat|] == pat {
      var rest := t[|pat|..];
      OccursInSuffix(t, q, |pat|);
      ReplaceAllLeavesNo(rest, pat, rep, q);
      OccursPastForeign(rep, ReplaceAll(rest, pat, rep), q);
    } else {
      var r' := ReplaceAll(t[1..], pat, rep);
      assert r[1..] == r';
      OccursInSuffix(t, q, 1);
      ReplaceAllLeavesNo(t[1..], pat, rep, q);
      ReplaceAllCopiedStart(t, pat, rep, q);
    }
  }

  /** Where no match starts at the front, the first character is copied. */
  lemma ReplaceAllHead(s: string, pat: string, rep: string)
    requires |pat| > 0 && |s| > 0 && !StartsWith(s, pat)
    ensures ReplaceAll(s, pat, rep) == [s[0]] + ReplaceAll(s[1..], pat, rep)
  {
    if |s| < |pat| {
      assert ReplaceAll(s[1..], pat, rep) == s[1..];
      assert [s[0]] + s[1..] == s;
    }
  }

  /** Where neither `pat` nor `q` starts the text, `q` does not start the output
      either, as long as no character of `rep` belongs to `q`. */
  lemma ReplaceAllStartsNoNew(s: string, pat: string, rep: string, q: string)
    requires |pat| > 0 && |rep| > 0 && |q| > 0 && |s| > 0
    requires !StartsWith(s, pat) && !StartsWith(s, q)
    requires forall k :: 0 <= k < |rep| ==> rep[k] !in q
    ensures !StartsWith(ReplaceAll(s, pat, rep), q)
  {
    if |s| >= |pat| {
      ReplaceAllCopiedStart(s, pat, rep, q);
    }
  }

  /** Text before the rest that cannot start a match is passed over unchanged. */
  lemma {:induction false} ReplaceAllSkips(x: string, y: string, pat: string, rep: string)
    requires |pat| > 0 && pat[0] !in x
    ensures ReplaceAll(x + y, pat, rep) == x + ReplaceAll(y, pat, rep)
    decreases |x|
  {
    if |x| > 0 {
      var s := x + y;
      if |s| < |pat| {
        assert ReplaceAll(y, pat, rep) == y;
      } else {
        assert s[..|pat|][0] == x[0];
        assert s[1..] == x[1..] + y;
        ReplaceAllSkips(x[1..], y, pat, rep);
        assert [x[0]] + x[1..] == x;
      }
    } else {
      assert x + y == y;
    }
  }
}
