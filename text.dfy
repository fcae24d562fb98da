/** The two standard-library string helpers the core relies on:
    `strings.Join` and `strconv.Itoa`, with the facts the model needs about
    them (decimal rendering is invertible, joining plain names is injective). */
module Text {
  import opened Wrappers

  /** strings.Join: the parts separated by `sep`; no parts give "". */
  function Join(parts: seq<string>, sep: string): string
  {
    if |parts| == 0 then ""
    else if |parts| == 1 then parts[0]
    else parts[0] + sep + Join(parts[1..], sep)
  }

  predicate IsDigit(ch: char)
  {
    '0' <= ch <= '9'
  }

  predicate AllDigits(s: string)
  {
    forall i :: 0 <= i < |s| ==> IsDigit(s[i])
  }

  function DigitChar(d: int): (ch: char)
    requires 0 <= d < 10
    ensures IsDigit(ch) && ch as int - '0' as int == d
  {
    (d + '0' as int) as char
  }

  /** Decimal digits of a natural number, most significant first, no leading zero. */
  function NatDigits(n: nat): (s: string)
    ensures |s| >= 1 && AllDigits(s)
    ensures |s| > 1 ==> s[0] != '0'
    decreases n
  {
    if n < 10 then [DigitChar(n)] else NatDigits(n / 10) + [DigitChar(n % 10)]
  }

  /** strconv.Itoa: an optional minus sign followed by the decimal digits. */
  function Itoa(n: int): (s: string)
    ensures |s| >= 1
    ensures n >= 0 <==> AllDigits(s)
    ensures n < 0 <==> s[0] == '-'
  {
    if n < 0 then
      var s := "-" + NatDigits(-n);
      assert !IsDigit(s[0]);
      s
    else NatDigits(n)
  }

  /** The value of a string of decimal digits (reference reading of Itoa). */
  function DigitsValue(s: string): nat
    requires AllDigits(s)
  {
    if |s| == 0 then 0 else DigitsValue(s[..|s| - 1]) * 10 + (s[|s| - 1] as int - '0' as int)
  }

  /** Parses what Itoa prints: digits, optionally after one minus sign. */
  function ParseDecimal(s: string): Option<int>
  {
    if |s| > 1 && s[0] == '-' && AllDigits(s[1..]) then Some(0 - DigitsValue(s[1..]))
    else if |s| > 0 && AllDigits(s) then Some(DigitsValue(s))
    else None
  }

  lemma {:induction false} NatDigitsValue(n: nat)
    ensures DigitsValue(NatDigits(n)) == n
    decreases n
  {
    var s := NatDigits(n);
    if n >= 10 {
      NatDigitsValue(n / 10);
      assert s[..|s| - 1] == NatDigits(n / 10);
    }
  }

  /** Itoa loses nothing: parsing its output gives the number back. */
  lemma ItoaRoundTrip(n: int)
    ensures ParseDecimal(Itoa(n)) == Some(n)
  {
    var s := Itoa(n);
    if n < 0 {
      assert s[1..] == NatDigits(-n);
      NatDigitsValue(-n);
    } else {
      NatDigitsValue(n);
    }
  }

  lemma ItoaInjective(m: int, n: int)
    requires Itoa(m) == Itoa(n)
    ensures m == n
  {
    ItoaRoundTrip(m);
    ItoaRoundTrip(n);
  }

  /** A list of names that are non-empty and never contain the separator `c`. */
  predicate PlainParts(parts: seq<string>, c: char)
  {
    forall i :: 0 <= i < |parts| ==> parts[i] != "" && c !in parts[i]
  }

  /** Where the first separator of a join of plain names sits. */
  lemma JoinFirstSeparator(parts: seq<string>, c: char)
    requires PlainParts(parts, c)
    ensures |parts| >= 1 ==> |Join(parts, [c])| >= |parts[0]| && Join(parts, [c])[..|parts[0]|] == parts[0]
    ensures |parts| <= 1 ==> c !in Join(parts, [c])
    ensures |parts| > 1 ==> |Join(parts, [c])| > |parts[0]| && Join(parts, [c])[|parts[0]|] == c
    ensures |parts| > 1 ==> Join(parts, [c])[|parts[0]| + 1..] == Join(parts[1..], [c])
  {
    if |parts| > 1 {
      var s := Join(parts, [c]);
      assert s == parts[0] + [c] + Join(parts[1..], [c]);
    }
  }

  /** Joining plain names is injective: the rendering determines the names. */
  lemma {:induction false} JoinInjective(xs: seq<string>, ys: seq<string>, c: char)
    requires PlainParts(xs, c) && PlainParts(ys, c)
    requires Join(xs, [c]) == Join(ys, [c])
    ensures xs == ys
    decreases |xs|
  {
    var s := Join(xs, [c]);
    JoinFirstSeparator(xs, c);
    JoinFirstSeparator(ys, c);
    if |xs| > 1 || |ys| > 1 {
      assert c in s;
      assert |xs| > 1 && |ys| > 1;
      var a, b := xs[0], ys[0];
      assert forall k :: 0 <= k < |a| ==> s[k] != c by {
        assert s[..|a|] == a;
      }
      assert forall k :: 0 <= k < |b| ==> s[k] != c by {
        assert s[..|b|] == b;
      }
      assert |a| == |b|;
      assert a == b;
      JoinInjective(xs[1..], ys[1..], c);
      assert xs == [a] + xs[1..] && ys == [b] + ys[1..];
    } else if |xs| == 1 || |ys| == 1 {
      assert |xs| == 1 && |ys| == 1;
      assert xs[0] == s == ys[0];
    }
  }

  /** Appending a part adds the separator and the part at the end. */
  lemma {:induction false} JoinAppend(parts: seq<string>, x: string, sep: string)
    ensures Join(parts + [x], sep) == if |parts| == 0 then x else Join(parts, sep) + sep + x
    decreases |parts|
  {
    if |parts| > 1 {
      assert (parts + [x])[1..] == parts[1..] + [x];
      JoinAppend(parts[1..], x, sep);
    } else if |parts| == 1 {
      assert parts + [x] == [parts[0], x];
    }
  }
}
