/** The few functions of Go's `strings` and `strconv` packages that the core
    relies on, on strings seen as sequences of characters. Only one-character
    separators occur in the core, so `Split` and `ReplaceAll` take a `char`. */
module Strings {

  /** Number of occurrences of `c` in `s`. */
  function Count(s: string, c: char): nat
  {
    if s == [] then 0 else (if s[0] == c then 1 else 0) + Count(s[1..], c)
  }

  lemma {:induction false} CountAppend(a: string, b: string, c: char)
    ensures Count(a + b, c) == Count(a, c) + Count(b, c)
  {
    if a != [] {
      assert (a + b)[0] == a[0] && (a + b)[1..] == a[1..] + b;
      CountAppend(a[1..], b, c);
    } else {
      assert a + b == b;
    }
  }

  lemma {:induction false} CountAbsent(s: string, c: char)
    requires c !in s
    ensures Count(s, c) == 0
  {
    if s != [] {
      CountAbsent(s[1..], c);
    }
  }

  /** Position of the first `c` in `s`. */
  function IndexOf(s: string, c: char): (i: nat)
    requires c in s
    ensures i < |s| && s[i] == c && c !in s[..i]
  {
    if s[0] == c then 0 else 1 + IndexOf(s[1..], c)
  }

  /** `strings.Split(s, string(sep))`: the pieces between the separators,
      empty pieces included; a string without `sep` is its own only piece. */
  function Split(s: string, sep: char): (parts: seq<string>)
    ensures |parts| == Count(s, sep) + 1
    ensures forall i :: 0 <= i < |parts| ==> sep !in parts[i]
    decreases |s|
  {
    if sep !in s then
      CountAbsent(s, sep);
      [s]
    else
      var i := IndexOf(s, sep);
      assert s == s[..i] + [sep] + s[i + 1..];
      CountAppend(s[..i] + [sep], s[i + 1..], sep);
      CountAppend(s[..i], [sep], sep);
      CountAbsent(s[..i], sep);
      [s[..i]] + Split(s[i + 1..], sep)
  }

  /** `strings.Join(parts, sep)`. */
  function Join(parts: seq<string>, sep: string): string
  {
    if parts == [] then ""
    else if |parts| == 1 then parts[0]
    else parts[0] + sep + Join(parts[1..], sep)
  }

  /** Joining the pieces of a split with the separator gives back the string. */
  lemma {:induction false} JoinSplit(s: string, sep: char)
    ensures Join(Split(s, sep), [sep]) == s
    decreases |s|
  {
    if sep in s {
      var i := IndexOf(s, sep);
      JoinSplit(s[i + 1..], sep);
      assert s == s[..i] + [sep] + s[i + 1..];
    }
  }

  /** Splitting a join of separator-free pieces gives back the pieces. */
  lemma {:induction false} SplitJoin(parts: seq<string>, sep: char)
    requires parts != []
    requires forall i :: 0 <= i < |parts| ==> sep !in parts[i]
    ensures Split(Join(parts, [sep]), sep) == parts
  {
    if |parts| > 1 {
      var rest := Join(parts[1..], [sep]);
      assert Join(parts, [sep]) == parts[0] + [sep] + rest;
      SplitJoin(parts[1..], sep);
      SplitCons(parts[0], sep, rest);
      assert [parts[0]] + parts[1..] == parts;
    }
  }

  /** A separator-free piece followed by the separator splits off first. */
  lemma SplitCons(p: string, sep: char, rest: string)
    requires sep !in p
    ensures Split(p + [sep] + rest, sep) == [p] + Split(rest, sep)
  {
    var s := p + [sep] + rest;
    var i := IndexOf(s, sep);
    assert s[|p|] == sep;
    assert forall k :: 0 <= k < |p| ==> s[k] == p[k];
    assert i == |p|;
    assert s[..i] == p;
    assert s[i + 1..] == rest;
  }

  /** `strings.ReplaceAll(s, string(c), rep)`, every `c` replaced by `rep`. */
  function ReplaceAll(s: string, c: char, rep: string): (r: string)
    ensures forall x :: x in r ==> (x in s && x != c) || x in rep
    ensures forall x :: x in s && x != c ==> x in r
  {
    if s == [] then [] else (if s[0] == c then rep else [s[0]]) + ReplaceAll(s[1..], c, rep)
  }

  lemma {:induction false} ReplaceAllAppend(a: string, b: string, c: char, rep: string)
    ensures ReplaceAll(a + b, c, rep) == ReplaceAll(a, c, rep) + ReplaceAll(b, c, rep)
  {
    if a != [] {
      assert (a + b)[0] == a[0] && (a + b)[1..] == a[1..] + b;
      ReplaceAllAppend(a[1..], b, c, rep);
    } else {
      assert a + b == b;
    }
  }

  /** A string without `c` is left as it is. */
  lemma {:induction false} ReplaceAllAbsent(s: string, c: char, rep: string)
    requires c !in s
    ensures ReplaceAll(s, c, rep) == s
  {
    if s != [] {
      ReplaceAllAbsent(s[1..], c, rep);
      assert s == [s[0]] + s[1..];
    }
  }

  /** Replacing every `c` by `rep` is the same as splitting at `c` and joining with `rep`. */
  lemma {:induction false} ReplaceAllIsSplitJoin(s: string, c: char, rep: string)
    ensures ReplaceAll(s, c, rep) == Join(Split(s, c), rep)
    decreases |s|
  {
    if c !in s {
      ReplaceAllAbsent(s, c, rep);
    } else {
      var i := IndexOf(s, c);
      var rest := s[i + 1..];
      assert s == s[..i] + [c] + rest;
      ReplaceAllAppend(s[..i] + [c], rest, c, rep);
      ReplaceAllAppend(s[..i], [c], c, rep);
      ReplaceAllAbsent(s[..i], c, rep);
      assert ReplaceAll([c], c, rep) == rep;
      ReplaceAllIsSplitJoin(rest, c, rep);
      assert Split(s, c) == [s[..i]] + Split(rest, c);
    }
  }

  /** Occurrences of another character `d` after the replacement: those of the
      input plus those that each replaced `c` brings in. */
  lemma {:induction false} CountReplaceAll(s: string, c: char, rep: string, d: char)
    requires d != c
    ensures Count(ReplaceAll(s, c, rep), d) == Count(s, d) + Count(s, c) * Count(rep, d)
  {
    if s != [] {
      var k, n := Count(s[1..], c), Count(rep, d);
      CountReplaceAll(s[1..], c, rep, d);
      if s[0] == c {
        CountAppend(rep, ReplaceAll(s[1..], c, rep), d);
        assert Count(s, c) * n == n + k * n;
      } else {
        CountAppend([s[0]], ReplaceAll(s[1..], c, rep), d);
        assert Count(s, c) == k;
      }
    }
  }

  /** `unicode.IsSpace`: the white-space characters of Unicode, the set `strings.TrimSpace` strips. */
  predicate IsSpace(ch: char)
  {
    || ('\t' <= ch <= '\r') || ch == ' ' || ch == '\U{0085}' || ch == '\U{00A0}'
    || ch == '\U{1680}' || ('\U{2000}' <= ch <= '\U{200A}') || ch == '\U{2028}' || ch == '\U{2029}'
    || ch == '\U{202F}' || ch == '\U{205F}' || ch == '\U{3000}'
  }

  function TrimLeft(s: string): (r: string)
    ensures |r| <= |s|
    ensures r == s[|s| - |r|..]
    ensures r == [] || !IsSpace(r[0])
    ensures forall i :: 0 <= i < |s| - |r| ==> IsSpace(s[i])
  {
    if s != [] && IsSpace(s[0]) then TrimLeft(s[1..]) else s
  }

  function TrimRight(s: string): (r: string)
    ensures |r| <= |s|
    ensures r == s[..|r|]
    ensures r == [] || !IsSpace(r[|r| - 1])
    ensures forall i :: |r| <= i < |s| ==> IsSpace(s[i])
  {
    if s != [] && IsSpace(s[|s| - 1]) then TrimRight(s[..|s| - 1]) else s
  }

  /** Where the trimmed part of `s` starts. */
  function TrimStart(s: string): nat
  {
    |s| - |TrimLeft(s)|
  }

  /** `strings.TrimSpace`: a slice of the input, cut only at white space, that
      neither starts nor ends with white space. */
  function TrimSpace(s: string): (r: string)
    ensures var i := TrimStart(s);
      && i + |r| <= |s| && r == s[i..i + |r|]
      && (forall k :: 0 <= k < i ==> IsSpace(s[k]))
      && (forall k :: i + |r| <= k < |s| ==> IsSpace(s[k]))
      && (r == [] || (!IsSpace(r[0]) && !IsSpace(r[|r| - 1])))
  {
    var l := TrimLeft(s);
    var r := TrimRight(l);
    assert r == l[..|r|];
    assert r == s[|s| - |l|..|s| - |l| + |r|];
    r
  }

  /** Trimming is idempotent: trimmed input is left unchanged. */
  lemma TrimSpaceIdempotent(s: string)
    ensures TrimSpace(TrimSpace(s)) == TrimSpace(s)
  {
    var r := TrimSpace(s);
    assert TrimLeft(r) == r;
  }

  /** Decimal digits of a natural number, most significant first, no leading zero. */
  function Digits(n: nat): (r: string)
    ensures |r| >= 1 && (|r| == 1 <==> n < 10)
    ensures forall i :: 0 <= i < |r| ==> '0' <= r[i] <= '9'
  {
    if n < 10 then [DigitChar(n)] else Digits(n / 10) + [DigitChar(n % 10)]
  }

  function DigitChar(d: nat): (c: char)
    requires d < 10
    ensures '0' <= c <= '9' && c as int - '0' as int == d
  {
    ['0', '1', '2', '3', '4', '5', '6', '7', '8', '9'][d]
  }

  /** The number a string of decimal digits denotes, most significant first:
      the reference reading of a numeral. */
  function DecimalValue(r: string): nat
    requires AllDigits(r)
  {
    if r == [] then 0 else DecimalValue(r[..|r| - 1]) * 10 + (r[|r| - 1] as int - '0' as int)
  }

  /** The digits of `n` denote `n`. */
  lemma {:induction false} DigitsValue(n: nat)
    ensures DecimalValue(Digits(n)) == n
  {
    var r := Digits(n);
    if n >= 10 {
      assert r[..|r| - 1] == Digits(n / 10);
      DigitsValue(n / 10);
    } else {
      assert r[..|r| - 1] == [];
    }
  }

  /** `strconv.Itoa(n)` and `fmt.Sprintf("%d", n)`: a minus sign exactly for
      negative numbers, then the digits of the magnitude. */
  function Decimal(n: int): (r: string)
    ensures |r| >= 1 && (r[0] == '-' <==> n < 0)
    ensures n >= 0 ==> AllDigits(r) && DecimalValue(r) == n
    ensures n < 0 ==> AllDigits(r[1..]) && DecimalValue(r[1..]) == -n
  {
    if n < 0 then
      NegativeDecimal(-n);
      "-" + Digits(-n)
    else
      DigitsValue(n);
      Digits(n)
  }

  predicate AllDigits(r: string)
  {
    forall i :: 0 <= i < |r| ==> '0' <= r[i] <= '9'
  }

  lemma NegativeDecimal(m: nat)
    ensures ("-" + Digits(m))[1..] == Digits(m)
    ensures AllDigits(Digits(m)) && DecimalValue(Digits(m)) == m
  {
    DigitsValue(m);
  }

  lemma DigitsInjective(a: nat, b: nat)
    requires Digits(a) == Digits(b)
    ensures a == b
  {
    DigitsValue(a);
    DigitsValue(b);
  }

  /** Different numbers are printed differently. */
  lemma DecimalInjective(a: int, b: int)
    requires Decimal(a) == Decimal(b)
    ensures a == b
  {
    if a < 0 {
      assert Decimal(a)[1..] == Digits(-a) && Decimal(b)[1..] == Digits(-b);
      DigitsInjective(-a, -b);
    } else {
      DigitsInjective(a, b);
    }
  }
}
