/** Colour parsing of the avatar generator: the foreground palette is a
    table of "#RRGGBB" strings, each turned into an RGBA colour by
    `colorToRGB`, which strips one leading '#' and reads the rest with
    `strconv.ParseInt(s, 16, 32)`. */
module Avatar {
  import opened Wrappers

  newtype uint8 = x: int | 0 <= x < 256

  /** `color.RGBA`. */
  datatype RGBA = RGBA(r: uint8, g: uint8, b: uint8, a: uint8)

  /** The two failures of `strconv.ParseInt`: `ErrSyntax` and `ErrRange`. */
  datatype NumError = Syntax | Range

  const MaxUint64: int := 0xFFFF_FFFF_FFFF_FFFF
  const Cutoff32: int := 0x8000_0000

  /** The value of a base-16 digit, either case; nothing for any other character. */
  function HexDigit(c: char): (d: Option<int>)
    ensures d.Some? ==> 0 <= d.value < 16
  {
    if '0' <= c <= '9' then Some(c as int - '0' as int)
    else if 'a' <= c <= 'f' then Some(c as int - 'a' as int + 10)
    else if 'A' <= c <= 'F' then Some(c as int - 'A' as int + 10)
    else None
  }

  predicate AllHex(s: string)
  {
    forall i :: 0 <= i < |s| ==> HexDigit(s[i]).Some?
  }

  function Pow16(k: nat): (p: nat)
    ensures p >= 1
  {
    if k == 0 then 1 else 16 * Pow16(k - 1)
  }

  /** The number the digits of `s` denote when appended to `n`, most
      significant first: the reference reading of a base-16 numeral. */
  function HexValueFrom(n: int, s: string): int
    requires AllHex(s)
    decreases |s|
  {
    if s == [] then n else HexValueFrom(n * 16 + HexDigit(s[0]).value, s[1..])
  }

  function HexValue(s: string): int
    requires AllHex(s)
  {
    HexValueFrom(0, s)
  }

  /** The digit loop of the 64-bit `strconv.ParseUint` that `ParseInt` runs on
      the unsigned part, after `n` has been read: a character that is not a
      base-16 digit is a syntax error; a digit that takes the value past
      2^64 - 1 is a range error at once, whatever follows. */
  function ScanHex(s: string, n: int): (r: Result<int, NumError>)
    requires 0 <= n <= MaxUint64
    ensures r.Ok? ==> n <= r.value <= MaxUint64
    decreases |s|
  {
    if s == [] then Ok(n)
    else
      match HexDigit(s[0])
      case None => Err(Syntax)
      case Some(d) =>
        if n * 16 + d > MaxUint64 then Err(Range) else ScanHex(s[1..], n * 16 + d)
  }

  /** `strconv.ParseUint(s, 16, 64)`: no prefix, no underscores, at least one digit. */
  function ParseUint64Hex(s: string): (r: Result<int, NumError>)
    ensures r.Ok? ==> 0 <= r.value <= MaxUint64
  {
    if s == [] then Err(Syntax) else ScanHex(s, 0)
  }

  /** `strconv.ParseInt(s, 16, 32)`: an optional sign, then the digits read
      by the 64-bit `ParseUint`; a syntax error there is passed on, and
      otherwise (a 64-bit range error included) the magnitude must fit a
      signed 32-bit integer. */
  function ParseInt32Hex(s: string): (r: Result<int, NumError>)
    ensures r.Ok? ==> -Cutoff32 <= r.value < Cutoff32
    ensures s == [] ==> r == Err(Syntax)
  {
    if s == [] then Err(Syntax)
    else
      var neg := s[0] == '-';
      var digits := if s[0] == '+' || s[0] == '-' then s[1..] else s;
      match ParseUint64Hex(digits)
      case Err(Syntax) => Err(Syntax)
      case Err(Range) => Err(Range)
      case Ok(un) =>
        if !neg && un >= Cutoff32 then Err(Range)
        else if neg && un > Cutoff32 then Err(Range)
        else Ok(if neg then -un else un)
  }

  /** Reading more digits never makes the value smaller. */
  lemma HexValueFromGrows(n: int, s: string)
    requires AllHex(s) && n >= 0
    ensures HexValueFrom(n, s) >= n
    decreases |s|
  {
    if s != [] {
      HexValueFromGrows(n * 16 + HexDigit(s[0]).value, s[1..]);
    }
  }

  /** The digit loop agrees with the reference reading: it succeeds exactly on
      digit strings whose value fits 64 bits, and then yields that value. */
  lemma {:induction false} ScanHexCorrect(s: string, n: int)
    requires 0 <= n <= MaxUint64
    ensures ScanHex(s, n).Ok? <==> AllHex(s) && HexValueFrom(n, s) <= MaxUint64
    ensures ScanHex(s, n).Ok? ==> ScanHex(s, n).value == HexValueFrom(n, s)
    ensures ScanHex(s, n) == Err(Syntax) ==> !AllHex(s)
    decreases |s|
  {
    if s != [] {
      match HexDigit(s[0])
      case None =>
        assert !AllHex(s);
      case Some(d) =>
        var n1 := n * 16 + d;
        if n1 > MaxUint64 {
          if AllHex(s) {
            assert AllHex(s[1..]) by {
              forall i | 0 <= i < |s[1..]| ensures HexDigit(s[1..][i]).Some? {
                assert s[1..][i] == s[i + 1];
              }
            }
            HexValueFromGrows(n1, s[1..]);
          }
        } else {
          ScanHexCorrect(s[1..], n1);
          if AllHex(s[1..]) {
            assert AllHex(s) by {
              forall i | 0 <= i < |s| ensures HexDigit(s[i]).Some? {
                if i > 0 {
                  assert s[i] == s[1..][i - 1];
                }
              }
            }
          } else {
            var i :| 0 <= i < |s[1..]| && HexDigit(s[1..][i]).None?;
            assert s[i + 1] == s[1..][i];
          }
        }
    }
  }

  /** `ParseUint(s, 16, 64)` accepts exactly the non-empty base-16 numerals
      below 2^64, and reads them as the reference does. */
  lemma ParseUint64HexCorrect(s: string)
    ensures ParseUint64Hex(s).Ok? <==> s != [] && AllHex(s) && HexValue(s) <= MaxUint64
    ensures ParseUint64Hex(s).Ok? ==> ParseUint64Hex(s).value == HexValue(s)
    ensures ParseUint64Hex(s) == Err(Syntax) ==> s == [] || !AllHex(s)
  {
    ScanHexCorrect(s, 0);
  }

  /** Reading a numeral in two parts: the value of `a + b` is the value of `a`
      shifted by the digits of `b`, plus the value of `b`. */
  lemma {:induction false} HexValueFromAppend(n: int, a: string, b: string)
    requires AllHex(a) && AllHex(b)
    ensures AllHex(a + b)
    ensures HexValueFrom(n, a + b) == HexValueFrom(HexValueFrom(n, a), b)
    decreases |a|
  {
    assert AllHex(a + b) by {
      forall i | 0 <= i < |a + b| ensures HexDigit((a + b)[i]).Some? {
        if i < |a| { assert (a + b)[i] == a[i]; } else { assert (a + b)[i] == b[i - |a|]; }
      }
    }
    if a == [] {
      assert a + b == b;
    } else {
      assert (a + b)[0] == a[0] && (a + b)[1..] == a[1..] + b;
      assert AllHex(a[1..]) by {
        forall i | 0 <= i < |a[1..]| ensures HexDigit(a[1..][i]).Some? {
          assert a[1..][i] == a[i + 1];
        }
      }
      HexValueFromAppend(n * 16 + HexDigit(a[0]).value, a[1..], b);
    }
  }

  /** What is already read is shifted by one digit per remaining digit. */
  lemma {:induction false} HexValueFromShift(n: int, s: string)
    requires AllHex(s)
    ensures HexValueFrom(n, s) == n * Pow16(|s|) + HexValue(s)
    decreases |s|
  {
    if s != [] {
      var d, rest := HexDigit(s[0]).value, s[1..];
      AllHexTail(s);
      HexValueFromShift(n * 16 + d, rest);
      HexValueFromShift(d, rest);
      ShiftStep(n, d, Pow16(|rest|), HexValue(rest));
    }
  }

  /** A numeral of `k` digits is less than 16^k. */
  lemma {:induction false} HexValueBound(s: string)
    requires AllHex(s)
    ensures 0 <= HexValue(s) < Pow16(|s|)
  {
    if s != [] {
      var d, rest := HexDigit(s[0]).value, s[1..];
      AllHexTail(s);
      HexValueBound(rest);
      HexValueFromShift(d, rest);
      BoundStep(d, Pow16(|rest|), HexValue(rest));
    }
  }

  lemma AllHexTail(s: string)
    requires AllHex(s) && s != []
    ensures AllHex(s[1..])
  {
    forall i | 0 <= i < |s[1..]| ensures HexDigit(s[1..][i]).Some? {
      assert s[1..][i] == s[i + 1];
    }
  }

  lemma ShiftStep(n: int, d: int, p: int, t: int)
    ensures (n * 16 + d) * p + t == n * (16 * p) + (d * p + t)
  {
  }

  lemma BoundStep(d: int, p: int, t: int)
    requires 0 <= d < 16 && 0 <= t < p
    ensures 0 <= d * p + t < 16 * p
  {
    assert d * p <= 15 * p;
  }

  /** `strings.TrimPrefix(s, "#")`: one '#' at most. */
  function TrimHash(s: string): (t: string)
    ensures |s| > 0 && s[0] == '#' ==> t == s[1..]
    ensures !(|s| > 0 && s[0] == '#') ==> t == s
  {
    if |s| > 0 && s[0] == '#' then s[1..] else s
  }

  /** `colorToRGB(colorStr)`: the number read is taken apart as 0xRRGGBB
      (its bits above 24, and for a negative number its two's-complement bits,
      reduced to a byte as `uint8` does); alpha is always 255. */
  function ColorToRGB(colorStr: string): (r: Result<RGBA, NumError>)
    ensures r.Err? <==> ParseInt32Hex(TrimHash(colorStr)).Err?
    ensures r.Err? ==> r.error == ParseInt32Hex(TrimHash(colorStr)).error
    ensures r.Ok? ==> r.value.a == 255
  {
    var s := TrimHash(colorStr);
    match ParseInt32Hex(s)
    case Err(e) => Err(e)
    case Ok(x) =>
      var red := (x / 0x1_0000) % 0x100;
      var green := (x % 0x1_0000) / 0x100;
      var blue := x % 0x100;
      Ok(RGBA(red as uint8, green as uint8, blue as uint8, 255))
  }

  /** Six digits RRGGBB give the bytes RR, GG and BB in that order. */
  lemma ColorOfSixDigits(rr: string, gg: string, bb: string)
    requires |rr| == 2 && |gg| == 2 && |bb| == 2
    requires AllHex(rr) && AllHex(gg) && AllHex(bb)
    ensures var c := ColorToRGB("#" + rr + gg + bb);
      && c.Ok?
      && c.value.r as int == HexValue(rr) && c.value.g as int == HexValue(gg) && c.value.b as int == HexValue(bb)
      && c.value.a == 255
    ensures ColorToRGB(rr + gg + bb) == ColorToRGB("#" + rr + gg + bb)
  {
    var s := rr + gg + bb;
    assert ("#" + rr + gg + bb)[1..] == s;
    SixDigitValue(rr, gg, bb);
    var v := HexValue(s);
    ParseUint64HexCorrect(s);
    assert s[0] != '+' && s[0] != '-' by { assert HexDigit(s[0]).Some?; }
    assert ParseInt32Hex(s) == Ok(v);
    ByteExtraction(HexValue(rr), HexValue(gg), HexValue(bb));
  }

  /** The value of six digits RRGGBB in terms of its three pairs. */
  lemma SixDigitValue(rr: string, gg: string, bb: string)
    requires |rr| == 2 && |gg| == 2 && |bb| == 2
    requires AllHex(rr) && AllHex(gg) && AllHex(bb)
    ensures AllHex(rr + gg + bb)
    ensures 0 <= HexValue(rr) < 256 && 0 <= HexValue(gg) < 256 && 0 <= HexValue(bb) < 256
    ensures HexValue(rr + gg + bb) == HexValue(rr) * 0x1_0000 + HexValue(gg) * 0x100 + HexValue(bb)
  {
    HexValueBound(rr);
    HexValueBound(gg);
    HexValueBound(bb);
    assert Pow16(2) == 0x100;
    HexValueFromAppend(0, rr, gg);
    HexValueFromAppend(0, rr + gg, bb);
    HexValueFromShift(HexValue(rr), gg);
    HexValueFromShift(HexValue(rr + gg), bb);
  }

  /** Shifting and masking as `colorToRGB` does takes 0xRRGGBB apart. */
  lemma ByteExtraction(r: int, g: int, b: int)
    requires 0 <= r < 256 && 0 <= g < 256 && 0 <= b < 256
    ensures var v := r * 0x1_0000 + g * 0x100 + b;
      (v / 0x1_0000) % 0x100 == r && (v % 0x1_0000) / 0x100 == g && v % 0x100 == b
  {
    var v := r * 0x1_0000 + g * 0x100 + b;
    assert v / 0x1_0000 == r;
    assert v % 0x1_0000 == g * 0x100 + b;
    assert (g * 0x100 + b) / 0x100 == g;
    assert v % 0x100 == b;
  }

  lemma HexFF()
    ensures AllHex("FF") && HexValue("FF") == 0xFF
  {
    var s := "FF";
    assert s[1..] == "F" && "F"[1..] == [];
    assert HexValueFrom(0xF, "F") == 0xFF;
  }

  lemma HexFFFF()
    ensures AllHex("FFFF") && HexValue("FFFF") == 0xFFFF
  {
    HexFF();
    HexValueFromAppend(0, "FF", "FF");
    HexValueFromShift(0xFF, "FF");
    assert Pow16(2) == 256;
    assert "FF" + "FF" == "FFFF";
  }

  /** Only one '#' is stripped: a second one is a syntax error. */
  lemma OnlyOneHashStripped(s: string)
    ensures ColorToRGB("##" + s) == Err(Syntax)
  {
    assert TrimHash("##" + s) == "#" + s;
    ParseUint64HexCorrect("#" + s);
    assert ("#" + s)[0] == '#';
  }

  /** The sign is honoured: "-1" is all bits set, so every colour byte is 255. */
  lemma MinusOneIsWhite()
    ensures ColorToRGB("-1") == Ok(RGBA(255, 255, 255, 255))
  {
    assert TrimHash("-1") == "-1";
    assert "-1"[1..] == "1" && "1"[1..] == [];
    assert ScanHex("1", 0) == ScanHex([], 1) == Ok(1);
    assert ParseInt32Hex("-1") == Ok(-1);
  }

  /** Eight digits with the top bit set overflow a signed 32-bit integer. */
  lemma EightDigitsOverflow()
    ensures ColorToRGB("#FFFFFFFF") == Err(Range)
  {
    var s := "FFFFFFFF";
    assert TrimHash("#FFFFFFFF") == s;
    HexFFFF();
    HexValueFromAppend(0, "FFFF", "FFFF");
    HexValueFromShift(0xFFFF, "FFFF");
    assert Pow16(4) == 0x1_0000;
    assert "FFFF" + "FFFF" == s;
    ParseUint64HexCorrect(s);
    assert ParseUint64Hex(s) == Ok(0xFFFF_FFFF);
    assert ParseInt32Hex(s) == Err(Range);
  }

  /** The digit loop over `a + b`: once the digits of `a` are read within
      range, it carries on with `b` from their value. */
  lemma {:induction false} ScanHexAppend(a: string, b: string, n: int)
    requires 0 <= n <= MaxUint64
    requires AllHex(a) && HexValueFrom(n, a) <= MaxUint64
    ensures HexValueFrom(n, a) >= 0
    ensures ScanHex(a + b, n) == ScanHex(b, HexValueFrom(n, a))
    decreases |a|
  {
    HexValueFromGrows(n, a);
    if a == [] {
      assert a + b == b;
    } else {
      var n1 := n * 16 + HexDigit(a[0]).value;
      AllHexTail(a);
      HexValueFromGrows(n1, a[1..]);
      assert (a + b)[0] == a[0] && (a + b)[1..] == a[1..] + b;
      ScanHexAppend(a[1..], b, n1);
    }
  }

  /** Nine digits denote at least 16^8 and less than 16^9. */
  lemma NineDigits(s: string)
    requires |s| == 9 && AllHex(s) && s[0] == '1'
    ensures 0x1_0000_0000 <= HexValue(s) < 0x10_0000_0000
  {
    AllHexTail(s);
    HexValueBound(s);
    HexValueBound(s[1..]);
    HexValueFromShift(1, s[1..]);
    assert Pow16(8) == 0x1_0000_0000;
    assert Pow16(9) == 0x10_0000_0000;
  }

  /** A bad character after digits that fit 64 bits is a syntax error,
      however far the digits exceed 32 bits. */
  lemma SyntaxAfterDigits(a: string, b: string)
    requires a != [] && AllHex(a) && HexValue(a) <= MaxUint64
    requires b != [] && HexDigit(b[0]).None?
    ensures ColorToRGB(a + b) == Err(Syntax)
  {
    ScanHexAppend(a, b, 0);
    HexValueFromGrows(0, a);
    assert (a + b)[0] == a[0] && HexDigit(a[0]).Some?;
    assert ParseUint64Hex(a + b) == Err(Syntax);
  }

  /** A value past 32 bits is still read to the end: a bad character after
      it is a syntax error, not a range error. */
  lemma SyntaxAfterThirtyTwoBits()
    ensures ColorToRGB("#100000000x") == Err(Syntax)
  {
    var a := "100000000";
    assert AllHex(a);
    NineDigits(a);
    SyntaxAfterDigits(a, "x");
    assert "#100000000x" == "#" + (a + "x");
  }

  /** A value of 33 bits is read, then fails the signed 32-bit cutoff. */
  lemma ThirtyThreeBitsIsRange()
    ensures ColorToRGB("#100000000") == Err(Range)
  {
    var s := "100000000";
    assert TrimHash("#100000000") == s;
    assert AllHex(s);
    NineDigits(s);
    ParseUint64HexCorrect(s);
    assert ParseInt32Hex(s) == Err(Range);
  }

  /** The foreground palette, in table order. */
  const AvatarFrontHexColors: seq<string> := [
    "#FFC1C1", "#FFC125", "#FFC0CB", "#FFBBFF",
    "#FFB90F", "#FFB6C1", "#FFB5C5", "#FFAEB9",
    "#FFA54F", "#FFA500", "#FFA07A", "#FF8C69",
    "#FF8C00", "#FF83FA", "#FF82AB", "#FF8247",
    "#FF7F50", "#FF7F24", "#FF7F00", "#FF7256",
    "#FF6EB4", "#FF6A6A", "#FF69B4", "#FF6347",
    "#FF4500", "#FF4040", "#FF3E96", "#FF34B3",
    "#FF3030", "#FF1493", "#FF00FF", "#FF0000"
  ]

  /** A palette entry: '#', then "FF", then four base-16 digits. */
  predicate IsPaletteEntry(s: string)
  {
    |s| == 7 && s[0] == '#' && s[1] == 'F' && s[2] == 'F' && AllHex(s[3..])
  }

  /** A palette entry parses, to a colour with full red and full alpha. */
  lemma PaletteEntryParses(s: string)
    requires IsPaletteEntry(s)
    ensures ColorToRGB(s).Ok? && ColorToRGB(s).value.r == 255 && ColorToRGB(s).value.a == 255
  {
    var rr, gg, bb := s[1..3], s[3..5], s[5..7];
    assert AllHex(gg) by { assert forall i :: 0 <= i < 2 ==> gg[i] == s[3..][i]; }
    assert AllHex(bb) by { assert forall i :: 0 <= i < 2 ==> bb[i] == s[3..][i + 2]; }
    assert s == "#" + rr + gg + bb;
    ColorOfSixDigits(rr, gg, bb);
    assert rr == "FF";
    HexFF();
  }

  lemma AllPaletteEntries()
    ensures |AvatarFrontHexColors| == 32
    ensures forall i :: 0 <= i < 32 ==> IsPaletteEntry(AvatarFrontHexColors[i])
  {
    PaletteRows0();
    PaletteRows1();
    PaletteRows2();
    PaletteRows3();
  }

  /** Eight entries of the table at a time. */
  lemma PaletteRows0()
    ensures forall i :: 0 <= i < 8 ==> IsPaletteEntry(AvatarFrontHexColors[i])
  {
  }

  lemma PaletteRows1()
    ensures forall i :: 8 <= i < 16 ==> IsPaletteEntry(AvatarFrontHexColors[i])
  {
  }

  lemma PaletteRows2()
    ensures forall i :: 16 <= i < 24 ==> IsPaletteEntry(AvatarFrontHexColors[i])
  {
  }

  lemma PaletteRows3()
    ensures forall i :: 24 <= i < 32 ==> IsPaletteEntry(AvatarFrontHexColors[i])
  {
  }

  /** The loop of `init`: every palette entry decoded, in table order. */
  method InitFrontColors() returns (avatarFrontColors: seq<RGBA>)
    ensures |avatarFrontColors| == |AvatarFrontHexColors| == 32
    ensures forall i :: 0 <= i < 32 ==>
      && ColorToRGB(AvatarFrontHexColors[i]) == Ok(avatarFrontColors[i])
      && avatarFrontColors[i].r == 255 && avatarFrontColors[i].a == 255
  {
    AllPaletteEntries();
    avatarFrontColors := [];
    for i := 0 to |AvatarFrontHexColors|
      invariant |avatarFrontColors| == i
      invariant forall j :: 0 <= j < i ==>
        && ColorToRGB(AvatarFrontHexColors[j]) == Ok(avatarFrontColors[j])
        && avatarFrontColors[j].r == 255 && avatarFrontColors[j].a == 255
    {
      var hexColor := AvatarFrontHexColors[i];
      PaletteEntryParses(hexColor);
      var c := ColorToRGB(hexColor);
      avatarFrontColors := avatarFrontColors + [c.value];
    }
  }
}
