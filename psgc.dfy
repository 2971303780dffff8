/**
 * The Philippine Standard Geographic Code of a barangay (scripts/psgc.py).
 *
 * Each of the four levels (region, province, municipality, barangay) is a
 * non-negative integer code. It is rendered in decimal, left-padded with '0'
 * to its width, and the four parts are joined after the prefix "PH".
 */
module Psgc {
  import opened Wrappers

  /** The four location codes of one row. */
  datatype AreaLevels = AreaLevels(reg: nat, prv: nat, mun: nat, bgy: nat)

  /** The number of levels, and the default zero-fill widths of region,
      province, municipality and barangay. */
  const LevelCount: nat := 4
  const DefaultWidths: seq<nat> := [2, 2, 2, 3]

  /** The k-th level of a row, in the order region, province, municipality,
      barangay. */
  function Level(row: AreaLevels, k: nat): nat
    requires k < LevelCount
  {
    if k == 0 then row.reg else if k == 1 then row.prv else if k == 2 then row.mun else row.bgy
  }

  // ----- Decimal digits -----

  predicate IsDigit(c: char)
  {
    '0' <= c <= '9'
  }

  function Digit(d: nat): (c: char)
    requires d < 10
    ensures IsDigit(c)
  {
    ('0' as int + d) as char
  }

  function DigitValue(c: char): (d: nat)
    requires IsDigit(c)
    ensures d < 10
  {
    c as int - '0' as int
  }

  /** The number a string of decimal digits denotes (leading zeros allowed),
      or None when some character is not a digit. */
  function ParseDigits(s: string): Option<nat>
  {
    if s == [] then Some(0)
    else
      match ParseDigits(s[..|s| - 1])
      case None => None
      case Some(v) => if IsDigit(s[|s| - 1]) then Some(v * 10 + DigitValue(s[|s| - 1])) else None
  }

  /** `str(n)` for a non-negative integer: its decimal digits, with no leading
      zero except for 0 itself. */
  function DecimalString(n: nat): (s: string)
    ensures |s| >= 1
    ensures |s| > 1 ==> s[0] != '0'
  {
    if n < 10 then [Digit(n)] else DecimalString(n / 10) + [Digit(n % 10)]
  }

  function Pow10(k: nat): nat
  {
    if k == 0 then 1 else 10 * Pow10(k - 1)
  }

  /** Reading the decimal rendering back gives the number. */
  lemma {:induction false} DecimalStringValue(n: nat)
    ensures ParseDigits(DecimalString(n)) == Some(n)
  {
    if n >= 10 {
      var s := DecimalString(n / 10);
      DecimalStringValue(n / 10);
      assert (s + [Digit(n % 10)])[..|s|] == s;
    } else {
      assert [Digit(n)][..0] == [];
    }
  }

  /** A number below 10^w has at most w digits. */
  lemma {:induction false} DecimalStringFits(n: nat, w: nat)
    requires 1 <= w && n < Pow10(w)
    ensures |DecimalString(n)| <= w
  {
    if n >= 10 {
      DecimalStringFits(n / 10, w - 1);
    }
  }

  // ----- zfill -----

  function Max(a: nat, b: nat): nat
  {
    if a < b then b else a
  }

  function Zeros(k: nat): (z: string)
    ensures |z| == k && forall i :: 0 <= i < k ==> z[i] == '0'
  {
    seq(k, _ => '0')
  }

  /** `s.zfill(width)` for a string with no sign: left-pads with '0' up to
      `width`, and returns `s` itself when it is already that long. */
  function ZFill(s: string, width: nat): (r: string)
    ensures |r| == Max(|s|, width)
  {
    if |s| >= width then s else Zeros(width - |s|) + s
  }

  /** zfill only adds '0's on the left: the input is a suffix of the result
      and everything before it is '0'. */
  lemma ZFillPads(s: string, width: nat)
    ensures var r := ZFill(s, width);
            && r[|r| - |s|..] == s
            && forall i :: 0 <= i < |r| - |s| ==> r[i] == '0'
  {
    if |s| < width {
      var z := Zeros(width - |s|);
      assert (z + s)[|z|..] == s;
    }
  }

  /** Re-padding a padded string to the same width changes nothing. */
  lemma ZFillIdempotent(s: string, width: nat)
    ensures ZFill(ZFill(s, width), width) == ZFill(s, width)
  {
  }

  /** Leading zeros do not change what a string reads as. */
  lemma {:induction false} ZerosValue(k: nat, s: string)
    ensures ParseDigits(Zeros(k) + s) == ParseDigits(s)
  {
    var z := Zeros(k);
    if s == [] {
      assert z + s == z;
      if k > 0 {
        assert z[..k - 1] == Zeros(k - 1);
        ZerosValue(k - 1, []);
        assert Zeros(k - 1) + [] == Zeros(k - 1);
      }
    } else {
      var init := s[..|s| - 1];
      ZerosValue(k, init);
      assert (z + s)[..|z + s| - 1] == z + init;
    }
  }

  /** Padding a string does not change what it reads as. */
  lemma ZFillValue(s: string, width: nat)
    ensures ParseDigits(ZFill(s, width)) == ParseDigits(s)
  {
    if |s| < width {
      ZerosValue(width - |s|, s);
    }
  }

  // ----- The code of a row -----

  /** One padded part: `str(level).zfill(width)`. It is as long as the
      width, or as the rendering when that is longer: it is never cut. */
  function PaddedLevel(row: AreaLevels, k: nat, width: nat): (p: string)
    requires k < LevelCount
    ensures |p| == Max(|DecimalString(Level(row, k))|, width)
  {
    ZFill(DecimalString(Level(row, k)), width)
  }

  /** get_brgy_psgc for one row: "PH" and the four padded parts, in level order. */
  function BrgyCode(row: AreaLevels, widths: seq<nat>): (code: string)
    requires |widths| >= LevelCount
    ensures |code| == 2 + |PaddedLevel(row, 0, widths[0])| + |PaddedLevel(row, 1, widths[1])|
                        + |PaddedLevel(row, 2, widths[2])| + |PaddedLevel(row, 3, widths[3])|
  {
    "PH" + PaddedLevel(row, 0, widths[0]) + PaddedLevel(row, 1, widths[1])
         + PaddedLevel(row, 2, widths[2]) + PaddedLevel(row, 3, widths[3])
  }

  /** Every level's decimal rendering fits in its width. */
  predicate Fits(row: AreaLevels, widths: seq<nat>)
    requires |widths| >= LevelCount
  {
    forall k :: 0 <= k < LevelCount ==> |DecimalString(Level(row, k))| <= widths[k]
  }

  /** The reading of a code laid out with the given widths: "PH" followed by
      four digit strings of those widths. */
  function DecodeBrgyCode(code: string, widths: seq<nat>): Option<AreaLevels>
    requires |widths| >= LevelCount
  {
    var e0 := 2 + widths[0];
    var e1 := e0 + widths[1];
    var e2 := e1 + widths[2];
    var e3 := e2 + widths[3];
    if |code| != e3 || code[..2] != "PH" then None
    else
      match (ParseDigits(code[2..e0]), ParseDigits(code[e0..e1]), ParseDigits(code[e1..e2]), ParseDigits(code[e2..e3]))
      case (Some(reg), Some(prv), Some(mun), Some(bgy)) => Some(AreaLevels(reg, prv, mun, bgy))
      case _ => None
  }

  /** Where the parts of "PH" + p0 + p1 + p2 + p3 sit. */
  lemma JoinedParts(p0: string, p1: string, p2: string, p3: string)
    ensures var code := "PH" + p0 + p1 + p2 + p3;
            && code[..2] == "PH"
            && code[2..2 + |p0|] == p0
            && code[2 + |p0|..2 + |p0| + |p1|] == p1
            && code[2 + |p0| + |p1|..2 + |p0| + |p1| + |p2|] == p2
            && code[2 + |p0| + |p1| + |p2|..] == p3
  {
    var code := "PH" + p0 + p1 + p2 + p3;
    assert code == "PH" + (p0 + p1 + p2 + p3);
    var rest := p0 + p1 + p2 + p3;
    assert rest == p0 + (p1 + (p2 + p3));
  }

  /** The code starts with "PH" and holds the four padded parts in level order. */
  lemma BrgyCodeLayout(row: AreaLevels, widths: seq<nat>)
    requires |widths| >= LevelCount
    ensures var code := BrgyCode(row, widths);
            var p0, p1, p2, p3 := PaddedLevel(row, 0, widths[0]), PaddedLevel(row, 1, widths[1]),
                                  PaddedLevel(row, 2, widths[2]), PaddedLevel(row, 3, widths[3]);
            && code[..2] == "PH"
            && code[2..2 + |p0|] == p0
            && code[2 + |p0|..2 + |p0| + |p1|] == p1
            && code[2 + |p0| + |p1|..2 + |p0| + |p1| + |p2|] == p2
            && code[2 + |p0| + |p1| + |p2|..] == p3
  {
    var p0, p1, p2, p3 := PaddedLevel(row, 0, widths[0]), PaddedLevel(row, 1, widths[1]),
                          PaddedLevel(row, 2, widths[2]), PaddedLevel(row, 3, widths[3]);
    assert BrgyCode(row, widths) == "PH" + p0 + p1 + p2 + p3;
    JoinedParts(p0, p1, p2, p3);
  }

  /** A padded part reads back as its level whatever the width, and has
      exactly the width when the level fits. */
  lemma PaddedLevelValue(row: AreaLevels, k: nat, width: nat)
    requires k < LevelCount
    ensures ParseDigits(PaddedLevel(row, k, width)) == Some(Level(row, k))
    ensures |DecimalString(Level(row, k))| <= width ==> |PaddedLevel(row, k, width)| == width
  {
    ZFillValue(DecimalString(Level(row, k)), width);
    DecimalStringValue(Level(row, k));
  }

  /** A code of the right length, starting with "PH", whose four parts read
      as numbers, decodes to those numbers. */
  lemma DecodeParts(code: string, widths: seq<nat>, p0: string, p1: string, p2: string, p3: string,
                    d0: nat, d1: nat, d2: nat, d3: nat)
    requires |widths| >= LevelCount
    requires |code| == 2 + widths[0] + widths[1] + widths[2] + widths[3]
    requires code[..2] == "PH"
    requires var e0 := 2 + widths[0]; var e1 := e0 + widths[1]; var e2 := e1 + widths[2];
             && code[2..e0] == p0 && code[e0..e1] == p1 && code[e1..e2] == p2 && code[e2..|code|] == p3
    requires ParseDigits(p0) == Some(d0) && ParseDigits(p1) == Some(d1)
    requires ParseDigits(p2) == Some(d2) && ParseDigits(p3) == Some(d3)
    ensures DecodeBrgyCode(code, widths) == Some(AreaLevels(d0, d1, d2, d3))
  {
  }

  /** Decoding "PH" and four strings of the expected widths that read as
      numbers gives those numbers. */
  lemma DecodeJoinedParts(p0: string, p1: string, p2: string, p3: string, widths: seq<nat>,
                          d0: nat, d1: nat, d2: nat, d3: nat)
    requires |widths| >= LevelCount
    requires |p0| == widths[0] && |p1| == widths[1] && |p2| == widths[2] && |p3| == widths[3]
    requires ParseDigits(p0) == Some(d0) && ParseDigits(p1) == Some(d1)
    requires ParseDigits(p2) == Some(d2) && ParseDigits(p3) == Some(d3)
    ensures DecodeBrgyCode("PH" + p0 + p1 + p2 + p3, widths) == Some(AreaLevels(d0, d1, d2, d3))
  {
    var code := "PH" + p0 + p1 + p2 + p3;
    JoinedParts(p0, p1, p2, p3);
    assert |code| == 2 + |p0| + |p1| + |p2| + |p3|;
    DecodeParts(code, widths, p0, p1, p2, p3, d0, d1, d2, d3);
  }

  /** When every level fits, the code reads back to the row it came from. */
  lemma BrgyCodeRoundTrip(row: AreaLevels, widths: seq<nat>)
    requires |widths| >= LevelCount
    requires Fits(row, widths)
    ensures DecodeBrgyCode(BrgyCode(row, widths), widths) == Some(row)
  {
    PaddedLevelValue(row, 0, widths[0]);
    PaddedLevelValue(row, 1, widths[1]);
    PaddedLevelValue(row, 2, widths[2]);
    PaddedLevelValue(row, 3, widths[3]);
    DecodeJoinedParts(PaddedLevel(row, 0, widths[0]), PaddedLevel(row, 1, widths[1]),
                      PaddedLevel(row, 2, widths[2]), PaddedLevel(row, 3, widths[3]), widths,
                      row.reg, row.prv, row.mun, row.bgy);
  }

  /** Rows whose levels fit their widths get distinct codes. */
  lemma BrgyCodeInjective(a: AreaLevels, b: AreaLevels, widths: seq<nat>)
    requires |widths| >= LevelCount
    requires Fits(a, widths) && Fits(b, widths)
    requires BrgyCode(a, widths) == BrgyCode(b, widths)
    ensures a == b
  {
    BrgyCodeRoundTrip(a, widths);
    BrgyCodeRoundTrip(b, widths);
  }

  /** With the default widths, codes below 100, 100, 100 and 1000 give an
      11-character code. */
  lemma DefaultCodeLength(row: AreaLevels)
    requires row.reg < 100 && row.prv < 100 && row.mun < 100 && row.bgy < 1000
    ensures |BrgyCode(row, DefaultWidths)| == 11
  {
    DecimalStringFits(row.reg, 2);
    DecimalStringFits(row.prv, 2);
    DecimalStringFits(row.mun, 2);
    DecimalStringFits(row.bgy, 3);
  }

  /** Region 1, province 4, municipality 23, barangay 5. */
  lemma BrgyCodeExample()
    ensures BrgyCode(AreaLevels(1, 4, 23, 5), DefaultWidths) == "PH010423005"
  {
  }

  /** Nothing checks the widths: two different rows whose codes overflow
      their widths can share a code. */
  lemma OverWidthCodesCollide()
    ensures BrgyCode(AreaLevels(10, 123, 4, 5), DefaultWidths) == BrgyCode(AreaLevels(101, 23, 4, 5), DefaultWidths)
  {
  }

  // ----- The table of padded parts -----

  /** get_brgy_psgc over a table of rows: fills one column of padded parts per
      level, pairing levels with widths as `zip` does, then joins each row's
      parts after "PH". Entry i of the result is the code of row i alone. */
  method GetBrgyPsgc(df: seq<AreaLevels>, zfillWidths: seq<nat>) returns (codes: seq<string>)
    requires |zfillWidths| >= LevelCount
    ensures |codes| == |df|
    ensures forall i :: 0 <= i < |df| ==> codes[i] == BrgyCode(df[i], zfillWidths)
  {
    var dfPsgc := new seq<string>[LevelCount];
    for k := 0 to LevelCount
      invariant forall j :: 0 <= j < k ==> |dfPsgc[j]| == |df|
      invariant forall j, i :: 0 <= j < k && 0 <= i < |df| ==> dfPsgc[j][i] == PaddedLevel(df[i], j, zfillWidths[j])
    {
      var column := [];
      for i := 0 to |df|
        invariant |column| == i
        invariant forall t :: 0 <= t < i ==> column[t] == PaddedLevel(df[t], k, zfillWidths[k])
      {
        column := column + [PaddedLevel(df[i], k, zfillWidths[k])];
      }
      dfPsgc[k] := column;
    }
    var regs, prvs, muns, bgys := dfPsgc[0], dfPsgc[1], dfPsgc[2], dfPsgc[3];
    codes := [];
    for i := 0 to |df|
      invariant |codes| == i
      invariant forall t :: 0 <= t < i ==> codes[t] == BrgyCode(df[t], zfillWidths)
    {
      codes := codes + ["PH" + regs[i] + prvs[i] + muns[i] + bgys[i]];
    }
  }
}
