/** `numberToRMBChinese` and its inner `sectionToChinese` (src/routes/api.js:220-273):
    an integer amount in the formal (banker's) numerals, with 负 for a negative
    amount and 元整 at the end. */
module RmbNumber {
  import opened Numerals

  const DIGITS: seq<char> := ['零', '壹', '贰', '叁', '肆', '伍', '陆', '柒', '捌', '玖']
  const UNITS: seq<string> := ["", "拾", "佰", "仟"]
  const SECTION_UNITS: seq<string> := ["", "万", "亿"]
  const TABLES: Tables := Tables(DIGITS, UNITS)

  /** The standard reading of the formal numerals. */
  const NOTATION: Notation :=
    Notation(DIGITS, map['拾' := 10, '佰' := 100, '仟' := 1000],
             map['万' := 10000, '亿' := 100000000])

  lemma TablesValid()
    ensures ValidTables(TABLES)
  {
  }

  lemma DigitsDistinct()
    ensures forall i, j :: 0 <= i < j < 10 ==> DIGITS[i] != DIGITS[j]
  {
  }

  lemma DigitsAreNotUnits()
    ensures forall d :: 0 <= d < 10 ==> DIGITS[d] !in NOTATION.small && DIGITS[d] !in NOTATION.big
  {
  }

  lemma UnitsRead()
    ensures forall q :: 1 <= q < 4 ==>
      |UNITS[q]| == 1 && UNITS[q][0] in NOTATION.small && NOTATION.small[UNITS[q][0]] == Pow10(q)
  {
    Pow10Values();
  }

  lemma SectionUnitsRead()
    ensures forall g :: 1 <= g < |SECTION_UNITS| ==>
      |SECTION_UNITS[g]| == 1 && SECTION_UNITS[g][0] !in NOTATION.small &&
      SECTION_UNITS[g][0] in NOTATION.big && NOTATION.big[SECTION_UNITS[g][0]] == Pow10(4 * g)
  {
    Pow10Values();
  }

  lemma NotationReadsPositions()
    ensures ReadsPositions(TABLES, NOTATION, 4)
  {
    TablesValid();
    DigitsDistinct();
    DigitsAreNotUnits();
    UnitsRead();
  }

  lemma NotationReadsGroups()
    ensures ReadsPositions(TABLES, NOTATION, 4)
    ensures ReadsGroups(TABLES, NOTATION, SECTION_UNITS)
  {
    NotationReadsPositions();
    SectionUnitsRead();
  }

  /** What `sectionToChinese(section)` returns. */
  function SectionNumeral(section: nat): string {
    TablesValid();
    RenderFrom(TABLES, section, 0, false)
  }

  /** The inner loop as written: `needZero` records that the last digit seen was not
      zero, so a 零 is written for a zero digit only after a non-zero lower digit. */
  method SectionToChinese(section: nat) returns (s: string)
    ensures s == SectionNumeral(section)
    ensures s == [] <==> section == 0
    ensures NoZeroRun(s) && !EndsWithZero(s) && (s != [] ==> s[0] != ZERO)
  {
    TablesValid();
    var str: string := [];
    var unitPos: nat := 0;
    var needZero := false;
    var rest := section;
    while rest > 0
      invariant needZero == StartsNonZero(str)
      invariant RenderFrom(TABLES, section, 0, false) == RenderFrom(TABLES, rest, unitPos, needZero) + str
    {
      ghost var before := str;
      var sectionNum := rest % 10;
      if sectionNum == 0 {
        if needZero {
          needZero := false;
          str := [DIGITS[0]] + str;
        }
      } else {
        str := [DIGITS[sectionNum]] + UnitAt(UNITS, unitPos) + str;
        needZero := true;
      }
      assert str == Piece(TABLES, sectionNum, unitPos, StartsNonZero(before)) + before;
      RenderStep(TABLES, rest, unitPos, before);
      unitPos := unitPos + 1;
      rest := rest / 10;
    }
    s := str;
    SectionShape(section);
  }

  /** No 零 twice in a row, none at either end; the empty text exactly for 0. */
  lemma SectionShape(section: nat)
    ensures var s := SectionNumeral(section);
      (s == [] <==> section == 0) && NoZeroRun(s) && !EndsWithZero(s) && (s != [] ==> s[0] != ZERO)
  {
    TablesValid();
    RenderShape(TABLES, section, 0, false);
  }

  /** A section below 10000 reads back as its value. */
  lemma SectionReadsBack(section: nat)
    requires section < 10000
    ensures Read(NOTATION, SectionNumeral(section)) == section
  {
    NotationReadsGroups();
    assert section * Pow10(0) < Pow10(4);
    ReadBack(TABLES, NOTATION, 4, section, 0, false, 0);
  }

  /** The text the outer loop builds from the quotient `q = ⌊|num| / 10000⌋`: each
      pass renders the whole remaining quotient (not its lowest four digits) and
      appends the section unit of its pass, starting with the empty one, and puts
      the result in front of what it built before. */
  function HigherSections(q: nat, unitPos: nat): string
    decreases q
  {
    if q == 0 then []
    else HigherSections(q / 10000, unitPos + 1) + SectionNumeral(q) + UnitAt(SECTION_UNITS, unitPos)
  }

  function Abs(num: int): nat {
    if num < 0 then -num else num
  }

  function Sign(num: int): string {
    if num < 0 then "负" else ""
  }

  /** What `numberToRMBChinese(num)` returns for an integer: the remainder section
      is put in front of the text of the higher sections, the clean-up chain runs,
      then 元整 and, for a negative amount, 负. */
  function RmbNumeral(num: int): string {
    var a := Abs(num);
    Sign(num) + Clean(SectionNumeral(a % 10000) + HigherSections(a / 10000, 0)) + "元整"
  }

  /** One pass of the outer loop. */
  lemma HigherStep(section: nat, unitPos: nat, before: string)
    requires section > 0
    ensures HigherSections(section, unitPos) + before ==
            HigherSections(section / 10000, unitPos + 1) +
              (SectionNumeral(section) + UnitAt(SECTION_UNITS, unitPos) + before)
  {
  }

  /** The outer loop of `numberToRMBChinese`, over the quotient `q`. Its
      `needZero` is set but never read, as in the source. */
  method HigherText(q: nat) returns (str: string)
    ensures str == HigherSections(q, 0)
  {
    str := [];
    var unitPos: nat := 0;
    var needZero := false;
    var section := q;
    while section > 0
      invariant HigherSections(q, 0) == HigherSections(section, unitPos) + str
    {
      HigherStep(section, unitPos, str);
      var text := SectionToChinese(section);
      str := text + UnitAt(SECTION_UNITS, unitPos) + str;
      needZero := true;
      section := section / 10000;
      unitPos := unitPos + 1;
    }
  }

  /** The function as written, for an integer amount. */
  method NumberToRmbChinese(num: int) returns (s: string)
    ensures s == RmbNumeral(num)
  {
    var isNeg := false;
    var n := num;
    if n < 0 {
      isNeg := true;
      n := -n;
    }
    var a: nat := n;
    assert a == Abs(num);
    var higher := HigherText(a / 10000);
    var low := SectionToChinese(a % 10000);
    var str := low + higher;
    str := TrimLeadingZero(TrimTrailingZeros(CollapseZeros(str)));
    str := str + "元整";
    if isNeg {
      str := "负" + str;
    }
    s := str;
  }

  lemma RenderAvoidsMinus(m: nat, p: nat, b: bool)
    ensures '负' !in RenderFrom(TABLES, m, p, b)
  {
    TablesValid();
    RenderAvoids(TABLES, m, p, b, '负');
  }

  lemma {:induction false} HigherSectionsAvoidMinus(q: nat, unitPos: nat)
    ensures '负' !in HigherSections(q, unitPos)
    decreases q
  {
    if q > 0 {
      HigherSectionsAvoidMinus(q / 10000, unitPos + 1);
      RenderAvoidsMinus(q, 0, false);
    }
  }

  /** Every amount ends in 元整; it starts with 负 exactly when it is negative, and
      then the rest is the text of its absolute value. */
  lemma RmbAffixes(num: int)
    ensures var r := RmbNumeral(num);
      |r| >= 2 && r[|r| - 2..] == "元整" &&
      (r[0] == '负' <==> num < 0) &&
      (num < 0 ==> r == "负" + RmbNumeral(-num))
  {
    var a := Abs(num);
    var clean := Clean(SectionNumeral(a % 10000) + HigherSections(a / 10000, 0));
    CleanAvoidsMinus(a);
    Affixes(Sign(num), clean);
    if num < 0 {
      assert Abs(-num) == a && Sign(-num) == "";
      assert RmbNumeral(-num) == "" + clean + "元整";
    }
  }

  /** The clean-up of the digits never brings in 负. */
  lemma CleanAvoidsMinus(a: nat)
    ensures '负' !in Clean(SectionNumeral(a % 10000) + HigherSections(a / 10000, 0))
  {
    var body := SectionNumeral(a % 10000) + HigherSections(a / 10000, 0);
    RenderAvoidsMinus(a % 10000, 0, false);
    HigherSectionsAvoidMinus(a / 10000, 0);
    CleanShape(body);
  }

  lemma Affixes(sign: string, clean: string)
    requires (sign == "负" || sign == "") && '负' !in clean
    ensures var r := sign + clean + "元整";
      |r| >= 2 && r[|r| - 2..] == "元整" && (r[0] == '负' <==> sign == "负")
  {
    var r := sign + clean + "元整";
    if sign == "" {
      if clean != [] { assert r[0] == clean[0]; } else { assert r[0] == '元'; }
    }
  }

  /** Below 10000 the text between the sign and 元整 reads back as the amount. */
  lemma RmbReadsBack(num: int)
    requires Abs(num) < 10000
    ensures RmbNumeral(num) == Sign(num) + SectionNumeral(Abs(num)) + "元整"
    ensures Read(NOTATION, SectionNumeral(Abs(num))) == Abs(num)
  {
    var a := Abs(num);
    SectionShape(a);
    CleanIdentity(SectionNumeral(a));
    assert SectionNumeral(a % 10000) + HigherSections(a / 10000, 0) == SectionNumeral(a);
    SectionReadsBack(a);
  }

  /** Zero gives no digits at all. */
  lemma ZeroHasNoDigits()
    ensures RmbNumeral(0) == "元整"
  {
    assert SectionNumeral(0) == [];
    assert Clean([]) == [];
  }

  lemma Section5678()
    ensures SectionNumeral(5678) == "伍仟陆佰柒拾捌"
  {
    TablesValid();
    assert Piece(TABLES, 8, 0, false) == "捌";
    assert Piece(TABLES, 7, 1, true) == "柒拾";
    assert Piece(TABLES, 6, 2, true) == "陆佰";
    assert Piece(TABLES, 5, 3, true) == "伍仟";
    assert RenderFrom(TABLES, 5, 3, true) == RenderFrom(TABLES, 0, 4, true) + Piece(TABLES, 5, 3, true);
    assert RenderFrom(TABLES, 56, 2, true) == RenderFrom(TABLES, 5, 3, true) + Piece(TABLES, 6, 2, true);
    assert RenderFrom(TABLES, 567, 1, true) == RenderFrom(TABLES, 56, 2, true) + Piece(TABLES, 7, 1, true);
    assert RenderFrom(TABLES, 5678, 0, false) == RenderFrom(TABLES, 567, 1, true) + Piece(TABLES, 8, 0, false);
  }

  lemma Section1234()
    ensures SectionNumeral(1234) == "壹仟贰佰叁拾肆"
  {
    TablesValid();
    assert Piece(TABLES, 4, 0, false) == "肆";
    assert Piece(TABLES, 3, 1, true) == "叁拾";
    assert Piece(TABLES, 2, 2, true) == "贰佰";
    assert Piece(TABLES, 1, 3, true) == "壹仟";
    assert RenderFrom(TABLES, 1, 3, true) == RenderFrom(TABLES, 0, 4, true) + Piece(TABLES, 1, 3, true);
    assert RenderFrom(TABLES, 12, 2, true) == RenderFrom(TABLES, 1, 3, true) + Piece(TABLES, 2, 2, true);
    assert RenderFrom(TABLES, 123, 1, true) == RenderFrom(TABLES, 12, 2, true) + Piece(TABLES, 3, 1, true);
    assert RenderFrom(TABLES, 1234, 0, false) == RenderFrom(TABLES, 123, 1, true) + Piece(TABLES, 4, 0, false);
  }

  /** Between 10^4 and 10^8 the outer loop runs once: the higher section follows
      the remainder section, without 万. */
  lemma RmbTwoSections(num: int)
    requires 10000 <= Abs(num) < 100000000
    ensures RmbNumeral(num) ==
            Sign(num) + Clean(SectionNumeral(Abs(num) % 10000) + SectionNumeral(Abs(num) / 10000)) + "元整"
  {
    HigherSectionsSingle(Abs(num) / 10000);
  }

  /** For 12345678 the remainder section 伍仟陆佰柒拾捌 lands in front of the
      higher one, 壹仟贰佰叁拾肆, and no 万 is written. */
  lemma SectionsOutOfOrder(num: int)
    requires num == 12345678
    ensures RmbNumeral(num) == "伍仟陆佰柒拾捌" + "壹仟贰佰叁拾肆" + "元整"
  {
    var a := Abs(num);
    SplitSections(a);
    HigherSectionsSingle(a / 10000);
    Section5678();
    Section1234();
    OutOfOrderTextIsClean(SectionNumeral(a % 10000), HigherSections(a / 10000, 0));
  }

  lemma HigherSectionsSingle(q: nat)
    requires 0 < q < 10000
    ensures HigherSections(q, 0) == SectionNumeral(q)
  {
    assert HigherSections(q / 10000, 1) == [];
  }

  lemma SplitSections(a: nat)
    requires a == 12345678
    ensures a % 10000 == 5678 && a / 10000 == 1234
  {
  }

  lemma OutOfOrderTextIsClean(x: string, y: string)
    requires x == "伍仟陆佰柒拾捌" && y == "壹仟贰佰叁拾肆"
    ensures Clean(x + y) == x + y
  {
    CleanIdentity(x + y);
  }

  // ----- the evident intent: four-digit sections under 万 and 亿

  /** The amount's text written section by section: each four-digit section with
      拾/佰/仟, the sections joined by 万 and 亿 in descending order, and 零 for
      an amount of zero. */
  function IntendedRmbBody(a: nat): string {
    if a == 0 then "零"
    else
      TablesValid();
      Grouped(TABLES, SECTION_UNITS, a, 0, false)
  }

  function IntendedRmbNumeral(num: int): string {
    Sign(num) + IntendedRmbBody(Abs(num)) + "元整"
  }

  /** Every amount whose absolute value is below 10^12 has a non-empty body that
      reads back as that value. */
  lemma IntendedRmbReadsBack(num: int)
    requires Abs(num) < Pow10(12)
    ensures IntendedRmbBody(Abs(num)) != []
    ensures Read(NOTATION, IntendedRmbBody(Abs(num))) == Abs(num)
  {
    var a := Abs(num);
    NotationReadsGroups();
    if a == 0 {
      DigitIndex(TABLES, NOTATION, 4, 0);
      assert Fold(NOTATION, ReadState(0, 0, 0), "零") ==
             Fold(NOTATION, ReadState(0, 0, 0), "零"[1..]);
    } else {
      assert a * Pow10(4 * 0) < Pow10(4 * |SECTION_UNITS|);
      GroupedReadBack(TABLES, NOTATION, SECTION_UNITS, a, 0, false, 0);
      RenderShape(TABLES, a % 10000, 0, false);
      assert IntendedRmbBody(a) != [] by {
        if a % 10000 == 0 {
          GroupedNonEmpty(a / 10000, 1, false);
        }
      }
    }
  }

  lemma {:induction false} GroupedNonEmpty(q: nat, g: nat, z: bool)
    requires q > 0
    ensures Grouped(TABLES, SECTION_UNITS, q, g, z) != []
    decreases q
  {
    TablesValid();
    var sec := q % 10000;
    if sec == 0 {
      GroupedNonEmpty(q / 10000, g + 1, false);
    } else {
      RenderShape(TABLES, sec, 0, false);
    }
  }

  /** Between 10^4 and 10^8, with a lower section of four digits, the higher
      section comes first and carries 万. */
  lemma IntendedTwoSections(a: nat)
    requires 10000 <= a < 100000000 && a % 10000 >= 1000
    ensures IntendedRmbBody(a) == SectionNumeral(a / 10000) + "万" + SectionNumeral(a % 10000)
  {
    TablesValid();
    var q := a / 10000;
    assert 0 < q < 10000;
    GroupedSingle(TABLES, SECTION_UNITS, q, 1);
  }

  /** The intended text of 12345678. */
  lemma IntendedOrder()
    ensures IntendedRmbNumeral(12345678) == "壹仟贰佰叁拾肆万伍仟陆佰柒拾捌元整"
  {
    var a := 12345678;
    assert a / 10000 == 1234 && a % 10000 == 5678;
    IntendedTwoSections(a);
    Section5678();
    Section1234();
  }

  /** Below 10000 the source's text and the intended text coincide. */
  lemma IntendedAgreesBelowTenThousand(num: int)
    requires 0 < Abs(num) < 10000
    ensures IntendedRmbNumeral(num) == RmbNumeral(num)
  {
    var a := Abs(num);
    TablesValid();
    RmbReadsBack(num);
    GroupedSingle(TABLES, SECTION_UNITS, a, 0);
  }
}
