/** `numberToChinese` (src/routes/api.js:191-218): a non-negative integer in everyday
    Chinese numerals. A digit loop builds the text from the lowest digit up, a chain
    of replacements cleans up 零, and a leading 一十 becomes 十. */
module ChineseNumber {
  import opened Numerals

  const DIGITS: seq<char> := ['零', '一', '二', '三', '四', '五', '六', '七', '八', '九']

  /** The unit table has seven entries: positions 0..6. */
  const UNITS: seq<string> := ["", "十", "百", "千", "万", "亿", "兆"]

  const TABLES: Tables := Tables(DIGITS, UNITS)

  /** The standard reading of the characters the function writes. */
  const NOTATION: Notation :=
    Notation(DIGITS, map['十' := 10, '百' := 100, '千' := 1000],
             map['万' := 10000, '亿' := 100000000, '兆' := 1000000000000])

  lemma TablesValid()
    ensures ValidTables(TABLES)
  {
  }

  lemma DigitsDistinct()
    ensures forall i, j :: 0 <= i < j < 10 ==> DIGITS[i] != DIGITS[j]
  {
  }

  lemma DigitsAreNotUnits()
    ensures forall d :: 0 <= d < 10 ==> DIGITS[d] !in NOTATION.small && DIGITS[d] !in NOTATION.big
  {
  }

  lemma UnitsRead()
    ensures forall q :: 1 <= q < 4 ==>
      |UNITS[q]| == 1 && UNITS[q][0] in NOTATION.small && NOTATION.small[UNITS[q][0]] == Pow10(q)
    ensures |UNITS[4]| == 1 && UNITS[4][0] !in NOTATION.small && UNITS[4][0] in NOTATION.big &&
      NOTATION.big[UNITS[4][0]] == Pow10(4)
  {
    Pow10Values();
  }

  lemma NotationReadsFivePositions()
    ensures ReadsPositions(TABLES, NOTATION, 5)
  {
    TablesValid();
    DigitsDistinct();
    DigitsAreNotUnits();
    UnitsRead();
  }

  /** `replace(/^一十/, '十')`. */
  function FixLeadingTen(s: string): string {
    if |s| >= 2 && s[0] == '一' && s[1] == '十' then ['十'] + s[2..] else s
  }

  predicate StartsWithOneTen(s: string) {
    |s| >= 2 && s[0] == '一' && s[1] == '十'
  }

  /** What `numberToChinese(num)` returns. A negative number never enters the digit
      loop, so it yields the empty text. */
  function ChineseNumeral(num: int): string {
    if num == 0 then "零"
    else if num < 0 then []
    else
      TablesValid();
      FixLeadingTen(Clean(RenderFrom(TABLES, num, 0, false)))
  }

  /** The function as written: the digit loop, then the clean-up chain. */
  method NumberToChinese(num: int) returns (s: string)
    ensures s == ChineseNumeral(num)
    ensures num == 0 ==> s == "零"
    ensures num < 0 ==> s == []
    ensures 0 <= num < 100000 ==> Read(NOTATION, s) == num
  {
    if num == 0 {
      ZeroReadsBack();
      return "零";
    }
    TablesValid();
    var str: string := [];
    var unitPos: nat := 0;
    var n := num;
    while n > 0
      invariant num > 0 ==>
        0 <= n && RenderFrom(TABLES, num, 0, false) ==
                  RenderFrom(TABLES, n, unitPos, StartsNonZero(str)) + str
      invariant num < 0 ==> n == num && str == []
    {
      ghost var before := str;
      var digit := n % 10;
      if digit != 0 {
        str := [DIGITS[digit]] + UnitAt(UNITS, unitPos) + str;
      } else if |str| > 0 && str[0] != '零' {
        str := ['零'] + str;
      }
      assert str == Piece(TABLES, digit, unitPos, StartsNonZero(before)) + before;
      RenderStep(TABLES, n, unitPos, before);
      n := n / 10;
      unitPos := unitPos + 1;
    }
    assert num > 0 ==> str == RenderFrom(TABLES, num, 0, false);
    str := TrimLeadingZero(TrimTrailingZeros(CollapseZeros(str)));
    str := FixLeadingTen(str);
    s := str;
    assert s == ChineseNumeral(num);
    if 0 < num < 100000 {
      ChineseReadsBack(num);
    }
  }

  /** For a positive number: no 零 twice in a row, none at either end, and no
      leading 一十. The clean-up chain finds nothing to remove. */
  lemma ChineseShape(num: int)
    requires num > 0
    ensures var r := ChineseNumeral(num);
      r != [] && NoZeroRun(r) && r[0] != ZERO && !EndsWithZero(r) && !StartsWithOneTen(r)
    ensures Clean(RenderFrom(TABLES, num, 0, false)) == RenderFrom(TABLES, num, 0, false)
  {
    TablesValid();
    var raw := RenderFrom(TABLES, num, 0, false);
    RenderShape(TABLES, num, 0, false);
    CleanIdentity(raw);
    var r := FixLeadingTen(raw);
    if StartsWithOneTen(raw) {
      assert r == ['十'] + raw[2..];
      assert NoZeroRun(r) by {
        forall i | 0 <= i < |r| - 1 ensures !(r[i] == ZERO && r[i + 1] == ZERO) {
          if i > 0 { assert r[i] == raw[i + 1] && r[i + 1] == raw[i + 2]; }
        }
      }
      if |r| > 1 { assert r[|r| - 1] == raw[|raw| - 1]; }
    }
  }

  lemma ZeroReadsBack()
    ensures Read(NOTATION, "零") == 0
  {
    NotationReadsFivePositions();
    DigitIndex(TABLES, NOTATION, 5, 0);
    assert Fold(NOTATION, ReadState(0, 0, 0), "零") ==
           Fold(NOTATION, ReadState(0, 0, 0), "零"[1..]);
  }

  /** Rewriting a leading 一十 to 十 does not change what the text reads as. */
  lemma FixLeadingTenReads(s: string)
    ensures Read(NOTATION, FixLeadingTen(s)) == Read(NOTATION, s)
  {
    if StartsWithOneTen(s) {
      var init := ReadState(0, 0, 0);
      NotationReadsFivePositions();
      DigitIndex(TABLES, NOTATION, 5, 1);
      assert s == ['一', '十'] + s[2..];
      FoldAppend(NOTATION, init, ['一', '十'], s[2..]);
      FoldTwo(NOTATION, init, '一', '十');
      FoldAppend(NOTATION, init, ['十'], s[2..]);
      assert Fold(NOTATION, init, ['十']) == Fold(NOTATION, Step(NOTATION, init, '十'), []);
    }
  }

  /** Below 100000 (the positions whose units the table gets right) the text reads
      back as the number. */
  lemma ChineseReadsBack(num: int)
    requires 0 <= num < 100000
    ensures Read(NOTATION, ChineseNumeral(num)) == num
  {
    if num == 0 {
      ZeroReadsBack();
    } else {
      TablesValid();
      NotationReadsFivePositions();
      ChineseShape(num);
      var raw := RenderFrom(TABLES, num, 0, false);
      assert num * Pow10(0) < Pow10(5);
      ReadBack(TABLES, NOTATION, 5, num, 0, false, 0);
      FixLeadingTenReads(raw);
    }
  }

  /** Position 5 of the unit table holds 亿 (10^8), so 100000 is written 一亿,
      which reads as one hundred million. */
  lemma HundredThousandMisread(num: int)
    requires num == 100000
    ensures ChineseNumeral(num) == "一亿"
    ensures Read(NOTATION, "一亿") == 100000000
  {
    TablesValid();
    Pow10Values();
    OneAt(num, 5);
    ChineseShape(num);
    NotationReadsFivePositions();
    DigitIndex(TABLES, NOTATION, 5, 1);
    FoldTwo(NOTATION, ReadState(0, 0, 0), '一', '亿');
  }

  /** Past the seventh position the table read gives `undefined`, and its text
      ends up in the result. */
  lemma TenMillionUndefined(num: int)
    requires num == 10000000
    ensures ChineseNumeral(num) == "一undefined"
  {
    Pow10Values();
    assert Pow10(8) == 10 * Pow10(7);
    OneAt(num, 7);
    ChineseShape(num);
  }

  /** 10^j is written as 一 followed by the unit of position j. */
  lemma OneAt(num: nat, j: nat)
    requires num == Pow10(j)
    ensures RenderFrom(TABLES, num, 0, false) == "一" + UnitAt(UNITS, j)
  {
    TablesValid();
    assert num == 1 * Pow10(j);
    RenderTrailingZeros(TABLES, 1, 0, j);
    assert RenderFrom(TABLES, 1, j, false) == [] + Piece(TABLES, 1, j, false);
  }

  // ----- the evident intent: four-digit groups under 万 and 亿

  const GROUP_DIGIT_UNITS: seq<string> := ["", "十", "百", "千"]
  const GROUP_UNITS: seq<string> := ["", "万", "亿"]
  const GROUP_TABLES: Tables := Tables(DIGITS, GROUP_DIGIT_UNITS)

  lemma NotationReadsGroups()
    ensures ReadsGroups(GROUP_TABLES, NOTATION, GROUP_UNITS)
  {
    NotationReadsFivePositions();
    assert GROUP_DIGIT_UNITS == UNITS[..4];
    GroupUnitsRead();
  }

  lemma GroupUnitsRead()
    ensures forall g :: 1 <= g < |GROUP_UNITS| ==>
      |GROUP_UNITS[g]| == 1 && GROUP_UNITS[g][0] !in NOTATION.small &&
      GROUP_UNITS[g][0] in NOTATION.big && NOTATION.big[GROUP_UNITS[g][0]] == Pow10(4 * g)
  {
    Pow10Values();
  }

  /** Everyday numerals written group by group: each four-digit group with
      十/百/千, the groups joined by 万 and 亿, and a leading 一十 shortened to 十. */
  function IntendedChineseNumeral(num: nat): string {
    if num == 0 then "零"
    else
      NotationReadsGroups();
      FixLeadingTen(Grouped(GROUP_TABLES, GROUP_UNITS, num, 0, false))
  }

  /** Every number below 10^12 reads back from the grouped text. */
  lemma IntendedChineseReadsBack(num: nat)
    requires num < Pow10(12)
    ensures Read(NOTATION, IntendedChineseNumeral(num)) == num
  {
    if num == 0 {
      ZeroReadsBack();
    } else {
      NotationReadsGroups();
      assert num * Pow10(4 * 0) < Pow10(4 * |GROUP_UNITS|);
      GroupedReadBack(GROUP_TABLES, NOTATION, GROUP_UNITS, num, 0, false, 0);
      FixLeadingTenReads(Grouped(GROUP_TABLES, GROUP_UNITS, num, 0, false));
    }
  }

  /** Below 10^4 the source's text and the grouped text coincide. */
  lemma IntendedAgreesBelowTenThousand(num: nat)
    requires num < 10000
    ensures IntendedChineseNumeral(num) == ChineseNumeral(num)
  {
    if num > 0 {
      TablesValid();
      NotationReadsGroups();
      SameSingleGroup(num);
      GroupedSingle(GROUP_TABLES, GROUP_UNITS, num, 0);
      ChineseShape(num);
    }
  }

  lemma SameSingleGroup(num: nat)
    requires num < 10000
    ensures RenderFrom(GROUP_TABLES, num, 0, false) == RenderFrom(TABLES, num, 0, false)
  {
    TablesValid();
    NotationReadsGroups();
    assert num * Pow10(0) < Pow10(4) by { Pow10Values(); }
    SameRendering(TABLES, GROUP_TABLES, 4, num, 0, false);
  }
}
