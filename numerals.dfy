/** What `numberToChinese` and `numberToRMBChinese` share: the positional rendering
    that their digit loops perform (digit table, unit table, and the rule for 零), the
    clean-up chain of regular-expression replacements applied to the result, and a
    reader that gives the value a Chinese numeral denotes. */
module Numerals {

  const ZERO: char := '零'

  function Pow10(k: nat): (r: nat)
    ensures r >= 1
  {
    if k == 0 then 1 else 10 * Pow10(k - 1)
  }

  lemma Pow10Values()
    ensures Pow10(1) == 10 && Pow10(2) == 100 && Pow10(3) == 1000 && Pow10(4) == 10000
    ensures Pow10(5) == 100000 && Pow10(8) == 100000000 && Pow10(12) == 1000000000000
  {
    assert Pow10(4) == 10000;
    assert Pow10(6) == 1000000;
    assert Pow10(8) == 100000000;
    assert Pow10(10) == 10000000000;
  }

  lemma {:induction false} Pow10Monotone(j: nat, k: nat)
    requires j <= k
    ensures Pow10(j) <= Pow10(k)
  {
    if j < k { Pow10Monotone(j, k - 1); }
  }

  lemma {:induction false} Pow10Add(j: nat, k: nat)
    ensures Pow10(j + k) == Pow10(j) * Pow10(k)
  {
    if k > 0 {
      Pow10Add(j, k - 1);
      assert Pow10(j + k) == 10 * Pow10(j + k - 1);
    }
  }

  /** A positive multiple of 10^p below 10^k has p < k. */
  lemma PositionBelow(m: nat, p: nat, k: nat)
    requires m >= 1 && m * Pow10(p) < Pow10(k)
    ensures p < k
  {
    assert Pow10(p) <= m * Pow10(p);
    if p >= k {
      Pow10Monotone(k, p);
    }
  }

  /** Splitting off the lowest digit: m * 10^p is the digit times 10^p plus the rest
      shifted one place up. */
  lemma ShiftDigit(m: nat, p: nat)
    ensures m * Pow10(p) == (m / 10) * Pow10(p + 1) + (m % 10) * Pow10(p)
    ensures (m / 10) * Pow10(p + 1) <= m * Pow10(p)
  {
    var P := Pow10(p);
    assert Pow10(p + 1) == 10 * P;
    calc {
      (m / 10) * Pow10(p + 1) + (m % 10) * P;
      (m / 10) * (10 * P) + (m % 10) * P;
      { assert (m / 10) * (10 * P) == (10 * (m / 10)) * P; }
      (10 * (m / 10)) * P + (m % 10) * P;
      (10 * (m / 10) + m % 10) * P;
      m * P;
    }
  }

  /** Reading `table[i]` in JavaScript past the end of the array gives `undefined`,
      which string concatenation turns into the text "undefined". */
  function UnitAt(units: seq<string>, p: nat): (u: string)
    ensures p < |units| ==> u == units[p]
    ensures p >= |units| ==> u == "undefined"
  {
    if p < |units| then units[p] else "undefined"
  }

  /** The digit characters for 0..9 and the unit written after a digit at each
      decimal position. */
  datatype Tables = Tables(digits: seq<char>, units: seq<string>)

  predicate ValidTables(t: Tables) {
    |t.digits| == 10 && t.digits[0] == ZERO &&
    (forall d :: 1 <= d < 10 ==> t.digits[d] != ZERO) &&
    (forall p :: 0 <= p < |t.units| ==> ZERO !in t.units[p])
  }

  /** What the digit loop writes in front of the text built so far for digit `d` at
      position `p`: the digit and its unit when `d` is not zero; for a zero digit a
      single 零, but only when the digit just below it is not zero. */
  function Piece(t: Tables, d: nat, p: nat, belowNonZero: bool): string
    requires ValidTables(t) && d < 10
  {
    if d != 0 then [t.digits[d]] + UnitAt(t.units, p)
    else if belowNonZero then [ZERO]
    else []
  }

  /** The text of the decimal digits of `m`, placed at positions p, p+1, ...,
      most significant first; `belowNonZero` tells whether the digit at position
      p - 1 was non-zero. */
  function RenderFrom(t: Tables, m: nat, p: nat, belowNonZero: bool): string
    requires ValidTables(t)
    decreases m
  {
    if m == 0 then []
    else RenderFrom(t, m / 10, p + 1, m % 10 != 0) + Piece(t, m % 10, p, belowNonZero)
  }

  /** The flag that the loops carry: the text built so far starts with a digit
      other than 零 (equivalently: the last digit processed was not zero). */
  predicate StartsNonZero(s: string) {
    s != [] && s[0] != ZERO
  }

  predicate NoZeroRun(s: string) {
    forall i :: 0 <= i < |s| - 1 ==> !(s[i] == ZERO && s[i + 1] == ZERO)
  }

  predicate EndsWithZero(s: string) {
    s != [] && s[|s| - 1] == ZERO
  }

  lemma NoZeroRunAppend(a: string, b: string)
    requires NoZeroRun(a) && NoZeroRun(b)
    requires !(EndsWithZero(a) && b != [] && b[0] == ZERO)
    ensures NoZeroRun(a + b)
  {
    var s := a + b;
    forall i | 0 <= i < |s| - 1
      ensures !(s[i] == ZERO && s[i + 1] == ZERO)
    {
      if i + 1 < |a| {
        assert s[i] == a[i] && s[i + 1] == a[i + 1];
      } else if i >= |a| {
        assert s[i] == b[i - |a|] && s[i + 1] == b[i - |a| + 1];
      }
    }
  }

  /** The rendering never writes 零 twice in a row, starts with a non-zero digit,
      and ends with 零 only if the lowest digit is zero and the one below it was not. */
  lemma {:induction false} RenderShape(t: Tables, m: nat, p: nat, b: bool)
    requires ValidTables(t)
    ensures var r := RenderFrom(t, m, p, b);
      NoZeroRun(r) &&
      (m > 0 ==> StartsNonZero(r)) &&
      (m == 0 ==> r == []) &&
      (EndsWithZero(r) ==> b && m % 10 == 0)
    decreases m
  {
    if m > 0 {
      var d := m % 10;
      var rest := RenderFrom(t, m / 10, p + 1, d != 0);
      var piece := Piece(t, d, p, b);
      RenderShape(t, m / 10, p + 1, d != 0);
      assert RenderFrom(t, m, p, b) == rest + piece;
      var u := UnitAt(t.units, p);
      assert ZERO !in u by {
        if p < |t.units| { assert u == t.units[p]; } else { assert u == "undefined"; }
      }
      assert NoZeroRun(piece) && (EndsWithZero(piece) ==> b && d == 0) by {
        if d != 0 {
          assert piece == [t.digits[d]] + u;
          assert forall i :: 0 <= i < |piece| ==> piece[i] != ZERO by {
            forall i | 0 <= i < |piece| ensures piece[i] != ZERO {
              if i > 0 { assert piece[i] == u[i - 1]; }
            }
          }
        }
      }
      assert piece != [] ==> piece[0] != ZERO || (d == 0 && b);
      NoZeroRunAppend(rest, piece);
      if rest == [] {
        assert m / 10 == 0;
        assert d != 0;
      }
    }
  }

  /** Two tables that agree on the digits and on the units of the positions a
      number occupies render it alike. */
  lemma {:induction false} SameRendering(t1: Tables, t2: Tables, k: nat, m: nat, p: nat, b: bool)
    requires ValidTables(t1) && ValidTables(t2) && t1.digits == t2.digits
    requires k <= |t1.units| && k <= |t2.units| && t1.units[..k] == t2.units[..k]
    requires m * Pow10(p) < Pow10(k)
    ensures RenderFrom(t1, m, p, b) == RenderFrom(t2, m, p, b)
    decreases m
  {
    if m > 0 {
      ShiftDigit(m, p);
      SameRendering(t1, t2, k, m / 10, p + 1, m % 10 != 0);
      if m % 10 != 0 {
        assert (m % 10) * Pow10(p) <= m * Pow10(p);
        PositionBelow(m % 10, p, k);
        assert t1.units[p] == t1.units[..k][p] == t2.units[..k][p] == t2.units[p];
      }
    }
  }

  /** Trailing zero digits write nothing: the rendering of m * 10^j from position p
      is the rendering of m from position p + j. */
  lemma {:induction false} RenderTrailingZeros(t: Tables, m: nat, p: nat, j: nat)
    requires ValidTables(t)
    ensures RenderFrom(t, m * Pow10(j), p, false) == RenderFrom(t, m, p + j, false)
    decreases j
  {
    if j > 0 {
      var M := ShiftOneZero(m, j);
      RenderTrailingZeros(t, m, p + 1, j - 1);
      if M > 0 {
        ZeroDigitWritesNothing(t, 10 * M, M, p);
      }
    }
  }

  /** A trailing zero digit with nothing non-zero below it writes nothing. */
  lemma ZeroDigitWritesNothing(t: Tables, m: nat, q: nat, p: nat)
    requires ValidTables(t) && m > 0 && m / 10 == q && m % 10 == 0
    ensures RenderFrom(t, m, p, false) == RenderFrom(t, q, p + 1, false)
  {
    assert Piece(t, m % 10, p, false) == [];
  }

  lemma ShiftOneZero(m: nat, j: nat) returns (M: nat)
    requires j > 0
    ensures M == m * Pow10(j - 1) && m * Pow10(j) == 10 * M
    ensures (10 * M) / 10 == M && (10 * M) % 10 == 0
  {
    M := m * Pow10(j - 1);
    assert Pow10(j) == 10 * Pow10(j - 1);
    assert m * (10 * Pow10(j - 1)) == 10 * M;
  }

  /** A character that is neither a digit, nor in a unit, nor in the text
      "undefined" never appears in a rendering. */
  lemma {:induction false} RenderAvoids(t: Tables, m: nat, p: nat, b: bool, x: char)
    requires ValidTables(t) && x !in t.digits && x !in "undefined"
    requires forall q :: 0 <= q < |t.units| ==> x !in t.units[q]
    ensures x !in RenderFrom(t, m, p, b)
    decreases m
  {
    if m > 0 {
      RenderAvoids(t, m / 10, p + 1, m % 10 != 0, x);
      assert x !in Piece(t, m % 10, p, b);
    }
  }

  /** One turn of the digit loops: writing the lowest digit's piece in front of the
      text built so far keeps "rendering of the rest + text so far" unchanged, and
      the text then starts with a non-zero digit exactly when that digit was not 0. */
  lemma RenderStep(t: Tables, m: nat, p: nat, str: string)
    requires ValidTables(t) && m > 0
    ensures var next := Piece(t, m % 10, p, StartsNonZero(str)) + str;
      RenderFrom(t, m, p, StartsNonZero(str)) + str ==
        RenderFrom(t, m / 10, p + 1, StartsNonZero(next)) + next &&
      StartsNonZero(next) == (m % 10 != 0)
  {
    var d := m % 10;
    var b := StartsNonZero(str);
    var piece := Piece(t, d, p, b);
    var rest := RenderFrom(t, m / 10, p + 1, d != 0);
    var next := piece + str;
    PieceStarts(t, d, p, str);
    assert StartsNonZero(next) == (d != 0);
    assert RenderFrom(t, m / 10, p + 1, StartsNonZero(next)) == rest;
    RenderUnfold(t, m, p, b);
    AppendAssoc(rest, piece, str);
  }

  lemma AppendAssoc(a: string, b: string, c: string)
    ensures a + b + c == a + (b + c)
  {
  }

  lemma RenderUnfold(t: Tables, m: nat, p: nat, b: bool)
    requires ValidTables(t) && m > 0
    ensures RenderFrom(t, m, p, b) == RenderFrom(t, m / 10, p + 1, m % 10 != 0) + Piece(t, m % 10, p, b)
  {
  }

  /** The text after writing a digit's piece starts with a non-zero digit exactly
      when that digit is not 0. */
  lemma PieceStarts(t: Tables, d: nat, p: nat, str: string)
    requires ValidTables(t) && d < 10
    ensures StartsNonZero(Piece(t, d, p, StartsNonZero(str)) + str) == (d != 0)
  {
    var b := StartsNonZero(str);
    var next := Piece(t, d, p, b) + str;
    if d != 0 {
      assert next[0] == t.digits[d] != ZERO;
    } else if b {
      assert next[0] == ZERO;
    } else {
      assert next == str;
    }
  }

  // ----- the clean-up chain `replace(/零+/g, '零').replace(/零+$/, '').replace(/^零/, '')`

  /** Removes the run of 零 at the start. */
  function DropLeadingZeros(s: string): (r: string)
    ensures |r| <= |s| && r == s[|s| - |r|..]
    ensures r == [] || r[0] != ZERO
    ensures forall i :: 0 <= i < |s| - |r| ==> s[i] == ZERO
  {
    if s != [] && s[0] == ZERO then DropLeadingZeros(s[1..]) else s
  }

  /** `replace(/零+/g, '零')`: each maximal run of 零 becomes a single 零. */
  function CollapseZeros(s: string): (r: string)
    decreases |s|
  {
    if s == [] then []
    else if s[0] == ZERO then [ZERO] + CollapseZeros(DropLeadingZeros(s[1..]))
    else [s[0]] + CollapseZeros(s[1..])
  }

  /** `replace(/零+$/, '')`: removes the run of 零 at the end. */
  function TrimTrailingZeros(s: string): (r: string)
  {
    if s != [] && s[|s| - 1] == ZERO then TrimTrailingZeros(s[..|s| - 1]) else s
  }

  /** `replace(/^零/, '')`: removes one 零 at the start. */
  function TrimLeadingZero(s: string): (r: string)
  {
    if s != [] && s[0] == ZERO then s[1..] else s
  }

  /** The whole clean-up chain, in the order the source applies it. */
  function Clean(s: string): string {
    TrimLeadingZero(TrimTrailingZeros(CollapseZeros(s)))
  }

  /** The text with every 零 removed: what the clean-up must preserve. */
  function NonZeros(s: string): (r: string)
    ensures ZERO !in r
  {
    if s == [] then [] else (if s[0] == ZERO then [] else [s[0]]) + NonZeros(s[1..])
  }

  lemma {:induction false} NonZerosAppend(a: string, b: string)
    ensures NonZeros(a + b) == NonZeros(a) + NonZeros(b)
  {
    if a != [] {
      var head := if a[0] == ZERO then [] else [a[0]];
      assert (a + b)[0] == a[0];
      assert (a + b)[1..] == a[1..] + b;
      NonZerosAppend(a[1..], b);
      calc {
        NonZeros(a + b);
        head + NonZeros(a[1..] + b);
        head + (NonZeros(a[1..]) + NonZeros(b));
        (head + NonZeros(a[1..])) + NonZeros(b);
        NonZeros(a) + NonZeros(b);
      }
    } else {
      assert a + b == b;
    }
  }

  lemma {:induction false} NonZerosOfZeros(s: string)
    requires forall i :: 0 <= i < |s| ==> s[i] == ZERO
    ensures NonZeros(s) == []
  {
    if s != [] { NonZerosOfZeros(s[1..]); }
  }

  lemma CollapseZerosShape(s: string)
    ensures var r := CollapseZeros(s);
      NoZeroRun(r) && NonZeros(r) == NonZeros(s) &&
      (r == [] <==> s == []) &&
      (r != [] ==> (r[0] == ZERO <==> s[0] == ZERO)) &&
      (forall c :: c in r ==> c in s)
  {
    CollapseZerosRuns(s);
    CollapseZerosKeeps(s);
    CollapseZerosChars(s);
  }

  lemma {:induction false} CollapseZerosRuns(s: string)
    ensures var r := CollapseZeros(s);
      NoZeroRun(r) && (r == [] <==> s == []) && (r != [] ==> (r[0] == ZERO <==> s[0] == ZERO))
    decreases |s|
  {
    if s != [] {
      if s[0] == ZERO {
        var rest := DropLeadingZeros(s[1..]);
        CollapseZerosRuns(rest);
        var cr := CollapseZeros(rest);
        assert CollapseZeros(s) == [ZERO] + cr;
        NoZeroRunAppend([ZERO], cr);
      } else {
        CollapseZerosRuns(s[1..]);
        var cr := CollapseZeros(s[1..]);
        assert CollapseZeros(s) == [s[0]] + cr;
        NoZeroRunAppend([s[0]], cr);
      }
    }
  }

  lemma {:induction false} CollapseZerosKeeps(s: string)
    ensures NonZeros(CollapseZeros(s)) == NonZeros(s)
    decreases |s|
  {
    if s != [] {
      var r := CollapseZeros(s);
      if s[0] == ZERO {
        var rest := DropLeadingZeros(s[1..]);
        CollapseZerosKeeps(rest);
        DropLeadingZerosKeeps(s[1..]);
        assert r[0] == ZERO && r[1..] == CollapseZeros(rest);
        assert NonZeros(r) == NonZeros(r[1..]);
      } else {
        CollapseZerosKeeps(s[1..]);
        assert r[0] == s[0] && r[1..] == CollapseZeros(s[1..]);
        assert NonZeros(r) == [s[0]] + NonZeros(r[1..]);
      }
    }
  }

  lemma {:induction false} DropLeadingZerosKeeps(s: string)
    ensures NonZeros(DropLeadingZeros(s)) == NonZeros(s)
    decreases |s|
  {
    if s != [] && s[0] == ZERO {
      DropLeadingZerosKeeps(s[1..]);
    }
  }

  lemma {:induction false} CollapseZerosChars(s: string)
    ensures forall c :: c in CollapseZeros(s) ==> c in s
    decreases |s|
  {
    if s != [] {
      var r := CollapseZeros(s);
      if s[0] == ZERO {
        var rest := DropLeadingZeros(s[1..]);
        CollapseZerosChars(rest);
        assert r == [ZERO] + CollapseZeros(rest);
        forall c | c in r ensures c in s {
          if c != ZERO { assert c in rest; }
        }
      } else {
        CollapseZerosChars(s[1..]);
        assert r == [s[0]] + CollapseZeros(s[1..]);
      }
    }
  }

  /** Two 零 in a row collapse like one: with `CollapseZerosIdentity`, this fixes
      `CollapseZeros` on every text, since any text reaches a text without runs by
      merging neighbouring 零 one pair at a time. */
  lemma CollapseZerosMerge(a: string, b: string)
    ensures CollapseZeros(a + [ZERO, ZERO] + b) == CollapseZeros(a + [ZERO] + b)
  {
    var x := [ZERO] + b;
    assert a + [ZERO, ZERO] + b == a + ([ZERO] + x);
    assert a + [ZERO] + b == a + x;
    MergeBefore(a, x);
  }

  lemma {:induction false} MergeBefore(a: string, x: string)
    requires x != [] && x[0] == ZERO
    ensures CollapseZeros(a + ([ZERO] + x)) == CollapseZeros(a + x)
    decreases |a|, 1
  {
    if a == [] {
      var y := [ZERO] + x;
      assert a + y == y && a + x == x;
      assert y[1..] == x;
      assert DropLeadingZeros(x) == DropLeadingZeros(x[1..]);
    } else if a[0] == ZERO {
      MergeAfterZero(a, x);
    } else {
      MergeAfterOther(a, x);
    }
  }

  lemma {:induction false} MergeAfterZero(a: string, x: string)
    requires x != [] && x[0] == ZERO && a != [] && a[0] == ZERO
    ensures CollapseZeros(a + ([ZERO] + x)) == CollapseZeros(a + x)
    decreases |a|, 0
  {
    var y := [ZERO] + x;
    var rest := a[1..];
    CollapseStep(a, y);
    CollapseStep(a, x);
    var d := DropLeadingZeros(rest);
    DropLeadingZerosAppend(rest, y);
    DropLeadingZerosAppend(rest, x);
    if d == [] {
      DropOneZero(x);
      assert DropLeadingZeros(rest + y) == DropLeadingZeros(rest + x);
    } else {
      assert DropLeadingZeros(rest + y) == d + y;
      assert DropLeadingZeros(rest + x) == d + x;
      MergeBefore(d, x);
    }
    assert CollapseZeros(DropLeadingZeros(rest + y)) == CollapseZeros(DropLeadingZeros(rest + x));
  }

  /** A 零 in front of a text that starts with 零 is dropped with the rest. */
  lemma DropOneZero(x: string)
    requires x != [] && x[0] == ZERO
    ensures DropLeadingZeros([ZERO] + x) == DropLeadingZeros(x)
  {
    assert ([ZERO] + x)[1..] == x;
  }

  lemma {:induction false} MergeAfterOther(a: string, x: string)
    requires x != [] && x[0] == ZERO && a != [] && a[0] != ZERO
    ensures CollapseZeros(a + ([ZERO] + x)) == CollapseZeros(a + x)
    decreases |a|, 0
  {
    CollapseStep(a, [ZERO] + x);
    CollapseStep(a, x);
    MergeBefore(a[1..], x);
  }

  /** One step of `CollapseZeros` on a text that starts with a non-empty part. */
  lemma CollapseStep(a: string, x: string)
    requires a != []
    ensures CollapseZeros(a + x) ==
      if a[0] == ZERO then [ZERO] + CollapseZeros(DropLeadingZeros(a[1..] + x))
      else [a[0]] + CollapseZeros(a[1..] + x)
  {
    TailOfAppend(a, x);
  }

  lemma TailOfAppend(a: string, x: string)
    requires a != []
    ensures (a + x)[0] == a[0] && (a + x)[1..] == a[1..] + x
  {
  }

  /** Leading 零 of a text followed by more text: those of the first part, and
      those of the second part when the first part is all 零. */
  lemma {:induction false} DropLeadingZerosAppend(a: string, x: string)
    ensures DropLeadingZeros(a + x) ==
      if DropLeadingZeros(a) == [] then DropLeadingZeros(x) else DropLeadingZeros(a) + x
    decreases |a|
  {
    if a == [] {
      assert a + x == x;
    } else {
      assert (a + x)[0] == a[0] && (a + x)[1..] == a[1..] + x;
      if a[0] == ZERO {
        DropLeadingZerosAppend(a[1..], x);
      }
    }
  }

  lemma {:induction false} CollapseZerosIdentity(s: string)
    requires NoZeroRun(s)
    ensures CollapseZeros(s) == s
    decreases |s|
  {
    if s != [] {
      assert NoZeroRun(s[1..]) by {
        forall i | 0 <= i < |s[1..]| - 1 ensures !(s[1..][i] == ZERO && s[1..][i + 1] == ZERO) {
          assert s[1..][i] == s[i + 1] && s[1..][i + 1] == s[i + 2];
        }
      }
      if s[0] == ZERO {
        assert s[1..] == [] || s[1..][0] != ZERO by {
          if |s| > 1 { assert !(s[0] == ZERO && s[1] == ZERO); }
        }
        assert DropLeadingZeros(s[1..]) == s[1..];
      }
      CollapseZerosIdentity(s[1..]);
    }
  }

  lemma {:induction false} TrimTrailingZerosShape(s: string)
    ensures var r := TrimTrailingZeros(s);
      |r| <= |s| && r == s[..|r|] && !EndsWithZero(r) &&
      (forall i :: |r| <= i < |s| ==> s[i] == ZERO)
    decreases |s|
  {
    if s != [] && s[|s| - 1] == ZERO {
      TrimTrailingZerosShape(s[..|s| - 1]);
    }
  }

  lemma NoZeroRunPrefix(s: string, n: nat)
    requires NoZeroRun(s) && n <= |s|
    ensures NoZeroRun(s[..n])
  {
    forall i | 0 <= i < n - 1 ensures !(s[..n][i] == ZERO && s[..n][i + 1] == ZERO) {
      assert s[..n][i] == s[i] && s[..n][i + 1] == s[i + 1];
    }
  }

  lemma TrimTrailingAfterCollapse(s: string)
    ensures var b := TrimTrailingZeros(CollapseZeros(s));
      NoZeroRun(b) && !EndsWithZero(b) &&
      NonZeros(b) == NonZeros(s) && (forall c :: c in b ==> c in s)
  {
    var a := CollapseZeros(s);
    CollapseZerosShape(s);
    var b := TrimTrailingZeros(a);
    TrimTrailingZerosShape(a);
    NoZeroRunPrefix(a, |b|);
    assert a == b + a[|b|..];
    NonZerosAppend(b, a[|b|..]);
    NonZerosOfZeros(a[|b|..]);
    assert forall c :: c in b ==> c in a;
  }

  lemma TrimLeadingZeroShape(b: string)
    requires NoZeroRun(b) && !EndsWithZero(b)
    ensures var r := TrimLeadingZero(b);
      NoZeroRun(r) && !EndsWithZero(r) && !(r != [] && r[0] == ZERO) &&
      NonZeros(r) == NonZeros(b) && (forall c :: c in r ==> c in b) &&
      (b == r || b == [ZERO] + r)
  {
    var r := TrimLeadingZero(b);
    if b != [] && b[0] == ZERO {
      assert r == b[1..];
      assert b == [ZERO] + r;
      NonZerosAppend([ZERO], r);
      assert |b| >= 2 ==> !(b[0] == ZERO && b[1] == ZERO);
      assert NoZeroRun(r) by {
        forall i | 0 <= i < |r| - 1 ensures !(r[i] == ZERO && r[i + 1] == ZERO) {
          assert r[i] == b[i + 1] && r[i + 1] == b[i + 2];
        }
      }
      if r != [] { assert r[|r| - 1] == b[|b| - 1]; }
    }
  }

  /** After the clean-up there is no run of 零, no 零 at either end, and the other
      characters are those of the input, in order. */
  lemma CleanShape(s: string)
    ensures var r := Clean(s);
      NoZeroRun(r) && !EndsWithZero(r) && !(r != [] && r[0] == ZERO) &&
      NonZeros(r) == NonZeros(s) && (forall c :: c in r ==> c in s)
  {
    TrimTrailingAfterCollapse(s);
    TrimLeadingZeroShape(TrimTrailingZeros(CollapseZeros(s)));
  }

  /** Text that is already clean passes through the clean-up unchanged. */
  lemma CleanIdentity(s: string)
    requires NoZeroRun(s) && !EndsWithZero(s) && !(s != [] && s[0] == ZERO)
    ensures Clean(s) == s
  {
    CollapseZerosIdentity(s);
  }

  // ----- reading a numeral back

  /** How a numeral is read: the digit characters (by index), the units inside a
      four-digit group (十, 百, 千) and the group units (万, 亿) with their values. */
  datatype Notation = Notation(digits: seq<char>, small: map<char, nat>, big: map<char, nat>)

  /** The reader's state: the value of the completed groups, the value of the
      current group so far, and the last digit read that no unit has taken yet. */
  datatype ReadState = ReadState(total: nat, group: nat, digit: nat)

  function IndexOf(s: seq<char>, c: char): (r: Found)
    ensures r.Index? ==> r.value < |s| && s[r.value] == c && c !in s[..r.value]
    ensures r.NoIndex? ==> c !in s
  {
    if s == [] then NoIndex
    else if s[0] == c then Index(0)
    else match IndexOf(s[1..], c)
      case Index(i) => Index(i + 1)
      case NoIndex => NoIndex
  }

  /** Where a character was found in a table, if anywhere. */
  datatype Found = NoIndex | Index(value: nat)

  /** The standard reading of one character: a digit waits for its unit (or for
      the end); a small unit multiplies the waiting digit (a bare 十 counts as
      one ten) into the group; a group unit multiplies the group and the waiting
      digit into the total. Other characters are skipped. */
  function Step(n: Notation, st: ReadState, c: char): ReadState {
    if c in n.small then
      ReadState(st.total, st.group + (if st.digit == 0 then 1 else st.digit) * n.small[c], 0)
    else if c in n.big then
      ReadState(st.total + (st.group + st.digit) * n.big[c], 0, 0)
    else match IndexOf(n.digits, c)
      case Index(d) => ReadState(st.total, st.group, d)
      case NoIndex => st
  }

  function Fold(n: Notation, st: ReadState, s: string): ReadState
    decreases |s|
  {
    if s == [] then st else Fold(n, Step(n, st, s[0]), s[1..])
  }

  function Amount(st: ReadState): nat {
    st.total + st.group + st.digit
  }

  /** The value a numeral denotes. */
  function Read(n: Notation, s: string): nat {
    Amount(Fold(n, ReadState(0, 0, 0), s))
  }

  lemma {:induction false} FoldAppend(n: Notation, st: ReadState, a: string, b: string)
    ensures Fold(n, st, a + b) == Fold(n, Fold(n, st, a), b)
    decreases |a|
  {
    if a != [] {
      assert (a + b)[0] == a[0];
      assert (a + b)[1..] == a[1..] + b;
      FoldAppend(n, Step(n, st, a[0]), a[1..], b);
    } else {
      assert a + b == b;
    }
  }

  /** The notation reads the tables' first `k` positions with their place values:
      the digits are the tables' own, positions 1..3 carry small units worth 10,
      100, 1000, and position 4 (if `k` reaches it) carries the group unit 万. */
  predicate ReadsPositions(t: Tables, n: Notation, k: nat) {
    ValidTables(t) && n.digits == t.digits &&
    (forall i, j :: 0 <= i < j < 10 ==> t.digits[i] != t.digits[j]) &&
    (forall d :: 0 <= d < 10 ==> t.digits[d] !in n.small && t.digits[d] !in n.big) &&
    1 <= k <= 5 && k <= |t.units| && t.units[0] == [] &&
    (forall q :: 1 <= q < k && q <= 3 ==>
       |t.units[q]| == 1 && t.units[q][0] in n.small && n.small[t.units[q][0]] == Pow10(q)) &&
    (k == 5 ==>
       |t.units[4]| == 1 && t.units[4][0] !in n.small && t.units[4][0] in n.big &&
       n.big[t.units[4][0]] == Pow10(4))
  }

  lemma DigitIndex(t: Tables, n: Notation, k: nat, d: nat)
    requires ReadsPositions(t, n, k) && d < 10
    ensures IndexOf(n.digits, t.digits[d]) == Index(d)
  {
    var c := t.digits[d];
    var r := IndexOf(n.digits, c);
    assert n.digits[d] == c;
    assert r.Index?;
    var i := r.value;
    assert n.digits[i] == c;
    assert i == d;
  }

  lemma FoldTwo(n: Notation, st: ReadState, c: char, u: char)
    ensures Fold(n, st, [c, u]) == Step(n, Step(n, st, c), u)
  {
    assert [c, u][1..] == [u];
    assert [u][1..] == [];
    calc {
      Fold(n, st, [c, u]);
      Fold(n, Step(n, st, c), [u]);
      Fold(n, Step(n, Step(n, st, c), u), []);
    }
  }

  /** Reading one piece: a zero piece changes nothing, a non-zero digit adds its
      place value (position 4 only from a state with no open group). */
  lemma PieceReadBack(t: Tables, n: Notation, k: nat, d: nat, p: nat, b: bool, st: ReadState)
    requires ReadsPositions(t, n, k) && d < 10 && st.digit == 0
    requires d != 0 ==> p < k && (p == 4 ==> st.group == 0)
    ensures var st2 := Fold(n, st, Piece(t, d, p, b));
      Amount(st2) == Amount(st) + d * Pow10(p) &&
      (p >= 1 ==> st2.digit == 0) &&
      (k <= 4 ==> st2.total == st.total)
  {
    if d == 0 {
      ZeroPieceRead(t, n, k, p, b, st);
    } else {
      DigitIndex(t, n, k, d);
      if p == 0 {
        DigitPieceRead(t, n, k, d, b, st);
      } else if p <= 3 {
        SmallPieceRead(t, n, k, d, p, b, st);
      } else {
        BigPieceRead(t, n, k, d, p, b, st);
      }
    }
  }

  lemma ZeroPieceRead(t: Tables, n: Notation, k: nat, p: nat, b: bool, st: ReadState)
    requires ReadsPositions(t, n, k) && st.digit == 0
    ensures Fold(n, st, Piece(t, 0, p, b)) == st
  {
    if b {
      DigitIndex(t, n, k, 0);
      assert Piece(t, 0, p, b) == [ZERO];
      assert Fold(n, st, [ZERO]) == Step(n, st, ZERO);
    } else {
      assert Piece(t, 0, p, b) == [];
    }
  }

  lemma DigitPieceRead(t: Tables, n: Notation, k: nat, d: nat, b: bool, st: ReadState)
    requires ReadsPositions(t, n, k) && 1 <= d < 10
    requires IndexOf(n.digits, t.digits[d]) == Index(d)
    ensures Fold(n, st, Piece(t, d, 0, b)) == ReadState(st.total, st.group, d)
  {
    var c := t.digits[d];
    assert Piece(t, d, 0, b) == [c];
    assert Fold(n, st, [c]) == Step(n, st, c);
  }

  lemma SmallPieceRead(t: Tables, n: Notation, k: nat, d: nat, p: nat, b: bool, st: ReadState)
    requires ReadsPositions(t, n, k) && 1 <= d < 10 && 1 <= p <= 3 && p < k && st.digit == 0
    requires IndexOf(n.digits, t.digits[d]) == Index(d)
    ensures Fold(n, st, Piece(t, d, p, b)) == ReadState(st.total, st.group + d * Pow10(p), 0)
  {
    var c := t.digits[d];
    var u := t.units[p][0];
    assert |t.units[p]| == 1 && u in n.small && n.small[u] == Pow10(p);
    assert Piece(t, d, p, b) == [c, u];
    FoldTwo(n, st, c, u);
    assert c !in n.small && c !in n.big;
    assert Step(n, st, c) == ReadState(st.total, st.group, d);
  }

  lemma BigPieceRead(t: Tables, n: Notation, k: nat, d: nat, p: nat, b: bool, st: ReadState)
    requires ReadsPositions(t, n, k) && 1 <= d < 10 && p == 4 && p < k && st.digit == 0 && st.group == 0
    requires IndexOf(n.digits, t.digits[d]) == Index(d)
    ensures Fold(n, st, Piece(t, d, p, b)) == ReadState(st.total + d * Pow10(4), 0, 0)
  {
    var c := t.digits[d];
    var u := t.units[4][0];
    assert k == 5;
    assert |t.units[4]| == 1 && u !in n.small && u in n.big && n.big[u] == Pow10(4);
    assert Piece(t, d, p, b) == [c, u];
    FoldTwo(n, st, c, u);
    assert c !in n.small && c !in n.big;
    assert Step(n, st, c) == ReadState(st.total, st.group, d);
  }

  lemma TopPosition(m: nat, k: nat)
    requires k <= 5 && m * Pow10(4) < Pow10(k)
    ensures m < 10
  {
    Pow10Monotone(k, 5);
    assert Pow10(5) == 10 * Pow10(4);
  }

  /** The arithmetic of one step of `ReadBack`: the value splits into the rest
      shifted up one position plus the lowest digit, the rest still fits below
      10^k, and a non-zero lowest digit sits below position k (and at position 4
      only as the highest digit). */
  lemma ReadBackArith(m: nat, p: nat, k: nat)
    requires 0 < m && k <= 5 && m * Pow10(p) < Pow10(k)
    ensures m * Pow10(p) == (m / 10) * Pow10(p + 1) + (m % 10) * Pow10(p)
    ensures (m / 10) * Pow10(p + 1) < Pow10(k)
    ensures m % 10 != 0 ==> p < k && (p == 4 ==> m / 10 == 0)
  {
    ShiftDigit(m, p);
    var d := m % 10;
    if d != 0 {
      assert d * Pow10(p) <= m * Pow10(p);
      PositionBelow(d, p, k);
      if p == 4 {
        TopPosition(m, k);
      }
    }
  }

  /** Reading back a rendering of digits at positions below `k`, starting from a
      state with no open group, adds exactly the rendered value; below position 4
      nothing reaches the total, and above position 0 no digit is left waiting. */
  lemma {:induction false} ReadBack(t: Tables, n: Notation, k: nat, m: nat, p: nat, b: bool, total: nat)
    requires ReadsPositions(t, n, k)
    requires m * Pow10(p) < Pow10(k)
    ensures var st := Fold(n, ReadState(total, 0, 0), RenderFrom(t, m, p, b));
      Amount(st) == total + m * Pow10(p) &&
      (p >= 1 ==> st.digit == 0) &&
      (k <= 4 ==> st.total == total)
    decreases m
  {
    var st0 := ReadState(total, 0, 0);
    if m == 0 {
      assert RenderFrom(t, m, p, b) == [];
      assert Fold(n, st0, []) == st0;
    } else {
      var d := m % 10;
      var rest := RenderFrom(t, m / 10, p + 1, d != 0);
      var piece := Piece(t, d, p, b);
      assert RenderFrom(t, m, p, b) == rest + piece;
      ReadBackArith(m, p, k);
      var value := m * Pow10(p);
      var high := (m / 10) * Pow10(p + 1);
      var low := d * Pow10(p);
      assert value == high + low;
      ReadBack(t, n, k, m / 10, p + 1, d != 0, total);
      var st1 := Fold(n, st0, rest);
      assert Amount(st1) == total + high;
      if d != 0 && p == 4 {
        assert rest == [];
      }
      PieceReadBack(t, n, k, d, p, b, st1);
      var st2 := Fold(n, st1, piece);
      FoldAppend(n, st0, rest, piece);
      assert Fold(n, st0, rest + piece) == st2;
      assert Amount(st2) == total + value;
    }
  }

  // ----- the standard four-digit grouping, as the source evidently intended

  /** Groups of four digits from group `g` upward, most significant first: each
      non-zero group is its four-digit rendering followed by its group unit, and
      a single 零 follows a group whose next lower group lies strictly between
      0 and 1000 (`lowerNeedsZero`, as computed for group g - 1). */
  function Grouped(t: Tables, groupUnits: seq<string>, q: nat, g: nat, lowerNeedsZero: bool): string
    requires ValidTables(t)
    decreases q
  {
    if q == 0 then []
    else
      var sec := q % 10000;
      Grouped(t, groupUnits, q / 10000, g + 1, 0 < sec < 1000) +
      RenderFrom(t, sec, 0, false) +
      (if sec != 0 then UnitAt(groupUnits, g) else []) +
      (if lowerNeedsZero then [ZERO] else [])
  }

  /** A number below 10^4 is one group: its rendering followed by the group's unit. */
  lemma GroupedSingle(t: Tables, groupUnits: seq<string>, q: nat, g: nat)
    requires ValidTables(t) && 0 < q < 10000
    ensures Grouped(t, groupUnits, q, g, false) == RenderFrom(t, q, 0, false) + UnitAt(groupUnits, g)
  {
    assert q / 10000 == 0 && q % 10000 == q;
    assert Grouped(t, groupUnits, 0, g + 1, 0 < q < 1000) == [];
    assert Grouped(t, groupUnits, q, g, false) == [] + RenderFrom(t, q, 0, false) + UnitAt(groupUnits, g) + [];
  }

  /** The notation reads every group unit of `groupUnits` with its value 10^(4g). */
  predicate ReadsGroups(t: Tables, n: Notation, groupUnits: seq<string>) {
    ReadsPositions(t, n, 4) && 1 <= |groupUnits| && groupUnits[0] == [] &&
    forall g :: 1 <= g < |groupUnits| ==>
      |groupUnits[g]| == 1 && groupUnits[g][0] !in n.small && groupUnits[g][0] in n.big &&
      n.big[groupUnits[g][0]] == Pow10(4 * g)
  }

  lemma GroupShift(q: nat, g: nat)
    ensures q * Pow10(4 * g) == (q / 10000) * Pow10(4 * (g + 1)) + (q % 10000) * Pow10(4 * g)
    ensures (q / 10000) * Pow10(4 * (g + 1)) <= q * Pow10(4 * g)
  {
    var P := Pow10(4 * g);
    Pow10Add(4 * g, 4);
    assert Pow10(4) == 10000;
    assert Pow10(4 * (g + 1)) == P * 10000;
    assert (q / 10000) * (P * 10000) == (10000 * (q / 10000)) * P;
    assert (10000 * (q / 10000)) * P + (q % 10000) * P == (10000 * (q / 10000) + q % 10000) * P;
  }

  /** One group followed by its unit, read from a state with no open group. */
  lemma GroupReadBack(t: Tables, n: Notation, groupUnits: seq<string>, sec: nat, g: nat, total: nat)
    requires ReadsGroups(t, n, groupUnits)
    requires sec < 10000 && (sec != 0 && g >= 1 ==> g < |groupUnits|)
    ensures var st := Fold(n, ReadState(total, 0, 0),
                           RenderFrom(t, sec, 0, false) + (if sec != 0 then UnitAt(groupUnits, g) else []));
      Amount(st) == total + sec * Pow10(4 * g) &&
      (g >= 1 ==> st.group == 0 && st.digit == 0)
  {
    var st0 := ReadState(total, 0, 0);
    var body := RenderFrom(t, sec, 0, false);
    var unit := if sec != 0 then UnitAt(groupUnits, g) else [];
    assert sec * Pow10(0) < Pow10(4);
    ReadBack(t, n, 4, sec, 0, false, total);
    var st2 := Fold(n, st0, body);
    FoldAppend(n, st0, body, unit);
    var st := Fold(n, st0, body + unit);
    assert st == Fold(n, st2, unit);
    assert Amount(st2) == total + sec && st2.total == total;
    if sec != 0 && g >= 1 {
      var u := groupUnits[g][0];
      var P := Pow10(4 * g);
      assert unit == [u];
      assert Fold(n, st2, unit) == Step(n, st2, u);
      assert u !in n.small && u in n.big && n.big[u] == P;
      assert st2.group + st2.digit == sec;
      assert st == ReadState(total + sec * P, 0, 0);
    } else if sec != 0 {
      assert unit == [] && Pow10(4 * g) == 1;
      assert st == st2;
    } else {
      assert body == [] && unit == [];
      assert st == st0;
    }
  }

  /** The arithmetic of one step of `GroupedReadBack`: the value of the groups above
      (`high`) and of the lowest group (`low`). */
  lemma GroupedArith(q: nat, g: nat, groups: nat) returns (high: nat, low: nat)
    requires 0 < q && q * Pow10(4 * g) < Pow10(4 * groups)
    ensures high == (q / 10000) * Pow10(4 * (g + 1)) && low == (q % 10000) * Pow10(4 * g)
    ensures q * Pow10(4 * g) == high + low
    ensures high < Pow10(4 * groups)
    ensures q % 10000 != 0 ==> g < groups
  {
    GroupShift(q, g);
    high := (q / 10000) * Pow10(4 * (g + 1));
    low := (q % 10000) * Pow10(4 * g);
    var sec := q % 10000;
    if sec != 0 {
      assert sec * Pow10(4 * g) <= q * Pow10(4 * g);
      PositionBelow(sec, 4 * g, 4 * groups);
    }
  }

  /** Reading back the grouped rendering, starting from a state with no open group,
      adds exactly its value; above group 0 every group is closed by its unit. */
  lemma {:induction false} GroupedReadBack(t: Tables, n: Notation, groupUnits: seq<string>,
                                           q: nat, g: nat, lowerNeedsZero: bool, total: nat)
    requires ReadsGroups(t, n, groupUnits)
    requires q * Pow10(4 * g) < Pow10(4 * |groupUnits|)
    requires g == 0 ==> !lowerNeedsZero
    ensures var st := Fold(n, ReadState(total, 0, 0), Grouped(t, groupUnits, q, g, lowerNeedsZero));
      Amount(st) == total + q * Pow10(4 * g) &&
      (g >= 1 ==> st.group == 0 && st.digit == 0)
    decreases q
  {
    if q == 0 {
      GroupedEmpty(t, n, groupUnits, g, lowerNeedsZero, total);
    } else {
      GroupedBound(q, g, |groupUnits|);
      GroupedReadBack(t, n, groupUnits, q / 10000, g + 1, 0 < q % 10000 < 1000, total);
      GroupedStep(t, n, groupUnits, q, g, lowerNeedsZero, total);
    }
  }

  lemma GroupedEmpty(t: Tables, n: Notation, groupUnits: seq<string>, g: nat, lowerNeedsZero: bool, total: nat)
    requires ValidTables(t)
    ensures var st := Fold(n, ReadState(total, 0, 0), Grouped(t, groupUnits, 0, g, lowerNeedsZero));
      Amount(st) == total + 0 * Pow10(4 * g) && st.group == 0 && st.digit == 0
  {
    assert Grouped(t, groupUnits, 0, g, lowerNeedsZero) == [];
    assert Fold(n, ReadState(total, 0, 0), []) == ReadState(total, 0, 0);
  }

  lemma GroupedBound(q: nat, g: nat, groups: nat)
    requires 0 < q && q * Pow10(4 * g) < Pow10(4 * groups)
    ensures (q / 10000) * Pow10(4 * (g + 1)) < Pow10(4 * groups)
  {
    var high, low := GroupedArith(q, g, groups);
  }

  /** One step of `GroupedReadBack`: from the reading of the higher groups to the
      reading of all of them. */
  lemma GroupedStep(t: Tables, n: Notation, groupUnits: seq<string>,
                    q: nat, g: nat, lowerNeedsZero: bool, total: nat)
    requires ReadsGroups(t, n, groupUnits) && q > 0
    requires q * Pow10(4 * g) < Pow10(4 * |groupUnits|)
    requires g == 0 ==> !lowerNeedsZero
    requires var st := Fold(n, ReadState(total, 0, 0),
                            Grouped(t, groupUnits, q / 10000, g + 1, 0 < q % 10000 < 1000));
      Amount(st) == total + (q / 10000) * Pow10(4 * (g + 1)) &&
      (g + 1 >= 1 ==> st.group == 0 && st.digit == 0)
    ensures var st := Fold(n, ReadState(total, 0, 0), Grouped(t, groupUnits, q, g, lowerNeedsZero));
      Amount(st) == total + q * Pow10(4 * g) &&
      (g >= 1 ==> st.group == 0 && st.digit == 0)
  {
    var sec := q % 10000;
    var higher := Grouped(t, groupUnits, q / 10000, g + 1, 0 < sec < 1000);
    GroupedUnfold(t, groupUnits, q, g, lowerNeedsZero);
    var high, low := GroupedArith(q, g, |groupUnits|);
    GroupAfterHigher(t, n, groupUnits, higher, sec, g, lowerNeedsZero, total, high, low);
  }

  /** Reading one group, and the 零 that may follow it, after the higher groups. */
  lemma GroupAfterHigher(t: Tables, n: Notation, groupUnits: seq<string>, higher: string,
                         sec: nat, g: nat, lowerNeedsZero: bool, total: nat, high: nat, low: nat)
    requires ReadsGroups(t, n, groupUnits)
    requires sec < 10000 && (sec != 0 ==> g < |groupUnits|) && low == sec * Pow10(4 * g)
    requires g == 0 ==> !lowerNeedsZero
    requires var st1 := Fold(n, ReadState(total, 0, 0), higher);
      Amount(st1) == total + high && st1.group == 0 && st1.digit == 0
    ensures var st := Fold(n, ReadState(total, 0, 0),
                           higher + (RenderFrom(t, sec, 0, false) + (if sec != 0 then UnitAt(groupUnits, g) else [])) +
                           (if lowerNeedsZero then [ZERO] else []));
      Amount(st) == total + high + low && (g >= 1 ==> st.group == 0 && st.digit == 0)
  {
    var group := RenderFrom(t, sec, 0, false) + (if sec != 0 then UnitAt(groupUnits, g) else []);
    var zero := if lowerNeedsZero then [ZERO] else [];
    GroupReadBack(t, n, groupUnits, sec, g, total + high);
    ReadGroupStep(t, n, higher, group, zero, lowerNeedsZero, g, total, high, low);
  }

  /** Putting one step of `GroupedReadBack` together: the higher groups, then this
      group, then the optional 零. */
  lemma ReadGroupStep(t: Tables, n: Notation, higher: string, group: string, zero: string,
                      lowerNeedsZero: bool, g: nat, total: nat, high: nat, low: nat)
    requires ReadsPositions(t, n, 4) && zero == (if lowerNeedsZero then [ZERO] else [])
    requires var st1 := Fold(n, ReadState(total, 0, 0), higher);
      Amount(st1) == total + high && st1.group == 0 && st1.digit == 0
    requires var st3 := Fold(n, ReadState(total + high, 0, 0), group);
      Amount(st3) == total + high + low && (g >= 1 ==> st3.group == 0 && st3.digit == 0)
    requires g == 0 ==> !lowerNeedsZero
    ensures var st := Fold(n, ReadState(total, 0, 0), higher + group + zero);
      Amount(st) == total + high + low && (g >= 1 ==> st.group == 0 && st.digit == 0)
  {
    var st0 := ReadState(total, 0, 0);
    var st1 := Fold(n, st0, higher);
    assert st1 == ReadState(total + high, 0, 0);
    var st3 := Fold(n, st1, group);
    ZeroReadBack(t, n, st3, lowerNeedsZero);
    ComposeReads(n, st0, higher, group, zero, st1, st3);
  }

  lemma GroupedUnfold(t: Tables, groupUnits: seq<string>, q: nat, g: nat, lowerNeedsZero: bool)
    requires ValidTables(t) && q > 0
    ensures var sec := q % 10000;
      Grouped(t, groupUnits, q, g, lowerNeedsZero) ==
        Grouped(t, groupUnits, q / 10000, g + 1, 0 < sec < 1000) +
        (RenderFrom(t, sec, 0, false) + (if sec != 0 then UnitAt(groupUnits, g) else [])) +
        (if lowerNeedsZero then [ZERO] else [])
  {
  }

  lemma ComposeReads(n: Notation, st0: ReadState, a: string, b: string, c: string,
                     st1: ReadState, st3: ReadState)
    requires Fold(n, st0, a) == st1 && Fold(n, st1, b) == st3 && Fold(n, st3, c) == st3
    ensures Fold(n, st0, a + b + c) == st3
  {
    FoldThree(n, st0, a, b, c);
  }

  lemma FoldThree(n: Notation, st: ReadState, a: string, b: string, c: string)
    ensures Fold(n, st, a + b + c) == Fold(n, Fold(n, Fold(n, st, a), b), c)
  {
    FoldAppend(n, st, a, b);
    FoldAppend(n, st, a + b, c);
  }

  /** A 零 between groups changes nothing once the group above is closed. */
  lemma ZeroReadBack(t: Tables, n: Notation, st: ReadState, present: bool)
    requires ReadsPositions(t, n, 4)
    requires present ==> st.digit == 0
    ensures Fold(n, st, if present then [ZERO] else []) == st
  {
    if present {
      DigitIndex(t, n, 4, 0);
      assert Fold(n, st, [ZERO]) == Fold(n, Step(n, st, ZERO), []);
    }
  }
}
