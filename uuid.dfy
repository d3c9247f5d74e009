/** `generateUUIDv4` (src/routes/api.js:71-77): every `x` of the template
    `xxxxxxxx-xxxx-4xxx-yxxx-xxxxxxxxxxxx` becomes one random hex digit and the `y`
    one of `8`, `9`, `a`, `b`. The random values `Math.random() * 16 | 0`, one per
    replaced character and in order, are an input of the model. */
module Uuid {
  import opened JsText

  /** `Math.random() * 16 | 0`: an integer in 0..15. */
  type nibble = x: int | 0 <= x < 16

  const TEMPLATE: string := "xxxxxxxx-xxxx-4xxx-yxxx-xxxxxxxxxxxx"

  /** `r & 0x3 | 0x8`: the two low bits of `r` under the variant bits `10`. */
  function Variant(r: nibble): (v: nibble)
    ensures v == 8 + r % 4
  {
    var b := (r as bv8 & 0x3) | 0x8;
    VariantBits(r);
    b as int
  }

  lemma VariantBits(r: nibble)
    ensures ((r as bv8 & 0x3) | 0x8) as int == 8 + r % 4
  {
    var lo := r % 4;
    assert r == 4 * (r / 4) + lo;
    assert r as bv8 & 0x3 == lo as bv8 by {
      assert r as bv8 == (r / 4) as bv8 * 4 + lo as bv8;
    }
  }

  /** Lower-case hexadecimal digit: what `v.toString(16)` writes for `v < 16`. */
  predicate IsLowerHex(c: char) {
    IsHexDigit(c) && !IsAsciiUpper(c)
  }

  /** The number of characters of `t` the pattern `/[xy]/g` replaces. */
  function Slots(t: string): nat {
    if t == [] then 0 else (if t[0] == 'x' || t[0] == 'y' then 1 else 0) + Slots(t[1..])
  }

  /** The global replacement, left to right: `x` takes the next value as it is, `y`
      takes its `Variant`, anything else is kept. */
  function Fill(t: string, rs: seq<nibble>): (u: string)
    requires |rs| == Slots(t)
    ensures |u| == |t|
  {
    if t == [] then []
    else if t[0] == 'x' then HexDigits(rs[0]) + Fill(t[1..], rs[1..])
    else if t[0] == 'y' then HexDigits(Variant(rs[0])) + Fill(t[1..], rs[1..])
    else [t[0]] + Fill(t[1..], rs)
  }

  /** `generateUUIDv4()` with its 31 random values. */
  function GenerateUuid(rs: seq<nibble>): string
    requires |rs| == 31
  {
    TemplateSlots();
    Fill(TEMPLATE, rs)
  }

  lemma TemplateSlots()
    ensures Slots(TEMPLATE) == 31
  {
    assert TEMPLATE == "xxxxxxxx-xxxx" + "-4xxx-yxxx" + "-xxxxxxxxxxxx";
    SlotsAppendThree("xxxxxxxx-xxxx", "-4xxx-yxxx", "-xxxxxxxxxxxx");
    FirstSlots();
    MiddleSlots();
    LastSlots();
  }

  lemma FirstSlots()
    ensures Slots("xxxxxxxx-xxxx") == 12
  {
  }

  lemma MiddleSlots()
    ensures Slots("-4xxx-yxxx") == 7
  {
  }

  lemma LastSlots()
    ensures Slots("-xxxxxxxxxxxx") == 12
  {
  }

  lemma SlotsAppendThree(a: string, b: string, c: string)
    ensures Slots(a + b + c) == Slots(a) + Slots(b) + Slots(c)
  {
    SlotsAppend(a, b);
    SlotsAppend(a + b, c);
  }

  lemma {:induction false} SlotsAppend(a: string, b: string)
    ensures Slots(a + b) == Slots(a) + Slots(b)
  {
    if a != [] {
      assert (a + b)[0] == a[0] && (a + b)[1..] == a[1..] + b;
      SlotsAppend(a[1..], b);
    } else {
      assert a + b == b;
    }
  }

  /** The layout of a version-4 UUID (section 4.4 of RFC 4122) in lower case:
      hyphens at 8, 13, 18 and 23, the version `4` at 14, a variant digit `10xx` at
      19, and hex digits everywhere else. */
  predicate IsUuidV4(u: string) {
    |u| == 36 &&
    forall p :: 0 <= p < 36 ==>
      if p == 8 || p == 13 || p == 18 || p == 23 then u[p] == '-'
      else if p == 14 then u[p] == '4'
      else if p == 19 then u[p] in "89ab"
      else IsLowerHex(u[p])
  }

  /** What a filled template may hold at a position whose template character is `tc`. */
  predicate SlotMatches(tc: char, uc: char) {
    if tc == 'x' then IsLowerHex(uc)
    else if tc == 'y' then uc in "89ab"
    else uc == tc
  }

  /** `u` is a possible result of filling `t`. */
  predicate Matches(t: string, u: string) {
    |u| == |t| && forall p :: 0 <= p < |t| ==> SlotMatches(t[p], u[p])
  }

  /** The values a filled template shows: the digit at each `x`, and the low two
      bits of the digit at each `y`. */
  function Read(t: string, u: string): (rs: seq<nibble>)
    requires Matches(t, u)
    ensures |rs| == Slots(t)
  {
    if t == [] then []
    else
      assert SlotMatches(t[0], u[0]);
      assert Matches(t[1..], u[1..]) by {
        forall p | 0 <= p < |t[1..]| ensures SlotMatches(t[1..][p], u[1..][p]) {
          assert SlotMatches(t[p + 1], u[p + 1]);
        }
      }
      if t[0] == 'x' then [HexDigitValue(u[0])] + Read(t[1..], u[1..])
      else if t[0] == 'y' then [HexDigitValue(u[0]) % 4] + Read(t[1..], u[1..])
      else Read(t[1..], u[1..])
  }

  /** The values with each one drawn for a `y` cut down to the bits `Variant` keeps. */
  function Keep(t: string, rs: seq<nibble>): (ks: seq<nibble>)
    requires |rs| == Slots(t)
    ensures |ks| == |rs|
  {
    if t == [] then []
    else if t[0] == 'x' then [rs[0]] + Keep(t[1..], rs[1..])
    else if t[0] == 'y' then [rs[0] % 4] + Keep(t[1..], rs[1..])
    else Keep(t[1..], rs)
  }

  lemma HexCharOfDigit(c: char)
    requires IsLowerHex(c)
    ensures HexChar(HexDigitValue(c)) == c
  {
  }

  lemma MatchesCons(t: string, u: string)
    requires t != [] && |u| == |t|
    ensures Matches(t, u) <==> SlotMatches(t[0], u[0]) && Matches(t[1..], u[1..])
  {
    if SlotMatches(t[0], u[0]) && Matches(t[1..], u[1..]) {
      forall p | 0 <= p < |t| ensures SlotMatches(t[p], u[p]) {
        if p > 0 { assert SlotMatches(t[1..][p - 1], u[1..][p - 1]); }
      }
    }
    if Matches(t, u) {
      forall p | 0 <= p < |t[1..]| ensures SlotMatches(t[1..][p], u[1..][p]) {
        assert SlotMatches(t[p + 1], u[p + 1]);
      }
    }
  }

  /** Every fill of a template matches it. */
  lemma {:induction false} FillMatches(t: string, rs: seq<nibble>)
    requires |rs| == Slots(t)
    ensures Matches(t, Fill(t, rs))
  {
    if t != [] {
      var u := Fill(t, rs);
      if t[0] == 'x' || t[0] == 'y' {
        FillMatches(t[1..], rs[1..]);
        assert u[1..] == Fill(t[1..], rs[1..]);
        if t[0] == 'y' {
          var v := Variant(rs[0]);
          assert u[0] == HexChar(v);
          assert u[0] == "89ab"[v - 8];
        }
      } else {
        FillMatches(t[1..], rs);
        assert u[1..] == Fill(t[1..], rs);
      }
      MatchesCons(t, u);
    }
  }

  /** Filling a template with the values read from a match of it gives that match
      back. */
  lemma {:induction false} FillRead(t: string, u: string)
    requires Matches(t, u)
    ensures Fill(t, Read(t, u)) == u
  {
    if t != [] {
      ReadCons(t, u);
      var rs := Read(t, u);
      var rest := Read(t[1..], u[1..]);
      FillRead(t[1..], u[1..]);
      FillCons(t, rs);
      var tail := u[1..];
      assert u == [u[0]] + tail;
      if t[0] == 'x' || t[0] == 'y' {
        assert rs[1..] == rest;
        FillHead(t[0], u[0], rs[0]);
        assert Fill(t[1..], rs[1..]) == tail;
      } else {
        assert rs == rest;
        assert Fill(t[1..], rs) == tail;
      }
    }
  }

  /** The character read at a slot is written back by `Fill`. */
  lemma FillHead(tc: char, uc: char, r: nibble)
    requires tc == 'x' || tc == 'y'
    requires SlotMatches(tc, uc)
    requires r == if tc == 'x' then HexDigitValue(uc) else HexDigitValue(uc) % 4
    ensures uc == if tc == 'x' then HexChar(r) else HexChar(Variant(r))
  {
    HexCharOfDigit(uc);
    if tc == 'y' {
      var d := HexDigitValue(uc);
      assert 8 <= d < 12 && d % 4 == d - 8;
    }
  }

  /** Reading a fill back gives the values drawn, except that only the low two bits
      of the one drawn for a `y` survive. */
  lemma {:induction false} ReadFill(t: string, rs: seq<nibble>)
    requires |rs| == Slots(t)
    ensures Matches(t, Fill(t, rs)) && Read(t, Fill(t, rs)) == Keep(t, rs)
  {
    FillMatches(t, rs);
    if t != [] {
      var u := Fill(t, rs);
      FillCons(t, rs);
      ReadCons(t, u);
      var tail := u[1..];
      if t[0] == 'x' {
        assert tail == Fill(t[1..], rs[1..]);
        ReadFill(t[1..], rs[1..]);
        assert HexDigitValue(u[0]) == rs[0];
      } else if t[0] == 'y' {
        assert tail == Fill(t[1..], rs[1..]);
        ReadFill(t[1..], rs[1..]);
        assert HexDigitValue(u[0]) % 4 == rs[0] % 4;
      } else {
        assert tail == Fill(t[1..], rs);
        ReadFill(t[1..], rs);
      }
    }
  }

  /** One step of `Fill`: the first template character and the rest. */
  lemma FillCons(t: string, rs: seq<nibble>)
    requires t != [] && |rs| == Slots(t)
    ensures var u := Fill(t, rs);
      if t[0] == 'x' then u == [HexChar(rs[0])] + Fill(t[1..], rs[1..])
      else if t[0] == 'y' then u == [HexChar(Variant(rs[0]))] + Fill(t[1..], rs[1..])
      else u == [t[0]] + Fill(t[1..], rs)
  {
  }

  /** One step of `Read`: the first template character and the rest. */
  lemma ReadCons(t: string, u: string)
    requires t != [] && Matches(t, u)
    ensures Matches(t[1..], u[1..]) && SlotMatches(t[0], u[0])
    ensures Read(t, u) ==
      if t[0] == 'x' then [HexDigitValue(u[0])] + Read(t[1..], u[1..])
      else if t[0] == 'y' then [HexDigitValue(u[0]) % 4] + Read(t[1..], u[1..])
      else Read(t[1..], u[1..])
  {
    MatchesCons(t, u);
  }

  lemma TemplateLayout(p: nat)
    requires p < 36
    ensures TEMPLATE[p] ==
      if p == 8 || p == 13 || p == 18 || p == 23 then '-'
      else if p == 14 then '4'
      else if p == 19 then 'y'
      else 'x'
  {
  }

  /** A string matches the template exactly when it is a lower-case version-4 UUID. */
  lemma TemplateIsUuidV4(u: string)
    ensures Matches(TEMPLATE, u) <==> IsUuidV4(u)
  {
    if Matches(TEMPLATE, u) {
      forall p | 0 <= p < 36
        ensures if p == 8 || p == 13 || p == 18 || p == 23 then u[p] == '-'
          else if p == 14 then u[p] == '4'
          else if p == 19 then u[p] in "89ab"
          else IsLowerHex(u[p])
      {
        TemplateLayout(p);
        assert SlotMatches(TEMPLATE[p], u[p]);
      }
    }
    if IsUuidV4(u) {
      forall p | 0 <= p < 36 ensures SlotMatches(TEMPLATE[p], u[p]) {
        TemplateLayout(p);
      }
    }
  }

  /** Every generated identifier is a lower-case version-4 UUID. */
  lemma GeneratedIsUuidV4(rs: seq<nibble>)
    requires |rs| == 31
    ensures IsUuidV4(GenerateUuid(rs))
  {
    TemplateSlots();
    FillMatches(TEMPLATE, rs);
    TemplateIsUuidV4(GenerateUuid(rs));
  }

  /** Every lower-case version-4 UUID is generated by some draw. */
  lemma EveryUuidV4Generated(u: string)
    requires IsUuidV4(u)
    ensures exists rs: seq<nibble> :: |rs| == 31 && GenerateUuid(rs) == u
  {
    TemplateIsUuidV4(u);
    TemplateSlots();
    var rs := Read(TEMPLATE, u);
    FillRead(TEMPLATE, u);
    assert GenerateUuid(rs) == u;
  }
}
