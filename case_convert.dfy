/** `convertCase` (src/routes/api.js:302-313): each target form is one or two global
    regular-expression replacements, modelled as a left-to-right scan that takes
    matches without overlap. */
module CaseConvert {
  import opened JsText

  /** The separators `[-_]`. */
  predicate IsSep(c: char) {
    c == '-' || c == '_'
  }

  /** `replace(/[-_](\w)/g, (_, c) => c.toUpperCase())`: a separator followed by a
      word character is replaced by that character in upper case. */
  function Camel(s: string): string
    decreases |s|
  {
    if s == [] then []
    else if IsSep(s[0]) && |s| >= 2 && IsWordChar(s[1]) then [UpperChar(s[1])] + Camel(s[2..])
    else [s[0]] + Camel(s[1..])
  }

  /** `replace(/[A-Z]/g, c => sep + c.toLowerCase())`. */
  function SeparateUpper(s: string, sep: char): string {
    if s == [] then []
    else (if IsAsciiUpper(s[0]) then [sep, LowerChar(s[0])] else [s[0]]) + SeparateUpper(s[1..], sep)
  }

  function Snake(s: string): string {
    SeparateUpper(s, '_')
  }

  function Kebab(s: string): string {
    SeparateUpper(s, '-')
  }

  /** `replace(/^./, c => c.toUpperCase())`: `.` does not match a line terminator. */
  function UpperFirst(s: string): string {
    if s != [] && !IsLineTerminator(s[0]) then [UpperChar(s[0])] + s[1..] else s
  }

  /** Pascal case upper-cases the first character of camel case, unless it is a
      line terminator, and keeps the rest. */
  function Pascal(s: string): (r: string)
    ensures |r| == |Camel(s)|
    ensures Camel(s) != [] ==> r[1..] == Camel(s)[1..]
    ensures Camel(s) != [] && !IsLineTerminator(Camel(s)[0]) ==>
      r[0] == UpperChar(Camel(s)[0]) && !IsAsciiLower(r[0])
  {
    UpperFirst(Camel(s))
  }

  /** `replace(/^_/, '')`. */
  function DropLeadingUnderscore(s: string): string {
    if s != [] && s[0] == '_' then s[1..] else s
  }

  /** The `constant` form as written: snake case without a leading `_`. */
  function Constant(s: string): string {
    DropLeadingUnderscore(Snake(s))
  }

  /** `convertCase(str, type)`. */
  function ConvertCase(s: string, kind: string): (r: string)
    ensures kind !in {"camel", "snake", "kebab", "pascal", "constant", "upper", "lower"} ==> r == s
    ensures kind in {"snake", "kebab", "constant", "lower"} ==> NoUpper(r)
    ensures kind == "upper" ==> |r| == |s| && NoLower(r)
    ensures kind == "lower" ==> |r| == |s|
  {
    match kind
    case "camel" => Camel(s)
    case "snake" => SeparateUpperShape(s, '_'); Snake(s)
    case "kebab" => SeparateUpperShape(s, '-'); Kebab(s)
    case "pascal" => Pascal(s)
    case "constant" => SeparateUpperShape(s, '_'); Constant(s)
    case "upper" => Upper(s)
    case "lower" => Lower(s)
    case _ => s
  }

  predicate NoUpper(s: string) {
    forall i :: 0 <= i < |s| ==> !IsAsciiUpper(s[i])
  }

  predicate NoLower(s: string) {
    forall i :: 0 <= i < |s| ==> !IsAsciiLower(s[i])
  }

  function CountUpper(s: string): nat {
    if s == [] then 0 else (if IsAsciiUpper(s[0]) then 1 else 0) + CountUpper(s[1..])
  }

  /** `s` with every occurrence of `c` deleted. */
  function Remove(s: string, c: char): string {
    if s == [] then [] else (if s[0] == c then [] else [s[0]]) + Remove(s[1..], c)
  }

  lemma UpperOfLower(c: char)
    requires IsAsciiUpper(c)
    ensures IsWordChar(LowerChar(c)) && UpperChar(LowerChar(c)) == c
  {
  }

  lemma LowerOfUpper(c: char)
    requires IsAsciiLower(c)
    ensures LowerChar(UpperChar(c)) == c
  {
  }

  /** Snake and kebab case: the output is longer by one character per upper-case
      letter, holds no upper-case letter, and with the inserted separators taken
      out it is the input in lower case. */
  lemma SeparateUpperShape(s: string, sep: char)
    requires IsSep(sep)
    ensures var r := SeparateUpper(s, sep);
      |r| == |s| + CountUpper(s) && NoUpper(r) &&
      ((forall i :: 0 <= i < |s| ==> s[i] != sep) ==> Remove(r, sep) == Lower(s))
  {
    SeparateUpperLength(s, sep);
    SeparateUpperNoUpper(s, sep);
    if forall i :: 0 <= i < |s| ==> s[i] != sep {
      SeparateUpperRemove(s, sep);
    }
  }

  lemma {:induction false} SeparateUpperLength(s: string, sep: char)
    ensures |SeparateUpper(s, sep)| == |s| + CountUpper(s)
  {
    if s != [] {
      SeparateUpperLength(s[1..], sep);
    }
  }

  lemma {:induction false} SeparateUpperNoUpper(s: string, sep: char)
    requires IsSep(sep)
    ensures NoUpper(SeparateUpper(s, sep))
  {
    if s != [] {
      SeparateUpperNoUpper(s[1..], sep);
      var head := if IsAsciiUpper(s[0]) then [sep, LowerChar(s[0])] else [s[0]];
      var rest := SeparateUpper(s[1..], sep);
      assert SeparateUpper(s, sep) == head + rest;
      forall i | 0 <= i < |head + rest| ensures !IsAsciiUpper((head + rest)[i]) {
        if i >= |head| { assert (head + rest)[i] == rest[i - |head|]; }
      }
    }
  }

  lemma {:induction false} SeparateUpperRemove(s: string, sep: char)
    requires IsSep(sep) && forall i :: 0 <= i < |s| ==> s[i] != sep
    ensures Remove(SeparateUpper(s, sep), sep) == Lower(s)
  {
    if s != [] {
      assert forall i :: 0 <= i < |s[1..]| ==> s[1..][i] != sep by {
        forall i | 0 <= i < |s[1..]| ensures s[1..][i] != sep { assert s[1..][i] == s[i + 1]; }
      }
      SeparateUpperRemove(s[1..], sep);
      var head := if IsAsciiUpper(s[0]) then [sep, LowerChar(s[0])] else [s[0]];
      var rest := SeparateUpper(s[1..], sep);
      assert SeparateUpper(s, sep) == head + rest;
      RemoveAppend(head, rest, sep);
      assert s[0] != sep;
      RemoveHead(s[0], sep);
      assert Lower(s) == [LowerChar(s[0])] + Lower(s[1..]);
    }
  }

  /** What is left of the replacement of one character once the separators are
      taken out. */
  lemma RemoveHead(c: char, sep: char)
    requires IsSep(sep) && c != sep
    ensures Remove(if IsAsciiUpper(c) then [sep, LowerChar(c)] else [c], sep) == [LowerChar(c)]
  {
    if IsAsciiUpper(c) {
      var head := [sep, LowerChar(c)];
      assert head[1..] == [LowerChar(c)];
      assert Remove([LowerChar(c)], sep) == [LowerChar(c)] + Remove([], sep);
    } else {
      assert Remove([c], sep) == [c] + Remove([], sep);
    }
  }

  lemma {:induction false} RemoveAppend(a: string, b: string, c: char)
    ensures Remove(a + b, c) == Remove(a, c) + Remove(b, c)
  {
    if a != [] {
      assert (a + b)[0] == a[0] && (a + b)[1..] == a[1..] + b;
      RemoveAppend(a[1..], b, c);
    } else {
      assert a + b == b;
    }
  }

  /** Camel case undoes snake and kebab case on text without separators. */
  lemma {:induction false} CamelUndoesSeparateUpper(s: string, sep: char)
    requires IsSep(sep)
    requires forall i :: 0 <= i < |s| ==> !IsSep(s[i])
    ensures Camel(SeparateUpper(s, sep)) == s
  {
    if s != [] {
      var rest := SeparateUpper(s[1..], sep);
      assert forall i :: 0 <= i < |s[1..]| ==> !IsSep(s[1..][i]) by {
        forall i | 0 <= i < |s[1..]| ensures !IsSep(s[1..][i]) { assert s[1..][i] == s[i + 1]; }
      }
      CamelUndoesSeparateUpper(s[1..], sep);
      var t := SeparateUpper(s, sep);
      if IsAsciiUpper(s[0]) {
        UpperOfLower(s[0]);
        assert t == [sep, LowerChar(s[0])] + rest;
        assert t[2..] == rest;
        assert Camel(t) == [UpperChar(LowerChar(s[0]))] + Camel(rest);
      } else {
        assert t == [s[0]] + rest;
        assert t[1..] == rest;
        assert !IsSep(t[0]);
        assert Camel(t) == [s[0]] + Camel(rest);
      }
      assert s == [s[0]] + s[1..];
    }
  }

  /** Text in the form snake case (or kebab case) produces: no upper-case letter,
      and each separator is `sep` and is followed by a lower-case letter. */
  predicate SeparatedLower(s: string, sep: char) {
    NoUpper(s) && forall i :: 0 <= i < |s| ==> SeparatorAt(s, sep, i)
  }

  /** A separator at `i` is `sep` and a lower-case letter follows it. */
  predicate SeparatorAt(s: string, sep: char, i: nat)
    requires i < |s|
  {
    IsSep(s[i]) ==> s[i] == sep && i + 1 < |s| && IsAsciiLower(s[i + 1])
  }

  lemma SeparatedLowerTail(s: string, sep: char, k: nat)
    requires SeparatedLower(s, sep) && k <= |s|
    ensures SeparatedLower(s[k..], sep)
  {
    var t := s[k..];
    forall i | 0 <= i < |t| ensures SeparatorAt(t, sep, i) && !IsAsciiUpper(t[i]) {
      assert SeparatorAt(s, sep, i + k);
      assert t[i] == s[i + k];
      if i + 1 < |t| { assert t[i + 1] == s[i + k + 1]; }
    }
  }

  /** Snake case (or kebab case) undoes camel case on text in that form. */
  lemma {:induction false} SeparateUpperUndoesCamel(s: string, sep: char)
    requires IsSep(sep) && SeparatedLower(s, sep)
    ensures SeparateUpper(Camel(s), sep) == s
    decreases |s|
  {
    if s != [] {
      assert SeparatorAt(s, sep, 0);
      if IsSep(s[0]) {
        SeparatedLowerTail(s, sep, 2);
        SeparateUpperUndoesCamel(s[2..], sep);
        var c := UpperChar(s[1]);
        assert Camel(s) == [c] + Camel(s[2..]);
        LowerOfUpper(s[1]);
        assert SeparateUpper([c] + Camel(s[2..]), sep)
            == [sep, s[1]] + SeparateUpper(Camel(s[2..]), sep) by {
          assert ([c] + Camel(s[2..]))[1..] == Camel(s[2..]);
        }
        assert s == [s[0], s[1]] + s[2..];
      } else {
        SeparatedLowerTail(s, sep, 1);
        SeparateUpperUndoesCamel(s[1..], sep);
        assert Camel(s) == [s[0]] + Camel(s[1..]);
        assert SeparateUpper([s[0]] + Camel(s[1..]), sep)
            == [s[0]] + SeparateUpper(Camel(s[1..]), sep) by {
          assert ([s[0]] + Camel(s[1..]))[1..] == Camel(s[1..]);
        }
        assert s == [s[0]] + s[1..];
      }
    }
  }

  /** A camel-case text in which no separator is followed by a word character is
      left alone by the camel-case replacement. */
  lemma {:induction false} CamelNoMatch(s: string)
    requires forall i :: 0 <= i < |s| - 1 ==> !(IsSep(s[i]) && IsWordChar(s[i + 1]))
    ensures Camel(s) == s
    decreases |s|
  {
    if s != [] {
      assert forall i :: 0 <= i < |s[1..]| - 1 ==> !(IsSep(s[1..][i]) && IsWordChar(s[1..][i + 1])) by {
        forall i | 0 <= i < |s[1..]| - 1 ensures !(IsSep(s[1..][i]) && IsWordChar(s[1..][i + 1])) {
          assert s[1..][i] == s[i + 1] && s[1..][i + 1] == s[i + 2];
        }
      }
      CamelNoMatch(s[1..]);
      assert s == [s[0]] + s[1..];
    }
  }

  /** Pascal case of a snake-case word that starts with a lower-case letter, put
      back into snake case, is the word with a leading `_`. */
  lemma SnakeUndoesPascal(s: string)
    requires SeparatedLower(s, '_') && s != [] && IsAsciiLower(s[0])
    ensures Snake(Pascal(s)) == "_" + s
  {
    SeparatedLowerTail(s, '_', 1);
    SeparateUpperUndoesCamel(s[1..], '_');
    PascalOfLowerStart(s);
    SnakeOfUpperCons(s[0], Camel(s[1..]), s[1..]);
    assert s == [s[0]] + s[1..];
  }

  lemma SnakeOfUpperCons(x: char, c: string, t: string)
    requires IsAsciiLower(x) && SeparateUpper(c, '_') == t
    ensures Snake([UpperChar(x)] + c) == "_" + ([x] + t)
  {
    LowerOfUpper(x);
    SeparateUpperCons(UpperChar(x), c, '_');
  }

  lemma PascalOfLowerStart(s: string)
    requires s != [] && IsAsciiLower(s[0])
    ensures Pascal(s) == [UpperChar(s[0])] + Camel(s[1..])
  {
    CamelCons(s[0], s[1..]);
    assert s == [s[0]] + s[1..];
    assert Camel(s)[1..] == Camel(s[1..]);
  }

  lemma CamelCons(c: char, t: string)
    requires !IsSep(c)
    ensures Camel([c] + t) == [c] + Camel(t)
  {
    assert ([c] + t)[1..] == t;
  }

  lemma SeparateUpperCons(c: char, t: string, sep: char)
    ensures SeparateUpper([c] + t, sep) ==
      (if IsAsciiUpper(c) then [sep, LowerChar(c)] else [c]) + SeparateUpper(t, sep)
  {
    assert ([c] + t)[1..] == t;
  }

  /** The `constant` form: the snake case of the input, without the separator a
      leading upper-case letter or `_` of the input turns into. */
  lemma ConstantShape(s: string)
    ensures Constant(s) ==
      if s != [] && (IsAsciiUpper(s[0]) || s[0] == '_') then Snake(s)[1..] else Snake(s)
    ensures NoUpper(Constant(s))
  {
    SeparateUpperShape(s, '_');
    if s != [] {
      assert Snake(s)[0] == if IsAsciiUpper(s[0]) then '_' else s[0];
      if Snake(s)[0] == '_' {
        var r := Snake(s)[1..];
        forall i | 0 <= i < |r| ensures !IsAsciiUpper(r[i]) { assert r[i] == Snake(s)[i + 1]; }
      }
    }
  }

  /** As written, the `constant` form of camel-case text is lower-case snake case. */
  lemma ConstantIsLowerCase(s: string)
    requires s == "helloWorld"
    ensures Constant(s) == "hello_world"
  {
    var hello, world := "hello", "World";
    assert s == hello + world;
    SnakeAppend(hello, world);
    SnakeLowerWord(hello);
    SnakeWorld(world);
    DropNoUnderscore(hello, "_world");
  }

  /** The lower-case words of the example are their own snake case. */
  lemma SnakeLowerWord(w: string)
    requires w == "hello" || w == "orld"
    ensures Snake(w) == w
  {
    NoUpperSnake(w);
  }

  lemma DropNoUnderscore(a: string, b: string)
    requires a == "hello" && b == "_world"
    ensures DropLeadingUnderscore(a + b) == "hello_world"
  {
    assert (a + b)[0] == 'h';
  }

  lemma SnakeWorld(w: string)
    requires w == "World"
    ensures Snake(w) == "_world"
  {
    var orld := "orld";
    assert w == ['W'] + orld;
    SeparateUpperCons('W', orld, '_');
    SnakeLowerWord(orld);
    assert ['_', 'w'] + orld == "_world";
  }

  lemma {:induction false} NoUpperSnake(s: string)
    requires NoUpper(s)
    ensures Snake(s) == s
  {
    if s != [] {
      assert NoUpper(s[1..]) by {
        forall i | 0 <= i < |s[1..]| ensures !IsAsciiUpper(s[1..][i]) { assert s[1..][i] == s[i + 1]; }
      }
      NoUpperSnake(s[1..]);
      assert s == [s[0]] + s[1..];
    }
  }

  lemma {:induction false} SnakeAppend(a: string, b: string)
    ensures Snake(a + b) == Snake(a) + Snake(b)
  {
    if a != [] {
      assert (a + b)[0] == a[0] && (a + b)[1..] == a[1..] + b;
      SnakeAppend(a[1..], b);
    } else {
      assert a + b == b;
    }
  }

  /** The evident intent of the `CONSTANT_CASE` form: the same text in upper case. */
  function IntendedConstant(s: string): string {
    Upper(Constant(s))
  }

  /** The intended form holds no lower-case letter and differs from the form as
      written only in the case of its letters. */
  lemma IntendedConstantShape(s: string)
    ensures NoLower(IntendedConstant(s))
    ensures Lower(IntendedConstant(s)) == Constant(s)
  {
    var c := Constant(s);
    ConstantShape(s);
    UpperIdempotent(c);
    NoUpperLower(c);
  }

  /** The intended form of the example above is upper-case snake case. */
  lemma IntendedConstantExample(s: string)
    requires s == "helloWorld"
    ensures IntendedConstant(s) == "HELLO_WORLD"
  {
    ConstantIsLowerCase(s);
    var hello, world := "hello", "_world";
    assert Constant(s) == hello + world;
    UpperAppend(hello, world);
    UpperExampleWords(hello, world);
    var upper, upperWorld := "HELLO", "_WORLD";
    assert IntendedConstant(s) == upper + upperWorld;
    assert upper + upperWorld == "HELLO_WORLD";
  }

  lemma UpperAppend(a: string, b: string)
    ensures Upper(a + b) == Upper(a) + Upper(b)
  {
  }

  lemma UpperExampleWords(a: string, b: string)
    requires a == "hello" && b == "_world"
    ensures Upper(a) == "HELLO" && Upper(b) == "_WORLD"
  {
  }

  lemma {:induction false} NoUpperLower(s: string)
    requires NoUpper(s)
    ensures Lower(s) == s
  {
    if s != [] {
      assert NoUpper(s[1..]) by {
        forall i | 0 <= i < |s[1..]| ensures !IsAsciiUpper(s[1..][i]) { assert s[1..][i] == s[i + 1]; }
      }
      NoUpperLower(s[1..]);
      assert s == [s[0]] + s[1..];
    }
  }
}
