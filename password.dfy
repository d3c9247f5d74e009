/** `generatePassword` (src/routes/api.js:89-109): a character pool built from the
    option flags, with a fallback when no flag is set, and one character of the pool
    per random 32-bit word. The words that `crypto.randomFillSync` draws are an
    input of the model. */
module Password {
  import opened JsText

  /** An element of the `Uint32Array` the words are drawn into. */
  type uint32 = x: int | 0 <= x < 0x1_0000_0000

  /** The option flags; each defaults to `true` in the source. */
  datatype Options = Options(uppercase: bool, lowercase: bool, numbers: bool, symbols: bool)

  /** Every flag set: the options when none is given. */
  const DEFAULT_OPTIONS: Options := Options(true, true, true, true)

  /** The length of a password when none is given. */
  const DEFAULT_LENGTH: nat := 16

  /** A destructuring default: a flag that is `undefined` is `true`. */
  function Flag(given: Option<bool>): bool {
    if given.Some? then given.value else true
  }

  /** The options object after its destructuring defaults. */
  function ResolveOptions(uppercase: Option<bool>, lowercase: Option<bool>,
                          numbers: Option<bool>, symbols: Option<bool>): Options {
    Options(Flag(uppercase), Flag(lowercase), Flag(numbers), Flag(symbols))
  }

  const UPPERCASE: string := "ABCDEFGHIJKLMNOPQRSTUVWXYZ"
  const LOWERCASE: string := "abcdefghijklmnopqrstuvwxyz"
  const NUMBERS: string := "0123456789"
  const SYMBOLS: string := "!@#$%^&*()_+-=[]{}|;:,.<>?"
  /** The pool when no flag is set. */
  const FALLBACK: string := "abcdefghijklmnopqrstuvwxyz0123456789"

  /** The groups the flags select, appended in the source's order. */
  function Selected(o: Options): string {
    (if o.uppercase then UPPERCASE else "") + (if o.lowercase then LOWERCASE else "") +
    (if o.numbers then NUMBERS else "") + (if o.symbols then SYMBOLS else "")
  }

  /** The pool the password is drawn from: the selected groups, or the fallback
      when they are empty. */
  function Pool(o: Options): (pool: string)
    ensures pool != []
  {
    var chars := Selected(o);
    if chars == [] then FALLBACK else chars
  }

  predicate NoFlag(o: Options) {
    !o.uppercase && !o.lowercase && !o.numbers && !o.symbols
  }

  /** The selection is empty exactly when no flag is set. */
  lemma SelectedEmpty(o: Options)
    ensures Selected(o) == [] <==> NoFlag(o)
  {
    assert |Selected(o)| == (if o.uppercase then 26 else 0) + (if o.lowercase then 26 else 0) +
                            (if o.numbers then 10 else 0) + (if o.symbols then 26 else 0);
  }

  /** A run of consecutive characters holds exactly the characters of its range. */
  lemma RangeMembership(s: string, lo: char, c: char)
    requires forall i :: 0 <= i < |s| ==> s[i] as int == lo as int + i
    ensures c in s <==> lo as int <= c as int < lo as int + |s|
  {
    if lo as int <= c as int < lo as int + |s| {
      assert s[c as int - lo as int] == c;
    }
  }

  lemma UpperMembership(c: char)
    ensures c in UPPERCASE <==> IsAsciiUpper(c)
  {
    assert forall i :: 0 <= i < |UPPERCASE| ==> UPPERCASE[i] as int == 'A' as int + i;
    RangeMembership(UPPERCASE, 'A', c);
  }

  lemma LowerMembership(c: char)
    ensures c in LOWERCASE <==> IsAsciiLower(c)
  {
    assert forall i :: 0 <= i < |LOWERCASE| ==> LOWERCASE[i] as int == 'a' as int + i;
    RangeMembership(LOWERCASE, 'a', c);
  }

  lemma DigitMembership(c: char)
    ensures c in NUMBERS <==> IsAsciiDigit(c)
  {
    assert forall i :: 0 <= i < |NUMBERS| ==> NUMBERS[i] as int == '0' as int + i;
    RangeMembership(NUMBERS, '0', c);
  }

  /** A character is in the pool exactly when it belongs to a selected group, or,
      with no group selected, when it is a lower-case letter or a digit. */
  lemma PoolMembership(o: Options, c: char)
    ensures c in Pool(o) <==>
      if NoFlag(o) then IsAsciiLower(c) || IsAsciiDigit(c)
      else (o.uppercase && IsAsciiUpper(c)) || (o.lowercase && IsAsciiLower(c)) ||
           (o.numbers && IsAsciiDigit(c)) || (o.symbols && c in SYMBOLS)
  {
    UpperMembership(c);
    LowerMembership(c);
    DigitMembership(c);
    SelectedEmpty(o);
    if NoFlag(o) {
      assert FALLBACK == LOWERCASE + NUMBERS;
    }
  }

  /** `chars[array[i] % chars.length]` for every word, in order. */
  function Draw(pool: string, words: seq<uint32>): (password: string)
    requires pool != []
    ensures |password| == |words|
    ensures forall i :: 0 <= i < |words| ==> password[i] == pool[words[i] as int % |pool|]
  {
    seq(|words|, i requires 0 <= i < |words| => pool[words[i] as int % |pool|])
  }

  /** The string of allowed characters, built by appending one group per flag. */
  method ChooseChars(options: Options) returns (chars: string)
    ensures chars == Pool(options)
    ensures NoFlag(options) ==> chars == FALLBACK
  {
    chars := "";
    if options.uppercase { chars := chars + UPPERCASE; }
    assert chars == (if options.uppercase then UPPERCASE else "");
    if options.lowercase { chars := chars + LOWERCASE; }
    if options.numbers { chars := chars + NUMBERS; }
    if options.symbols { chars := chars + SYMBOLS; }
    assert chars == Selected(options);
    if chars == "" {
      chars := FALLBACK;
    }
    SelectedEmpty(options);
  }

  /** One character of the pool per word, in order. */
  method GeneratePassword(length: nat, options: Options, words: seq<uint32>) returns (password: string)
    requires |words| == length
    ensures password == Draw(Pool(options), words)
    ensures |password| == length
    ensures forall i :: 0 <= i < |password| ==> password[i] in Pool(options)
  {
    var chars := ChooseChars(options);
    password := "";
    for i := 0 to length
      invariant password == Draw(chars, words[..i])
    {
      DrawStep(chars, words, i);
      password := password + [chars[words[i] % |chars|]];
    }
    assert words[..length] == words;
  }

  /** The password request with its defaults: a missing length is 16 and a missing
      flag is set. */
  method GeneratePasswordWithDefaults(length: Option<nat>, uppercase: Option<bool>,
                                      lowercase: Option<bool>, numbers: Option<bool>,
                                      symbols: Option<bool>, words: seq<uint32>)
    returns (password: string)
    requires |words| == if length.Some? then length.value else DEFAULT_LENGTH
    ensures password == Draw(Pool(ResolveOptions(uppercase, lowercase, numbers, symbols)), words)
    ensures length.None? ==> |password| == 16
    ensures uppercase.None? && lowercase.None? && numbers.None? && symbols.None? ==>
      forall i :: 0 <= i < |password| ==>
        IsAsciiUpper(password[i]) || IsAsciiLower(password[i]) ||
        IsAsciiDigit(password[i]) || password[i] in SYMBOLS
  {
    var n := if length.Some? then length.value else DEFAULT_LENGTH;
    var options := ResolveOptions(uppercase, lowercase, numbers, symbols);
    password := GeneratePassword(n, options, words);
    if uppercase.None? && lowercase.None? && numbers.None? && symbols.None? {
      DefaultPool();
    }
  }

  /** With the defaults the pool is every upper-case letter, lower-case letter,
      digit and symbol, in that order. */
  lemma DefaultPool()
    ensures ResolveOptions(None, None, None, None) == DEFAULT_OPTIONS
    ensures Pool(DEFAULT_OPTIONS) == UPPERCASE + LOWERCASE + NUMBERS + SYMBOLS
    ensures forall c :: c in Pool(DEFAULT_OPTIONS) <==>
      IsAsciiUpper(c) || IsAsciiLower(c) || IsAsciiDigit(c) || c in SYMBOLS
  {
    forall c ensures c in Pool(DEFAULT_OPTIONS) <==>
      IsAsciiUpper(c) || IsAsciiLower(c) || IsAsciiDigit(c) || c in SYMBOLS
    {
      PoolMembership(DEFAULT_OPTIONS, c);
    }
  }

  /** Drawing one more word appends its character. */
  lemma DrawStep(pool: string, words: seq<uint32>, i: nat)
    requires pool != [] && i < |words|
    ensures Draw(pool, words[..i + 1]) == Draw(pool, words[..i]) + [pool[words[i] as int % |pool|]]
  {
    var a := Draw(pool, words[..i + 1]);
    var b := Draw(pool, words[..i]) + [pool[words[i] as int % |pool|]];
    assert |a| == |b|;
    forall k | 0 <= k < |a| ensures a[k] == b[k] {
      assert words[..i + 1][k] == words[k];
      if k < i { assert words[..i][k] == words[k]; }
    }
  }

  /** Every character of the pool can come out: the word equal to its index
      selects it. */
  lemma EveryCharReachable(pool: string, k: uint32)
    requires k < |pool|
    ensures Draw(pool, [k]) == [pool[k]]
  {
  }

  /** Words that agree modulo the pool size give the same password. */
  lemma DrawModulo(pool: string, w1: seq<uint32>, w2: seq<uint32>)
    requires pool != [] && |w1| == |w2|
    requires forall i :: 0 <= i < |w1| ==> w1[i] as int % |pool| == w2[i] as int % |pool|
    ensures Draw(pool, w1) == Draw(pool, w2)
  {
  }
}
