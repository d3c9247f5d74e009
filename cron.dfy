/** `parseCron` and the validity test of the cron endpoint (src/routes/api.js:385-396,
    404): the expression is split on runs of white space, exactly five fields make a
    schedule, and it is valid when it also holds only digits, `*`, `/`, `,`, `-` and
    white space. */
module Cron {
  import opened JsText

  /** The five fields of a cron schedule, in order. */
  datatype CronFields = CronFields(minute: string, hour: string, dayOfMonth: string,
                                   month: string, dayOfWeek: string)

  predicate NoSpace(s: string) {
    forall i :: 0 <= i < |s| ==> !IsSpace(s[i])
  }

  /** The scan behind `split(/\s+/)`: `cur` is the field read so far; a white-space
      run ends it and starts the next one. */
  function SplitFrom(s: string, cur: string): (fields: seq<string>)
    ensures |fields| >= 1
    decreases |s|
  {
    if s == [] then [cur]
    else if IsSpace(s[0]) then [cur] + SplitFrom(DropSpaces(s), [])
    else SplitFrom(s[1..], cur + [s[0]])
  }

  /** `s.split(/\s+/)`: a leading or trailing run gives an empty first or last
      field, and the empty text gives one empty field. */
  function Split(s: string): seq<string> {
    SplitFrom(s, [])
  }

  /** `parseCron(cron)`: `null` unless there are exactly five fields. A schedule's
      fields hold no white space, together they are the expression without its
      white space, and written with single spaces they are the expression with
      each white-space run squashed to one space. */
  function ParseCron(cron: string): (r: Option<CronFields>)
    ensures r.Some? <==> |Split(cron)| == 5
    ensures r.Some? ==>
      var f := r.value;
      NoSpace(f.minute) && NoSpace(f.hour) && NoSpace(f.dayOfMonth) &&
      NoSpace(f.month) && NoSpace(f.dayOfWeek) &&
      Concat([f.minute, f.hour, f.dayOfMonth, f.month, f.dayOfWeek]) == RemoveSpaces(cron) &&
      JoinSpace([f.minute, f.hour, f.dayOfMonth, f.month, f.dayOfWeek]) == Squash(cron)
  {
    var parts := Split(cron);
    SplitShape(cron);
    assert |parts| == 5 ==> parts == [parts[0], parts[1], parts[2], parts[3], parts[4]];
    if |parts| != 5 then None
    else Some(CronFields(parts[0], parts[1], parts[2], parts[3], parts[4]))
  }

  // The characters the class `[0-9*/,\-\s]` admits.
  predicate IsCronChar(c: char) {
    IsAsciiDigit(c) || c == '*' || c == '/' || c == ',' || c == '-' || IsSpace(c)
  }

  // `parsed !== null && !expression.match(/[^0-9*/,\-\s]/)`.
  predicate IsValidCron(expression: string) {
    ParseCron(expression).Some? && forall i :: 0 <= i < |expression| ==> IsCronChar(expression[i])
  }

  /** The fields written with one space between them. */
  function JoinSpace(fields: seq<string>): string
    requires |fields| >= 1
  {
    if |fields| == 1 then fields[0] else fields[0] + " " + JoinSpace(fields[1..])
  }

  function Concat(fields: seq<string>): string {
    if fields == [] then [] else fields[0] + Concat(fields[1..])
  }

  /** The text with each maximal run of white space replaced by one space. */
  function Squash(s: string): string
    decreases |s|
  {
    if s == [] then []
    else if IsSpace(s[0]) then " " + Squash(DropSpaces(s))
    else [s[0]] + Squash(s[1..])
  }

  function RemoveSpaces(s: string): string {
    if s == [] then [] else (if IsSpace(s[0]) then [] else [s[0]]) + RemoveSpaces(s[1..])
  }

  lemma {:induction false} NoSpaceTail(s: string, k: nat)
    requires NoSpace(s) && k <= |s|
    ensures NoSpace(s[k..])
  {
    forall i | 0 <= i < |s[k..]| ensures !IsSpace(s[k..][i]) { assert s[k..][i] == s[i + k]; }
  }

  /** No field holds white space. */
  lemma {:induction false} SplitFromNoSpace(s: string, cur: string)
    requires NoSpace(cur)
    ensures forall k :: 0 <= k < |SplitFrom(s, cur)| ==> NoSpace(SplitFrom(s, cur)[k])
    decreases |s|
  {
    if s == [] {
    } else if IsSpace(s[0]) {
      SplitFromNoSpace(DropSpaces(s), []);
    } else {
      assert NoSpace(cur + [s[0]]) by {
        forall i | 0 <= i < |cur + [s[0]]| ensures !IsSpace((cur + [s[0]])[i]) {
          if i < |cur| { assert (cur + [s[0]])[i] == cur[i]; }
        }
      }
      SplitFromNoSpace(s[1..], cur + [s[0]]);
    }
  }

  lemma {:induction false} RemoveSpacesOfSpaces(s: string)
    ensures RemoveSpaces(s) == RemoveSpaces(DropSpaces(s))
  {
    if s != [] && IsSpace(s[0]) {
      RemoveSpacesOfSpaces(s[1..]);
    }
  }

  /** The fields together hold exactly the characters of the input that are not
      white space, in order. */
  lemma {:induction false} SplitFromContents(s: string, cur: string)
    ensures Concat(SplitFrom(s, cur)) == cur + RemoveSpaces(s)
    decreases |s|
  {
    if s == [] {
      assert Concat([cur]) == cur + Concat([]);
    } else if IsSpace(s[0]) {
      var rest := SplitFrom(DropSpaces(s), []);
      SplitFromContents(DropSpaces(s), []);
      RemoveSpacesOfSpaces(s);
      assert ([cur] + rest)[1..] == rest;
      assert Concat([cur] + rest) == cur + Concat(rest);
    } else {
      SplitFromContents(s[1..], cur + [s[0]]);
      assert RemoveSpaces(s) == [s[0]] + RemoveSpaces(s[1..]);
    }
  }

  /** The fields written with single spaces give back the text with each white-space
      run squashed to one space. */
  lemma {:induction false} SplitFromSquash(s: string, cur: string)
    ensures JoinSpace(SplitFrom(s, cur)) == cur + Squash(s)
    decreases |s|
  {
    if s == [] {
      assert cur + [] == cur;
    } else if IsSpace(s[0]) {
      var d := DropSpaces(s);
      var rest := SplitFrom(d, []);
      SplitFromSquash(d, []);
      assert JoinSpace(rest) == Squash(d) by { assert [] + Squash(d) == Squash(d); }
      JoinCons(cur, rest);
      assert cur + (" " + Squash(d)) == cur + Squash(s);
    } else {
      SplitFromSquash(s[1..], cur + [s[0]]);
      assert Squash(s) == [s[0]] + Squash(s[1..]);
      assert cur + [s[0]] + Squash(s[1..]) == cur + Squash(s);
    }
  }

  lemma JoinCons(field: string, rest: seq<string>)
    requires |rest| >= 1
    ensures JoinSpace([field] + rest) == field + (" " + JoinSpace(rest))
  {
    assert ([field] + rest)[1..] == rest;
  }

  /** The split of any text: no field holds white space, the fields together are the
      text with its white space taken out, and the fields joined by single spaces are
      the text with every white-space run squashed to one space. The last two fix the
      fields: a run of white space, however long, separates exactly two fields. */
  lemma SplitShape(s: string)
    ensures |Split(s)| >= 1
    ensures forall k :: 0 <= k < |Split(s)| ==> NoSpace(Split(s)[k])
    ensures Concat(Split(s)) == RemoveSpaces(s)
    ensures JoinSpace(Split(s)) == Squash(s)
  {
    SplitFromNoSpace(s, []);
    SplitFromContents(s, []);
    SplitFromSquash(s, []);
  }

  /** A run of white space splits like a single space: the text and its squashed
      form give the same fields. */
  lemma {:induction false} SplitFromOfSquash(s: string, cur: string)
    ensures SplitFrom(Squash(s), cur) == SplitFrom(s, cur)
    decreases |s|
  {
    if s != [] {
      if IsSpace(s[0]) {
        var d := DropSpaces(s);
        SplitFromOfSquash(d, []);
        SquashStart(d);
        assert DropSpaces(" " + Squash(d)) == Squash(d) by {
          assert (" " + Squash(d))[1..] == Squash(d);
        }
      } else {
        SplitFromOfSquash(s[1..], cur + [s[0]]);
        assert (Squash(s))[1..] == Squash(s[1..]);
      }
    }
  }

  /** Squashing keeps a first character that is not white space. */
  lemma SquashStart(s: string)
    requires s == [] || !IsSpace(s[0])
    ensures Squash(s) == [] || !IsSpace(Squash(s)[0])
  {
  }

  lemma SplitSquash(s: string)
    ensures Split(Squash(s)) == Split(s)
  {
    SplitFromOfSquash(s, []);
  }

  lemma {:induction false} SplitFromField(f: string, t: string, cur: string)
    requires NoSpace(f)
    ensures SplitFrom(f + t, cur) == SplitFrom(t, cur + f)
    decreases |f|
  {
    if f != [] {
      assert (f + t)[0] == f[0] && (f + t)[1..] == f[1..] + t;
      NoSpaceTail(f, 1);
      SplitFromField(f[1..], t, cur + [f[0]]);
      assert cur + [f[0]] + f[1..] == cur + f;
    } else {
      assert f + t == t && cur + f == cur;
    }
  }

  /** Splitting text whose fields are separated by single spaces gives the fields
      back, provided no field is empty or holds white space. */
  lemma {:induction false} SplitJoin(fields: seq<string>)
    requires |fields| >= 1
    requires forall k :: 0 <= k < |fields| ==> fields[k] != [] && NoSpace(fields[k])
    ensures Split(JoinSpace(fields)) == fields
  {
    var f := fields[0];
    if |fields| == 1 {
      SplitFromField(f, [], []);
      assert f + [] == f && [] + f == f;
    } else {
      var rest := JoinSpace(fields[1..]);
      SplitJoin(fields[1..]);
      JoinStartsWithField(fields[1..]);
      SplitFieldSpace(f, rest);
      assert fields == [f] + fields[1..];
    }
  }

  lemma SplitFieldSpace(f: string, rest: string)
    requires NoSpace(f) && rest != [] && !IsSpace(rest[0])
    ensures Split(f + " " + rest) == [f] + Split(rest)
  {
    SplitFromField(f, " " + rest, []);
    assert f + " " + rest == f + (" " + rest);
    assert [] + f == f;
    assert DropSpaces(" " + rest) == rest by {
      assert (" " + rest)[1..] == rest;
    }
    assert SplitFrom(" " + rest, f) == [f] + SplitFrom(rest, []);
  }

  lemma JoinStartsWithField(fields: seq<string>)
    requires |fields| >= 1 && fields[0] != [] && NoSpace(fields[0])
    ensures JoinSpace(fields) != [] && !IsSpace(JoinSpace(fields)[0])
  {
    if |fields| > 1 {
      assert JoinSpace(fields)[0] == fields[0][0];
    }
  }

  function FormatCron(f: CronFields): string {
    JoinSpace([f.minute, f.hour, f.dayOfMonth, f.month, f.dayOfWeek])
  }

  predicate WellFormedField(field: string) {
    field != [] && NoSpace(field)
  }

  /** Five non-empty fields without white space, written with single spaces, parse
      back into the same schedule. */
  lemma ParseFormat(f: CronFields)
    requires WellFormedField(f.minute) && WellFormedField(f.hour) && WellFormedField(f.dayOfMonth)
    requires WellFormedField(f.month) && WellFormedField(f.dayOfWeek)
    ensures ParseCron(FormatCron(f)) == Some(f)
  {
    var fields := [f.minute, f.hour, f.dayOfMonth, f.month, f.dayOfWeek];
    SplitJoin(fields);
  }

  /** Any white-space runs between the fields, one space or many, tabs or line
      breaks, parse as the same schedule as single spaces: the expression parses to
      `f` whenever squashing its runs gives the single-space layout of `f`. */
  lemma ParseSquashed(cron: string, f: CronFields)
    requires WellFormedField(f.minute) && WellFormedField(f.hour) && WellFormedField(f.dayOfMonth)
    requires WellFormedField(f.month) && WellFormedField(f.dayOfWeek)
    requires Squash(cron) == FormatCron(f)
    ensures ParseCron(cron) == Some(f)
  {
    SplitSquash(cron);
    SplitJoin([f.minute, f.hour, f.dayOfMonth, f.month, f.dayOfWeek]);
  }

  /** Every field of a valid expression holds only digits, `*`, `/`, `,` and `-`. */
  lemma ParsedFields(cron: string)
    requires IsValidCron(cron)
    ensures var f := ParseCron(cron).value;
      CronField(f.minute) && CronField(f.hour) && CronField(f.dayOfMonth) &&
      CronField(f.month) && CronField(f.dayOfWeek)
  {
    var f := ParseCron(cron).value;
    var fields := [f.minute, f.hour, f.dayOfMonth, f.month, f.dayOfWeek];
    ValidAlphabet(cron);
    forall k, i | 0 <= k < 5 && 0 <= i < |fields[k]|
      ensures IsCronChar(fields[k][i]) && !IsSpace(fields[k][i])
    {
      var j := ConcatIndex(fields, k, i);
    }
    assert CronField(fields[0]) && CronField(fields[1]) && CronField(fields[2]);
    assert CronField(fields[3]) && CronField(fields[4]);
  }

  /** A field made of schedule characters other than white space. */
  predicate CronField(field: string) {
    forall i :: 0 <= i < |field| ==> IsCronChar(field[i]) && !IsSpace(field[i])
  }

  /** Each character of each field appears in the concatenation. */
  lemma {:induction false} ConcatIndex(fields: seq<string>, k: nat, i: nat) returns (j: nat)
    requires k < |fields| && i < |fields[k]|
    ensures j < |Concat(fields)| && Concat(fields)[j] == fields[k][i]
  {
    if k == 0 {
      j := i;
    } else {
      var j' := ConcatIndex(fields[1..], k - 1, i);
      j := |fields[0]| + j';
    }
  }

  lemma {:induction false} RemoveSpacesAlphabet(s: string)
    requires forall i :: 0 <= i < |s| ==> IsCronChar(s[i])
    ensures forall i :: 0 <= i < |RemoveSpaces(s)| ==>
      IsCronChar(RemoveSpaces(s)[i]) && !IsSpace(RemoveSpaces(s)[i])
  {
    if s != [] {
      RemoveSpacesAlphabet(s[1..]);
      var head := if IsSpace(s[0]) then [] else [s[0]];
      var rest := RemoveSpaces(s[1..]);
      forall i | 0 <= i < |head + rest|
        ensures IsCronChar((head + rest)[i]) && !IsSpace((head + rest)[i])
      {
        if i >= |head| { assert (head + rest)[i] == rest[i - |head|]; }
      }
    }
  }

  /** A valid expression holds nothing but the schedule characters outside its
      white space. */
  lemma ValidAlphabet(cron: string)
    requires IsValidCron(cron)
    ensures forall i :: 0 <= i < |RemoveSpaces(cron)| ==>
      IsCronChar(RemoveSpaces(cron)[i]) && !IsSpace(RemoveSpaces(cron)[i])
  {
    RemoveSpacesAlphabet(cron);
  }

  lemma SplitLeadingSpace(rest: string)
    requires rest != [] && !IsSpace(rest[0])
    ensures Split(" " + rest) == [""] + Split(rest)
  {
    assert DropSpaces(" " + rest) == rest by {
      assert (" " + rest)[1..] == rest;
    }
  }

  /** A leading space makes an empty minute field: four fields after it count as a
      five-field schedule, and as a valid one when they hold only schedule
      characters. */
  lemma LeadingSpaceQuirk(hour: string, dayOfMonth: string, month: string, dayOfWeek: string)
    requires WellFormedField(hour) && WellFormedField(dayOfMonth)
    requires WellFormedField(month) && WellFormedField(dayOfWeek)
    ensures var cron := " " + JoinSpace([hour, dayOfMonth, month, dayOfWeek]);
      ParseCron(cron) == Some(CronFields("", hour, dayOfMonth, month, dayOfWeek)) &&
      ((forall i :: 0 <= i < |cron| ==> IsCronChar(cron[i])) ==> IsValidCron(cron))
  {
    var fields := [hour, dayOfMonth, month, dayOfWeek];
    SplitJoin(fields);
    JoinStartsWithField(fields);
    SplitLeadingSpace(JoinSpace(fields));
  }
}
