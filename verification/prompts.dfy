/**
 * The decisions of the two input helpers, without their prompt-and-retry
 * loops: `get_user_choice` resolves what the user typed against a menu by
 * prefix and decides whether to ask for confirmation; `get_user_num` turns
 * what the user typed into a row count within an inclusive range.
 */
module Prompts {
  import opened Wrappers
  import opened Text
  import opened Seqs
  import opened Filters

  // ---------------------------------------------------------------- get_user_choice

  /** `choice[:len(s)] == s`. */
  predicate PrefixMatches(choice: string, s: string) {
    Truncate(choice, |s|) == s
  }

  /** Comparing the truncated choice with the input is a prefix test. */
  lemma PrefixMatchesIsPrefix(choice: string, s: string)
    ensures PrefixMatches(choice, s) <==> s <= choice
  {
  }

  /** `test_list`: every choice cut to the length of the input. */
  function TestList(allowed: seq<string>, s: string): (r: seq<string>)
    ensures |r| == |allowed|
    ensures forall i :: 0 <= i < |allowed| ==> (r[i] == s <==> s <= allowed[i])
  {
    var r := Project(allowed, (a: string) => Truncate(a, |s|));
    forall i | 0 <= i < |allowed|
      ensures r[i] == s <==> s <= allowed[i]
    {
      PrefixMatchesIsPrefix(allowed[i], s);
    }
    r
  }

  /** The menu entry the input picked, and whether the user must confirm it. */
  datatype Resolution = Resolution(index: nat, needsConfirmation: bool)

  /**
   * One pass of `get_user_choice` up to the confirmation question: the input
   * is lower-cased, the first choice it is a prefix of is picked, and anything
   * but an exact match must be confirmed. Nothing is picked when the input is
   * a prefix of no choice.
   */
  function ResolveChoice(allowed: seq<string>, input: string): (r: Option<Resolution>)
    ensures r.None? <==> forall j :: 0 <= j < |allowed| ==> !(Lower(input) <= allowed[j])
    ensures r.Some? ==> r.value.index < |allowed| && Lower(input) <= allowed[r.value.index]
    ensures r.Some? ==> forall j :: 0 <= j < r.value.index ==> !(Lower(input) <= allowed[j])
    ensures r.Some? ==> (r.value.needsConfirmation <==> Lower(input) != allowed[r.value.index])
  {
    var s := Lower(input);
    var tests := TestList(allowed, s);
    forall j | 0 <= j < |allowed| ensures (tests[j] == s) == (s <= allowed[j]) {
      PrefixMatchesIsPrefix(allowed[j], s);
    }
    match IndexOf(tests, s)
    case None => None
    case Some(i) => Some(Resolution(i, s != allowed[i]))
  }

  /**
   * The entry picked is the first one the lower-cased input is a prefix of,
   * and it needs confirming unless the input spells it out.
   */
  lemma PicksFirst(allowed: seq<string>, input: string, i: nat)
    requires i < |allowed| && Lower(input) <= allowed[i]
    requires forall j :: 0 <= j < i ==> !(Lower(input) <= allowed[j])
    ensures ResolveChoice(allowed, input) == Some(Resolution(i, Lower(input) != allowed[i]))
  {
  }

  /** How one pass of `get_user_choice` can end without a choice. */
  datatype ChoiceError =
    | NotValid   // "That is not a valid response."
    | Declined   // "Sorry, let's try again."
    | NoAnswer   // an empty confirmation answer: indexing it fails and ends the program

  /**
   * One pass of the `get_user_choice` loop: resolve `input`, and when the
   * match is inexact, accept it only if `answer` starts with `y` or `Y`.
   */
  function ChoiceStep(allowed: seq<string>, input: string, answer: string): (r: Result<string, ChoiceError>)
    ensures r.Ok? ==> r.value in allowed && Lower(input) <= r.value
    ensures r == Err(NotValid) <==> ResolveChoice(allowed, input).None?
    ensures r.Ok? && Lower(input) != r.value ==> |answer| > 0 && LowerChar(answer[0]) == 'y'
    ensures ResolveChoice(allowed, input).Some? && !ResolveChoice(allowed, input).value.needsConfirmation ==>
      r == Ok(Lower(input))
    ensures ResolveChoice(allowed, input).Some? ==>
      var res := ResolveChoice(allowed, input).value;
      && (r.Ok? ==> r.value == allowed[res.index])
      && (res.needsConfirmation ==> (r.Ok? <==> |answer| > 0 && LowerChar(answer[0]) == 'y'))
      && (res.needsConfirmation && |answer| == 0 ==> r == Err(NoAnswer))
      && (res.needsConfirmation && |answer| > 0 && LowerChar(answer[0]) != 'y' ==> r == Err(Declined))
  {
    match ResolveChoice(allowed, input)
    case None => Err(NotValid)
    case Some(Resolution(i, confirm)) =>
      if !confirm then Ok(allowed[i])
      else if |answer| == 0 then Err(NoAnswer)
      else if LowerChar(answer[0]) != 'y' then Err(Declined)
      else Ok(allowed[i])
  }

  /**
   * Typing a menu entry exactly picks it without a question, provided no
   * earlier entry starts with it.
   */
  lemma ExactEntryNeedsNoConfirmation(allowed: seq<string>, i: nat, answer: string)
    requires i < |allowed|
    requires Lower(allowed[i]) == allowed[i]
    requires forall j :: 0 <= j < i ==> !(allowed[i] <= allowed[j])
    ensures ChoiceStep(allowed, allowed[i], answer) == Ok(allowed[i])
  {
    PicksFirst(allowed, allowed[i], i);
  }

  /** Two strings of at least three characters that begin differently are not prefixes of each other. */
  lemma NotPrefixByHead(a: string, b: string)
    requires |a| >= 3 && |b| >= 3 && a[..3] != b[..3]
    ensures !(a <= b)
  {
  }

  /** No entry of the month menu starts with an earlier one. */
  lemma MonthsPrefixFree(i: nat, j: nat)
    requires j < i < |MONTHS|
    ensures !(MONTHS[i] <= MONTHS[j])
  {
    var d := MONTHS;
    assert d[0][..3] == "all" && d[1][..3] == "jan" && d[2][..3] == "feb" && d[3][..3] == "mar"
        && d[4][..3] == "apr" && d[5][..3] == "may" && d[6][..3] == "jun";
    NotPrefixByHead(d[i], d[j]);
  }

  /** No entry of the day menu starts with an earlier one. */
  lemma DaysPrefixFree(i: nat, j: nat)
    requires j < i < |DAYS|
    ensures !(DAYS[i] <= DAYS[j])
  {
    var d := DAYS;
    assert d[0][..3] == "all" && d[1][..3] == "mon" && d[2][..3] == "tue" && d[3][..3] == "wed"
        && d[4][..3] == "thu" && d[5][..3] == "fri" && d[6][..3] == "sat" && d[7][..3] == "sun";
    NotPrefixByHead(d[i], d[j]);
  }

  /** Every entry of the month menu can be typed in full and is taken as it is. */
  lemma MonthEntriesNeedNoConfirmation(i: nat, answer: string)
    requires i < |MONTHS|
    ensures ChoiceStep(MONTHS, MONTHS[i], answer) == Ok(MONTHS[i])
  {
    LowerOfLowerCase(MONTHS[i]);
    forall j | 0 <= j < i
      ensures !(MONTHS[i] <= MONTHS[j])
    {
      MonthsPrefixFree(i, j);
    }
    ExactEntryNeedsNoConfirmation(MONTHS, i, answer);
  }

  /** `"Ju"` lower-cases to `"ju"`. */
  lemma LowerJu()
    ensures Lower("Ju") == "ju"
  {
  }

  /** Of the month menu, only `"june"` starts with `"ju"`. */
  lemma OnlyJuneStartsJu()
    ensures forall j :: 0 <= j < 6 ==> !("ju" <= MONTHS[j])
    ensures "ju" <= MONTHS[6]
  {
    var d := MONTHS;
    assert d[0][..2] == "al" && d[1][..2] == "ja" && d[2][..2] == "fe" && d[3][..2] == "ma"
        && d[4][..2] == "ap" && d[5][..2] == "ma" && d[6][..2] == "ju";
    forall j | 0 <= j < 6
      ensures !("ju" <= d[j])
    {
      assert d[j][..2] != "ju";
    }
  }

  /** `"ju"` is short for `"june"`, the only month of the menu it starts, and must be confirmed. */
  lemma AbbreviatedMonth()
    ensures ResolveChoice(MONTHS, "Ju") == Some(Resolution(6, true))
  {
    LowerJu();
    OnlyJuneStartsJu();
    PicksFirst(MONTHS, "Ju", 6);
  }

  /** `"t"` starts both `"tuesday"` and `"thursday"`; the earlier one is picked. */
  lemma AmbiguousDayPicksFirst()
    ensures ResolveChoice(DAYS, "t") == Some(Resolution(2, true))
  {
    assert Lower("t") == "t";
    TuesdayFirstStartsT();
    PicksFirst(DAYS, "t", 2);
  }

  /** Of the day menu, `"tuesday"` is the first entry that starts with `"t"`. */
  lemma TuesdayFirstStartsT()
    ensures forall j :: 0 <= j < 2 ==> !("t" <= DAYS[j])
    ensures "t" <= DAYS[2] && DAYS[2] != "t"
  {
    var d := DAYS;
    assert d[0][0] == 'a' && d[1][0] == 'm' && d[2][0] == 't' && |d[2]| > 1;
  }

  /**
   * The empty input is a prefix of every entry, so it picks the first one and
   * asks for confirmation, although the documentation speaks of non-empty input.
   */
  lemma EmptyInputPicksFirst(allowed: seq<string>)
    requires |allowed| > 0 && allowed[0] != ""
    ensures ResolveChoice(allowed, "") == Some(Resolution(0, true))
  {
  }

  /** A month the menu does not offer is not valid. */
  lemma UnofferedMonthIsNotValid()
    ensures ResolveChoice(MONTHS, "july") == None
  {
    assert Lower("july") == "july";
    forall j | 0 <= j < |MONTHS| ensures !("july" <= MONTHS[j]) {
      assert MONTHS[j][..1] != "j" || MONTHS[j][..3] != "jul";
    }
  }

  /** A month picked from the menu never makes `load_data` fail. */
  lemma ChosenMonthFilters(input: string, answer: string, rows: seq<Trips.Trip>, day: string)
    ensures ChoiceStep(MONTHS, input, answer).Ok? ==> FilterRows(rows, ChoiceStep(MONTHS, input, answer).value, day).Ok?
  {
    if ChoiceStep(MONTHS, input, answer).Err? {
      return;
    }
    var m := ChoiceStep(MONTHS, input, answer).value;
    var i :| 0 <= i < |MONTHS| && MONTHS[i] == m;
    if i > 0 {
      MonthChoiceIsLowerCase(i);
    }
  }

  /** A city picked from the menu always has a data file. */
  lemma ChosenCityHasFile(input: string, answer: string)
    requires ChoiceStep(CITIES, input, answer).Ok?
    ensures CityFile(ChoiceStep(CITIES, input, answer).value).Some?
  {
  }

  /** An entry that an earlier entry starts with must be confirmed even when typed in full. */
  lemma ShadowedEntryNeedsConfirmation()
    ensures ResolveChoice(["ab", "a"], "a") == Some(Resolution(0, true))
  {
  }

  /** Every entry of the day menu can be typed in full and is taken as it is. */
  lemma DayEntriesNeedNoConfirmation(i: nat, answer: string)
    requires i < |DAYS|
    ensures ChoiceStep(DAYS, DAYS[i], answer) == Ok(DAYS[i])
  {
    LowerOfLowerCase(DAYS[i]);
    forall j | 0 <= j < i
      ensures !(DAYS[i] <= DAYS[j])
    {
      DaysPrefixFree(i, j);
    }
    ExactEntryNeedsNoConfirmation(DAYS, i, answer);
  }

  // ---------------------------------------------------------------- get_user_num

  /**
   * The characters `int()` skips around a number in an ASCII string: space,
   * `\t`, `\n`, `\v`, `\f` and `\r`. The separators `\x1c`..`\x1f`, which
   * `str.isspace()` accepts, are not among them.
   */
  predicate IsSpace(c: char) {
    c == ' ' || 9 <= c as int <= 13
  }

  predicate IsDigit(c: char) { '0' <= c <= '9' }

  predicate AllDigits(s: string) {
    forall i :: 0 <= i < |s| ==> IsDigit(s[i])
  }

  function StripLeft(s: string): (r: string)
    ensures |r| <= |s| && r == s[|s| - |r|..]
    ensures |r| > 0 ==> !IsSpace(r[0])
    ensures forall i :: 0 <= i < |s| - |r| ==> IsSpace(s[i])
  {
    if |s| > 0 && IsSpace(s[0]) then StripLeft(s[1..]) else s
  }

  function StripRight(s: string): (r: string)
    ensures |r| <= |s| && r == s[..|r|]
    ensures |r| > 0 ==> !IsSpace(r[|r| - 1])
    ensures forall i :: |r| <= i < |s| ==> IsSpace(s[i])
  {
    if |s| > 0 && IsSpace(s[|s| - 1]) then StripRight(s[..|s| - 1]) else s
  }

  /** Leading and trailing spaces removed. */
  function Strip(s: string): string {
    StripRight(StripLeft(s))
  }

  /** The value of a string of decimal digits, most significant first. */
  function DigitsValue(ds: string): nat
    requires AllDigits(ds)
  {
    if |ds| == 0 then 0
    else DigitsValue(ds[..|ds| - 1]) * 10 + (ds[|ds| - 1] as int - '0' as int)
  }

  /**
   * `int(s)` on a string: surrounding spaces, an optional sign and at least
   * one decimal digit; anything else is a `ValueError`.
   */
  function ParseInt(s: string): (r: Option<int>)
    ensures r.Some? <==> |Unsigned(Strip(s))| > 0 && AllDigits(Unsigned(Strip(s)))
    ensures r.Some? ==> |Strip(s)| > 0
    ensures r.Some? ==> (r.value < 0 ==> Strip(s)[0] == '-') && (Strip(s)[0] == '-' ==> r.value <= 0)
    ensures r.Some? ==> (if r.value < 0 then -r.value else r.value) == DigitsValue(Unsigned(Strip(s)))
  {
    var t := Strip(s);
    var digits := Unsigned(t);
    if |digits| == 0 || !AllDigits(digits) then None
    else
      var v: int := DigitsValue(digits);
      Some(if t[0] == '-' then -v else v)
  }

  /** The text after one optional leading `+` or `-`. */
  function Unsigned(t: string): (r: string)
    ensures |t| > 0 && (t[0] == '-' || t[0] == '+') ==> t == [t[0]] + r
    ensures !(|t| > 0 && (t[0] == '-' || t[0] == '+')) ==> r == t
  {
    if |t| > 0 && (t[0] == '-' || t[0] == '+') then t[1..] else t
  }

  /** The separator `\x1c` is not skipped before the digits, so `"\x1c5"` is not an integer. */
  lemma SeparatorIsNotSkipped()
    ensures ResolveNumber(1, 10, [28 as char, '5']) == Err(NotAnInteger)
  {
    var s := [28 as char, '5'];
    StripUnspaced(s);
    assert Unsigned(s) == s && !IsDigit(s[0]);
  }

  /** The decimal digits of a natural number, without leading zeros. */
  function ShowNat(n: nat): (r: string)
    ensures |r| > 0 && AllDigits(r)
    ensures DigitsValue(r) == n
  {
    var d := [('0' as int + n % 10) as char];
    if n < 10 then d
    else
      var r := ShowNat(n / 10) + d;
      assert r[..|r| - 1] == ShowNat(n / 10);
      r
  }

  /** `str(n)`. */
  function Show(n: int): string {
    if n < 0 then "-" + ShowNat(-n) else ShowNat(n)
  }

  /** A string with no space at either end strips to itself. */
  lemma StripUnspaced(s: string)
    requires |s| > 0 && !IsSpace(s[0]) && !IsSpace(s[|s| - 1])
    ensures Strip(s) == s
  {
  }

  /** `int(str(n)) == n`. */
  lemma ParseShow(n: int)
    ensures ParseInt(Show(n)) == Some(n)
  {
    var s := Show(n);
    var digits := if n < 0 then ShowNat(-n) else ShowNat(n);
    assert s[|s| - 1] == digits[|digits| - 1];
    StripUnspaced(s);
    if n < 0 {
      assert s[1..] == digits;
    }
  }

  /** How one pass of `get_user_num` can end without a number. */
  datatype NumberError =
    | NotAnInteger   // `int()` raised
    | OutOfRange     // "Value entered is out of range, please try again."

  /**
   * One pass of the `get_user_num` loop for the range `[lo, hi]`: `'all'` in
   * any case gives `hi`; otherwise the input must be an integer with
   * `lo <= x <= hi`, both ends included.
   */
  function ResolveNumber(lo: int, hi: int, input: string): (r: Result<int, NumberError>)
    ensures Lower(input) == "all" ==> r == Ok(hi)
    ensures Lower(input) != "all" && ParseInt(input).None? ==> r == Err(NotAnInteger)
    ensures Lower(input) != "all" && ParseInt(input).Some? ==>
      (r.Ok? <==> lo <= ParseInt(input).value <= hi) &&
      (r.Ok? ==> r.value == ParseInt(input).value) &&
      (r.Err? ==> r.error == OutOfRange)
  {
    if Lower(input) == "all" then Ok(hi)
    else
      match ParseInt(input)
      case None => Err(NotAnInteger)
      case Some(x) => if x < lo || x > hi then Err(OutOfRange) else Ok(x)
  }

  /** A number written out never reads as `'all'`: it starts with a sign or a digit. */
  lemma ShownNumberIsNotAll(n: int)
    ensures Lower(Show(n)) != "all"
  {
    var s := Show(n);
    assert s[0] == '-' || IsDigit(s[0]);
    assert Lower(s)[0] == LowerChar(s[0]);
  }

  /** Every number of the range, written out, is accepted as itself. */
  lemma EveryNumberInRangeAccepted(lo: int, hi: int, n: int)
    requires lo <= n <= hi
    ensures ResolveNumber(lo, hi, Show(n)) == Ok(n)
  {
    ParseShow(n);
    ShownNumberIsNotAll(n);
  }

  /** Every number outside the range, written out, is rejected as out of range. */
  lemma EveryNumberOutsideRangeRejected(lo: int, hi: int, n: int)
    requires n < lo || hi < n
    ensures ResolveNumber(lo, hi, Show(n)) == Err(OutOfRange)
  {
    ParseShow(n);
    ShownNumberIsNotAll(n);
  }

  /**
   * `'all'` gives the top of the range without checking it, so for the empty
   * range `[1, 0]` of an empty table it yields 0, a value the range excludes.
   */
  lemma AllIgnoresEmptyRange()
    ensures ResolveNumber(1, 0, "all") == Ok(0)
  {
  }
}
