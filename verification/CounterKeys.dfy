/** Redis counter keys: the encoder of internal/counter/counter.go and the
    decoder of internal/counter/flush.go. */
module CounterKeys {
  import opened Text
  import ShortCode

  const PREFIX := "counter:"

  datatype Key = Total(code: string) | Daily(code: string, date: string)

  function Print(k: Key): string {
    match k
    case Total(code) => PREFIX + code
    case Daily(code, date) => PREFIX + code + ":" + date
  }

  predicate Prefixed(s: string) {
    |s| >= |PREFIX| && s[..|PREFIX|] == PREFIX
  }

  /** parseKey: drop the prefix, then cut at the last ':' when a calendar date follows it. */
  function ParseKey(s: string): Key {
    var rest := if Prefixed(s) then s[|PREFIX|..] else s;
    var i := LastIndexOf(rest, ':');
    if i > 0 && IsDate(rest[i + 1..]) then Daily(rest[..i], rest[i + 1..]) else Total(rest)
  }

  predicate Digit(c: char) { '0' <= c <= '9' }

  function DigitVal(c: char): int
    requires Digit(c)
  {
    c as int - '0' as int
  }

  /** time.Parse with the layout 2006-01-02 on exactly ten characters. */
  predicate IsDate(s: string) {
    && |s| == 10
    && s[4] == '-' && s[7] == '-'
    && (forall i | 0 <= i < 10 && i != 4 && i != 7 :: Digit(s[i]))
    && var year := 1000 * DigitVal(s[0]) + 100 * DigitVal(s[1]) + 10 * DigitVal(s[2]) + DigitVal(s[3]);
       var month := 10 * DigitVal(s[5]) + DigitVal(s[6]);
       var day := 10 * DigitVal(s[8]) + DigitVal(s[9]);
       1 <= month <= 12 && 1 <= day <= DaysIn(year, month)
  }

  function DaysIn(year: int, month: int): int {
    if month == 2 then
      if year % 4 == 0 && (year % 100 != 0 || year % 400 == 0) then 29 else 28
    else if month in {4, 6, 9, 11} then 30
    else 31
  }

  /** A date from year 0 to 9999 in digits. */
  function DateText(year: nat, month: nat, day: nat): string
    requires year < 10000 && month < 100 && day < 100
  {
    [Char(year / 1000), Char(year / 100 % 10), Char(year / 10 % 10), Char(year % 10), '-',
     Char(month / 10), Char(month % 10), '-', Char(day / 10), Char(day % 10)]
  }

  function Char(n: nat): char
    requires n < 10
  {
    '0' + n as char
  }

  /** The lengths of the months, February in a common year. */
  const MONTHS := [31, 28, 31, 30, 31, 30, 31, 31, 30, 31, 30, 31]

  /** Every fourth year, but of the full centuries only every fourth. */
  predicate Leap(year: nat) {
    if year % 100 == 0 then year / 100 % 4 == 0 else year % 4 == 0
  }

  predicate InCalendar(year: nat, month: nat, day: nat) {
    year < 10000 && 1 <= month <= 12 && 1 <= day <= MONTHS[month - 1] + if month == 2 && Leap(year) then 1 else 0
  }

  /** The dates recognised are exactly those of the calendar. */
  lemma DatesAreTheCalendar(year: nat, month: nat, day: nat)
    requires year < 10000 && month < 100 && day < 100
    ensures IsDate(DateText(year, month, day)) <==> InCalendar(year, month, day)
  {
    var s := DateText(year, month, day);
    assert forall i | 0 <= i < 10 && i != 4 && i != 7 :: Digit(s[i]);
    FourDigits(year);
    assert DigitVal(s[0]) == year / 1000 && DigitVal(s[1]) == year / 100 % 10
      && DigitVal(s[2]) == year / 10 % 10 && DigitVal(s[3]) == year % 10;
    assert DigitVal(s[5]) == month / 10 && DigitVal(s[6]) == month % 10;
    assert DigitVal(s[8]) == day / 10 && DigitVal(s[9]) == day % 10;
    LeapIs(year);
  }

  lemma FourDigits(n: nat)
    requires n < 10000
    ensures 1000 * (n / 1000) + 100 * (n / 100 % 10) + 10 * (n / 10 % 10) + n % 10 == n
  {
    var tens, hundreds := n / 10, n / 100;
    assert n == 10 * tens + n % 10;
    assert hundreds == tens / 10 && tens == 10 * hundreds + tens % 10;
    assert hundreds == 10 * (n / 1000) + hundreds % 10;
  }

  lemma LeapIs(year: nat)
    ensures Leap(year) <==> year % 4 == 0 && (year % 100 != 0 || year % 400 == 0)
  {
    if year % 100 == 0 {
      var centuries := year / 100;
      var a, b := centuries / 4, centuries % 4;
      assert year == 100 * centuries && centuries == 4 * a + b;
      assert year == 4 * (25 * centuries);
      assert year == 400 * a + 100 * b && 0 <= 100 * b < 400;
    }
  }

  /** The day after: through month ends and the turn of the year. */
  function DayAfter(year: nat, month: nat, day: nat): (nat, nat, nat) {
    if InCalendar(year, month, day + 1) then (year, month, day + 1)
    else if month < 12 then (year, month + 1, 1) else (year + 1, 1, 1)
  }

  lemma DayAfterIsDate(year: nat, month: nat, day: nat)
    requires InCalendar(year, month, day) && (year, month, day) != (9999, 12, 31)
    ensures var (y, m, d) := DayAfter(year, month, day);
      y < 10000 && m < 100 && d < 100 && IsDate(DateText(y, m, d))
  {
    hide IsDate;
    var (y, m, d) := DayAfter(year, month, day);
    assert InCalendar(y, m, d);
    DatesAreTheCalendar(y, m, d);
  }

  type Date = s: string | IsDate(s) witness "2024-02-29"

  /** A code that itself looks like a daily key: some text, a ':' and a date. */
  predicate EndsInDate(code: string) {
    |code| > 11 && code[|code| - 11] == ':' && IsDate(code[|code| - 10..])
  }

  lemma DatesHaveNoColon(s: string)
    requires IsDate(s)
    ensures ':' !in s
  {
    assert forall i | 0 <= i < |s| :: s[i] == '-' || Digit(s[i]);
  }

  lemma {:induction false} LastAt(head: string, c: char, tail: string)
    requires c !in tail
    ensures LastIndexOf(head + [c] + tail, c) == |head|
  {
    var s := head + [c] + tail;
    if tail == "" {
      assert s[|s| - 1] == c;
    } else {
      var n := |tail| - 1;
      assert s[|s| - 1] == tail[n];
      assert s[..|s| - 1] == head + [c] + tail[..n];
      LastAt(head, c, tail[..n]);
    }
  }

  /** Total keys decode to their code exactly when the code does not end in ':' and a date. */
  lemma TotalDecodesIff(code: string)
    ensures ParseKey(Print(Total(code))) == Total(code) <==> !EndsInDate(code)
  {
    var key := PREFIX + code;
    assert key[..|PREFIX|] == PREFIX && key[|PREFIX|..] == code;
    var i := LastIndexOf(code, ':');
    if EndsInDate(code) {
      var n := |code| - 11;
      DatesHaveNoColon(code[n + 1..]);
      assert code == code[..n] + [':'] + code[n + 1..];
      LastAt(code[..n], ':', code[n + 1..]);
    }
  }

  /** Daily keys decode to their parts exactly when the code is not empty and the date is one. */
  lemma DailyDecodesIff(code: string, date: string)
    ensures ParseKey(Print(Daily(code, date))) == Daily(code, date) <==> code != "" && IsDate(date)
  {
    var key := Print(Daily(code, date));
    var rest := code + [':'] + date;
    assert key[..|PREFIX|] == PREFIX && key[|PREFIX|..] == rest;
    if IsDate(date) {
      DatesHaveNoColon(date);
      LastAt(code, ':', date);
      assert rest[..|code|] == code && rest[|code| + 1..] == date;
    }
  }

  /** Printing undoes parsing on everything the counter scan returns, valid code or not. */
  lemma ParsedKeysPrintBack(s: string)
    requires Prefixed(s)
    ensures Print(ParseKey(s)) == s
  {
    hide IsDate;
    var rest := s[|PREFIX|..];
    assert s == PREFIX + rest;
    var i := LastIndexOf(rest, ':');
    if i > 0 && IsDate(rest[i + 1..]) {
      assert rest == rest[..i] + ":" + rest[i + 1..];
      assert PREFIX + rest[..i] + ":" + rest[i + 1..] == PREFIX + (rest[..i] + ":" + rest[i + 1..]);
    }
  }

  /** The key of a valid code and, when daily, a calendar date. */
  predicate Clean(k: Key) {
    ShortCode.ValidCode(k.code) && (k.Daily? ==> IsDate(k.date))
  }

  lemma CleanKeysDecode(k: Key)
    requires Clean(k)
    ensures ParseKey(Print(k)) == k && Prefixed(Print(k))
  {
    hide IsDate, ParseKey, ShortCode.ValidCode;
    ShortCode.ValidCodesAreClean(k.code);
    PrintIsPrefixed(k);
    match k {
      case Total(code) =>
        TotalDecodesIff(code);
        assert |code| > 11 ==> code[|code| - 11] in code;
      case Daily(code, date) =>
        DailyDecodesIff(code, date);
    }
  }

  lemma PrintIsPrefixed(k: Key)
    ensures Prefixed(Print(k))
  {
  }

  /** What the keys look like in Redis. */
  lemma KeyTexts(code: string, date: string)
    ensures Print(Total(code)) == "counter:" + code && Print(Daily(code, date)) == "counter:" + code + ":" + date
  {
  }

  /** Two clean keys share a Redis key only when they are the same key. */
  lemma CleanKeysNeverCollide(a: Key, b: Key)
    requires Clean(a) && Clean(b) && Print(a) == Print(b)
    ensures a == b
  {
    CleanKeysDecode(a);
    CleanKeysDecode(b);
  }
}
