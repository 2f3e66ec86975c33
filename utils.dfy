/**
 * Two display helpers of the client: truncating a text to a maximum length
 * with an ellipsis, and phrasing the time elapsed since a date in Spanish
 * ("Hace N unidad"). The current time is a parameter instead of a clock
 * reading; times are integer milliseconds.
 */
module Utils {
  import opened Schema
  import opened Text
  import opened Decimal

  /**
   * truncateText: the text itself when it fits in maxLength characters,
   * otherwise its first maxLength characters (none when maxLength is
   * negative, as `substring` clamps it to 0) followed by "...".
   */
  function TruncateText(text: string, maxLength: int): (r: string)
    ensures |text| <= maxLength ==> r == text
    ensures |text| > maxLength >= 0 ==>
      |r| == maxLength + 3 && r[..maxLength] == text[..maxLength] && r[maxLength..] == "..."
    ensures maxLength < 0 ==> r == "..."
  {
    if |text| <= maxLength then text
    else text[..if maxLength < 0 then 0 else maxLength] + "..."
  }

  /** Truncating a truncated text again changes nothing. */
  lemma TruncateTextIdempotent(text: string, maxLength: int)
    ensures TruncateText(TruncateText(text, maxLength), maxLength) == TruncateText(text, maxLength)
  {
    if |text| > maxLength >= 0 {
      var once := TruncateText(text, maxLength);
      assert once[..maxLength] == text[..maxLength];
    }
  }

  datatype TimeUnit = Seconds | Minutes | Hours | Days | Months | Years

  /** The word each unit is printed with; every one is a plural, whatever the count. */
  function UnitWord(u: TimeUnit): (r: string)
    ensures |r| >= 4 && r[|r| - 1] == 's'
  {
    match u
    case Seconds => "segundos"
    case Minutes => "minutos"
    case Hours => "horas"
    case Days => "días"
    case Months => "meses"
    case Years => "años"
  }

  /** The word a unit is printed with, read back. */
  function UnitOfWord(w: string): (r: Option<TimeUnit>)
    ensures r.Some? ==> UnitWord(r.value) == w
  {
    if w == "segundos" then Some(Seconds)
    else if w == "minutos" then Some(Minutes)
    else if w == "horas" then Some(Hours)
    else if w == "días" then Some(Days)
    else if w == "meses" then Some(Months)
    else if w == "años" then Some(Years)
    else None
  }

  /** The length of a unit in milliseconds: a month is 30 days and a year 365. */
  function UnitMs(u: TimeUnit): (r: int)
    ensures r > 0 && r % 1000 == 0
  {
    match u
    case Seconds => 1000
    case Minutes => 60 * 1000
    case Hours => 60 * 60 * 1000
    case Days => 24 * 60 * 60 * 1000
    case Months => 30 * 24 * 60 * 60 * 1000
    case Years => 365 * 24 * 60 * 60 * 1000
  }

  /** The elapsed time in each unit, derived by successive floor divisions. */
  datatype Elapsed = Elapsed(secs: int, mins: int, hours: int, days: int, months: int, years: int)

  /**
   * The six counts of formatTimeAgo. Every count is the millisecond
   * difference floored by its unit's length: each successive floor loses
   * nothing against a direct division.
   */
  function ElapsedOf(diffMs: int): (e: Elapsed)
    ensures e.secs == diffMs / UnitMs(Seconds)
    ensures e.mins == diffMs / UnitMs(Minutes)
    ensures e.hours == diffMs / UnitMs(Hours)
    ensures e.days == diffMs / UnitMs(Days)
    ensures e.months == diffMs / UnitMs(Months)
    ensures e.years == diffMs / UnitMs(Years)
  {
    var secs := diffMs / 1000;
    var mins := secs / 60;
    var hours := mins / 60;
    var days := hours / 24;
    assert mins == diffMs / (60 * 1000) && hours == diffMs / (60 * 60 * 1000) by {
      FloorTwice(diffMs, 1000, 60);
      FloorTwice(diffMs, 60 * 1000, 60);
    }
    assert days == diffMs / (24 * 60 * 60 * 1000) by {
      FloorTwice(diffMs, 60 * 60 * 1000, 24);
    }
    assert days / 30 == diffMs / (30 * 24 * 60 * 60 * 1000) && days / 365 == diffMs / (365 * 24 * 60 * 60 * 1000) by {
      FloorTwice(diffMs, 24 * 60 * 60 * 1000, 30);
      FloorTwice(diffMs, 24 * 60 * 60 * 1000, 365);
    }
    Elapsed(secs, mins, hours, days, days / 30, days / 365)
  }

  /** Flooring twice is flooring once by the product of the divisors. */
  lemma FloorTwice(x: int, a: int, b: int)
    requires a > 0 && b > 0
    ensures (x / a) / b == x / (a * b)
  {
    var q, r := x / a, x % a;
    var q2, r2 := q / b, q % b;
    assert x == a * q + r;
    assert q == b * q2 + r2;
    MulRearrange(a, b, q2, r2);
    MulBelow(a, r2, b);
    FloorUnique(x, a * b, q2, a * r2 + r);
  }

  /** a·(b·q + r) == (a·b)·q + a·r */
  lemma MulRearrange(a: int, b: int, q: int, r: int)
    ensures a * (b * q + r) == (a * b) * q + a * r
  {
  }

  /** With 0 <= r < b and a > 0: 0 <= a·r <= a·b - a. */
  lemma MulBelow(a: int, r: int, b: int)
    requires a > 0 && 0 <= r < b
    ensures 0 <= a * r <= a * b - a
  {
    assert a * b - a == a * (b - 1);
  }

  /** A positive multiple of d is at least d. */
  lemma MulAtLeast(d: int, k: int)
    requires d > 0 && k >= 1
    ensures d * k >= d
  {
  }

  /** The Euclidean quotient is determined by the division equation. */
  lemma FloorUnique(x: int, d: int, q: int, r: int)
    requires d > 0 && x == d * q + r && 0 <= r < d
    ensures x / d == q
  {
    var q', r' := x / d, x % d;
    assert d * q' + r' == d * q + r;
    assert d * (q' - q) == r - r';
    if q' > q {
      MulAtLeast(d, q' - q);
    } else if q' < q {
      MulAtLeast(d, q - q');
    }
  }

  /**
   * The branch formatTimeAgo takes: the first unit whose threshold holds,
   * with that unit's count. Stated on the difference itself, exactly one
   * unit is chosen, the thresholds are one minute, one hour, one day, 30 days
   * and 360 days (twelve 30-day months), and the count is the difference
   * floored by the unit's length.
   */
  function TimeAgoUnit(diffMs: int): (r: (TimeUnit, int))
    ensures r.0 == Seconds <==> diffMs < 60 * 1000
    ensures r.0 == Minutes <==> 60 * 1000 <= diffMs < 60 * 60 * 1000
    ensures r.0 == Hours <==> 60 * 60 * 1000 <= diffMs < 24 * 60 * 60 * 1000
    ensures r.0 == Days <==> 24 * 60 * 60 * 1000 <= diffMs < 30 * 24 * 60 * 60 * 1000
    ensures r.0 == Months <==> 30 * 24 * 60 * 60 * 1000 <= diffMs < 360 * 24 * 60 * 60 * 1000
    ensures r.0 == Years <==> 360 * 24 * 60 * 60 * 1000 <= diffMs
    ensures r.1 == diffMs / UnitMs(r.0)
  {
    var e := ElapsedOf(diffMs);
    assert e.months < 12 <==> diffMs < 360 * 24 * 60 * 60 * 1000 by {
      FloorTwice(diffMs, 30 * 24 * 60 * 60 * 1000, 12);
    }
    if e.secs < 60 then (Seconds, e.secs)
    else if e.mins < 60 then (Minutes, e.mins)
    else if e.hours < 24 then (Hours, e.hours)
    else if e.days < 30 then (Days, e.days)
    else if e.months < 12 then (Months, e.months)
    else (Years, e.years)
  }

  /**
   * The phrase for a unit and a count: "Hace ", the count, a space and the
   * unit word. It reads back as exactly that unit and count, and it is the
   * only text that does.
   */
  function Phrase(u: TimeUnit, n: int): (r: string)
    ensures |r| > 5 && r[..5] == "Hace "
    ensures ParseTimeAgo(r) == Some((u, n))
    ensures forall t :: ParseTimeAgo(t) == Some((u, n)) ==> t == r
  {
    var r := "Hace " + IntToString(n) + " " + UnitWord(u);
    assert ParseTimeAgo(r) == Some((u, n)) by {
      PhraseWords(u, n);
      ParseTimeAgoOfWords(r, u, n);
    }
    assert forall t :: ParseTimeAgo(t) == Some((u, n)) ==> t == r by {
      forall t | ParseTimeAgo(t) == Some((u, n)) ensures t == r {
        ParseTimeAgoExact(t);
      }
    }
    r
  }

  /**
   * formatTimeAgo(date) at time `now`: "Hace " followed by a decimal integer,
   * a space and a unit word, naming exactly the unit and count of the branch
   * taken; no other text reads back as that unit and count.
   */
  function FormatTimeAgo(date: int, now: int): (r: string)
    ensures |r| > 5 && r[..5] == "Hace "
    ensures ParseTimeAgo(r) == Some(TimeAgoUnit(now - date))
    ensures forall t :: ParseTimeAgo(t) == Some(TimeAgoUnit(now - date)) ==> t == r
  {
    var (u, n) := TimeAgoUnit(now - date);
    Phrase(u, n)
  }

  /** Reads "Hace <integer> <unit word>" back into the unit and the count. */
  function ParseTimeAgo(s: string): Option<(TimeUnit, int)>
  {
    var parts := Split(s, ' ');
    if |parts| == 3 && parts[0] == "Hace" then
      match (ParseInt(parts[1]), UnitOfWord(parts[2]))
      case (Some(n), Some(u)) => Some((u, n))
      case _ => None
    else
      None
  }

  /** A text that reads back as a unit and a count is "Hace ", the count's rendering, a space and the unit word. */
  lemma ParseTimeAgoExact(s: string)
    requires ParseTimeAgo(s).Some?
    ensures s == "Hace " + IntToString(ParseTimeAgo(s).value.1) + " " + UnitWord(ParseTimeAgo(s).value.0)
  {
    var parts := Split(s, ' ');
    var n := ParseInt(parts[1]).value;
    var u := UnitOfWord(parts[2]).value;
    assert ParseTimeAgo(s).value == (u, n);
    IntToStringOfParseInt(parts[1]);
    var a, b, c := parts[0], parts[1], parts[2];
    assert a == "Hace" && b == IntToString(n) && c == UnitWord(u);
    assert s == Join([a, b, c], ' ') by {
      JoinSplit(s, ' ');
      assert parts == [a, b, c];
    }
    JoinThree(a, b, c, ' ');
  }

  /** Three words without the separator, joined by it, split back into the three. */
  lemma SplitThreeWords(a: string, b: string, c: string, sep: char)
    requires sep !in a && sep !in b && sep !in c
    ensures Split(a + [sep] + b + [sep] + c, sep) == [a, b, c]
  {
    var bc := b + [sep] + c;
    assert a + [sep] + b + [sep] + c == a + [sep] + bc;
    SplitAfterWord(a, sep, bc);
    SplitAfterWord(b, sep, c);
    SplitWithoutSeparator(c, sep);
    assert [a] + ([b] + [c]) == [a, b, c];
  }

  lemma UnitWordHasNoSpace(u: TimeUnit)
    ensures ' ' !in UnitWord(u)
  {
  }

  /** A phrase splits on spaces into "Hace", the count's digits and the unit word. */
  lemma PhraseWords(u: TimeUnit, n: int)
    ensures Split("Hace " + IntToString(n) + " " + UnitWord(u), ' ') == ["Hace", IntToString(n), UnitWord(u)]
  {
    var digits, word := IntToString(n), UnitWord(u);
    assert "Hace " + digits + " " + word == "Hace" + [' '] + digits + [' '] + word;
    UnitWordHasNoSpace(u);
    SplitThreeWords("Hace", digits, word, ' ');
  }

  /** Every unit word is read back as its unit. */
  lemma UnitOfUnitWord(u: TimeUnit)
    ensures UnitOfWord(UnitWord(u)) == Some(u)
  {
  }

  /** Any text that splits into "Hace", a rendered count and a unit word is read back as those. */
  lemma ParseTimeAgoOfWords(s: string, u: TimeUnit, n: int)
    requires Split(s, ' ') == ["Hace", IntToString(n), UnitWord(u)]
    ensures ParseTimeAgo(s) == Some((u, n))
  {
    ParseIntToString(n);
    UnitOfUnitWord(u);
  }

  /**
   * From 360 to 364 days ago the month count is already 12, so the years
   * branch is taken while the year count is still 0: "Hace 0 años".
   */
  lemma ZeroYearsBetween360And365Days(date: int, now: int)
    requires 360 * 24 * 60 * 60 * 1000 <= now - date < 365 * 24 * 60 * 60 * 1000
    ensures TimeAgoUnit(now - date) == (Years, 0)
    ensures FormatTimeAgo(date, now) == "Hace 0 años"
  {
  }

  /** A date in the future gives a negative count of seconds: "Hace -N segundos". */
  lemma FutureDateNegativeSeconds(date: int, now: int)
    requires now < date
    ensures TimeAgoUnit(now - date).0 == Seconds && TimeAgoUnit(now - date).1 < 0
    ensures FormatTimeAgo(date, now) == "Hace -" + NatToString(-((now - date) / 1000)) + " segundos"
  {
    var p := TimeAgoUnit(now - date);
    assert p.0 == Seconds;
    assert UnitMs(p.0) == 1000;
    assert p.1 < 0;
    assert FormatTimeAgo(date, now) == Phrase(Seconds, p.1);
    assert Phrase(Seconds, p.1) == "Hace " + IntToString(p.1) + " " + "segundos";
  }

  /**
   * The branch choice with the evident intent: twelve 30-day months are
   * still shown in months (up to 364 days), so the years branch starts at
   * 365 days and never shows a year count of 0.
   */
  function TimeAgoUnitCorrected(diffMs: int): (r: (TimeUnit, int))
    ensures r.0 == Months <==> 30 * 24 * 60 * 60 * 1000 <= diffMs < 365 * 24 * 60 * 60 * 1000
    ensures r.0 == Years <==> 365 * 24 * 60 * 60 * 1000 <= diffMs
    ensures r.1 == diffMs / UnitMs(r.0)
    ensures r.0 == Years ==> r.1 >= 1
    ensures r.0 == Months ==> 1 <= r.1 <= 12
    ensures diffMs < 360 * 24 * 60 * 60 * 1000 ==> r == TimeAgoUnit(diffMs)
  {
    var e := ElapsedOf(diffMs);
    if e.secs < 60 then (Seconds, e.secs)
    else if e.mins < 60 then (Minutes, e.mins)
    else if e.hours < 24 then (Hours, e.hours)
    else if e.days < 30 then (Days, e.days)
    else if e.days < 365 then (Months, e.months)
    else (Years, e.years)
  }

  /** formatTimeAgo with the corrected branch choice: a year count read back from it is never 0. */
  function FormatTimeAgoCorrected(date: int, now: int): (r: string)
    ensures ParseTimeAgo(r) == Some(TimeAgoUnitCorrected(now - date))
    ensures ParseTimeAgo(r).value.0 == Years ==> ParseTimeAgo(r).value.1 >= 1
  {
    var (u, n) := TimeAgoUnitCorrected(now - date);
    Phrase(u, n)
  }
}
