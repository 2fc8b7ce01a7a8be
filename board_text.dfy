/** The building blocks of the countdown texts on the board: Python's
    `round(x / 60)`, decimal rendering of a count, and the way a rider reads a
    countdown text back as a number of minutes. */
module BoardText {
  import opened Wrappers

  /** Python's `round(x / 60)`: the nearest integer to `x / 60`, and the even
      one of the two when `x / 60` lies exactly halfway. */
  function Round60(x: int): (n: int)
    ensures -30 <= x - 60 * n <= 30
    ensures (x - 60 * n == 30 || x - 60 * n == -30) ==> n % 2 == 0
  {
    var q, r := x / 60, x % 60;
    if r < 30 then q
    else if r > 30 then q + 1
    else if q % 2 == 0 then q
    else q + 1
  }

  predicate IsDigit(c: char)
  {
    '0' <= c <= '9'
  }

  predicate AllDigits(s: string)
  {
    forall i :: 0 <= i < |s| ==> IsDigit(s[i])
  }

  /** A decimal count as Python prints it: one or more digits, and no
      leading zero unless the count is zero itself. */
  predicate Canonical(d: string)
  {
    |d| > 0 && AllDigits(d) && (d[0] == '0' ==> |d| == 1)
  }

  /** Python's `f"{n}"` for a non-negative integer: its decimal digits. */
  function NatToString(n: nat): (s: string)
    ensures Canonical(s)
    ensures n > 0 ==> s[0] != '0'
  {
    if n < 10 then [('0' as int + n) as char]
    else NatToString(n / 10) + [('0' as int + n % 10) as char]
  }

  /** The number a string of decimal digits denotes. */
  function DigitsValue(s: string): nat
    requires AllDigits(s)
  {
    if s == [] then 0
    else 10 * DigitsValue(s[..|s| - 1]) + (s[|s| - 1] as int - '0' as int)
  }

  /** The longest prefix of `s` made of decimal digits. */
  function LeadingDigits(s: string): (d: string)
    ensures |d| <= |s| && d == s[..|d|] && AllDigits(d)
  {
    if s == [] || !IsDigit(s[0]) then []
    else [s[0]] + LeadingDigits(s[1..])
  }

  /** What a rider takes from a countdown text. */
  datatype Reading = Arriving | InMinutes(minutes: nat)

  /** Reads a countdown text back: "Arriving", or a count followed by its
      units. Each reading has exactly one readable text, its canonical text:
      counts without a leading zero, "<m>min" below an hour, and "<h>h" or
      "<h>h <e>min" with at least one hour and 1 to 59 extra minutes. */
  function ReadBoard(text: string): Option<Reading>
  {
    if text == "Arriving" then Some(Arriving)
    else
      var count := LeadingDigits(text);
      if Canonical(count) then ReadUnits(DigitsValue(count), text[|count|..]) else None
  }

  /** Reads what follows the leading count: "min", "h", or "h " followed by
      a count of minutes and "min". */
  function ReadUnits(count: nat, rest: string): Option<Reading>
  {
    if rest == "min" then
      if count < 60 then Some(InMinutes(count)) else None
    else if count == 0 then None
    else if rest == "h" then Some(InMinutes(60 * count))
    else if |rest| >= 2 && rest[..2] == "h " then
      var extra := LeadingDigits(rest[2..]);
      if Canonical(extra) && rest[2 + |extra|..] == "min" && 0 < DigitsValue(extra) < 60 then
        Some(InMinutes(60 * count + DigitsValue(extra)))
      else None
    else None
  }

  /** The countdown "<minutes>min". */
  function MinutesText(minutes: nat): string
  {
    NatToString(minutes) + "min"
  }

  /** The countdown "<hours>h", or "<hours>h <extra>min" when `extra` is not
      zero. */
  function HoursText(hours: nat, extra: nat): string
  {
    if extra == 0 then NatToString(hours) + "h"
    else NatToString(hours) + "h " + NatToString(extra) + "min"
  }

  /** The canonical text of a reading, the one text the reader accepts for it. */
  function CanonicalText(r: Reading): string
  {
    match r
    case Arriving => "Arriving"
    case InMinutes(m) => if m < 60 then MinutesText(m) else HoursText(m / 60, m % 60)
  }

  /** Decimal rendering and reading are inverse. */
  lemma {:induction false} DigitsRoundTrip(n: nat)
    ensures DigitsValue(NatToString(n)) == n
  {
    if n >= 10 {
      DigitsRoundTrip(n / 10);
      var s := NatToString(n);
      assert s[..|s| - 1] == NatToString(n / 10);
    }
  }

  /** A count without a leading zero denotes a positive number unless it is
      "0". */
  lemma {:induction false} PositiveValue(d: string)
    requires AllDigits(d) && |d| > 0 && d[0] != '0'
    ensures DigitsValue(d) > 0
  {
    if |d| > 1 {
      PositiveValue(d[..|d| - 1]);
    }
  }

  /** Reading and rendering are inverse the other way round too: a canonical
      count is the rendering of its value. */
  lemma {:induction false} CanonicalRoundTrip(d: string)
    requires Canonical(d)
    ensures NatToString(DigitsValue(d)) == d
  {
    var init, last := d[..|d| - 1], d[|d| - 1];
    var c := last as int - '0' as int;
    if |d| == 1 {
      assert init == [];
      assert DigitsValue(d) == c;
      assert NatToString(c) == [last];
    } else {
      assert Canonical(init);
      PositiveValue(init);
      CanonicalRoundTrip(init);
      var v := DigitsValue(init);
      assert DigitsValue(d) == 10 * v + c;
      assert (10 * v + c) / 10 == v && (10 * v + c) % 10 == c;
      assert d == init + [last];
    }
  }

  /** The digits of a number end where a non-digit begins. */
  lemma {:induction false} LeadingDigitsOf(d: string, rest: string)
    requires AllDigits(d)
    requires rest == [] || !IsDigit(rest[0])
    ensures LeadingDigits(d + rest) == d
  {
    if d != [] {
      assert (d + rest)[1..] == d[1..] + rest;
      LeadingDigitsOf(d[1..], rest);
    }
  }

  /** A text that starts with a rendered count is read by its units. */
  lemma ReadCount(n: nat, rest: string)
    requires rest == [] || !IsDigit(rest[0])
    ensures ReadBoard(NatToString(n) + rest) == ReadUnits(n, rest)
  {
    var d := NatToString(n);
    var text := d + rest;
    assert text[0] == d[0];
    LeadingDigitsOf(d, rest);
    assert text[|d|..] == rest;
    DigitsRoundTrip(n);
  }

  /** The units "h <extra>min" stand for `count` hours and `extra` minutes. */
  lemma ReadHoursMinutesUnits(count: nat, extra: nat)
    requires count > 0 && 0 < extra < 60
    ensures ReadUnits(count, "h " + NatToString(extra) + "min") == Some(InMinutes(60 * count + extra))
  {
    var e := NatToString(extra);
    var rest := "h " + e + "min";
    assert rest[0] == 'h' && |rest| > 3;
    assert rest != "min" && rest != "h";
    assert rest[..2] == "h ";
    assert rest[2..] == e + "min";
    LeadingDigitsOf(e, "min");
    assert rest[2 + |e|..] == "min";
    DigitsRoundTrip(extra);
  }

  /** A minutes countdown below an hour reads back as its minutes. */
  lemma ReadMinutesText(minutes: nat)
    requires minutes < 60
    ensures ReadBoard(MinutesText(minutes)) == Some(InMinutes(minutes))
  {
    ReadCount(minutes, "min");
  }

  /** An hours countdown with at least one hour and less than an hour extra
      reads back as its whole number of minutes. */
  lemma ReadHoursText(hours: nat, extra: nat)
    requires hours > 0 && extra < 60
    ensures ReadBoard(HoursText(hours, extra)) == Some(InMinutes(60 * hours + extra))
  {
    if extra == 0 {
      ReadCount(hours, "h");
    } else {
      var rest := "h " + NatToString(extra) + "min";
      assert HoursText(hours, extra) == NatToString(hours) + rest;
      ReadCount(hours, rest);
      ReadHoursMinutesUnits(hours, extra);
    }
  }

  /** Every reading has a text that reads back as it. */
  lemma ReadCanonicalText(r: Reading)
    ensures ReadBoard(CanonicalText(r)) == Some(r)
  {
    if r.InMinutes? {
      if r.minutes < 60 {
        ReadMinutesText(r.minutes);
      } else {
        ReadHoursText(r.minutes / 60, r.minutes % 60);
      }
    }
  }

  /** The units after a canonical count that read as something are the
      canonical units for that reading. */
  lemma ReadUnitsSound(count: string, rest: string)
    requires Canonical(count) && ReadUnits(DigitsValue(count), rest).Some?
    ensures count + rest == CanonicalText(ReadUnits(DigitsValue(count), rest).value)
  {
    var c := DigitsValue(count);
    CanonicalRoundTrip(count);
    if rest == "min" {
      assert CanonicalText(InMinutes(c)) == MinutesText(c);
    } else if rest == "h" {
      assert (60 * c) / 60 == c && (60 * c) % 60 == 0;
      assert CanonicalText(InMinutes(60 * c)) == HoursText(c, 0);
    } else {
      ReadExtraSound(c, rest);
    }
  }

  /** The units "h <e>min" that read as something are printed from the hours
      and the extra minutes they stand for. */
  lemma ReadExtraSound(c: nat, rest: string)
    requires rest != "min" && rest != "h" && ReadUnits(c, rest).Some?
    ensures NatToString(c) + rest == CanonicalText(ReadUnits(c, rest).value)
  {
    var v := ExtraParts(c, rest);
    PrintedHours(c, v);
  }

  /** Readable units other than "min" and "h" are "h <v>min" for some `v` in
      1..59, and they stand for `c` hours and `v` minutes. */
  lemma ExtraParts(c: nat, rest: string) returns (v: nat)
    requires rest != "min" && rest != "h" && ReadUnits(c, rest).Some?
    ensures c > 0 && 0 < v < 60 && rest == "h " + NatToString(v) + "min"
    ensures ReadUnits(c, rest) == Some(InMinutes(60 * c + v))
  {
    var extra := LeadingDigits(rest[2..]);
    v := DigitsValue(extra);
    CanonicalRoundTrip(extra);
    SplitExtra(rest, extra);
  }

  /** Units made of "h ", a count and "min" are exactly those three parts. */
  lemma SplitExtra(rest: string, extra: string)
    requires |rest| >= 2 + |extra| && rest[..2] == "h " && extra == rest[2..][..|extra|]
    requires rest[2 + |extra|..] == "min"
    ensures rest == "h " + extra + "min"
  {
    assert rest == rest[..2] + rest[2..];
    assert rest[2..] == extra + rest[2 + |extra|..];
  }

  /** `60 c + v` minutes with `v` in 1..59 are printed as "<c>h <v>min". */
  lemma PrintedHours(c: nat, v: nat)
    requires c > 0 && 0 < v < 60
    ensures CanonicalText(InMinutes(60 * c + v)) == NatToString(c) + "h " + NatToString(v) + "min"
  {
    assert (60 * c + v) / 60 == c && (60 * c + v) % 60 == v;
  }

  /** The reader accepts no text but the canonical one: whatever reads
      as a reading is that reading's canonical text. */
  lemma ReadBoardSound(text: string)
    requires ReadBoard(text).Some?
    ensures text == CanonicalText(ReadBoard(text).value)
  {
    if text != "Arriving" {
      var count := LeadingDigits(text);
      assert text == count + text[|count|..];
      ReadUnitsSound(count, text[|count|..]);
    }
  }

  /** Two texts with the same reading are the same text, so a lemma that fixes
      what a formatter's text reads as fixes the text itself. */
  lemma ReadBoardInjective(a: string, b: string)
    requires ReadBoard(a).Some? && ReadBoard(a) == ReadBoard(b)
    ensures a == b
  {
    ReadBoardSound(a);
    ReadBoardSound(b);
  }

  /** Texts that are not canonical are unreadable: a minute count of an hour
      or more, zero hours, a leading zero, or zero extra minutes. */
  lemma StrictReaderExamples()
    ensures ReadBoard("100min") == None
    ensures ReadBoard("0h 5min") == None
    ensures ReadBoard("05min") == None
    ensures ReadBoard("1h 0min") == None
  {
    RejectsHourOfMinutes();
    RejectsZeroHours();
    RejectsLeadingZero();
    RejectsZeroExtra();
  }

  /** "100min": minutes are only written below an hour. */
  lemma RejectsHourOfMinutes()
    ensures ReadBoard("100min") == None
  {
    LeadingDigitsOf("100", "min");
    assert "100min" == "100" + "min";
    assert DigitsValue("1") == 1 && "10"[..1] == "1" && "100"[..2] == "10";
  }

  /** "0h 5min": an hour count is at least one. */
  lemma RejectsZeroHours()
    ensures ReadBoard("0h 5min") == None
  {
    LeadingDigitsOf("0", "h 5min");
    assert "0h 5min" == "0" + "h 5min" && DigitsValue("0") == 0;
  }

  /** "05min": a count has no leading zero. */
  lemma RejectsLeadingZero()
    ensures ReadBoard("05min") == None
  {
    LeadingDigitsOf("05", "min");
    assert "05min" == "05" + "min";
  }

  /** "1h 0min": zero extra minutes are not written. */
  lemma RejectsZeroExtra()
    ensures ReadBoard("1h 0min") == None
  {
    LeadingDigitsOf("1", "h 0min");
    assert "1h 0min" == "1" + "h 0min";
    LeadingDigitsOf("0", "min");
    assert "h 0min"[2..] == "0" + "min";
  }
}
