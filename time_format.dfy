/** The `%H:%M:%S` time format of Python's `strptime`, as data_cleaning.py pins it for
    `stop_time`: three colon-separated fields of one or two ASCII digits, an hour up to 23, a
    minute and a second up to 59, and the whole text must match. */
module TimeFormat {
  import opened Wrappers
  import opened Frames

  predicate IsDigit(ch: char) {
    '0' <= ch <= '9'
  }

  function DigitValue(ch: char): nat
    requires IsDigit(ch)
  {
    ch as int - '0' as int
  }

  /** A field of `%H`, `%M` or `%S`: one or two digits, and the number they spell. */
  function FieldValue(s: string): (r: Option<nat>)
    ensures r.Some? <==> 1 <= |s| <= 2 && forall i :: 0 <= i < |s| ==> IsDigit(s[i])
    ensures r.Some? && |s| == 1 ==> r.value < 10
    ensures r.Some? ==> r.value < 100
  {
    if |s| == 1 && IsDigit(s[0]) then Some(DigitValue(s[0]))
    else if |s| == 2 && IsDigit(s[0]) && IsDigit(s[1]) then Some(10 * DigitValue(s[0]) + DigitValue(s[1]))
    else None
  }

  /** The position of the first colon of `s`, or `|s|` when there is none. */
  function ColonAt(s: string): (r: nat)
    ensures r <= |s|
    ensures r < |s| ==> s[r] == ':'
    ensures forall i :: 0 <= i < r ==> s[i] != ':'
  {
    if s == [] || s[0] == ':' then 0 else 1 + ColonAt(s[1..])
  }

  /** The fields joined with a colon between each two. */
  function Join(parts: seq<string>): string
    requires |parts| >= 1
  {
    if |parts| == 1 then parts[0] else parts[0] + ":" + Join(parts[1..])
  }

  /** The colon-separated fields of `s`: none holds a colon, and joining them gives `s` back. */
  function Split(s: string): (r: seq<string>)
    ensures |r| >= 1
    ensures forall i :: 0 <= i < |r| ==> ':' !in r[i]
    ensures Join(r) == s
    decreases |s|
  {
    var i := ColonAt(s);
    if i == |s| then [s]
    else
      var rest := Split(s[i + 1..]);
      var r := [s[..i]] + rest;
      assert r[1..] == rest;
      assert s == s[..i] + ":" + s[i + 1..];
      r
  }

  /** The first colon after a colon-free prefix is the one that ends it. */
  lemma {:induction false} ColonAfter(a: string, t: string)
    requires ':' !in a
    ensures ColonAt(a + ":" + t) == |a|
  {
    if a != [] {
      assert (a + ":" + t)[1..] == a[1..] + ":" + t;
      ColonAfter(a[1..], t);
    }
  }

  /** Text without a colon is one field. */
  lemma SplitNoColon(c: string)
    requires ':' !in c
    ensures Split(c) == [c]
  {
    assert ColonAt(c) == |c|;
  }

  /** A colon-free field followed by a colon is split off first. */
  lemma SplitCons(a: string, t: string)
    requires ':' !in a
    ensures Split(a + ":" + t) == [a] + Split(t)
  {
    var s := a + ":" + t;
    ColonAfter(a, t);
    assert s[..|a|] == a;
    assert s[|a| + 1..] == t;
  }

  /** The fields of two colon-free fields joined by a colon. */
  lemma Split2(b: string, c: string)
    requires ':' !in b && ':' !in c
    ensures Split(b + ":" + c) == [b, c]
  {
    SplitCons(b, c);
    SplitNoColon(c);
  }

  /** The fields of three colon-free fields joined by colons. */
  lemma Split3(a: string, b: string, c: string)
    requires ':' !in a && ':' !in b && ':' !in c
    ensures Split(a + ":" + b + ":" + c) == [a, b, c]
  {
    calc {
      Split(a + ":" + b + ":" + c);
      { assert a + ":" + b + ":" + c == a + ":" + (b + ":" + c); }
      Split(a + ":" + (b + ":" + c));
      { SplitCons(a, b + ":" + c); }
      [a] + Split(b + ":" + c);
      { Split2(b, c); }
      [a] + [b, c];
    }
  }

  predicate ValidTime(t: Time) {
    0 <= t.hour < 24 && 0 <= t.minute < 60 && 0 <= t.second < 60
  }

  /** `datetime.strptime(s, '%H:%M:%S').time()`: the three fields as the format's patterns allow
      them, and a time only when each lies in its range; anything else is a parse error. */
  function ParseHms(s: string): (r: Option<Time>)
    ensures r.Some? ==> ValidTime(r.value)
    ensures r.Some? ==> |Split(s)| == 3
  {
    var parts := Split(s);
    if |parts| != 3 then None
    else
      match (FieldValue(parts[0]), FieldValue(parts[1]), FieldValue(parts[2]))
      case (Some(h), Some(m), Some(sec)) =>
        if h < 24 && m < 60 && sec < 60 then Some(Time(h, m, sec)) else None
      case _ => None
  }

  /** Two digits with a leading zero, as `%H`, `%M` and `%S` print a number. */
  function TwoDigits(n: nat): (r: string)
    requires n < 100
    ensures |r| == 2 && ':' !in r
    ensures FieldValue(r) == Some(n)
  {
    [('0' as int + n / 10) as char, ('0' as int + n % 10) as char]
  }

  /** `t.strftime('%H:%M:%S')`. */
  function FormatHms(t: Time): (r: string)
    requires ValidTime(t)
    ensures |r| == 8
  {
    TwoDigits(t.hour) + ":" + TwoDigits(t.minute) + ":" + TwoDigits(t.second)
  }

  /** Every time of day, written in the format, is read back as itself. */
  lemma ParseFormatted(t: Time)
    requires ValidTime(t)
    ensures ParseHms(FormatHms(t)) == Some(t)
  {
    Split3(TwoDigits(t.hour), TwoDigits(t.minute), TwoDigits(t.second));
  }

  /** A field of two digits is the two-digit spelling of its value. */
  lemma TwoDigitField(s: string)
    requires |s| == 2 && FieldValue(s).Some?
    ensures TwoDigits(FieldValue(s).value) == s
  {
    var n := FieldValue(s).value;
    assert n / 10 == DigitValue(s[0]) && n % 10 == DigitValue(s[1]);
  }

  /** An accepted text of eight characters is zero-padded, so printing its time reproduces it:
      the format is read exactly, never guessed. */
  lemma FormattedParse(s: string)
    requires |s| == 8 && ParseHms(s).Some?
    ensures FormatHms(ParseHms(s).value) == s
  {
    var parts := Split(s);
    assert parts[1..] == [parts[1], parts[2]] && parts[1..][1..] == [parts[2]];
    assert Join(parts[1..][1..]) == parts[2];
    assert Join(parts[1..]) == parts[1] + ":" + parts[2];
    assert s == parts[0] + ":" + (parts[1] + ":" + parts[2]);
    TwoDigitField(parts[0]);
    TwoDigitField(parts[1]);
    TwoDigitField(parts[2]);
    var t := ParseHms(s).value;
    assert TwoDigits(t.hour) == parts[0] && TwoDigits(t.minute) == parts[1] && TwoDigits(t.second) == parts[2];
  }

  /** Three colon-free fields joined by colons are read field by field: a time exactly when each
      field is one or two digits and the hour, minute and second are in range. */
  lemma ParseFields(a: string, b: string, c: string)
    requires ':' !in a && ':' !in b && ':' !in c
    ensures ParseHms(a + ":" + b + ":" + c) ==
      if FieldValue(a).Some? && FieldValue(b).Some? && FieldValue(c).Some? &&
         FieldValue(a).value < 24 && FieldValue(b).value < 60 && FieldValue(c).value < 60
      then Some(Time(FieldValue(a).value, FieldValue(b).value, FieldValue(c).value))
      else None
  {
    Split3(a, b, c);
  }

  /** Padding is optional: single digits are read as they are. */
  lemma SingleDigitFields(h: char, m: char, sec: char)
    requires IsDigit(h) && IsDigit(m) && IsDigit(sec)
    ensures ParseHms([h] + ":" + [m] + ":" + [sec]) == Some(Time(DigitValue(h), DigitValue(m), DigitValue(sec)))
  {
    ParseFields([h], [m], [sec]);
  }

  /** An hour past 23 is rejected. */
  lemma HourOutOfRange()
    ensures ParseHms("24:00:00").None?
  {
    ParseFields("24", "00", "00");
    assert "24:00:00" == "24" + ":" + "00" + ":" + "00";
  }

  /** A field that is not all digits, such as fractional seconds, is rejected. */
  lemma FractionRejected()
    ensures ParseHms("08:15:00.5").None?
  {
    ParseFields("08", "15", "00.5");
    assert "08:15:00.5" == "08" + ":" + "15" + ":" + "00.5";
  }
}
