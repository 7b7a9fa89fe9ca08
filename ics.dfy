/**
 * The text `make_ics` (app.py) writes: an iCalendar object (RFC 5545,
 * section 3.4) holding one VEVENT (section 3.6.1), each content line ended by
 * CRLF (section 3.1). DTSTART and DTEND are the text
 * `f"{y}{z2(m)}{z2(d)}T{z2(h)}{z2(mi)}00"`, a local DATE-TIME value
 * (section 3.3.5) only for years 1000 to 9999 and times before 24:00: the
 * year is not padded and the hour is not reduced. Like `make_ics`, the
 * model neither folds long lines nor escapes TEXT values.
 */
module Ics {
  import opened Wrappers
  import opened Text
  import Dates

  const Crlf: string := "\r\n"

  const SummaryPrefix: string := "Съёмка — Studio Lumi ("
  const BookingWord: string := "Бронь "
  const ClientWord: string := "Клиент: "

  /** `f"{y}{z2(m)}{z2(d)}T{z2(h)}{z2(mi)}00"` for minute offset `minutes` of date `d`. */
  function LocalDateTime(d: Dates.Date, minutes: nat): string
  {
    NatToString(d.year) + Pad2(d.month) + Pad2(d.day) + "T" + Pad2(minutes / 60) + Pad2(minutes % 60) + "00"
  }

  /** Python `x or ''` on an optional text field. */
  function OrEmpty(x: Option<string>): string
  {
    match x
    case Some(v) => v
    case None => ""
  }

  /** A content line `name:value` (RFC 5545, section 3.1), without parameters. */
  function PropLine(name: string, value: string): string { name + ":" + value }

  /** The property lines of the VEVENT that carry booking data. */
  function UidLine(bookingId: string): string { PropLine("UID", bookingId) }
  function DtStampLine(dtstamp: string): string { PropLine("DTSTAMP", dtstamp) }
  function DtStartLine(date: Dates.Date, startMin: nat): string { PropLine("DTSTART", LocalDateTime(date, startMin)) }
  function DtEndLine(date: Dates.Date, endMin: nat): string { PropLine("DTEND", LocalDateTime(date, endMin)) }
  function SummaryLine(hallId: string): string { PropLine("SUMMARY", SummaryPrefix + hallId + ")") }
  function DescriptionLine(bookingId: string, name: Option<string>, phone: Option<string>): string
  {
    PropLine("DESCRIPTION", BookingWord + bookingId + "\\n" + ClientWord + OrEmpty(name) + " " + OrEmpty(phone))
  }

  /** The fixed lines before the event's properties and after them. */
  const Opening: seq<string> := ["BEGIN:VCALENDAR", "VERSION:2.0", "PRODID:-//StudioLumi//EN", "BEGIN:VEVENT"]
  const Closing: seq<string> := ["LOCATION:Studio Lumi", "END:VEVENT", "END:VCALENDAR"]

  /** The VEVENT's property lines between the fixed opening and closing lines. */
  function EventLines(bookingId: string, hallId: string, date: Dates.Date, startMin: nat, endMin: nat,
                      name: Option<string>, phone: Option<string>, dtstamp: string): (r: seq<string>)
    ensures |r| == 6
  {
    [ UidLine(bookingId), DtStampLine(dtstamp), DtStartLine(date, startMin), DtEndLine(date, endMin),
      SummaryLine(hallId), DescriptionLine(bookingId, name, phone) ]
  }

  /** The content lines of the calendar object, without their CRLF terminators. */
  function Lines(bookingId: string, hallId: string, date: Dates.Date, startMin: nat, endMin: nat,
                 name: Option<string>, phone: Option<string>, dtstamp: string): seq<string>
  {
    Opening + EventLines(bookingId, hallId, date, startMin, endMin, name, phone, dtstamp) + Closing
  }

  /** Every line followed by CRLF. */
  function Terminate(lines: seq<string>): string
  {
    if lines == [] then "" else lines[0] + Crlf + Terminate(lines[1..])
  }

  /** The calendar text of one booking; the generation stamp is a parameter. */
  function Content(bookingId: string, hallId: string, date: Dates.Date, startMin: nat, endMin: nat,
                   name: Option<string>, phone: Option<string>, dtstamp: string): string
  {
    Terminate(Lines(bookingId, hallId, date, startMin, endMin, name, phone, dtstamp))
  }

  /** The path `make_ics` returns for a booking. */
  function RelativePath(bookingId: string): string
  {
    "/ics/" + bookingId + ".ics"
  }

  /** The line holds property `name`: it starts with `name:`. */
  predicate HasKey(line: string, name: string)
  {
    |name| + 1 <= |line| && line[..|name| + 1] == name + ":"
  }

  /** The value of property line `line`, its trailing CR removed. */
  function ValueOf(line: string, name: string): string
    requires HasKey(line, name)
  {
    var v := line[|name| + 1..];
    if |v| > 0 && v[|v| - 1] == '\r' then v[..|v| - 1] else v
  }

  /** The value of the first line holding property `name`, as a reader of the text finds it. */
  function Lookup(lines: seq<string>, name: string): Option<string>
  {
    if lines == [] then None
    else if HasKey(lines[0], name) then Some(ValueOf(lines[0], name))
    else Lookup(lines[1..], name)
  }

  /** The property read from a calendar text cut into lines at each LF. */
  function Property(content: string, name: string): Option<string>
  {
    Lookup(Split(content, '\n'), name)
  }

  lemma {:induction false} LookupAt(lines: seq<string>, name: string, i: nat)
    requires i < |lines| && HasKey(lines[i], name)
    requires forall j :: 0 <= j < i ==> !HasKey(lines[j], name)
    ensures Lookup(lines, name) == Some(ValueOf(lines[i], name))
    decreases i
  {
    if i > 0 {
      LookupAt(lines[1..], name, i - 1);
    }
  }

  /** A line that differs from `name:` at some position does not hold property `name`. */
  lemma DiffersAt(line: string, name: string, k: nat)
    requires k < |line| && k < |name| && line[k] != name[k]
    ensures !HasKey(line, name)
  {
  }

  lemma KeyedLine(name: string, v: string)
    requires v == [] || v[|v| - 1] != '\r'
    ensures HasKey(name + ":" + v + "\r", name)
    ensures ValueOf(name + ":" + v + "\r", name) == v
  {
    var l := name + ":" + v + "\r";
    assert l[..|name| + 1] == name + ":";
    assert l[|name| + 1..] == v + "\r";
  }

  predicate NoLineBreak(s: string) { '\n' !in s }

  lemma LocalDateTimeNoBreak(d: Dates.Date, minutes: nat)
    ensures NoLineBreak(LocalDateTime(d, minutes))
  {
    var y, mo, dd, h, mi := NatToString(d.year), Pad2(d.month), Pad2(d.day), Pad2(minutes / 60), Pad2(minutes % 60);
    assert LocalDateTime(d, minutes) == y + mo + dd + "T" + h + mi + "00";
    assert '\n' !in y && '\n' !in mo && '\n' !in dd && '\n' !in h && '\n' !in mi by {
      assert !IsDigit('\n');
    }
  }

  lemma {:induction false} TerminateAppend(a: seq<string>, b: seq<string>)
    ensures Terminate(a + b) == Terminate(a) + Terminate(b)
    decreases |a|
  {
    if a != [] {
      TerminateAppend(a[1..], b);
      assert (a + b)[0] == a[0] && (a + b)[1..] == a[1..] + b;
      assert Terminate(a + b) == a[0] + Crlf + (Terminate(a[1..]) + Terminate(b));
    } else {
      assert a + b == b;
    }
  }

  /** Text after CRLF-terminated lines free of LF splits into those lines (each with its CR) first. */
  lemma {:induction false} SplitTerminated(a: seq<string>, rest: string)
    requires forall i :: 0 <= i < |a| ==> NoLineBreak(a[i])
    ensures |Split(Terminate(a) + rest, '\n')| >= |a|
    ensures forall i :: 0 <= i < |a| ==> Split(Terminate(a) + rest, '\n')[i] == a[i] + "\r"
    ensures Split(Terminate(a) + rest, '\n')[|a|..] == Split(rest, '\n')
    decreases |a|
  {
    if a != [] {
      SplitTerminated(a[1..], rest);
      assert Terminate(a) + rest == (a[0] + "\r") + ['\n'] + (Terminate(a[1..]) + rest);
      assert '\n' !in a[0] + "\r";
      SplitAtFirst(a[0] + "\r", '\n', Terminate(a[1..]) + rest);
      var tail := Split(Terminate(a[1..]) + rest, '\n');
      assert Split(Terminate(a) + rest, '\n') == [a[0] + "\r"] + tail;
      assert Split(Terminate(a) + rest, '\n')[|a|..] == tail[|a| - 1..];
    } else {
      assert Terminate(a) + rest == rest;
    }
  }

  /** Lines that do not hold the property are skipped by the reader. */
  lemma {:induction false} LookupSkips(a: seq<string>, tail: seq<string>, name: string)
    requires forall i :: 0 <= i < |a| ==> !HasKey(a[i], name)
    ensures Lookup(a + tail, name) == Lookup(tail, name)
    decreases |a|
  {
    if a != [] {
      LookupSkips(a[1..], tail, name);
      assert (a + tail)[0] == a[0] && (a + tail)[1..] == a[1..] + tail;
    } else {
      assert a + tail == tail;
    }
  }

  /**
   * A property line `name:value` after lines that hold no LF and not that
   * property is what the reader finds for `name`.
   */
  lemma ReadBackAt(before: seq<string>, name: string, value: string, after: seq<string>)
    requires forall i :: 0 <= i < |before| ==> NoLineBreak(before[i]) && !HasKey(before[i] + "\r", name)
    requires NoLineBreak(name) && NoLineBreak(value)
    requires value == [] || value[|value| - 1] != '\r'
    ensures Property(Terminate(before + [PropLine(name, value)] + after), name) == Some(value)
  {
    var line := PropLine(name, value);
    assert '\n' !in line + "\r";
    TerminateAppend(before, [line] + after);
    assert before + [line] + after == before + ([line] + after);
    var rest := Terminate([line] + after);
    assert rest == (line + "\r") + ['\n'] + Terminate(after);
    SplitTerminated(before, rest);
    var parts := Split(Terminate(before) + rest, '\n');
    SplitAtFirst(line + "\r", '\n', Terminate(after));
    assert parts == parts[..|before|] + parts[|before|..];
    LookupSkips(parts[..|before|], parts[|before|..], name);
    KeyedLine(name, value);
  }

  lemma FixedLinesNoBreak()
    ensures forall i :: 0 <= i < |Opening| ==> NoLineBreak(Opening[i])
    ensures NoLineBreak(SummaryPrefix)
  {
  }

  /** The fixed opening lines do not hold any of the booking's properties. */
  lemma OpeningHoldsNoProperty(name: string)
    requires name in ["UID", "DTSTAMP", "DTSTART", "DTEND", "SUMMARY"]
    ensures forall i :: 0 <= i < |Opening| ==> !HasKey(Opening[i] + "\r", name)
  {
    forall i | 0 <= i < |Opening|
      ensures !HasKey(Opening[i] + "\r", name)
    {
      DiffersAt(Opening[i] + "\r", name, 0);
    }
  }

  /** The lines in `before` hold no LF and do not hold property `name`. */
  predicate SkippedFor(before: seq<string>, name: string)
  {
    forall i :: 0 <= i < |before| ==> NoLineBreak(before[i]) && !HasKey(before[i] + "\r", name)
  }

  lemma SkippedForExtend(before: seq<string>, line: string, name: string, k: nat)
    requires SkippedFor(before, name) && NoLineBreak(line)
    requires k < |line| && k < |name| && line[k] != name[k]
    ensures SkippedFor(before + [line], name)
  {
    DiffersAt(line + "\r", name, k);
  }

  lemma OpeningSkipped(name: string)
    requires name in ["UID", "DTSTAMP", "DTSTART", "DTEND", "SUMMARY"]
    ensures SkippedFor(Opening, name)
  {
    FixedLinesNoBreak();
    OpeningHoldsNoProperty(name);
  }

  lemma SplitAround<T>(o: seq<T>, ev: seq<T>, cl: seq<T>, k: nat)
    requires k < |ev|
    ensures o + ev + cl == (o + ev[..k]) + [ev[k]] + (ev[k + 1..] + cl)
  {
    assert ev == ev[..k] + [ev[k]] + ev[k + 1..];
  }

  lemma SkippedForConcat(a: seq<string>, b: seq<string>, name: string)
    requires SkippedFor(a, name) && SkippedFor(b, name)
    ensures SkippedFor(a + b, name)
  {
  }

  /**
   * The reader finds the `k`-th event line's value for `key` when the event
   * lines before it are skipped for `key`.
   */
  lemma EventPropertyReadsBack(ev: seq<string>, k: nat, key: string, value: string)
    requires key in ["UID", "DTSTAMP", "DTSTART", "DTEND", "SUMMARY"]
    requires k < |ev| && ev[k] == PropLine(key, value)
    requires SkippedFor(ev[..k], key)
    requires NoLineBreak(value)
    requires value == [] || value[|value| - 1] != '\r'
    ensures Property(Terminate(Opening + ev + Closing), key) == Some(value)
  {
    SplitAround(Opening, ev, Closing, k);
    OpeningSkipped(key);
    SkippedForConcat(Opening, ev[..k], key);
    ReadBackAt(Opening + ev[..k], key, value, ev[k + 1..] + Closing);
  }

  /** The calendar text is the event lines framed by the fixed lines, each terminated. */
  lemma ContentFramed(bookingId: string, hallId: string, date: Dates.Date, startMin: nat, endMin: nat,
                      name: Option<string>, phone: Option<string>, dtstamp: string)
    ensures Content(bookingId, hallId, date, startMin, endMin, name, phone, dtstamp)
         == Terminate(Opening + EventLines(bookingId, hallId, date, startMin, endMin, name, phone, dtstamp) + Closing)
  {
  }

  /** The booking id in UID reads back. */
  lemma UidReadsBack(bookingId: string, hallId: string, date: Dates.Date, startMin: nat, endMin: nat,
                     name: Option<string>, phone: Option<string>, dtstamp: string)
    requires NoLineBreak(bookingId)
    requires bookingId == [] || bookingId[|bookingId| - 1] != '\r'
    ensures Property(Content(bookingId, hallId, date, startMin, endMin, name, phone, dtstamp), "UID") == Some(bookingId)
  {
    var ev := EventLines(bookingId, hallId, date, startMin, endMin, name, phone, dtstamp);
    ContentFramed(bookingId, hallId, date, startMin, endMin, name, phone, dtstamp);
    assert SkippedFor(ev[..0], "UID");
    EventPropertyReadsBack(ev, 0, "UID", bookingId);
  }

  /** The generation stamp in DTSTAMP reads back. */
  lemma DtStampReadsBack(bookingId: string, hallId: string, date: Dates.Date, startMin: nat, endMin: nat,
                         name: Option<string>, phone: Option<string>, dtstamp: string)
    requires NoLineBreak(bookingId) && NoLineBreak(dtstamp)
    requires dtstamp == [] || dtstamp[|dtstamp| - 1] != '\r'
    ensures Property(Content(bookingId, hallId, date, startMin, endMin, name, phone, dtstamp), "DTSTAMP") == Some(dtstamp)
  {
    var ev := EventLines(bookingId, hallId, date, startMin, endMin, name, phone, dtstamp);
    ContentFramed(bookingId, hallId, date, startMin, endMin, name, phone, dtstamp);
    SkippedForExtend([], ev[0], "DTSTAMP", 0);
    assert ev[..1] == [] + [ev[0]];
    EventPropertyReadsBack(ev, 1, "DTSTAMP", dtstamp);
  }

  lemma LocalDateTimeEndsInZero(d: Dates.Date, minutes: nat)
    ensures LocalDateTime(d, minutes)[|LocalDateTime(d, minutes)| - 1] == '0'
  {
  }

  /** The UID and DTSTAMP lines are skipped when looking for DTSTART. */
  lemma StartHeadSkipped(bookingId: string, hallId: string, date: Dates.Date, startMin: nat, endMin: nat,
                         name: Option<string>, phone: Option<string>, dtstamp: string)
    requires NoLineBreak(bookingId) && NoLineBreak(dtstamp)
    ensures SkippedFor(EventLines(bookingId, hallId, date, startMin, endMin, name, phone, dtstamp)[..2], "DTSTART")
  {
    var ev := EventLines(bookingId, hallId, date, startMin, endMin, name, phone, dtstamp);
    SkippedForExtend([], ev[0], "DTSTART", 0);
    SkippedForExtend([] + [ev[0]], ev[1], "DTSTART", 5);
    assert ev[..2] == [] + [ev[0]] + [ev[1]];
  }

  /** DTSTART reads back as the local date-time of the start offset. */
  lemma DtStartReadsBack(bookingId: string, hallId: string, date: Dates.Date, startMin: nat, endMin: nat,
                         name: Option<string>, phone: Option<string>, dtstamp: string)
    requires NoLineBreak(bookingId) && NoLineBreak(dtstamp)
    ensures Property(Content(bookingId, hallId, date, startMin, endMin, name, phone, dtstamp), "DTSTART")
         == Some(LocalDateTime(date, startMin))
  {
    var ev := EventLines(bookingId, hallId, date, startMin, endMin, name, phone, dtstamp);
    ContentFramed(bookingId, hallId, date, startMin, endMin, name, phone, dtstamp);
    var start := LocalDateTime(date, startMin);
    LocalDateTimeNoBreak(date, startMin);
    LocalDateTimeEndsInZero(date, startMin);
    StartHeadSkipped(bookingId, hallId, date, startMin, endMin, name, phone, dtstamp);
    EventPropertyReadsBack(ev, 2, "DTSTART", start);
  }

  /** The UID, DTSTAMP and DTSTART lines are skipped when looking for DTEND. */
  lemma EndHeadSkipped(bookingId: string, hallId: string, date: Dates.Date, startMin: nat, endMin: nat,
                       name: Option<string>, phone: Option<string>, dtstamp: string)
    requires NoLineBreak(bookingId) && NoLineBreak(dtstamp)
    ensures SkippedFor(EventLines(bookingId, hallId, date, startMin, endMin, name, phone, dtstamp)[..3], "DTEND")
  {
    var ev := EventLines(bookingId, hallId, date, startMin, endMin, name, phone, dtstamp);
    LocalDateTimeNoBreak(date, startMin);
    SkippedForExtend([], ev[0], "DTEND", 0);
    SkippedForExtend([] + [ev[0]], ev[1], "DTEND", 2);
    SkippedForExtend([] + [ev[0]] + [ev[1]], ev[2], "DTEND", 2);
    assert ev[..3] == [] + [ev[0]] + [ev[1]] + [ev[2]];
  }

  /** DTEND reads back as the local date-time of the end offset. */
  lemma DtEndReadsBack(bookingId: string, hallId: string, date: Dates.Date, startMin: nat, endMin: nat,
                       name: Option<string>, phone: Option<string>, dtstamp: string)
    requires NoLineBreak(bookingId) && NoLineBreak(dtstamp)
    ensures Property(Content(bookingId, hallId, date, startMin, endMin, name, phone, dtstamp), "DTEND")
         == Some(LocalDateTime(date, endMin))
  {
    var ev := EventLines(bookingId, hallId, date, startMin, endMin, name, phone, dtstamp);
    ContentFramed(bookingId, hallId, date, startMin, endMin, name, phone, dtstamp);
    var end := LocalDateTime(date, endMin);
    LocalDateTimeNoBreak(date, endMin);
    LocalDateTimeEndsInZero(date, endMin);
    EndHeadSkipped(bookingId, hallId, date, startMin, endMin, name, phone, dtstamp);
    EventPropertyReadsBack(ev, 3, "DTEND", end);
  }

  /** SUMMARY names the hall. */
  lemma SummaryNamesHall(bookingId: string, hallId: string, date: Dates.Date, startMin: nat, endMin: nat,
                         name: Option<string>, phone: Option<string>, dtstamp: string)
    requires NoLineBreak(bookingId) && NoLineBreak(hallId) && NoLineBreak(dtstamp)
    ensures Property(Content(bookingId, hallId, date, startMin, endMin, name, phone, dtstamp), "SUMMARY")
         == Some(SummaryPrefix + hallId + ")")
  {
    var ev := EventLines(bookingId, hallId, date, startMin, endMin, name, phone, dtstamp);
    ContentFramed(bookingId, hallId, date, startMin, endMin, name, phone, dtstamp);
    var summary := SummaryPrefix + hallId + ")";
    LocalDateTimeNoBreak(date, startMin);
    LocalDateTimeNoBreak(date, endMin);
    FixedLinesNoBreak();
    SkippedForExtend([], ev[0], "SUMMARY", 0);
    SkippedForExtend([] + [ev[0]], ev[1], "SUMMARY", 0);
    SkippedForExtend([] + [ev[0]] + [ev[1]], ev[2], "SUMMARY", 0);
    SkippedForExtend([] + [ev[0]] + [ev[1]] + [ev[2]], ev[3], "SUMMARY", 0);
    assert ev[..4] == [] + [ev[0]] + [ev[1]] + [ev[2]] + [ev[3]];
    assert summary[|summary| - 1] == ')';
    EventPropertyReadsBack(ev, 4, "SUMMARY", summary);
  }

  /** The event lines hold no LF when the booking's text fields hold none. */
  lemma EventLinesNoBreak(bookingId: string, hallId: string, date: Dates.Date, startMin: nat, endMin: nat,
                          name: Option<string>, phone: Option<string>, dtstamp: string)
    requires NoLineBreak(bookingId) && NoLineBreak(hallId) && NoLineBreak(dtstamp)
    requires NoLineBreak(OrEmpty(name)) && NoLineBreak(OrEmpty(phone))
    ensures forall i :: 0 <= i < 6 ==>
              NoLineBreak(EventLines(bookingId, hallId, date, startMin, endMin, name, phone, dtstamp)[i])
  {
    StampLinesNoBreak(bookingId, date, startMin, endMin, dtstamp);
    TextLinesNoBreak(bookingId, hallId, name, phone);
  }

  lemma StampLinesNoBreak(bookingId: string, date: Dates.Date, startMin: nat, endMin: nat, dtstamp: string)
    requires NoLineBreak(bookingId) && NoLineBreak(dtstamp)
    ensures NoLineBreak(UidLine(bookingId)) && NoLineBreak(DtStampLine(dtstamp))
    ensures NoLineBreak(DtStartLine(date, startMin)) && NoLineBreak(DtEndLine(date, endMin))
  {
    LocalDateTimeNoBreak(date, startMin);
    LocalDateTimeNoBreak(date, endMin);
    PropLineNoBreak("UID", bookingId);
    PropLineNoBreak("DTSTAMP", dtstamp);
    PropLineNoBreak("DTSTART", LocalDateTime(date, startMin));
    PropLineNoBreak("DTEND", LocalDateTime(date, endMin));
  }

  lemma TextLinesNoBreak(bookingId: string, hallId: string, name: Option<string>, phone: Option<string>)
    requires NoLineBreak(bookingId) && NoLineBreak(hallId)
    requires NoLineBreak(OrEmpty(name)) && NoLineBreak(OrEmpty(phone))
    ensures NoLineBreak(SummaryLine(hallId)) && NoLineBreak(DescriptionLine(bookingId, name, phone))
  {
    NoBreakAppend(SummaryPrefix, hallId);
    NoBreakAppend(SummaryPrefix + hallId, ")");
    PropLineNoBreak("SUMMARY", SummaryPrefix + hallId + ")");
    DescriptionNoBreak(bookingId, OrEmpty(name), OrEmpty(phone));
    PropLineNoBreak("DESCRIPTION", BookingWord + bookingId + "\\n" + ClientWord + OrEmpty(name) + " " + OrEmpty(phone));
  }

  lemma NoBreakAppend(a: string, b: string)
    ensures NoLineBreak(a + b) <==> NoLineBreak(a) && NoLineBreak(b)
  {
    assert forall c :: c in a + b <==> c in a || c in b;
  }

  lemma PropLineNoBreak(name: string, value: string)
    requires NoLineBreak(name) && NoLineBreak(value)
    ensures NoLineBreak(PropLine(name, value))
  {
    NoBreakAppend(name, ":");
    NoBreakAppend(name + ":", value);
  }

  lemma DescriptionNoBreak(bookingId: string, name: string, phone: string)
    requires NoLineBreak(bookingId) && NoLineBreak(name) && NoLineBreak(phone)
    ensures NoLineBreak(BookingWord + bookingId + "\\n" + ClientWord + name + " " + phone)
  {
    NoBreakAppend(BookingWord, bookingId);
    NoBreakAppend(BookingWord + bookingId, "\\n");
    NoBreakAppend(BookingWord + bookingId + "\\n", ClientWord);
    NoBreakAppend(BookingWord + bookingId + "\\n" + ClientWord, name);
    NoBreakAppend(BookingWord + bookingId + "\\n" + ClientWord + name, " ");
    NoBreakAppend(BookingWord + bookingId + "\\n" + ClientWord + name + " ", phone);
  }

  /**
   * Every line of the calendar text ends in CRLF: cut at each LF, the text
   * is each content line followed by CR, then the empty rest after the last
   * LF. This needs the booking's text fields to hold no LF.
   */
  lemma ContentLinesEndInCrlf(bookingId: string, hallId: string, date: Dates.Date, startMin: nat, endMin: nat,
                              name: Option<string>, phone: Option<string>, dtstamp: string)
    requires NoLineBreak(bookingId) && NoLineBreak(hallId) && NoLineBreak(dtstamp)
    requires NoLineBreak(OrEmpty(name)) && NoLineBreak(OrEmpty(phone))
    ensures var lines := Lines(bookingId, hallId, date, startMin, endMin, name, phone, dtstamp);
      var parts := Split(Content(bookingId, hallId, date, startMin, endMin, name, phone, dtstamp), '\n');
      && |parts| == |lines| + 1
      && (forall i :: 0 <= i < |lines| ==> parts[i] == lines[i] + "\r")
      && parts[|lines|] == ""
  {
    var lines := Lines(bookingId, hallId, date, startMin, endMin, name, phone, dtstamp);
    var ev := EventLines(bookingId, hallId, date, startMin, endMin, name, phone, dtstamp);
    EventLinesNoBreak(bookingId, hallId, date, startMin, endMin, name, phone, dtstamp);
    FixedLinesNoBreak();
    ClosingNoBreak();
    assert lines == Opening + ev + Closing;
    forall i | 0 <= i < |lines|
      ensures NoLineBreak(lines[i])
    {
      if i < |Opening| {
        assert lines[i] == Opening[i];
      } else if i < |Opening| + |ev| {
        assert lines[i] == ev[i - |Opening|];
      } else {
        assert lines[i] == Closing[i - |Opening| - |ev|];
      }
    }
    SplitTerminated(lines, "");
    SplitNoSep("", '\n');
    assert Terminate(lines) + "" == Terminate(lines);
  }

  lemma ClosingNoBreak()
    ensures forall i :: 0 <= i < |Closing| ==> NoLineBreak(Closing[i])
  {
  }
}
