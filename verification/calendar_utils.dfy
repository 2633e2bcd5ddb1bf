/**
 * Calendar export (src/utils/calendarUtils.ts) over the event record of src/types.ts.
 *
 * Each event becomes a timestamp text in two forms, three deep links (Google, Outlook and
 * Yahoo) and a block of an iCalendar document. A deep link is kept as its base address and the
 * ordered list of query parameters; the percent-encoding of that list belongs to the browser's
 * `URLSearchParams` and is passed in as a function. The iCalendar document is kept as a list of
 * content lines, each a property name and a value, and rendered to text exactly as the source
 * writes it: `NAME:value`, joined by CRLF, no folding and no escaping beyond the newlines of
 * DESCRIPTION. The random source of `generateUid` and the clock are parameters.
 */
module CalendarUtils {
  import opened Results
  import opened JsString

  /** One appointment (`CalendarEvent`). */
  datatype CalendarEvent = CalendarEvent(
    title: string,
    date: string,
    startTime: string,
    endTime: string,
    location: string,
    notes: string,
    recurrence: string,
    attendees: seq<string>,
    allDay: bool,
    calendarId: Option<string>)

  /** The event with the fields no export reads cleared: attendees, all-day flag, calendar. */
  function Exported(e: CalendarEvent): CalendarEvent
  {
    e.(attendees := [], allDay := false, calendarId := None)
  }

  datatype DateFormat = Google | Iso

  /**
   * `formatDateTime`: the compact form drops every '-' of the date and every ':' of the time
   * and ends in seconds "00"; the ISO form keeps both and ends in ":00".
   */
  function FormatDateTime(date: string, time: string, format: DateFormat): string
  {
    match format
    case Google => ReplaceChars(date, {'-'}, "") + "T" + ReplaceChars(time, {':'}, "") + "00"
    case Iso => date + "T" + time + ":00"
  }

  /** For `YYYY-MM-DD` and `HH:MM` the compact form is the 15 characters `YYYYMMDDTHHMM00`. */
  lemma CompactForm(y: string, mo: string, d: string, h: string, mi: string)
    requires |y| == 4 && |mo| == 2 && |d| == 2 && |h| == 2 && |mi| == 2
    requires AllDigits(y) && AllDigits(mo) && AllDigits(d) && AllDigits(h) && AllDigits(mi)
    ensures FormatDateTime(y + "-" + mo + "-" + d, h + ":" + mi, Google) == y + mo + d + "T" + h + mi + "00"
    ensures |FormatDateTime(y + "-" + mo + "-" + d, h + ":" + mi, Google)| == 15
  {
    DigitsKept(y, {'-'});
    DigitsKept(mo, {'-'});
    DigitsKept(d, {'-'});
    DigitsKept(h, {':'});
    DigitsKept(mi, {':'});
    ReplaceCharsAppend(y, "-", {'-'}, "");
    ReplaceCharsAppend(y + "-", mo, {'-'}, "");
    ReplaceCharsAppend(y + "-" + mo, "-", {'-'}, "");
    ReplaceCharsAppend(y + "-" + mo + "-", d, {'-'}, "");
    ReplaceCharsAppend(h, ":", {':'}, "");
    ReplaceCharsAppend(h + ":", mi, {':'}, "");
  }

  /** Digits come through a replacement of separator characters unchanged. */
  lemma DigitsKept(s: string, cs: set<char>)
    requires AllDigits(s)
    requires forall c :: c in cs ==> !IsDigit(c)
    ensures ReplaceChars(s, cs, "") == s
  {
    forall c | c in s
      ensures c !in cs
    {
      var k :| 0 <= k < |s| && s[k] == c;
      assert IsDigit(s[k]);
    }
    ReplaceCharsNoop(s, cs, "");
  }

  /**
   * The compact form is the ISO form with every '-' and ':' removed, as long as the date holds
   * no ':' and the time no '-'.
   */
  lemma CompactIsStrippedIso(date: string, time: string)
    requires ':' !in date && '-' !in time
    ensures FormatDateTime(date, time, Google) == ReplaceChars(FormatDateTime(date, time, Iso), {'-', ':'}, "")
  {
    var cs := {'-', ':'};
    var d' := ReplaceChars(date, {'-'}, "");
    var t' := ReplaceChars(time, {':'}, "");
    ReplaceCharsWider(date, {'-'}, {':'}, "");
    ReplaceCharsWider(time, {':'}, {'-'}, "");
    assert {'-'} + {':'} == cs && {':'} + {'-'} == cs;
    assert ReplaceChars("T", cs, "") == "T";
    assert ReplaceChars(":00", cs, "") == "00";
    ReplaceCharsAppend(date, "T", cs, "");
    assert ReplaceChars(date + "T", cs, "") == d' + "T";
    ReplaceCharsAppend(date + "T", time, cs, "");
    assert ReplaceChars(date + "T" + time, cs, "") == d' + "T" + t';
    ReplaceCharsAppend(date + "T" + time, ":00", cs, "");
  }

  // ---------------------------------------------------------------------------------------
  // Deep links
  // ---------------------------------------------------------------------------------------

  /** The query of a link: parameter names and values in the order they are appended. */
  type Params = seq<(string, string)>

  /** The parameter names, in order. */
  function Keys(ps: Params): seq<string>
  {
    seq(|ps|, i requires 0 <= i < |ps| => ps[i].0)
  }

  /** `Get` finds the value at the first position that carries the key. */
  lemma {:induction false} GetAt(ps: Params, key: string, i: nat)
    requires i < |ps| && ps[i].0 == key
    requires forall j :: 0 <= j < i ==> ps[j].0 != key
    ensures Get(ps, key) == Some(ps[i].1)
  {
    if i > 0 {
      GetAt(ps[1..], key, i - 1);
    }
  }

  /** `params.get(key)`: the value of the first parameter with that name. */
  function Get(ps: Params, key: string): (r: Option<string>)
    ensures r.None? <==> key !in Keys(ps)
  {
    if ps == [] then None
    else if ps[0].0 == key then
      assert Keys(ps)[0] == key;
      Some(ps[0].1)
    else
      assert Keys(ps) == [ps[0].0] + Keys(ps[1..]);
      Get(ps[1..], key)
  }

  const GoogleBase := "https://www.google.com/calendar/render?action=TEMPLATE"
  const OutlookBase := "https://outlook.office.com/calendar/0/deeplink/compose?rru=addevent"
  const YahooBase := "https://calendar.yahoo.com/?v=60&view=d&type=20"
  const TimeZone := "Europe/Berlin"

  /** The query of `getGoogleCalendarUrl`; a recurrence adds a final `recur` parameter. */
  function GoogleParams(e: CalendarEvent): Params
  {
    [("text", e.title),
     ("dates", FormatDateTime(e.date, e.startTime, Google) + "/" + FormatDateTime(e.date, e.endTime, Google)),
     ("details", e.notes),
     ("location", e.location),
     ("ctz", TimeZone)]
    + (if e.recurrence != "" then [("recur", "RRULE:" + e.recurrence)] else [])
  }

  /** The query of `getOutlookCalendarUrl`. */
  function OutlookParams(e: CalendarEvent): Params
  {
    [("subject", e.title),
     ("startdt", FormatDateTime(e.date, e.startTime, Iso)),
     ("enddt", FormatDateTime(e.date, e.endTime, Iso)),
     ("body", e.notes),
     ("location", e.location),
     ("path", "/calendar/action/compose")]
  }

  /** The query of `getYahooCalendarUrl`. */
  function YahooParams(e: CalendarEvent): Params
  {
    [("title", e.title),
     ("st", FormatDateTime(e.date, e.startTime, Google)),
     ("et", FormatDateTime(e.date, e.endTime, Google)),
     ("desc", e.notes),
     ("in_loc", e.location)]
  }

  /** A link is its base address, '&' and the encoded query. */
  function Link(base: string, ps: Params, encode: Params -> string): string
  {
    base + "&" + encode(ps)
  }

  function GoogleCalendarUrl(e: CalendarEvent, encode: Params -> string): string
  {
    Link(GoogleBase, GoogleParams(e), encode)
  }

  function OutlookCalendarUrl(e: CalendarEvent, encode: Params -> string): string
  {
    Link(OutlookBase, OutlookParams(e), encode)
  }

  function YahooCalendarUrl(e: CalendarEvent, encode: Params -> string): string
  {
    Link(YahooBase, YahooParams(e), encode)
  }

  /**
   * The Google link carries text, dates, details, location and ctz in that order, `dates` is
   * the compact start, '/', the compact end, the time zone is Europe/Berlin, and a `recur`
   * parameter follows exactly when the event has a recurrence.
   */
  lemma GoogleLinkQuery(e: CalendarEvent)
    ensures Keys(GoogleParams(e)) ==
      ["text", "dates", "details", "location", "ctz"] + (if e.recurrence != "" then ["recur"] else [])
    ensures Get(GoogleParams(e), "dates") ==
      Some(FormatDateTime(e.date, e.startTime, Google) + "/" + FormatDateTime(e.date, e.endTime, Google))
    ensures Get(GoogleParams(e), "ctz") == Some("Europe/Berlin")
    ensures Get(GoogleParams(e), "recur") ==
      if e.recurrence != "" then Some("RRULE:" + e.recurrence) else None
  {
    var ps := GoogleParams(e);
    assert Keys(ps) == ["text", "dates", "details", "location", "ctz"] + (if e.recurrence != "" then ["recur"] else []);
    GetAt(ps, "dates", 1);
    GetAt(ps, "ctz", 4);
    if e.recurrence != "" {
      GetAt(ps, "recur", 5);
    }
  }

  /** Outlook carries the ISO forms of start and end, and no recurrence. */
  lemma OutlookLinkQuery(e: CalendarEvent)
    ensures Keys(OutlookParams(e)) == ["subject", "startdt", "enddt", "body", "location", "path"]
    ensures Get(OutlookParams(e), "startdt") == Some(FormatDateTime(e.date, e.startTime, Iso))
    ensures Get(OutlookParams(e), "enddt") == Some(FormatDateTime(e.date, e.endTime, Iso))
  {
    assert Keys(OutlookParams(e)) == ["subject", "startdt", "enddt", "body", "location", "path"];
    GetAt(OutlookParams(e), "startdt", 1);
    GetAt(OutlookParams(e), "enddt", 2);
  }

  /** Yahoo carries the compact forms of start and end, and no recurrence. */
  lemma YahooLinkQuery(e: CalendarEvent)
    ensures Keys(YahooParams(e)) == ["title", "st", "et", "desc", "in_loc"]
    ensures Get(YahooParams(e), "st") == Some(FormatDateTime(e.date, e.startTime, Google))
    ensures Get(YahooParams(e), "et") == Some(FormatDateTime(e.date, e.endTime, Google))
  {
    assert Keys(YahooParams(e)) == ["title", "st", "et", "desc", "in_loc"];
    GetAt(YahooParams(e), "st", 1);
    GetAt(YahooParams(e), "et", 2);
  }

  /**
   * The three links agree on the times: Yahoo's start and end are Outlook's with every '-' and
   * ':' removed, and Google's `dates` is Yahoo's start, '/', Yahoo's end.
   */
  lemma LinksAgreeOnTimes(e: CalendarEvent)
    requires ':' !in e.date && '-' !in e.startTime && '-' !in e.endTime
    ensures Get(YahooParams(e), "st") == Some(ReplaceChars(FormatDateTime(e.date, e.startTime, Iso), {'-', ':'}, ""))
    ensures Get(YahooParams(e), "et") == Some(ReplaceChars(FormatDateTime(e.date, e.endTime, Iso), {'-', ':'}, ""))
    ensures Get(GoogleParams(e), "dates") ==
      Some(Get(YahooParams(e), "st").value + "/" + Get(YahooParams(e), "et").value)
  {
    YahooLinkQuery(e);
    GoogleLinkQuery(e);
    CompactIsStrippedIso(e.date, e.startTime);
    CompactIsStrippedIso(e.date, e.endTime);
  }

  /**
   * The Outlook and Yahoo links never depend on the recurrence, and no link depends on the
   * attendees, the all-day flag or the calendar.
   */
  lemma LinksIgnore(e: CalendarEvent, recurrence: string, encode: Params -> string)
    ensures OutlookCalendarUrl(e.(recurrence := recurrence), encode) == OutlookCalendarUrl(e, encode)
    ensures YahooCalendarUrl(e.(recurrence := recurrence), encode) == YahooCalendarUrl(e, encode)
    ensures GoogleCalendarUrl(Exported(e), encode) == GoogleCalendarUrl(e, encode)
    ensures OutlookCalendarUrl(Exported(e), encode) == OutlookCalendarUrl(e, encode)
    ensures YahooCalendarUrl(Exported(e), encode) == YahooCalendarUrl(e, encode)
  {
    assert OutlookParams(e.(recurrence := recurrence)) == OutlookParams(e);
    assert YahooParams(e.(recurrence := recurrence)) == YahooParams(e);
    assert GoogleParams(Exported(e)) == GoogleParams(e);
    assert OutlookParams(Exported(e)) == OutlookParams(e);
    assert YahooParams(Exported(e)) == YahooParams(e);
  }

  // ---------------------------------------------------------------------------------------
  // Event identifiers
  // ---------------------------------------------------------------------------------------

  /** One draw of `Math.random() * 16 | 0`. */
  newtype Nibble = x: int | 0 <= x < 16

  const HexDigits := "0123456789abcdef"

  /** `v.toString(16)` for a value below 16. */
  function Hex(v: bv8): (c: char)
    requires v < 16
    ensures c in HexDigits
  {
    HexDigits[v as int]
  }

  /** `n` placeholders 'x'. */
  function Xs(n: nat): (r: string)
    ensures |r| == n
  {
    seq(n, _ => 'x')
  }

  /** The template `xxxxxxxx-xxxx-4xxx-yxxx-xxxxxxxxxxxx`, written as its runs of placeholders. */
  const UidTemplate: string := Xs(8) + "-" + Xs(4) + "-4" + Xs(3) + "-y" + Xs(3) + "-" + Xs(12)
  const UidDomain := "@datepull.ai"

  /** How many draws one identifier uses: one per 'x' or 'y' of the template. */
  const UidDraws := 31

  /**
   * The template with every 'x' replaced by the hex digit of the next draw r and every 'y' by
   * that of (r & 0x3) | 0x8; `next` is the position of the next draw in the stream.
   */
  function FillTemplate(t: string, random: nat -> Nibble, next: nat): string
  {
    if t == [] then []
    else if t[0] == 'x' then [Hex(random(next) as bv8)] + FillTemplate(t[1..], random, next + 1)
    else if t[0] == 'y' then [Hex((random(next) as bv8 & 0x3) | 0x8)] + FillTemplate(t[1..], random, next + 1)
    else [t[0]] + FillTemplate(t[1..], random, next)
  }

  /** `generateUid`, reading its draws from `random` starting at `next`. */
  function GenerateUid(random: nat -> Nibble, next: nat): string
  {
    FillTemplate(UidTemplate, random, next) + UidDomain
  }

  /** Filling keeps the length of the template. */
  lemma {:induction false} FillLength(t: string, random: nat -> Nibble, next: nat)
    ensures |FillTemplate(t, random, next)| == |t|
  {
    if t != [] {
      FillLength(t[1..], random, if t[0] == 'x' || t[0] == 'y' then next + 1 else next);
    }
  }

  /**
   * Filling keeps every character other than 'x' and 'y'; an 'x' becomes a hex digit and a
   * 'y' one of 8, 9, a, b.
   */
  lemma {:induction false} FillAt(t: string, random: nat -> Nibble, next: nat, k: nat)
    requires k < |t|
    ensures |FillTemplate(t, random, next)| == |t|
    ensures t[k] != 'x' && t[k] != 'y' ==> FillTemplate(t, random, next)[k] == t[k]
    ensures t[k] == 'x' ==> FillTemplate(t, random, next)[k] in HexDigits
    ensures t[k] == 'y' ==> FillTemplate(t, random, next)[k] in "89ab"
  {
    FillLength(t, random, next);
    var n' := if t[0] == 'x' || t[0] == 'y' then next + 1 else next;
    if k > 0 {
      FillAt(t[1..], random, n', k - 1);
    } else if t[0] == 'y' {
      var v := (random(next) as bv8 & 0x3) | 0x8;
      assert 8 <= v <= 11;
      assert FillTemplate(t, random, next)[0] == HexDigits[v as int];
    }
  }

  /** The filling reads the draws `next .. next + CountIn(t, {'x', 'y'}) - 1` and no others. */
  lemma {:induction false} FillReads(t: string, random: nat -> Nibble, random': nat -> Nibble, next: nat)
    requires forall i :: next <= i < next + CountIn(t, {'x', 'y'}) ==> random(i) == random'(i)
    ensures FillTemplate(t, random, next) == FillTemplate(t, random', next)
  {
    if t != [] {
      var n' := if t[0] == 'x' || t[0] == 'y' then next + 1 else next;
      FillReads(t[1..], random, random', n');
    }
  }

  /**
   * An identifier has 48 characters: the pattern 8-4-4-4-12 with the version digit '4' at
   * index 14 and one of 8, 9, a, b at index 19, followed by "@datepull.ai".
   */
  lemma UidLayout(random: nat -> Nibble, next: nat)
    ensures |GenerateUid(random, next)| == 48
    ensures var u := GenerateUid(random, next);
      u[8] == '-' && u[13] == '-' && u[18] == '-' && u[23] == '-' && u[14] == '4' &&
      u[19] in "89ab" && u[36..] == UidDomain
  {
    var f := FillTemplate(UidTemplate, random, next);
    FillAt(UidTemplate, random, next, 8);
    FillAt(UidTemplate, random, next, 13);
    FillAt(UidTemplate, random, next, 14);
    FillAt(UidTemplate, random, next, 18);
    FillAt(UidTemplate, random, next, 19);
    FillAt(UidTemplate, random, next, 23);
    assert GenerateUid(random, next) == f + UidDomain;
  }

  /** Every other character of the first 36 is a lower-case hex digit. */
  lemma UidHexDigits(random: nat -> Nibble, next: nat)
    ensures |GenerateUid(random, next)| == 48
    ensures forall k :: 0 <= k < 36 && k !in {8, 13, 14, 18, 19, 23} ==> GenerateUid(random, next)[k] in HexDigits
  {
    var f := FillTemplate(UidTemplate, random, next);
    FillLength(UidTemplate, random, next);
    forall k | 0 <= k < 36 && k !in {8, 13, 14, 18, 19, 23}
      ensures GenerateUid(random, next)[k] in HexDigits
    {
      assert UidTemplate[k] == 'x';
      FillAt(UidTemplate, random, next, k);
      assert GenerateUid(random, next)[k] == f[k];
    }
  }

  /** Each identifier uses 31 draws, so consecutive identifiers use disjoint draws. */
  lemma UidReads(random: nat -> Nibble, random': nat -> Nibble, next: nat)
    requires forall i :: next <= i < next + UidDraws ==> random(i) == random'(i)
    ensures GenerateUid(random, next) == GenerateUid(random', next)
  {
    TemplateDraws();
    FillReads(UidTemplate, random, random', next);
  }

  /** The template holds 31 placeholders. */
  lemma TemplateDraws()
    ensures CountIn(UidTemplate, {'x', 'y'}) == UidDraws
  {
    var cs := {'x', 'y'};
    CountInXs(8, cs);
    CountInXs(4, cs);
    CountInXs(3, cs);
    CountInXs(12, cs);
    assert CountIn("-", cs) == 0 && CountIn("-4", cs) == 0 && CountIn("-y", cs) == 1;
    var t1 := Xs(8) + "-";
    CountInAppend(Xs(8), "-", cs);
    var t2 := t1 + Xs(4);
    CountInAppend(t1, Xs(4), cs);
    var t3 := t2 + "-4";
    CountInAppend(t2, "-4", cs);
    var t4 := t3 + Xs(3);
    CountInAppend(t3, Xs(3), cs);
    var t5 := t4 + "-y";
    CountInAppend(t4, "-y", cs);
    var t6 := t5 + Xs(3);
    CountInAppend(t5, Xs(3), cs);
    var t7 := t6 + "-";
    CountInAppend(t6, "-", cs);
    CountInAppend(t7, Xs(12), cs);
    assert UidTemplate == t7 + Xs(12);
  }

  /** A run of placeholders counts its length. */
  lemma {:induction false} CountInXs(n: nat, cs: set<char>)
    requires 'x' in cs
    ensures CountIn(Xs(n), cs) == n
  {
    if n > 0 {
      assert Xs(n)[1..] == Xs(n - 1);
      CountInXs(n - 1, cs);
    }
  }

  lemma {:induction false} CountInAppend(a: string, b: string, cs: set<char>)
    ensures CountIn(a + b, cs) == CountIn(a, cs) + CountIn(b, cs)
  {
    if a != [] {
      assert (a + b)[0] == a[0];
      assert (a + b)[1..] == a[1..] + b;
      CountInAppend(a[1..], b, cs);
    } else {
      assert a + b == b;
    }
  }

  // ---------------------------------------------------------------------------------------
  // iCalendar document
  // ---------------------------------------------------------------------------------------

  /** The properties the export writes. */
  datatype Name = Begin | End | Version | ProdId | CalScale | Uid | DtStamp | DtStart | DtEnd
                | RRule | Summary | Location | Description

  /** A content line: a property name (with its parameters) and a value. */
  datatype ContentLine = Line(name: Name, value: string)

  /**
   * How a property name is written, with the ':' that ends it; start and end carry the
   * Europe/Berlin time zone parameter.
   */
  function Tag(n: Name): string
  {
    match n
    case Begin => "BEGIN:"
    case End => "END:"
    case Version => "VERSION:"
    case ProdId => "PRODID:"
    case CalScale => "CALSCALE:"
    case Uid => "UID:"
    case DtStamp => "DTSTAMP:"
    case DtStart => "DTSTART;TZID=Europe/Berlin:"
    case DtEnd => "DTEND;TZID=Europe/Berlin:"
    case RRule => "RRULE:"
    case Summary => "SUMMARY:"
    case Location => "LOCATION:"
    case Description => "DESCRIPTION:"
  }

  /** A content line as text, `NAME:value`, without folding. */
  function Render(l: ContentLine): string
  {
    Tag(l.name) + l.value
  }

  /** The content lines as text, one string per line. */
  function RenderAll(ls: seq<ContentLine>): seq<string>
  {
    seq(|ls|, i requires 0 <= i < |ls| => Render(ls[i]))
  }

  const Header: seq<ContentLine> := [
    Line(Begin, "VCALENDAR"),
    Line(Version, "2.0"),
    Line(ProdId, "-//DatePullAI//Alexander Schneider//EN"),
    Line(CalScale, "GREGORIAN")]

  const Footer: ContentLine := Line(End, "VCALENDAR")

  /**
   * The DTSTAMP value: `toISOString()` of the export time with every '-', ':' and '.' removed,
   * cut to 15 characters, then 'Z'.
   */
  function Stamp(isoNow: string): string
  {
    Take(ReplaceChars(isoNow, {'-', ':', '.'}, ""), 15) + "Z"
  }

  /** For `YYYY-MM-DDTHH:MM:SS.sssZ` the stamp is the UTC form `YYYYMMDDTHHMMSSZ`. */
  lemma StampOfInstant(y: string, mo: string, d: string, h: string, mi: string, s: string, ms: string)
    requires |y| == 4 && |mo| == 2 && |d| == 2 && |h| == 2 && |mi| == 2 && |s| == 2 && |ms| == 3
    requires AllDigits(y) && AllDigits(mo) && AllDigits(d) && AllDigits(h) && AllDigits(mi)
    requires AllDigits(s) && AllDigits(ms)
    ensures Stamp(y + "-" + mo + "-" + d + "T" + h + ":" + mi + ":" + s + "." + ms + "Z") ==
      y + mo + d + "T" + h + mi + s + "Z"
  {
    var cs := {'-', ':', '.'};
    var date := y + "-" + mo + "-" + d;
    var time := h + ":" + mi + ":" + s + "." + ms;
    assert y + "-" + mo + "-" + d + "T" + h + ":" + mi + ":" + s + "." + ms + "Z" == date + "T" + time + "Z";
    DropSeparators(y, mo, d, "-", "-", cs);
    DropSeparators(h, mi, s, ":", ":", cs);
    DropSeparator(h + ":" + mi + ":" + s, ms, '.', cs);
    DigitsKept(ms, cs);
    assert ReplaceChars(time, cs, "") == h + mi + s + ms;
    assert ReplaceChars("T", cs, "") == "T" && ReplaceChars("Z", cs, "") == "Z";
    ReplaceCharsAppend(date, "T", cs, "");
    assert ReplaceChars(date + "T", cs, "") == y + mo + d + "T";
    ReplaceCharsAppend(date + "T", time, cs, "");
    assert ReplaceChars(date + "T" + time, cs, "") == y + mo + d + "T" + h + mi + s + ms;
    ReplaceCharsAppend(date + "T" + time, "Z", cs, "");
    var stripped := y + mo + d + "T" + h + mi + s + ms + "Z";
    assert ReplaceChars(date + "T" + time + "Z", cs, "") == stripped;
    assert stripped[..15] == y + mo + d + "T" + h + mi + s;
  }

  /** Removing a separator between two texts. */
  lemma DropSeparator(a: string, b: string, c: char, cs: set<char>)
    requires c in cs
    ensures ReplaceChars(a + [c] + b, cs, "") == ReplaceChars(a, cs, "") + ReplaceChars(b, cs, "")
  {
    ReplaceCharsAppend(a, [c], cs, "");
    ReplaceCharsAppend(a + [c], b, cs, "");
  }

  /** Three runs of digits with two separators lose exactly the separators. */
  lemma DropSeparators(a: string, b: string, c: string, s1: string, s2: string, cs: set<char>)
    requires AllDigits(a) && AllDigits(b) && AllDigits(c)
    requires forall x :: x in cs ==> !IsDigit(x)
    requires |s1| == 1 && |s2| == 1 && s1[0] in cs && s2[0] in cs
    ensures ReplaceChars(a + s1 + b + s2 + c, cs, "") == a + b + c
  {
    DigitsKept(a, cs);
    DigitsKept(b, cs);
    DigitsKept(c, cs);
    assert s1 == [s1[0]] && s2 == [s2[0]];
    DropSeparator(a, b, s1[0], cs);
    DropSeparator(a + s1 + b, c, s2[0], cs);
  }

  /** The DESCRIPTION value: every line feed of the notes written as backslash-n. */
  function EscapeText(notes: string): string
  {
    ReplaceChars(notes, {'\n'}, "\\n")
  }

  /** An escaped DESCRIPTION value holds no line feed, and the rest of the notes is kept. */
  lemma EscapeTextNoNewline(notes: string)
    ensures '\n' !in EscapeText(notes)
    ensures forall c :: c in notes && c != '\n' ==> c in EscapeText(notes)
  {
    ReplaceCharsChars(notes, {'\n'}, "\\n");
  }

  /** The lines of one event, between `BEGIN:VEVENT` and `END:VEVENT`. */
  function VEvent(e: CalendarEvent, uid: string, now: string): seq<ContentLine>
  {
    Opening(e, uid, now)
    + OptionalLine(e.recurrence, Line(RRule, e.recurrence))
    + [Line(Summary, e.title)]
    + OptionalLine(e.location, Line(Location, e.location))
    + OptionalLine(e.notes, Line(Description, EscapeText(e.notes)))
    + [Line(End, "VEVENT")]
  }

  /** The five lines every event block starts with. */
  function Opening(e: CalendarEvent, uid: string, now: string): seq<ContentLine>
  {
    [Line(Begin, "VEVENT"),
     Line(Uid, uid),
     Line(DtStamp, now),
     Line(DtStart, FormatDateTime(e.date, e.startTime, Google)),
     Line(DtEnd, FormatDateTime(e.date, e.endTime, Google))]
  }

  /** A line written only when the field it comes from is not empty. */
  function OptionalLine(field: string, l: ContentLine): seq<ContentLine>
  {
    if field != "" then [l] else []
  }

  /** The identifier of the `i`-th event: the `i`-th run of 31 draws. */
  function UidOf(random: nat -> Nibble, i: nat): string
  {
    GenerateUid(random, UidDraws * i)
  }

  /** The identifiers of the events, by position. */
  function Ids(random: nat -> Nibble): nat -> string
  {
    (i: nat) => UidOf(random, i)
  }

  /** The event blocks, one per event, in input order. */
  function VEvents(events: seq<CalendarEvent>, ids: nat -> string, now: string): seq<ContentLine>
  {
    if events == [] then []
    else
      var n := |events| - 1;
      VEvents(events[..n], ids, now) + VEvent(events[n], ids(n), now)
  }

  /** The whole document as content lines. */
  function Calendar(events: seq<CalendarEvent>, random: nat -> Nibble, isoNow: string): seq<ContentLine>
  {
    Header + VEvents(events, Ids(random), Stamp(isoNow)) + [Footer]
  }

  /**
   * `generateIcsContent`: pushes the header lines, then the lines of each event, then the
   * footer, and joins them with CRLF.
   */
  method GenerateIcsContent(events: seq<CalendarEvent>, random: nat -> Nibble, isoNow: string)
    returns (content: string)
    ensures content == Join(RenderAll(Calendar(events, random, isoNow)), "\r\n")
  {
    var cal := RenderAll(Header);
    var now := Stamp(isoNow);
    ghost var ids := Ids(random);
    for i := 0 to |events|
      invariant cal == RenderAll(Header + VEvents(events[..i], ids, now))
    {
      cal := PushVEvent(cal, events[i], GenerateUid(random, UidDraws * i), now);
      VEventsSnoc(events, i, ids, now);
      RenderAllAppend(Header + VEvents(events[..i], ids, now), VEvent(events[i], ids(i), now));
    }
    assert events[..|events|] == events;
    cal := cal + ["END:VCALENDAR"];
    assert Render(Footer) == "END:VCALENDAR";
    assert RenderAll([Footer]) == [Render(Footer)];
    RenderAllAppend(Header + VEvents(events, ids, now), [Footer]);
    content := Join(cal, "\r\n");
  }

  /** The lines one iteration of the event loop pushes. */
  method PushVEvent(cal: seq<string>, event: CalendarEvent, uid: string, now: string)
    returns (cal': seq<string>)
    ensures cal' == cal + RenderAll(VEvent(event, uid, now))
  {
    ghost var lines;
    cal', lines := PushOpening(cal, event, uid, now);
    cal', lines := PushOptional(cal, cal', lines, event.recurrence, Line(RRule, event.recurrence),
      "RRULE:" + event.recurrence);
    cal', lines := PushLine(cal, cal', lines, Line(Summary, event.title), "SUMMARY:" + event.title);
    cal', lines := PushOptional(cal, cal', lines, event.location, Line(Location, event.location),
      "LOCATION:" + event.location);
    cal', lines := PushOptional(cal, cal', lines, event.notes, Line(Description, EscapeText(event.notes)),
      "DESCRIPTION:" + ReplaceChars(event.notes, {'\n'}, "\\n"));
    assert Render(Line(End, "VEVENT")) == "END:VEVENT";
    cal', lines := PushLine(cal, cal', lines, Line(End, "VEVENT"), "END:VEVENT");
  }

  /** The five lines every event block starts with, pushed in order. */
  method PushOpening(cal: seq<string>, event: CalendarEvent, uid: string, now: string)
    returns (cal': seq<string>, ghost lines: seq<ContentLine>)
    ensures lines == Opening(event, uid, now) && cal' == cal + RenderAll(lines)
  {
    assert Render(Line(Begin, "VEVENT")) == "BEGIN:VEVENT";
    cal', lines := PushLine(cal, cal, [], Line(Begin, "VEVENT"), "BEGIN:VEVENT");
    cal', lines := PushLine(cal, cal', lines, Line(Uid, uid), "UID:" + uid);
    cal', lines := PushLine(cal, cal', lines, Line(DtStamp, now), "DTSTAMP:" + now);
    cal', lines := PushLine(cal, cal', lines, Line(DtStart, FormatDateTime(event.date, event.startTime, Google)),
      "DTSTART;TZID=Europe/Berlin:" + FormatDateTime(event.date, event.startTime, Google));
    cal', lines := PushLine(cal, cal', lines, Line(DtEnd, FormatDateTime(event.date, event.endTime, Google)),
      "DTEND;TZID=Europe/Berlin:" + FormatDateTime(event.date, event.endTime, Google));
  }

  /** `if (field) cal.push(text)`. */
  method PushOptional(cal0: seq<string>, cal: seq<string>, ghost lines: seq<ContentLine>, field: string,
                      l: ContentLine, text: string)
    returns (cal': seq<string>, ghost lines': seq<ContentLine>)
    requires cal == cal0 + RenderAll(lines) && text == Render(l)
    ensures lines' == lines + OptionalLine(field, l)
    ensures cal' == cal0 + RenderAll(lines')
  {
    if field != "" {
      cal', lines' := PushLine(cal0, cal, lines, l, text);
    } else {
      cal', lines' := cal, lines;
      assert lines' == lines + [];
    }
  }

  /** `cal.push(text)` where `text` is the rendering of `l`; `lines` tracks what was pushed. */
  method PushLine(cal0: seq<string>, cal: seq<string>, ghost lines: seq<ContentLine>, l: ContentLine, text: string)
    returns (cal': seq<string>, ghost lines': seq<ContentLine>)
    requires cal == cal0 + RenderAll(lines) && text == Render(l)
    ensures lines' == lines + [l] && cal' == cal + [text]
    ensures cal' == cal0 + RenderAll(lines')
  {
    cal' := cal + [text];
    lines' := lines + [l];
    RenderAllAppend(lines, [l]);
  }

  lemma VEventsSnoc(events: seq<CalendarEvent>, i: nat, ids: nat -> string, now: string)
    requires i < |events|
    ensures Header + VEvents(events[..i + 1], ids, now) ==
      Header + VEvents(events[..i], ids, now) + VEvent(events[i], ids(i), now)
  {
    assert events[..i + 1][..i] == events[..i];
  }

  lemma RenderAllAppend(a: seq<ContentLine>, b: seq<ContentLine>)
    ensures RenderAll(a + b) == RenderAll(a) + RenderAll(b)
  {
  }

  // ---------------------------------------------------------------------------------------
  // What the document says
  // ---------------------------------------------------------------------------------------

  /** The values of the lines with property `n`, in document order. */
  function ValuesOf(ls: seq<ContentLine>, n: Name): seq<string>
  {
    if ls == [] then []
    else (if ls[0].name == n then [ls[0].value] else []) + ValuesOf(ls[1..], n)
  }

  lemma {:induction false} ValuesOfAppend(a: seq<ContentLine>, b: seq<ContentLine>, n: Name)
    ensures ValuesOf(a + b, n) == ValuesOf(a, n) + ValuesOf(b, n)
  {
    if a == [] {
      assert a + b == b;
    } else {
      assert (a + b)[0] == a[0];
      assert (a + b)[1..] == a[1..] + b;
      ValuesOfAppend(a[1..], b, n);
    }
  }

  /** The values of property `n` in a block: those of its opening, then of its other parts. */
  lemma VEventValues(e: CalendarEvent, uid: string, now: string, n: Name)
    ensures ValuesOf(VEvent(e, uid, now), n) ==
      ValuesOf(Opening(e, uid, now), n)
      + ValuesOf(OptionalLine(e.recurrence, Line(RRule, e.recurrence)), n)
      + ValuesOf([Line(Summary, e.title)], n)
      + ValuesOf(OptionalLine(e.location, Line(Location, e.location)), n)
      + ValuesOf(OptionalLine(e.notes, Line(Description, EscapeText(e.notes))), n)
      + ValuesOf([Line(End, "VEVENT")], n)
  {
    var p1 := Opening(e, uid, now);
    var p2 := OptionalLine(e.recurrence, Line(RRule, e.recurrence));
    var p3 := [Line(Summary, e.title)];
    var p4 := OptionalLine(e.location, Line(Location, e.location));
    var p5 := OptionalLine(e.notes, Line(Description, EscapeText(e.notes)));
    var p6 := [Line(End, "VEVENT")];
    ValuesOfAppend(p1, p2, n);
    ValuesOfAppend(p1 + p2, p3, n);
    ValuesOfAppend(p1 + p2 + p3, p4, n);
    ValuesOfAppend(p1 + p2 + p3 + p4, p5, n);
    ValuesOfAppend(p1 + p2 + p3 + p4 + p5, p6, n);
  }

  /** What one line with property `m` and value `v` contributes to the values of property `n`. */
  function Pick(m: Name, v: string, n: Name): seq<string>
  {
    if m == n then [v] else []
  }

  /** A single line contributes its value exactly when it has the property asked for. */
  lemma ValuesOfLine(l: ContentLine, n: Name)
    ensures ValuesOf([l], n) == Pick(l.name, l.value, n)
  {
    assert [l][1..] == [];
  }

  lemma ValuesOfOptional(field: string, l: ContentLine, n: Name)
    ensures ValuesOf(OptionalLine(field, l), n) == if field != "" then Pick(l.name, l.value, n) else []
  {
    if field != "" {
      ValuesOfLine(l, n);
    }
  }

  /** The opening of a block: one line each of BEGIN, UID, DTSTAMP, DTSTART and DTEND. */
  lemma OpeningValues(e: CalendarEvent, uid: string, now: string, n: Name)
    ensures ValuesOf(Opening(e, uid, now), n) ==
      Pick(Begin, "VEVENT", n) + Pick(Uid, uid, n) + Pick(DtStamp, now, n)
      + Pick(DtStart, FormatDateTime(e.date, e.startTime, Google), n)
      + Pick(DtEnd, FormatDateTime(e.date, e.endTime, Google), n)
  {
    var o := Opening(e, uid, now);
    assert o == [o[0]] + [o[1]] + [o[2]] + [o[3]] + [o[4]];
    ValuesOfAppend([o[0]], [o[1]], n);
    ValuesOfAppend([o[0]] + [o[1]], [o[2]], n);
    ValuesOfAppend([o[0]] + [o[1]] + [o[2]], [o[3]], n);
    ValuesOfAppend([o[0]] + [o[1]] + [o[2]] + [o[3]], [o[4]], n);
    ValuesOfLine(o[0], n);
    ValuesOfLine(o[1], n);
    ValuesOfLine(o[2], n);
    ValuesOfLine(o[3], n);
    ValuesOfLine(o[4], n);
  }

  /** The values of property `n` in a block, line by line. */
  lemma BlockValues(e: CalendarEvent, uid: string, now: string, n: Name)
    ensures ValuesOf(VEvent(e, uid, now), n) ==
      Pick(Begin, "VEVENT", n) + Pick(Uid, uid, n) + Pick(DtStamp, now, n)
      + Pick(DtStart, FormatDateTime(e.date, e.startTime, Google), n)
      + Pick(DtEnd, FormatDateTime(e.date, e.endTime, Google), n)
      + (if e.recurrence != "" then Pick(RRule, e.recurrence, n) else [])
      + Pick(Summary, e.title, n)
      + (if e.location != "" then Pick(Location, e.location, n) else [])
      + (if e.notes != "" then Pick(Description, EscapeText(e.notes), n) else [])
      + Pick(End, "VEVENT", n)
  {
    VEventValues(e, uid, now, n);
    OpeningValues(e, uid, now, n);
    ValuesOfOptional(e.recurrence, Line(RRule, e.recurrence), n);
    ValuesOfLine(Line(Summary, e.title), n);
    ValuesOfOptional(e.location, Line(Location, e.location), n);
    ValuesOfOptional(e.notes, Line(Description, EscapeText(e.notes)), n);
    ValuesOfLine(Line(End, "VEVENT"), n);
  }

  /** The properties every event block carries exactly once. */
  predicate Once(n: Name)
  {
    n.Begin? || n.End? || n.Uid? || n.DtStamp? || n.DtStart? || n.DtEnd? || n.Summary?
  }

  /** The value a block carries for a property it has once. */
  function OnceValue(e: CalendarEvent, uid: string, now: string, n: Name): string
    requires Once(n)
  {
    match n
    case Begin => "VEVENT"
    case End => "VEVENT"
    case Uid => uid
    case DtStamp => now
    case DtStart => FormatDateTime(e.date, e.startTime, Google)
    case DtEnd => FormatDateTime(e.date, e.endTime, Google)
    case Summary => e.title
  }

  /**
   * Each event block has exactly one BEGIN and one END line (both `VEVENT`), and exactly one
   * UID, DTSTAMP, DTSTART, DTEND and SUMMARY line, carrying the identifier, the stamp, the
   * compact start and end and the title.
   */
  lemma BlockOnce(e: CalendarEvent, uid: string, now: string, n: Name)
    requires Once(n)
    ensures ValuesOf(VEvent(e, uid, now), n) == [OnceValue(e, uid, now, n)]
  {
    BlockValues(e, uid, now, n);
  }

  /** A block has an RRULE line exactly when the event has a recurrence, carrying it. */
  lemma BlockRecurrence(e: CalendarEvent, uid: string, now: string)
    ensures ValuesOf(VEvent(e, uid, now), RRule) == if e.recurrence != "" then [e.recurrence] else []
  {
    BlockValues(e, uid, now, RRule);
  }

  /** A block has a LOCATION line exactly when the event has a location, carrying it. */
  lemma BlockLocation(e: CalendarEvent, uid: string, now: string)
    ensures ValuesOf(VEvent(e, uid, now), Location) == if e.location != "" then [e.location] else []
  {
    BlockValues(e, uid, now, Location);
    assert Pick(Summary, e.title, Location) == [] && Pick(End, "VEVENT", Location) == [];
  }

  /**
   * A block has a DESCRIPTION line exactly when the event has notes, carrying the notes with
   * every line feed written as backslash-n, so that the value holds no line feed.
   */
  lemma BlockDescription(e: CalendarEvent, uid: string, now: string)
    ensures ValuesOf(VEvent(e, uid, now), Description) == if e.notes != "" then [EscapeText(e.notes)] else []
    ensures forall v :: v in ValuesOf(VEvent(e, uid, now), Description) ==> '\n' !in v
  {
    BlockValues(e, uid, now, Description);
    EscapeTextNoNewline(e.notes);
  }

  /** The titles of the events, in order. */
  function Titles(events: seq<CalendarEvent>): seq<string>
  {
    seq(|events|, i requires 0 <= i < |events| => events[i].title)
  }

  /** The identifiers of the first `n` events. */
  function Uids(ids: nat -> string, n: nat): seq<string>
  {
    seq(n, i requires 0 <= i < n => ids(i))
  }

  /** `n` copies of `v`. */
  function Copies(v: string, n: nat): seq<string>
  {
    seq(n, _ => v)
  }

  lemma CopiesSnoc(v: string, n: nat)
    ensures Copies(v, n + 1) == Copies(v, n) + [v]
  {
  }

  lemma TitlesSnoc(events: seq<CalendarEvent>)
    requires events != []
    ensures Titles(events) == Titles(events[..|events| - 1]) + [events[|events| - 1].title]
  {
  }

  lemma UidsSnoc(ids: nat -> string, n: nat)
    ensures Uids(ids, n + 1) == Uids(ids, n) + [ids(n)]
  {
  }

  /** There is one block per event: one `BEGIN:VEVENT` per event. */
  lemma {:induction false} EventBegins(events: seq<CalendarEvent>, ids: nat -> string, now: string)
    ensures ValuesOf(VEvents(events, ids, now), Begin) == Copies("VEVENT", |events|)
  {
    if events != [] {
      var n := |events| - 1;
      EventBegins(events[..n], ids, now);
      BlockOnce(events[n], ids(n), now, Begin);
      ValuesOfAppend(VEvents(events[..n], ids, now), VEvent(events[n], ids(n), now), Begin);
      CopiesSnoc("VEVENT", n);
    }
  }

  /** Every block closes with one `END:VEVENT`. */
  lemma {:induction false} EventEnds(events: seq<CalendarEvent>, ids: nat -> string, now: string)
    ensures ValuesOf(VEvents(events, ids, now), End) == Copies("VEVENT", |events|)
  {
    if events != [] {
      var n := |events| - 1;
      EventEnds(events[..n], ids, now);
      BlockOnce(events[n], ids(n), now, End);
      ValuesOfAppend(VEvents(events[..n], ids, now), VEvent(events[n], ids(n), now), End);
      CopiesSnoc("VEVENT", n);
    }
  }

  /** The blocks come in input order: their SUMMARY lines carry the titles in order. */
  lemma {:induction false} EventTitles(events: seq<CalendarEvent>, ids: nat -> string, now: string)
    ensures ValuesOf(VEvents(events, ids, now), Summary) == Titles(events)
  {
    if events != [] {
      var n := |events| - 1;
      EventTitles(events[..n], ids, now);
      BlockOnce(events[n], ids(n), now, Summary);
      ValuesOfAppend(VEvents(events[..n], ids, now), VEvent(events[n], ids(n), now), Summary);
      TitlesSnoc(events);
    }
  }

  /** The `i`-th block carries the `i`-th identifier. */
  lemma {:induction false} EventUids(events: seq<CalendarEvent>, ids: nat -> string, now: string)
    ensures ValuesOf(VEvents(events, ids, now), Uid) == Uids(ids, |events|)
  {
    if events != [] {
      var n := |events| - 1;
      EventUids(events[..n], ids, now);
      BlockOnce(events[n], ids(n), now, Uid);
      ValuesOfAppend(VEvents(events[..n], ids, now), VEvent(events[n], ids(n), now), Uid);
      UidsSnoc(ids, n);
    }
  }

  /** Every block carries the same DTSTAMP value. */
  lemma {:induction false} EventStamps(events: seq<CalendarEvent>, ids: nat -> string, now: string)
    ensures ValuesOf(VEvents(events, ids, now), DtStamp) == Copies(now, |events|)
  {
    if events != [] {
      var n := |events| - 1;
      EventStamps(events[..n], ids, now);
      BlockOnce(events[n], ids(n), now, DtStamp);
      ValuesOfAppend(VEvents(events[..n], ids, now), VEvent(events[n], ids(n), now), DtStamp);
      CopiesSnoc(now, n);
    }
  }

  /** The header lines of the document: BEGIN, VERSION, PRODID and CALSCALE. */
  lemma HeaderValues(n: Name)
    ensures ValuesOf(Header, n) ==
      Pick(Begin, "VCALENDAR", n) + Pick(Version, "2.0", n)
      + Pick(ProdId, "-//DatePullAI//Alexander Schneider//EN", n) + Pick(CalScale, "GREGORIAN", n)
  {
    var h := Header;
    assert h == [h[0]] + [h[1]] + [h[2]] + [h[3]];
    ValuesOfAppend([h[0]], [h[1]], n);
    ValuesOfAppend([h[0]] + [h[1]], [h[2]], n);
    ValuesOfAppend([h[0]] + [h[1]] + [h[2]], [h[3]], n);
    ValuesOfLine(h[0], n);
    ValuesOfLine(h[1], n);
    ValuesOfLine(h[2], n);
    ValuesOfLine(h[3], n);
  }

  /** The header holds no event line and one BEGIN line. */
  lemma HeaderOnly(n: Name)
    requires n != Version && n != ProdId && n != CalScale
    ensures ValuesOf(Header, n) == if n == Begin then ["VCALENDAR"] else []
  {
    HeaderValues(n);
  }

  /** The footer is the one line `END:VCALENDAR`. */
  lemma FooterOnly(n: Name)
    ensures ValuesOf([Footer], n) == if n == End then ["VCALENDAR"] else []
  {
    ValuesOfLine(Footer, n);
  }

  /** The values of property `n` in a document: the header's, the blocks', the footer's. */
  lemma DocumentValues(blocks: seq<ContentLine>, n: Name)
    ensures ValuesOf(Header + blocks + [Footer], n) ==
      ValuesOf(Header, n) + ValuesOf(blocks, n) + ValuesOf([Footer], n)
  {
    ValuesOfAppend(Header, blocks, n);
    ValuesOfAppend(Header + blocks, [Footer], n);
  }

  /** A property the header and footer do not carry has, in the document, the blocks' values. */
  lemma DocumentBlockValues(blocks: seq<ContentLine>, n: Name)
    requires n != Version && n != ProdId && n != CalScale && n != Begin && n != End
    ensures ValuesOf(Header + blocks + [Footer], n) == ValuesOf(blocks, n)
  {
    DocumentValues(blocks, n);
    HeaderOnly(n);
    FooterOnly(n);
  }

  /** The document opens the calendar once, then each event once. */
  lemma CalendarBegins(events: seq<CalendarEvent>, random: nat -> Nibble, isoNow: string)
    ensures ValuesOf(Calendar(events, random, isoNow), Begin) == ["VCALENDAR"] + Copies("VEVENT", |events|)
  {
    var blocks := VEvents(events, Ids(random), Stamp(isoNow));
    EventBegins(events, Ids(random), Stamp(isoNow));
    DocumentValues(blocks, Begin);
    HeaderOnly(Begin);
    FooterOnly(Begin);
  }

  /** The document closes each event once, then the calendar once. */
  lemma CalendarEnds(events: seq<CalendarEvent>, random: nat -> Nibble, isoNow: string)
    ensures ValuesOf(Calendar(events, random, isoNow), End) == Copies("VEVENT", |events|) + ["VCALENDAR"]
  {
    EventEnds(events, Ids(random), Stamp(isoNow));
    DocumentEnds(VEvents(events, Ids(random), Stamp(isoNow)), ValuesOf(VEvents(events, Ids(random), Stamp(isoNow)), End));
  }

  lemma DocumentEnds(blocks: seq<ContentLine>, ends: seq<string>)
    requires ValuesOf(blocks, End) == ends
    ensures ValuesOf(Header + blocks + [Footer], End) == ends + ["VCALENDAR"]
  {
    DocumentValues(blocks, End);
    HeaderOnly(End);
    FooterOnly(End);
  }

  /** Every DTSTAMP line of the document carries the same stamp of the export time. */
  lemma CalendarStamps(events: seq<CalendarEvent>, random: nat -> Nibble, isoNow: string)
    ensures ValuesOf(Calendar(events, random, isoNow), DtStamp) == Copies(Stamp(isoNow), |events|)
  {
    EventStamps(events, Ids(random), Stamp(isoNow));
    DocumentBlockValues(VEvents(events, Ids(random), Stamp(isoNow)), DtStamp);
  }

  /** The SUMMARY lines of the document carry the titles of the events, in input order. */
  lemma CalendarTitles(events: seq<CalendarEvent>, random: nat -> Nibble, isoNow: string)
    ensures ValuesOf(Calendar(events, random, isoNow), Summary) == Titles(events)
  {
    EventTitles(events, Ids(random), Stamp(isoNow));
    DocumentBlockValues(VEvents(events, Ids(random), Stamp(isoNow)), Summary);
  }

  /**
   * The UID lines of the document carry, in order, the identifiers generated from consecutive
   * runs of 31 draws.
   */
  lemma CalendarUids(events: seq<CalendarEvent>, random: nat -> Nibble, isoNow: string)
    ensures ValuesOf(Calendar(events, random, isoNow), Uid) == Uids(Ids(random), |events|)
  {
    EventUids(events, Ids(random), Stamp(isoNow));
    DocumentBlockValues(VEvents(events, Ids(random), Stamp(isoNow)), Uid);
  }

  /**
   * The document text opens with the line `BEGIN:VCALENDAR` and ends with the line
   * `END:VCALENDAR`: CRLF separates the lines and does not follow the last one.
   */
  lemma DocumentText(events: seq<CalendarEvent>, random: nat -> Nibble, isoNow: string)
    ensures var text := Join(RenderAll(Calendar(events, random, isoNow)), "\r\n");
      StartsWith(text, "BEGIN:VCALENDAR\r\n") &&
      text == Join(RenderAll(Header + VEvents(events, Ids(random), Stamp(isoNow))), "\r\n") + "\r\nEND:VCALENDAR"
  {
    var body := Header + VEvents(events, Ids(random), Stamp(isoNow));
    RenderAllAppend(body, [Footer]);
    assert Render(Footer) == "END:VCALENDAR";
    assert RenderAll([Footer]) == [Render(Footer)];
    assert RenderAll(body)[0] == Render(Header[0]) == "BEGIN:VCALENDAR";
    JoinFramed(RenderAll(body));
  }

  /** The document's first four lines are the calendar header, whatever the events. */
  lemma CalendarOpens(events: seq<CalendarEvent>, random: nat -> Nibble, isoNow: string)
    ensures var lines := RenderAll(Calendar(events, random, isoNow));
      |lines| >= 4 &&
      lines[..4] == ["BEGIN:VCALENDAR", "VERSION:2.0",
                     "PRODID:-//DatePullAI//Alexander Schneider//EN", "CALSCALE:GREGORIAN"]
  {
    var rest := VEvents(events, Ids(random), Stamp(isoNow)) + [Footer];
    assert Calendar(events, random, isoNow) == Header + rest;
    RenderAllAppend(Header, rest);
    CalendarHeaderText();
  }

  /** The header lines as text. */
  lemma CalendarHeaderText()
    ensures RenderAll(Header) == ["BEGIN:VCALENDAR", "VERSION:2.0",
                                  "PRODID:-//DatePullAI//Alexander Schneider//EN", "CALSCALE:GREGORIAN"]
  {
    var h := RenderAll(Header);
    assert h == [Render(Header[0]), Render(Header[1]), Render(Header[2]), Render(Header[3])];
    assert Render(Header[0]) == "BEGIN:VCALENDAR";
    assert Render(Header[1]) == "VERSION:2.0";
    assert Header[2] == Line(ProdId, "-//DatePullAI//Alexander Schneider//EN");
    ProdIdText();
    assert Render(Header[3]) == "CALSCALE:GREGORIAN";
  }

  /** The text of the PRODID line. */
  lemma ProdIdText()
    ensures Render(Line(ProdId, "-//DatePullAI//Alexander Schneider//EN")) ==
            "PRODID:-//DatePullAI//Alexander Schneider//EN"
  {
  }

  /** Joining lines that start with `BEGIN:VCALENDAR` and then the line `END:VCALENDAR`. */
  lemma JoinFramed(lines: seq<string>)
    requires lines != [] && lines[0] == "BEGIN:VCALENDAR"
    ensures var text := Join(lines + ["END:VCALENDAR"], "\r\n");
      StartsWith(text, "BEGIN:VCALENDAR\r\n") && text == Join(lines, "\r\n") + "\r\nEND:VCALENDAR"
  {
    JoinSnoc(lines, "END:VCALENDAR", "\r\n");
    var all := lines + ["END:VCALENDAR"];
    assert all == [all[0]] + all[1..];
    JoinCons(all[0], all[1..], "\r\n");
    StartsWithAppend("BEGIN:VCALENDAR\r\n", Join(all[1..], "\r\n"));
  }

  /** Dropping the fields no export reads leaves a block unchanged. */
  lemma VEventIgnores(e: CalendarEvent, uid: string, now: string)
    ensures VEvent(Exported(e), uid, now) == VEvent(e, uid, now)
  {
  }

  /**
   * The blocks, and so the whole document, depend on the events only through the fields the
   * export reads: attendees, the all-day flag and the calendar never change the output.
   */
  lemma {:induction false} VEventsIgnore(events: seq<CalendarEvent>, others: seq<CalendarEvent>,
                                        ids: nat -> string, now: string)
    requires |events| == |others|
    requires forall i :: 0 <= i < |events| ==> Exported(events[i]) == Exported(others[i])
    ensures VEvents(events, ids, now) == VEvents(others, ids, now)
  {
    if events != [] {
      var n := |events| - 1;
      VEventsIgnore(events[..n], others[..n], ids, now);
      VEventIgnores(events[n], ids(n), now);
      VEventIgnores(others[n], ids(n), now);
    }
  }

  lemma CalendarIgnores(events: seq<CalendarEvent>, others: seq<CalendarEvent>, random: nat -> Nibble,
                        isoNow: string)
    requires |events| == |others|
    requires forall i :: 0 <= i < |events| ==> Exported(events[i]) == Exported(others[i])
    ensures Calendar(events, random, isoNow) == Calendar(others, random, isoNow)
  {
    VEventsIgnore(events, others, Ids(random), Stamp(isoNow));
  }
}
