/** The iCalendar printer, and an RFC 5545 reader written independently of it. */
module IcsDocument {
  import opened Text
  import opened EventModel
  import opened IcsText
  import Lists

  // ----- numbers and times -----

  function Digit(n: nat): char
    requires n < 10
  {
    ('0' as int + n) as char
  }

  function Two(n: nat): string
    requires n < 100
  {
    [Digit(n / 10), Digit(n % 10)]
  }

  function NatText(n: nat): string {
    if n < 10 then [Digit(n)] else NatText(n / 10) + [Digit(n % 10)]
  }

  function IntText(n: int): string {
    if n < 0 then "-" + NatText(-n) else NatText(n)
  }

  function StampText(c: Stamp): string {
    var (century, year) := (Two(c.year / 100), Two(c.year % 100));
    var (month, day) := (Two(c.month), Two(c.day));
    var (hour, minute, second) := (Two(c.hour), Two(c.minute), Two(c.second));
    [century[0], century[1], year[0], year[1], month[0], month[1], day[0], day[1], 'T',
     hour[0], hour[1], minute[0], minute[1], second[0], second[1], 'Z']
  }

  function DigitValue(c: char): Option<nat> {
    if '0' <= c <= '9' then Some(c as int - '0' as int) else None
  }

  /** Two decimal digits at a position of a text. */
  function ReadTwo(s: string, i: nat): Option<nat>
    requires i + 1 < |s|
  {
    match (DigitValue(s[i]), DigitValue(s[i + 1]))
    case (Some(a), Some(b)) => if a < 10 && b < 10 then Some(10 * a + b) else None
    case _ => None
  }

  /** The `date-time` form with UTC of section 3.3.5. */
  function ParseStamp(s: string): Option<Civil> {
    if |s| != 16 || s[8] != 'T' || s[15] != 'Z' then None
    else
      match (ReadTwo(s, 0), ReadTwo(s, 2), ReadTwo(s, 4), ReadTwo(s, 6), ReadTwo(s, 9), ReadTwo(s, 11), ReadTwo(s, 13))
      case (Some(c), Some(y), Some(m), Some(d), Some(h), Some(i), Some(sec)) =>
        Some(Civil(100 * c + y, m, d, h, i, sec))
      case _ => None
  }

  lemma StampRoundTrip(c: Stamp)
    ensures ParseStamp(StampText(c)) == Some(c)
  {
    var s := StampText(c);
  }

  /** The number a run of decimal digits denotes. */
  function NatValue(s: string): int {
    if s == "" then 0 else 10 * NatValue(s[..|s| - 1]) + (s[|s| - 1] as int - '0' as int)
  }

  lemma {:induction false} NatTextReads(n: nat)
    ensures NatValue(NatText(n)) == n
  {
    if n >= 10 {
      NatTextReads(n / 10);
      assert NatText(n)[..|NatText(n)| - 1] == NatText(n / 10);
    } else {
      assert NatText(n)[..0] == "";
    }
  }

  lemma TwoValue(n: nat)
    requires n < 100
    ensures NatValue(Two(n)) == n
  {
    var tens := Two(n)[..1];
    assert |Two(n)| == 2 && Two(n)[1] == Digit(n % 10);
    assert tens[..0] == "" && tens[0] == Digit(n / 10);
    assert NatValue(tens) == n / 10;
  }

  lemma FourValue(a: nat, b: nat)
    requires a < 100 && b < 100
    ensures NatValue(Two(a) + Two(b)) == 100 * a + b
  {
    var s := Two(a) + Two(b);
    assert s[..3] == Two(a) + [Two(b)[0]] && s[..3][..2] == Two(a);
    TwoValue(a);
    TwoValue(b);
    assert Two(b)[..1][..0] == "";
  }

  /** A printed time has the layout of section 3.3.5: year, month and day, a T, hour, minute and second, and
      a Z. */
  lemma StampLayout(c: Stamp)
    ensures var s := StampText(c);
      && |s| == 16 && s[8] == 'T' && s[15] == 'Z'
      && NatValue(s[..4]) == c.year && NatValue(s[4..6]) == c.month && NatValue(s[6..8]) == c.day
      && NatValue(s[9..11]) == c.hour && NatValue(s[11..13]) == c.minute && NatValue(s[13..15]) == c.second
  {
    var s := StampText(c);
    assert s[..4] == Two(c.year / 100) + Two(c.year % 100);
    FourValue(c.year / 100, c.year % 100);
    assert s[4..6] == Two(c.month) && s[6..8] == Two(c.day);
    assert s[9..11] == Two(c.hour) && s[11..13] == Two(c.minute) && s[13..15] == Two(c.second);
    TwoValue(c.month);
    TwoValue(c.day);
    TwoValue(c.hour);
    TwoValue(c.minute);
    TwoValue(c.second);
  }

  lemma TwoDigits(n: nat)
    requires n < 100
    ensures '0' <= Two(n)[0] <= '9' && '0' <= Two(n)[1] <= '9'
  {
  }

  lemma StampNoBreak(c: Stamp)
    ensures '\r' !in StampText(c)
  {
    TwoDigits(c.year / 100);
    TwoDigits(c.year % 100);
    TwoDigits(c.month);
    TwoDigits(c.day);
    TwoDigits(c.hour);
    TwoDigits(c.minute);
    TwoDigits(c.second);
  }

  // ----- sanitizeUID -----

  predicate UidChar(c: char) {
    'a' <= c <= 'z' || '0' <= c <= '9' || c == '-'
  }

  function SanitizeChar(c: char): char {
    if UidChar(c) then c else '-'
  }

  function SanitizeAll(s: string): string {
    if s == "" then "" else SanitizeAll(s[..|s| - 1]) + [SanitizeChar(s[|s| - 1])]
  }

  function StripLeft(s: string, c: char): string {
    if s != "" && s[0] == c then StripLeft(s[1..], c) else s
  }

  function StripRight(s: string, c: char): string {
    if s != "" && s[|s| - 1] == c then StripRight(s[..|s| - 1], c) else s
  }

  function SanitizeUID(value: string): string {
    var trimmed := Trim(Lower(value));
    if trimmed == "" then "event" else StripRight(StripLeft(SanitizeAll(trimmed), '-'), '-')
  }

  method BuildSanitizedUID(value: string) returns (uid: string)
    ensures uid == SanitizeUID(value)
  {
    var trimmed := Trim(Lower(value));
    if trimmed == "" {
      return "event";
    }
    var builder := "";
    for i := 0 to |trimmed|
      invariant builder == SanitizeAll(trimmed[..i])
    {
      assert trimmed[..i + 1][..i] == trimmed[..i];
      var r := trimmed[i];
      if 'a' <= r <= 'z' {
        builder := builder + [r];
      } else if '0' <= r <= '9' {
        builder := builder + [r];
      } else if r == '-' {
        builder := builder + [r];
      } else {
        builder := builder + ['-'];
      }
    }
    assert trimmed[..|trimmed|] == trimmed;
    return StripRight(StripLeft(builder, '-'), '-');
  }

  predicate UidText(s: string) {
    forall i :: 0 <= i < |s| ==> UidChar(s[i])
  }

  lemma {:induction false} SanitizeAllAlphabet(s: string)
    ensures UidText(SanitizeAll(s))
  {
    if s != "" {
      SanitizeAllAlphabet(s[..|s| - 1]);
    }
  }

  lemma {:induction false} StripLeftKeeps(s: string, c: char)
    ensures UidText(s) ==> UidText(StripLeft(s, c))
    ensures StripLeft(s, c) != "" ==> StripLeft(s, c)[0] != c
  {
    if s != "" && s[0] == c {
      StripLeftKeeps(s[1..], c);
    }
  }

  lemma {:induction false} StripRightKeeps(s: string, c: char)
    ensures UidText(s) ==> UidText(StripRight(s, c))
    ensures StripRight(s, c) != "" ==> StripRight(s, c)[|StripRight(s, c)| - 1] != c && s[0] == StripRight(s, c)[0]
  {
    if s != "" && s[|s| - 1] == c {
      StripRightKeeps(s[..|s| - 1], c);
    }
  }

  /** A sanitised heading uses lower-case letters, digits and hyphens, with no hyphen at either end. */
  lemma SanitizedShape(value: string)
    ensures var u := SanitizeUID(value);
      UidText(u) && (u != "" ==> u[0] != '-' && u[|u| - 1] != '-')
  {
    var all := SanitizeAll(Trim(Lower(value)));
    SanitizeAllAlphabet(Trim(Lower(value)));
    StripLeftKeeps(all, '-');
    StripRightKeeps(StripLeft(all, '-'), '-');
  }

  predicate Plain(c: char) {
    'a' <= c <= 'z' || '0' <= c <= '9'
  }

  lemma {:induction false} SanitizeAllAt(s: string)
    ensures |SanitizeAll(s)| == |s|
    ensures forall k :: 0 <= k < |s| ==> SanitizeAll(s)[k] == if Plain(s[k]) || s[k] == '-' then s[k] else '-'
  {
    if s != "" {
      SanitizeAllAt(s[..|s| - 1]);
    }
  }

  lemma {:induction false} StripLeftCuts(s: string, c: char) returns (i: nat)
    ensures i <= |s| && StripLeft(s, c) == s[i..] && forall k :: 0 <= k < i ==> s[k] == c
  {
    if s != "" && s[0] == c {
      var j := StripLeftCuts(s[1..], c);
      i := j + 1;
      assert s[i..] == s[1..][j..];
      assert forall k :: 0 < k < i ==> s[k] == s[1..][k - 1];
    } else {
      i := 0;
    }
  }

  lemma {:induction false} StripRightCuts(s: string, c: char) returns (j: nat)
    ensures j <= |s| && StripRight(s, c) == s[..j] && forall k :: j <= k < |s| ==> s[k] == c
  {
    if s != "" && s[|s| - 1] == c {
      j := StripRightCuts(s[..|s| - 1], c);
      assert s[..j] == s[..|s| - 1][..j];
    } else {
      j := |s|;
      assert s[..j] == s;
    }
  }

  /** The sanitised text is a stretch of the replaced one that leaves out hyphens only. */
  lemma SanitizedStretch(value: string) returns (i: nat, j: nat)
    requires Trim(Lower(value)) != ""
    ensures var all := SanitizeAll(Trim(Lower(value)));
      && i <= j <= |all| && SanitizeUID(value) == all[i..j]
      && forall k :: 0 <= k < i || j <= k < |all| ==> all[k] == '-'
  {
    var all := SanitizeAll(Trim(Lower(value)));
    i := StripLeftCuts(all, '-');
    var l := StripRightCuts(all[i..], '-');
    j := i + l;
    assert all[i..][..l] == all[i..j];
    assert forall k :: j <= k < |all| ==> all[k] == all[i..][k - i];
  }

  /** What sanitising keeps: of the heading in lower case and trimmed, all from the first letter or digit to
      the last, with every other character between them replaced by a hyphen. A blank heading gives a word
      of its own. */
  lemma SanitizedContent(value: string) returns (i: nat, j: nat)
    ensures var t, u := Trim(Lower(value)), SanitizeUID(value);
      if t == "" then u == "event"
      else
        && i <= j <= |t| && |u| == j - i
        && (forall k :: 0 <= k < |u| ==> u[k] == if Plain(t[i + k]) then t[i + k] else '-')
        && (forall k :: 0 <= k < i || j <= k < |t| ==> !Plain(t[k]))
        && (i < j ==> Plain(t[i]) && Plain(t[j - 1]))
  {
    var t, u := Trim(Lower(value)), SanitizeUID(value);
    if t == "" {
      return 0, 0;
    }
    i, j := SanitizedStretch(value);
    SanitizeAllAt(t);
    SanitizedShape(value);
    assert forall k :: 0 <= k < |u| ==> u[k] == SanitizeAll(t)[i + k];
    assert i < j ==> u[0] == SanitizeAll(t)[i] && u[|u| - 1] == SanitizeAll(t)[j - 1];
  }

  // ----- the printer -----

  const CRLF := "\r\n"

  const UID_DOMAIN := "@spond-webcal"

  /** The UID made up for an event without an id. */
  function GeneratedUid(startSeconds: int, heading: string): string {
    IntText(startSeconds) + "-" + SanitizeUID(heading) + UID_DOMAIN
  }

  function Uid(e: EventView): string {
    var uid := Trim(e.eventID);
    if uid == "" then GeneratedUid(Unix(e.startAt), e.heading) else uid
  }

  function DescriptionParts(e: EventView): seq<string> {
    (if Trim(e.groupName) != "" then ["Group: " + e.groupName] else [])
    + (if Trim(e.status) != "" then ["Status: " + e.status] else [])
  }

  function HeaderLines(): seq<string> {
    ["BEGIN:VCALENDAR", "VERSION:2.0", "PRODID:-//spond-webcal//EN", "CALSCALE:GREGORIAN", "METHOD:PUBLISH"]
  }

  function EventLines(e: EventView, dtStamp: string): seq<string> {
    ["BEGIN:VEVENT"] + BaseLines(e, dtStamp) + DescriptionLines(e) + CategoryLines(e) + ["END:VEVENT"]
  }

  function BaseLines(e: EventView, dtStamp: string): seq<string> {
    ["UID:" + IcsEscape(Uid(e)),
     "DTSTAMP:" + dtStamp,
     "DTSTART:" + StampText(e.startAt.utc),
     "DTEND:" + StampText(e.endAt.utc),
     "SUMMARY:" + IcsEscape(e.heading)]
  }

  function DescriptionLines(e: EventView): seq<string> {
    if DescriptionParts(e) != [] then ["DESCRIPTION:" + IcsEscape(Join(DescriptionParts(e), "\n"))] else []
  }

  function CategoryLines(e: EventView): seq<string> {
    if Trim(e.groupName) != "" then ["CATEGORIES:" + IcsEscape(e.groupName)] else []
  }

  function AllEventLines(events: seq<EventView>, dtStamp: string): seq<string> {
    if events == [] then []
    else AllEventLines(events[..|events| - 1], dtStamp) + EventLines(events[|events| - 1], dtStamp)
  }

  function DocumentLines(events: seq<EventView>, generatedAt: Instant): seq<string> {
    HeaderLines() + AllEventLines(events, StampText(generatedAt.utc)) + ["END:VCALENDAR"]
  }

  function Document(events: seq<EventView>, generatedAt: Instant): string {
    Join(DocumentLines(events, generatedAt), CRLF) + CRLF
  }

  lemma LinesSnoc(header: seq<string>, events: seq<EventView>, i: nat, dtStamp: string)
    requires i < |events|
    ensures header + AllEventLines(events[..i + 1], dtStamp) ==
            header + AllEventLines(events[..i], dtStamp) + EventLines(events[i], dtStamp)
  {
    assert events[..i + 1][..i] == events[..i];
  }

  method BuildICSCalendar(events: seq<EventView>, generatedAt: Instant) returns (ics: string)
    ensures ics == Document(events, generatedAt)
  {
    var header := HeaderLines();
    var lines := header;
    var dtStamp := StampText(generatedAt.utc);
    for i := 0 to |events|
      invariant lines == header + AllEventLines(events[..i], dtStamp)
    {
      LinesSnoc(header, events, i, dtStamp);
      var more := BuildEventLines(events[i], dtStamp);
      lines := lines + more;
    }
    assert events[..|events|] == events;
    lines := lines + ["END:VCALENDAR"];
    return Join(lines, CRLF) + CRLF;
  }

  method EventUid(event: EventView) returns (uid: string)
    ensures uid == Uid(event)
  {
    uid := Trim(event.eventID);
    if uid == "" {
      var suffix := BuildSanitizedUID(event.heading);
      uid := IntText(Unix(event.startAt)) + "-" + suffix + UID_DOMAIN;
    }
  }

  method EventDescriptionParts(event: EventView) returns (parts: seq<string>)
    ensures parts == DescriptionParts(event)
  {
    parts := [];
    if Trim(event.groupName) != "" {
      parts := parts + ["Group: " + event.groupName];
    }
    if Trim(event.status) != "" {
      parts := parts + ["Status: " + event.status];
    }
  }

  /** The body of the printer's loop. */
  method BuildEventLines(event: EventView, dtStamp: string) returns (lines: seq<string>)
    ensures lines == EventLines(event, dtStamp)
  {
    var uid := EventUid(event);
    var descriptionParts := EventDescriptionParts(event);
    lines := [
      "BEGIN:VEVENT",
      "UID:" + IcsEscape(uid),
      "DTSTAMP:" + dtStamp,
      "DTSTART:" + StampText(event.startAt.utc),
      "DTEND:" + StampText(event.endAt.utc),
      "SUMMARY:" + IcsEscape(event.heading)];
    assert lines == ["BEGIN:VEVENT"] + BaseLines(event, dtStamp);
    if |descriptionParts| > 0 {
      lines := lines + ["DESCRIPTION:" + IcsEscape(Join(descriptionParts, "\n"))];
    }
    if Trim(event.groupName) != "" {
      lines := lines + ["CATEGORIES:" + IcsEscape(event.groupName)];
    }
    lines := lines + ["END:VEVENT"];
  }

  // ----- the reader -----

  /** Cuts at every CRLF (section 3.1). */
  function CutLines(s: string): (lines: seq<string>)
    ensures |lines| > 0
  {
    if s == "" then [""]
    else if |s| > 1 && s[0] == '\r' && s[1] == '\n' then [""] + CutLines(s[2..])
    else
      var rest := CutLines(s[1..]);
      [[s[0]] + rest[0]] + rest[1..]
  }

  predicate Continuation(line: string) {
    line != "" && (line[0] == ' ' || line[0] == '\t')
  }

  /** Unfolding: a line that starts with white space continues the one before it. */
  function Unfold(lines: seq<string>): seq<string> {
    if lines == [] then []
    else
      var init, line := Unfold(lines[..|lines| - 1]), lines[|lines| - 1];
      if init != [] && Continuation(line) then init[..|init| - 1] + [init[|init| - 1] + line[1..]]
      else init + [line]
  }

  datatype Property = Property(name: string, value: string)

  predicate NameChar(c: char) {
    'A' <= c <= 'Z' || 'a' <= c <= 'z' || '0' <= c <= '9' || c == '-'
  }

  /** A content line without parameters: an IANA token, a colon, a value. */
  function ContentLine(line: string): Option<Property> {
    if line == "" || !NameChar(line[0]) then None
    else if |line| > 1 && line[1] == ':' then Some(Property([line[0]], line[2..]))
    else
      match ContentLine(line[1..])
      case Some(p) => Some(Property([line[0]] + p.name, p.value))
      case None => None
  }

  datatype Component = Component(name: string, props: seq<Property>, subs: seq<Component>)

  /** The components that are open, outermost first; or the one that has been closed; or an error. */
  datatype Reading = Open(stack: seq<Component>) | Closed(root: Component) | Broken

  function AddProperty(c: Component, p: Property): Component {
    c.(props := c.props + [p])
  }

  function AddSub(c: Component, sub: Component): Component {
    c.(subs := c.subs + [sub])
  }

  function Read(r: Reading, p: Property): Reading {
    match r
    case Open(stack) =>
      if p.name == "BEGIN" then Open(stack + [Component(p.value, [], [])])
      else if stack == [] then Broken
      else
        var top, below := stack[|stack| - 1], stack[..|stack| - 1];
        if p.name == "END" then
          if top.name != p.value then Broken
          else if below == [] then Closed(top)
          else Open(below[..|below| - 1] + [AddSub(below[|below| - 1], top)])
        else Open(below + [AddProperty(top, p)])
    case Closed(_) => Broken
    case Broken => Broken
  }

  function ReadLines(r: Reading, lines: seq<string>): Reading
    decreases |lines|
  {
    if lines == [] then r
    else
      match ContentLine(lines[0])
      case Some(p) => ReadLines(Read(r, p), lines[1..])
      case None => Broken
  }

  /** One well-nested component, every line ended by CRLF, and nothing after it. */
  function ParseComponent(doc: string): Option<Component> {
    var cut := CutLines(doc);
    if cut[|cut| - 1] != "" then None
    else
      match ReadLines(Open([]), Unfold(cut[..|cut| - 1]))
      case Closed(root) => Some(root)
      case _ => None
  }

  /** The values of the properties with a given name, in order. */
  function Values(props: seq<Property>, name: string): seq<string> {
    if props == [] then []
    else if props[0].name == name then [props[0].value] + Values(props[1..], name)
    else Values(props[1..], name)
  }

  datatype ParsedEvent = ParsedEvent(
    uid: string,
    stamp: Civil,
    start: Civil,
    end: Civil,
    summary: string,
    description: Option<string>,
    categories: seq<string>)

  function ParseDescription(values: seq<string>): Option<Option<string>> {
    if values == [] then Some(None)
    else
      match ParseText(values[0])
      case Some(d) => if |values| == 1 then Some(Some(d)) else None
      case None => None
  }

  function ParseCategories(values: seq<string>): Option<seq<string>> {
    if values == [] then Some([])
    else
      match (ParseTextList(values[0]), ParseCategories(values[1..]))
      case (Some(head), Some(rest)) => Some(head + rest)
      case _ => None
  }

  /** A VEVENT (section 3.6.1) with the properties the printer uses, each at most as often as allowed. */
  function DecodeEvent(c: Component): Option<ParsedEvent> {
    var uids, stamps := Values(c.props, "UID"), Values(c.props, "DTSTAMP");
    var starts, ends := Values(c.props, "DTSTART"), Values(c.props, "DTEND");
    var summaries := Values(c.props, "SUMMARY");
    if c.name != "VEVENT" || c.subs != [] || |uids| != 1 || |stamps| != 1 || |starts| != 1 || |ends| != 1 ||
      |summaries| != 1 then None
    else
      match (ParseText(uids[0]), ParseStamp(stamps[0]), ParseStamp(starts[0]), ParseStamp(ends[0]),
        ParseText(summaries[0]),
             ParseDescription(Values(c.props, "DESCRIPTION")), ParseCategories(Values(c.props, "CATEGORIES")))
      case (Some(uid), Some(stamp), Some(start), Some(end), Some(summary), Some(description), Some(categories)) =>
        Some(ParsedEvent(uid, stamp, start, end, summary, description, categories))
      case _ => None
  }

  function DecodeEvents(subs: seq<Component>): Option<seq<ParsedEvent>> {
    if subs == [] then Some([])
    else
      match (DecodeEvents(subs[..|subs| - 1]), DecodeEvent(subs[|subs| - 1]))
      case (Some(init), Some(e)) => Some(init + [e])
      case _ => None
  }

  /** A VCALENDAR (section 3.4) with its required VERSION and PRODID, holding events only. */
  function ParseCalendar(doc: string): Option<seq<ParsedEvent>> {
    match ParseComponent(doc)
    case Some(root) =>
      if root.name == "VCALENDAR" && Values(root.props, "VERSION") == ["2.0"] && |Values(root.props, "PRODID")| == 1
      then DecodeEvents(root.subs) else None
    case None => None
  }

  // ----- what the reader should find -----

  function Expected(e: EventView, generatedAt: Instant): ParsedEvent {
    ParsedEvent(
      Readable(Uid(e)), generatedAt.utc, e.startAt.utc, e.endAt.utc, Readable(e.heading),
      if DescriptionParts(e) != [] then Some(Readable(Join(DescriptionParts(e), "\n"))) else None,
      if Trim(e.groupName) != "" then [Readable(e.groupName)] else [])
  }

  function ExpectedAll(events: seq<EventView>, generatedAt: Instant): seq<ParsedEvent> {
    Lists.Map(events, e => Expected(e, generatedAt))
  }

  /** The description a reader finds: the group's name and the status, each on a line of its own and left
      out if blank. */
  lemma DescriptionReads(e: EventView, generatedAt: Instant)
    ensures var d := Expected(e, generatedAt).description;
      if Trim(e.groupName) != "" && Trim(e.status) != ""
      then d == Some(Readable("Group: " + e.groupName + "\n" + "Status: " + e.status))
      else if Trim(e.groupName) != "" then d == Some(Readable("Group: " + e.groupName))
      else if Trim(e.status) != "" then d == Some(Readable("Status: " + e.status))
      else d == None
  {
    var group, status := "Group: " + e.groupName, "Status: " + e.status;
    assert [group, status][1..] == [status];
    assert [group] + [status] == [group, status];
    assert Join([group, status], "\n") == group + "\n" + status;
    assert group + "\n" + status == "Group: " + e.groupName + "\n" + "Status: " + e.status;
    assert [group] + [] == [group] && [] + [status] == [status];
  }
}
