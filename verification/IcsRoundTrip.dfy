/** Reading back what the iCalendar printer wrote. */
module IcsRoundTrip {
  import opened Text
  import opened EventModel
  import opened IcsText
  import opened IcsDocument
  import Lists

  // ----- lines -----

  predicate PlainLine(line: string) {
    '\r' !in line && !Continuation(line)
  }

  predicate PlainLines(lines: seq<string>) {
    forall i :: 0 <= i < |lines| ==> PlainLine(lines[i])
  }

  lemma {:induction false} CutAppend(a: string, b: string)
    requires '\r' !in a
    ensures CutLines(a + CRLF + b) == [a] + CutLines(b)
  {
    var s := a + CRLF + b;
    if a == "" {
      assert s[2..] == b;
    } else {
      assert s[1..] == a[1..] + CRLF + b;
      CutAppend(a[1..], b);
      assert CutLines(s[1..])[1..] == CutLines(b);
      assert a == [a[0]] + a[1..];
    }
  }

  lemma {:induction false} CutJoined(lines: seq<string>)
    requires |lines| > 0 && PlainLines(lines)
    ensures CutLines(Join(lines, CRLF) + CRLF) == lines + [""]
  {
    if |lines| == 1 {
      CutAppend(lines[0], "");
      assert Join(lines, CRLF) + CRLF + "" == Join(lines, CRLF) + CRLF;
      assert lines == [lines[0]];
    } else {
      var rest := Join(lines[1..], CRLF) + CRLF;
      CutJoined(lines[1..]);
      CutAppend(lines[0], rest);
      assert Join(lines, CRLF) + CRLF == lines[0] + CRLF + rest;
      assert lines == [lines[0]] + lines[1..];
    }
  }

  lemma {:induction false} UnfoldFixes(lines: seq<string>)
    requires PlainLines(lines)
    ensures Unfold(lines) == lines
  {
    if lines != [] {
      UnfoldFixes(lines[..|lines| - 1]);
      assert lines == lines[..|lines| - 1] + [lines[|lines| - 1]];
    }
  }

  // ----- properties -----

  predicate ValidName(name: string) {
    name != "" && forall i :: 0 <= i < |name| ==> NameChar(name[i])
  }

  function Render(p: Property): string {
    p.name + ":" + p.value
  }

  function RenderAll(props: seq<Property>): seq<string> {
    if props == [] then [] else [Render(props[0])] + RenderAll(props[1..])
  }

  lemma {:induction false} ContentLineReads(p: Property)
    requires ValidName(p.name)
    ensures ContentLine(Render(p)) == Some(p)
    decreases |p.name|
  {
    var line := Render(p);
    if |p.name| == 1 {
      assert line[2..] == p.value && p.name == [line[0]];
    } else {
      var q := Property(p.name[1..], p.value);
      assert line[1..] == Render(q);
      assert line[1] == p.name[1];
      ContentLineReads(q);
      assert [p.name[0]] + p.name[1..] == p.name;
    }
  }

  lemma ReadOne(r: Reading, p: Property, rest: seq<string>)
    requires ValidName(p.name)
    ensures ReadLines(r, [Render(p)] + rest) == ReadLines(Read(r, p), rest)
  {
    ContentLineReads(p);
    assert ([Render(p)] + rest)[1..] == rest;
  }

  /** Neither opens nor closes a component, and has a readable name. */
  predicate OrdinaryName(name: string) {
    ValidName(name) && name != "BEGIN" && name != "END"
  }

  predicate AllOrdinary(props: seq<Property>) {
    forall i :: 0 <= i < |props| ==> OrdinaryName(props[i].name)
  }

  lemma ReadPlain(below: seq<Component>, top: Component, p: Property)
    requires OrdinaryName(p.name)
    ensures Read(Open(below + [top]), p) == Open(below + [AddProperty(top, p)])
  {
    var stack := below + [top];
    assert stack[..|stack| - 1] == below;
  }

  lemma ReadProp(below: seq<Component>, top: Component, p: Property, rest: seq<string>)
    requires OrdinaryName(p.name)
    ensures ReadLines(Open(below + [top]), [Render(p)] + rest) == ReadLines(Open(below + [AddProperty(top, p)]), rest)
  {
    ReadOne(Open(below + [top]), p, rest);
    ReadPlain(below, top, p);
  }

  lemma {:induction false} ReadProps(below: seq<Component>, top: Component, props: seq<Property>, rest: seq<string>)
    requires AllOrdinary(props)
    ensures ReadLines(Open(below + [top]), RenderAll(props) + rest) ==
            ReadLines(Open(below + [top.(props := top.props + props)]), rest)
    decreases |props|
  {
    if props == [] {
      assert RenderAll(props) + rest == rest;
      assert top.props + props == top.props;
    } else {
      var p, tail := props[0], props[1..];
      RenderFirst(props, rest);
      ReadProp(below, top, p, RenderAll(tail) + rest);
      ReadProps(below, AddProperty(top, p), tail, rest);
      PropertiesGather(top, props);
    }
  }

  lemma RenderFirst(props: seq<Property>, rest: seq<string>)
    requires props != []
    ensures RenderAll(props) + rest == [Render(props[0])] + (RenderAll(props[1..]) + rest)
  {
  }

  lemma PropertiesGather(top: Component, props: seq<Property>)
    requires props != []
    ensures var next := AddProperty(top, props[0]);
      next.(props := next.props + props[1..]) == top.(props := top.props + props)
  {
    assert top.props + [props[0]] + props[1..] == top.props + props;
  }

  // ----- components -----

  /** A component without parts, line by line. */
  function Block(name: string, props: seq<Property>): seq<string> {
    [Render(Property("BEGIN", name))] + RenderAll(props) + [Render(Property("END", name))]
  }

  lemma ReadEnd(root: Component, c: Component)
    ensures Read(Open([root, c]), Property("END", c.name)) == Open([AddSub(root, c)])
  {
    var stack := [root, c];
    assert stack[..1] == [root] && [root][..0] == [];
    assert [] + [AddSub(root, c)] == [AddSub(root, c)];
  }

  lemma ReadBlock(root: Component, name: string, props: seq<Property>, rest: seq<string>)
    requires AllOrdinary(props)
    ensures ReadLines(Open([root]), Block(name, props) + rest) ==
            ReadLines(Open([AddSub(root, Component(name, props, []))]), rest)
  {
    var begin, end := Property("BEGIN", name), Property("END", name);
    var blank, c := Component(name, [], []), Component(name, props, []);
    var body := RenderAll(props);
    assert Block(name, props) + rest == [Render(begin)] + (body + ([Render(end)] + rest));
    ReadOne(Open([root]), begin, body + ([Render(end)] + rest));
    assert [root] + [blank] == [root, blank];
    ReadBody(root, name, props, [Render(end)] + rest);
    ReadOne(Open([root, c]), end, rest);
    ReadEnd(root, c);
  }

  lemma ReadBody(root: Component, name: string, props: seq<Property>, rest: seq<string>)
    requires AllOrdinary(props)
    ensures ReadLines(Open([root, Component(name, [], [])]), RenderAll(props) + rest) ==
            ReadLines(Open([root, Component(name, props, [])]), rest)
  {
    var blank, c := Component(name, [], []), Component(name, props, []);
    ReadProps([root], blank, props, rest);
    assert [root] + [blank] == [root, blank] && [root] + [c] == [root, c];
    assert [] + props == props;
  }

  function Blocks(name: string, all: seq<seq<Property>>): seq<string> {
    if all == [] then [] else Blocks(name, all[..|all| - 1]) + Block(name, all[|all| - 1])
  }

  function Components(name: string, all: seq<seq<Property>>): seq<Component> {
    Lists.Map(all, props => Component(name, props, []))
  }

  function WithSubs(root: Component, subs: seq<Component>): Component {
    root.(subs := root.subs + subs)
  }

  lemma ComponentsSnoc(root: Component, name: string, all: seq<seq<Property>>)
    requires all != []
    ensures var init, last := all[..|all| - 1], Component(name, all[|all| - 1], []);
      WithSubs(root, Components(name, all)) == AddSub(WithSubs(root, Components(name, init)), last)
  {
    var init, last := all[..|all| - 1], Component(name, all[|all| - 1], []);
    assert Components(name, all) == Components(name, init) + [last];
    assert root.subs + (Components(name, init) + [last]) == root.subs + Components(name, init) + [last];
  }

  lemma {:induction false} ReadBlocks(root: Component, name: string, all: seq<seq<Property>>, rest: seq<string>)
    requires forall i :: 0 <= i < |all| ==> AllOrdinary(all[i])
    ensures ReadLines(Open([root]), Blocks(name, all) + rest) ==
            ReadLines(Open([WithSubs(root, Components(name, all))]), rest)
    decreases |all|
  {
    if all == [] {
      assert Blocks(name, all) + rest == rest;
      assert root.subs + Components(name, all) == root.subs;
    } else {
      var init, props := all[..|all| - 1], all[|all| - 1];
      var more := Block(name, props) + rest;
      assert Blocks(name, all) + rest == Blocks(name, init) + more;
      ReadBlocks(root, name, init, more);
      ReadBlock(WithSubs(root, Components(name, init)), name, props, rest);
      ComponentsSnoc(root, name, all);
    }
  }

  // ----- the printed event as a component -----

  function BaseProps(e: EventView, dtStamp: string): seq<Property> {
    [Property("UID", IcsEscape(Uid(e))),
     Property("DTSTAMP", dtStamp),
     Property("DTSTART", StampText(e.startAt.utc)),
     Property("DTEND", StampText(e.endAt.utc)),
     Property("SUMMARY", IcsEscape(e.heading))]
  }

  function DescriptionProps(e: EventView): seq<Property> {
    if DescriptionParts(e) != [] then [Property("DESCRIPTION", IcsEscape(Join(DescriptionParts(e), "\n")))] else []
  }

  function CategoryProps(e: EventView): seq<Property> {
    if Trim(e.groupName) != "" then [Property("CATEGORIES", IcsEscape(e.groupName))] else []
  }

  function EventProps(e: EventView, dtStamp: string): seq<Property> {
    BaseProps(e, dtStamp) + DescriptionProps(e) + CategoryProps(e)
  }

  lemma {:induction false} RenderAppend(a: seq<Property>, b: seq<Property>)
    ensures RenderAll(a + b) == RenderAll(a) + RenderAll(b)
  {
    if a == [] {
      assert a + b == b;
    } else {
      assert (a + b)[1..] == a[1..] + b;
      RenderAppend(a[1..], b);
    }
  }

  lemma {:induction false} RenderAllAt(props: seq<Property>)
    ensures |RenderAll(props)| == |props|
    ensures forall i :: 0 <= i < |props| ==> RenderAll(props)[i] == Render(props[i])
  {
    if props != [] {
      RenderAllAt(props[1..]);
    }
  }

  lemma RenderedBase(e: EventView, dtStamp: string)
    ensures RenderAll(BaseProps(e, dtStamp)) == BaseLines(e, dtStamp)
  {
    RenderAllAt(BaseProps(e, dtStamp));
    assert "UID" + ":" == "UID:" && "DTSTAMP" + ":" == "DTSTAMP:" && "DTSTART" + ":" == "DTSTART:";
    assert "DTEND" + ":" == "DTEND:" && "SUMMARY" + ":" == "SUMMARY:";
  }

  lemma RenderedOptions(e: EventView)
    ensures RenderAll(DescriptionProps(e)) == DescriptionLines(e)
    ensures RenderAll(CategoryProps(e)) == CategoryLines(e)
  {
    assert "DESCRIPTION" + ":" == "DESCRIPTION:" && "CATEGORIES" + ":" == "CATEGORIES:";
  }

  /** Three groups of properties between their delimiters. */
  lemma BlockOfThree(name: string, a: seq<Property>, b: seq<Property>, c: seq<Property>)
    ensures Block(name, a + b + c) ==
            [Render(Property("BEGIN", name))] + RenderAll(a) + RenderAll(b) + RenderAll(c)
              + [Render(Property("END", name))]
  {
    RenderAppend(a + b, c);
    RenderAppend(a, b);
  }

  lemma Delimiters()
    ensures Render(Property("BEGIN", "VEVENT")) == "BEGIN:VEVENT" && Render(Property("END", "VEVENT")) == "END:VEVENT"
  {
  }

  lemma EventLinesRendered(e: EventView, dtStamp: string)
    ensures EventLines(e, dtStamp) == Block("VEVENT", EventProps(e, dtStamp))
  {
    RenderedBase(e, dtStamp);
    RenderedOptions(e);
    Delimiters();
    BlockOfThree("VEVENT", BaseProps(e, dtStamp), DescriptionProps(e), CategoryProps(e));
  }

  lemma KnownNames()
    ensures forall name | name in ["UID", "DTSTAMP", "DTSTART", "DTEND", "SUMMARY", "DESCRIPTION",
            "CATEGORIES"] :: OrdinaryName(name)
    ensures forall name | name in ["VERSION", "PRODID", "CALSCALE", "METHOD"] :: OrdinaryName(name)
  {
  }

  lemma EventPropsOrdinary(e: EventView, dtStamp: string)
    ensures AllOrdinary(EventProps(e, dtStamp))
  {
    KnownNames();
    OrdinaryFive(BaseProps(e, dtStamp));
    OrdinaryAppend(BaseProps(e, dtStamp), DescriptionProps(e));
    OrdinaryAppend(BaseProps(e, dtStamp) + DescriptionProps(e), CategoryProps(e));
  }

  lemma OrdinaryFive(p: seq<Property>)
    requires |p| == 5 && OrdinaryName(p[0].name) && OrdinaryName(p[1].name) && OrdinaryName(p[2].name)
    requires OrdinaryName(p[3].name) && OrdinaryName(p[4].name)
    ensures AllOrdinary(p)
  {
  }

  lemma OrdinaryAppend(a: seq<Property>, b: seq<Property>)
    requires AllOrdinary(a) && AllOrdinary(b)
    ensures AllOrdinary(a + b)
  {
  }

  function PropsOf(events: seq<EventView>, dtStamp: string): seq<seq<Property>> {
    Lists.Map(events, e => EventProps(e, dtStamp))
  }

  lemma {:induction false} AllEventLinesRendered(events: seq<EventView>, dtStamp: string)
    ensures AllEventLines(events, dtStamp) == Blocks("VEVENT", PropsOf(events, dtStamp))
    decreases |events|
  {
    if events != [] {
      AllEventLinesRendered(events[..|events| - 1], dtStamp);
      EventLinesRendered(events[|events| - 1], dtStamp);
      PropsOfInit(events, dtStamp);
    }
  }

  lemma PropsOfInit(events: seq<EventView>, dtStamp: string)
    requires events != []
    ensures var n, all := |events| - 1, PropsOf(events, dtStamp);
      |all| == n + 1 && all[..n] == PropsOf(events[..n], dtStamp) && all[n] == EventProps(events[n], dtStamp)
  {
    Lists.MapInit(events, e => EventProps(e, dtStamp));
  }

  // ----- decoding one event -----

  lemma {:induction false} ValuesAppend(a: seq<Property>, b: seq<Property>, name: string)
    ensures Values(a + b, name) == Values(a, name) + Values(b, name)
  {
    if a == [] {
      assert a + b == b;
    } else {
      assert (a + b)[1..] == a[1..] + b;
      ValuesAppend(a[1..], b, name);
    }
  }

  lemma ValuesOne(p: Property, name: string)
    ensures Values([p], name) == if p.name == name then [p.value] else []
  {
    assert [p][1..] == [];
  }

  lemma BaseValues(e: EventView, dtStamp: string, name: string)
    ensures Values(BaseProps(e, dtStamp), name) ==
            (match name
             case "UID" => [IcsEscape(Uid(e))]
             case "DTSTAMP" => [dtStamp]
             case "DTSTART" => [StampText(e.startAt.utc)]
             case "DTEND" => [StampText(e.endAt.utc)]
             case "SUMMARY" => [IcsEscape(e.heading)]
             case _ => [])
  {
    FiveValues(BaseProps(e, dtStamp), name);
  }

  lemma FiveValues(b: seq<Property>, name: string)
    requires |b| == 5
    ensures Values(b, name) ==
            (if b[0].name == name then [b[0].value] else []) + (if b[1].name == name then [b[1].value] else [])
            + (if b[2].name == name then [b[2].value] else []) + (if b[3].name == name then [b[3].value] else [])
            + (if b[4].name == name then [b[4].value] else [])
  {
    assert b == [b[0]] + [b[1]] + [b[2]] + [b[3]] + [b[4]];
    ValuesAppend([b[0]] + [b[1]] + [b[2]] + [b[3]], [b[4]], name);
    ValuesAppend([b[0]] + [b[1]] + [b[2]], [b[3]], name);
    ValuesAppend([b[0]] + [b[1]], [b[2]], name);
    ValuesAppend([b[0]], [b[1]], name);
    ValuesOne(b[0], name);
    ValuesOne(b[1], name);
    ValuesOne(b[2], name);
    ValuesOne(b[3], name);
    ValuesOne(b[4], name);
  }

  lemma EventValues(e: EventView, dtStamp: string, name: string)
    ensures Values(EventProps(e, dtStamp), name) ==
            (match name
             case "UID" => [IcsEscape(Uid(e))]
             case "DTSTAMP" => [dtStamp]
             case "DTSTART" => [StampText(e.startAt.utc)]
             case "DTEND" => [StampText(e.endAt.utc)]
             case "SUMMARY" => [IcsEscape(e.heading)]
             case "DESCRIPTION" =>
               if DescriptionParts(e) != [] then [IcsEscape(Join(DescriptionParts(e), "\n"))] else []
             case "CATEGORIES" => if Trim(e.groupName) != "" then [IcsEscape(e.groupName)] else []
             case _ => [])
  {
    var b, desc, cat := BaseProps(e, dtStamp), DescriptionProps(e), CategoryProps(e);
    ValuesAppend(b + desc, cat, name);
    ValuesAppend(b, desc, name);
    BaseValues(e, dtStamp, name);
    if desc != [] {
      ValuesOne(desc[0], name);
    }
    if cat != [] {
      ValuesOne(cat[0], name);
    }
  }

  lemma EventRequired(e: EventView, dtStamp: string)
    ensures var props := EventProps(e, dtStamp);
      && Values(props, "UID") == [IcsEscape(Uid(e))] && Values(props, "SUMMARY") == [IcsEscape(e.heading)]
      && Values(props, "DTSTAMP") == [dtStamp]
      && Values(props, "DTSTART") == [StampText(e.startAt.utc)] && Values(props, "DTEND") == [StampText(e.endAt.utc)]
  {
    EventValues(e, dtStamp, "UID");
    EventValues(e, dtStamp, "DTSTAMP");
    EventValues(e, dtStamp, "DTSTART");
    EventValues(e, dtStamp, "DTEND");
    EventValues(e, dtStamp, "SUMMARY");
  }

  lemma EventOptional(e: EventView, dtStamp: string)
    ensures var props := EventProps(e, dtStamp);
      && Values(props, "DESCRIPTION") ==
         (if DescriptionParts(e) != [] then [IcsEscape(Join(DescriptionParts(e), "\n"))] else [])
      && Values(props, "CATEGORIES") == (if Trim(e.groupName) != "" then [IcsEscape(e.groupName)] else [])
  {
    EventValues(e, dtStamp, "DESCRIPTION");
    EventValues(e, dtStamp, "CATEGORIES");
  }

  lemma EventDecodes(e: EventView, generatedAt: Instant)
    ensures DecodeEvent(Component("VEVENT", EventProps(e, StampText(generatedAt.utc)), [])) ==
            Some(Expected(e, generatedAt))
  {
    EventRequired(e, StampText(generatedAt.utc));
    EventOptional(e, StampText(generatedAt.utc));
    RequiredReads(e, generatedAt);
    OptionalReads(e, generatedAt);
  }

  lemma RequiredReads(e: EventView, generatedAt: Instant)
    ensures var p := Expected(e, generatedAt);
      && ParseText(IcsEscape(Uid(e))) == Some(p.uid) && ParseText(IcsEscape(e.heading)) == Some(p.summary)
      && ParseStamp(StampText(generatedAt.utc)) == Some(p.stamp)
      && ParseStamp(StampText(e.startAt.utc)) == Some(p.start) && ParseStamp(StampText(e.endAt.utc)) == Some(p.end)
  {
    EscapeRoundTrip(Uid(e));
    EscapeRoundTrip(e.heading);
    StampRoundTrip(generatedAt.utc);
    StampRoundTrip(e.startAt.utc);
    StampRoundTrip(e.endAt.utc);
  }

  lemma OptionalReads(e: EventView, generatedAt: Instant)
    ensures var p, props := Expected(e, generatedAt), EventProps(e, StampText(generatedAt.utc));
      && ParseDescription(Values(props, "DESCRIPTION")) == Some(p.description)
      && ParseCategories(Values(props, "CATEGORIES")) == Some(p.categories)
  {
    EventOptional(e, StampText(generatedAt.utc));
    EscapeRoundTrip(Join(DescriptionParts(e), "\n"));
    EscapeRoundTrip(e.groupName);
    CategoriesOne(IcsEscape(e.groupName), Readable(e.groupName));
  }

  lemma CategoriesOne(text: string, value: string)
    requires ParseTextList(text) == Some([value])
    ensures ParseCategories([text]) == Some([value])
  {
    assert [text][1..] == [];
    assert ParseCategories([]) == Some([]);
    assert [value] + [] == [value];
  }

  lemma {:induction false} EventsDecode(events: seq<EventView>, generatedAt: Instant)
    ensures DecodeEvents(Components("VEVENT", PropsOf(events, StampText(generatedAt.utc)))) ==
            Some(ExpectedAll(events, generatedAt))
    decreases |events|
  {
    if events == [] {
      assert ExpectedAll(events, generatedAt) == [];
    } else {
      var n := |events| - 1;
      EventsDecode(events[..n], generatedAt);
      EventDecodes(events[n], generatedAt);
      PropsOfInit(events, StampText(generatedAt.utc));
      ComponentsInit("VEVENT", PropsOf(events, StampText(generatedAt.utc)));
      Lists.MapInit(events, e => Expected(e, generatedAt));
    }
  }

  lemma ComponentsInit(name: string, all: seq<seq<Property>>)
    requires all != []
    ensures Components(name, all) == Components(name, all[..|all| - 1]) + [Component(name, all[|all| - 1], [])]
  {
    Lists.MapInit(all, props => Component(name, props, []));
  }

  // ----- the whole document -----

  function HeaderProps(): seq<Property> {
    [Property("VERSION", "2.0"), Property("PRODID", "-//spond-webcal//EN"), Property("CALSCALE", "GREGORIAN"),
      Property("METHOD", "PUBLISH")]
  }

  lemma RenderedHeader()
    ensures RenderAll(HeaderProps()) == HeaderLines()[1..] && Render(Property("BEGIN", "VCALENDAR")) == HeaderLines()[0]
    ensures AllOrdinary(HeaderProps()) && NoBreak(HeaderProps())
  {
    HeaderText();
    MoreHeaderText();
    RenderAllAt(HeaderProps());
    HeaderOrdinary();
  }

  lemma HeaderText()
    ensures Render(Property("BEGIN", "VCALENDAR")) == "BEGIN:VCALENDAR"
    ensures Render(Property("VERSION", "2.0")) == "VERSION:2.0"
    ensures Render(Property("PRODID", "-//spond-webcal//EN")) == "PRODID:-//spond-webcal//EN"
  {
  }

  lemma MoreHeaderText()
    ensures Render(Property("CALSCALE", "GREGORIAN")) == "CALSCALE:GREGORIAN"
    ensures Render(Property("METHOD", "PUBLISH")) == "METHOD:PUBLISH"
  {
  }

  lemma HeaderOrdinary()
    ensures AllOrdinary(HeaderProps()) && NoBreak(HeaderProps())
  {
    KnownNames();
    var h := HeaderProps();
    OrdinaryOne(h[0]);
    OrdinaryOne(h[1]);
    OrdinaryOne(h[2]);
    OrdinaryOne(h[3]);
    OrdinaryAppend([h[0]], [h[1]]);
    OrdinaryAppend([h[2]], [h[3]]);
    OrdinaryAppend([h[0]] + [h[1]], [h[2]] + [h[3]]);
    assert h == [h[0]] + [h[1]] + ([h[2]] + [h[3]]);
  }

  lemma OrdinaryOne(p: Property)
    requires OrdinaryName(p.name) && '\r' !in p.value
    ensures AllOrdinary([p]) && NoBreak([p])
  {
  }

  lemma ReadWhole(name: string, props: seq<Property>, subName: string, all: seq<seq<Property>>)
    requires AllOrdinary(props) && forall i :: 0 <= i < |all| ==> AllOrdinary(all[i])
    ensures ReadLines(Open([]), [Render(Property("BEGIN", name))] + RenderAll(props) + Blocks(subName, all)
                                + [Render(Property("END", name))]) ==
            Closed(Component(name, props, Components(subName, all)))
  {
    var blank, root := Component(name, [], []), Component(name, props, []);
    var begin, end := Property("BEGIN", name), Property("END", name);
    var tail := Blocks(subName, all) + [Render(end)];
    assert [Render(begin)] + RenderAll(props) + Blocks(subName, all) + [Render(end)] ==
      [Render(begin)] + (RenderAll(props) + tail);
    ReadOne(Open([]), begin, RenderAll(props) + tail);
    assert [] + [blank] == [blank];
    ReadProps([], blank, props, tail);
    assert [] + props == props && [] + [root] == [root];
    ReadBlocks(root, subName, all, [Render(end)]);
    assert [] + Components(subName, all) == Components(subName, all);
    ReadLastEnd(Component(name, props, Components(subName, all)));
  }

  lemma ReadLastEnd(full: Component)
    ensures ReadLines(Open([full]), [Render(Property("END", full.name))]) == Closed(full)
  {
    var end := Property("END", full.name);
    assert [Render(end)] == [Render(end)] + [];
    ReadOne(Open([full]), end, []);
    assert [full][..0] == [];
  }

  predicate NoBreak(props: seq<Property>) {
    forall i :: 0 <= i < |props| ==> '\r' !in props[i].value
  }

  lemma {:induction false} PlainRenderAll(props: seq<Property>)
    requires AllOrdinary(props) && NoBreak(props)
    ensures PlainLines(RenderAll(props))
  {
    if props != [] {
      PlainRenderAll(props[1..]);
    }
  }

  lemma PlainBlock(name: string, props: seq<Property>)
    requires AllOrdinary(props) && NoBreak(props) && '\r' !in name
    ensures PlainLines(Block(name, props))
  {
    PlainRenderAll(props);
  }

  lemma {:induction false} PlainBlocks(name: string, all: seq<seq<Property>>)
    requires forall i :: 0 <= i < |all| ==> AllOrdinary(all[i]) && NoBreak(all[i])
    requires '\r' !in name
    ensures PlainLines(Blocks(name, all))
  {
    if all != [] {
      PlainBlocks(name, all[..|all| - 1]);
      PlainBlock(name, all[|all| - 1]);
    }
  }

  lemma FiveNoBreak(uid: string, stamp: string, start: string, end: string, summary: string)
    requires '\r' !in uid && '\r' !in stamp && '\r' !in start && '\r' !in end && '\r' !in summary
    ensures NoBreak([Property("UID", uid), Property("DTSTAMP", stamp), Property("DTSTART", start),
                     Property("DTEND", end), Property("SUMMARY", summary)])
  {
  }

  lemma BasePropsNoBreak(e: EventView, stamp: Stamp)
    ensures NoBreak(BaseProps(e, StampText(stamp)))
  {
    EscapeRoundTrip(Uid(e));
    EscapeRoundTrip(e.heading);
    StampNoBreak(stamp);
    StampNoBreak(e.startAt.utc);
    StampNoBreak(e.endAt.utc);
    FiveNoBreak(IcsEscape(Uid(e)), StampText(stamp), StampText(e.startAt.utc), StampText(e.endAt.utc),
      IcsEscape(e.heading));
  }

  lemma EventPropsNoBreak(e: EventView, stamp: Stamp)
    ensures NoBreak(EventProps(e, StampText(stamp)))
  {
    BasePropsNoBreak(e, stamp);
    EscapeRoundTrip(Join(DescriptionParts(e), "\n"));
    EscapeRoundTrip(e.groupName);
    assert NoBreak(DescriptionProps(e)) && NoBreak(CategoryProps(e));
  }

  lemma DocumentRendered(events: seq<EventView>, generatedAt: Instant)
    ensures var all := PropsOf(events, StampText(generatedAt.utc));
      DocumentLines(events, generatedAt) ==
      [Render(Property("BEGIN", "VCALENDAR"))] + RenderAll(HeaderProps()) + Blocks("VEVENT", all)
        + [Render(Property("END", "VCALENDAR"))]
  {
    RenderedHeader();
    EndText();
    AllEventLinesRendered(events, StampText(generatedAt.utc));
  }

  lemma EndText()
    ensures Render(Property("END", "VCALENDAR")) == "END:VCALENDAR"
  {
  }

  lemma PropsOfReadable(events: seq<EventView>, stamp: Stamp)
    ensures var all := PropsOf(events, StampText(stamp));
      forall i :: 0 <= i < |all| ==> AllOrdinary(all[i]) && NoBreak(all[i])
  {
    forall i | 0 <= i < |events|
      ensures AllOrdinary(PropsOf(events, StampText(stamp))[i]) && NoBreak(PropsOf(events, StampText(stamp))[i])
    {
      EventPropsOrdinary(events[i], StampText(stamp));
      EventPropsNoBreak(events[i], stamp);
    }
  }

  lemma DocumentReads(props: seq<Property>, all: seq<seq<Property>>, lines: seq<string>)
    requires AllOrdinary(props) && NoBreak(props)
    requires forall i :: 0 <= i < |all| ==> AllOrdinary(all[i]) && NoBreak(all[i])
    requires lines == [Render(Property("BEGIN", "VCALENDAR"))] + RenderAll(props) + Blocks("VEVENT", all)
             + [Render(Property("END", "VCALENDAR"))]
    ensures ParseComponent(Join(lines, CRLF) + CRLF) == Some(Component("VCALENDAR", props, Components("VEVENT", all)))
  {
    PlainRenderAll(props);
    PlainBlocks("VEVENT", all);
    LinesParse(lines);
    ReadWhole("VCALENDAR", props, "VEVENT", all);
  }

  lemma LinesParse(lines: seq<string>)
    requires lines != [] && PlainLines(lines)
    ensures ParseComponent(Join(lines, CRLF) + CRLF) ==
            (match ReadLines(Open([]), lines) case Closed(root) => Some(root) case _ => None)
  {
    CutJoined(lines);
    assert (lines + [""])[..|lines|] == lines;
    UnfoldFixes(lines);
  }

  lemma HeaderValue(name: string)
    ensures var h := HeaderProps();
      Values(h, name) ==
        (if h[0].name == name then [h[0].value] else []) + (if h[1].name == name then [h[1].value] else [])
        + (if h[2].name == name then [h[2].value] else []) + (if h[3].name == name then [h[3].value] else [])
  {
    var h := HeaderProps();
    assert h == [h[0]] + [h[1]] + [h[2]] + [h[3]];
    ValuesAppend([h[0]] + [h[1]] + [h[2]], [h[3]], name);
    ValuesAppend([h[0]] + [h[1]], [h[2]], name);
    ValuesAppend([h[0]], [h[1]], name);
    ValuesOne(h[0], name);
    ValuesOne(h[1], name);
    ValuesOne(h[2], name);
    ValuesOne(h[3], name);
  }

  lemma HeaderValues()
    ensures Values(HeaderProps(), "VERSION") == ["2.0"] && |Values(HeaderProps(), "PRODID")| == 1
  {
    HeaderValue("VERSION");
    HeaderValue("PRODID");
  }

  /** For every list of events the printed document is one well-nested calendar whose events, read
      back, are the input events in order: identifier, times, summary, description and category, with
      texts trimmed and line breaks normalised. No field content can break out of its line. */
  lemma DocumentRoundTrip(events: seq<EventView>, generatedAt: Instant)
    ensures ParseCalendar(Document(events, generatedAt)) == Some(ExpectedAll(events, generatedAt))
  {
    var all := PropsOf(events, StampText(generatedAt.utc));
    RenderedHeader();
    DocumentRendered(events, generatedAt);
    PropsOfReadable(events, generatedAt.utc);
    DocumentReads(HeaderProps(), all, DocumentLines(events, generatedAt));
    HeaderValues();
    EventsDecode(events, generatedAt);
  }

  /** The printed document is a VCALENDAR with exactly these four properties and one component for each
      event. */
  lemma DocumentHeader(events: seq<EventView>, generatedAt: Instant)
    ensures var root := ParseComponent(Document(events, generatedAt));
      && root.Some? && root.value.name == "VCALENDAR" && |root.value.subs| == |events|
      && root.value.props ==
         [Property("VERSION", "2.0"), Property("PRODID", "-//spond-webcal//EN"), Property("CALSCALE", "GREGORIAN"),
          Property("METHOD", "PUBLISH")]
  {
    RenderedHeader();
    DocumentRendered(events, generatedAt);
    PropsOfReadable(events, generatedAt.utc);
    DocumentReads(HeaderProps(), PropsOf(events, StampText(generatedAt.utc)), DocumentLines(events, generatedAt));
  }
}
