/** The UIDs of an exported calendar, and exactly when no two of its events share one (section 3.8.4.7 of
    RFC 5545 wants them unique). */
module EventUids {
  import opened Text
  import Lists
  import opened EventModel
  import opened IcsText
  import opened IcsDocument
  import EventFetch

  // ----- the generated text -----

  predicate AllDigits(s: string) {
    forall i :: 0 <= i < |s| ==> '0' <= s[i] <= '9'
  }

  lemma {:induction false} NatTextDigits(n: nat)
    ensures NatText(n) != "" && AllDigits(NatText(n))
  {
    if n >= 10 {
      NatTextDigits(n / 10);
    }
  }

  lemma {:induction false} NatTextInjective(m: nat, n: nat)
    requires NatText(m) == NatText(n)
    ensures m == n
  {
    NatTextDigits(m / 10);
    NatTextDigits(n / 10);
    if m >= 10 && n >= 10 {
      var a, b := NatText(m), NatText(n);
      assert a[..|a| - 1] == NatText(m / 10) && b[..|b| - 1] == NatText(n / 10);
      NatTextInjective(m / 10, n / 10);
      assert a[|a| - 1] == Digit(m % 10) && b[|b| - 1] == Digit(n % 10);
    }
  }

  /** A number prints as one non-empty run of digits, after a minus sign if it is negative. */
  lemma IntTextShape(n: int)
    ensures AllDigits(IntText(n)[1..]) && (IntText(n)[0] == '-' || '0' <= IntText(n)[0] <= '9')
  {
    NatTextDigits(if n < 0 then -n else n);
  }

  lemma SignShows(n: int)
    ensures n < 0 <==> IntText(n)[0] == '-'
    ensures n < 0 ==> IntText(n)[1..] == NatText(-n)
  {
    NatTextDigits(if n < 0 then -n else n);
  }

  lemma IntTextInjective(m: int, n: int)
    requires IntText(m) == IntText(n)
    ensures m == n
  {
    SignShows(m);
    SignShows(n);
    if m < 0 {
      NatTextInjective(-m, -n);
    } else {
      NatTextInjective(m, n);
    }
  }

  /** The number ends at the first hyphen after its first character, so a shorter number cannot start the
      text of a longer one. */
  lemma NumberNotShorter(m: int, n: int, x: string, y: string)
    requires IntText(m) + "-" + x == IntText(n) + "-" + y
    ensures |IntText(m)| >= |IntText(n)|
  {
    IntTextShape(n);
    if |IntText(m)| < |IntText(n)| {
      NoHyphenInside(IntText(n), y, |IntText(m)|);
    }
  }

  lemma NoHyphenInside(b: string, y: string, i: nat)
    requires 0 < i < |b| && AllDigits(b[1..])
    ensures (b + "-" + y)[i] != '-'
  {
    assert b[1..][i - 1] == b[i];
  }

  lemma NumberThenText(m: int, n: int, x: string, y: string)
    requires IntText(m) + "-" + x == IntText(n) + "-" + y
    ensures m == n && x == y
  {
    NumberNotShorter(m, n, x, y);
    NumberNotShorter(n, m, y, x);
    var a, b := IntText(m), IntText(n);
    assert (a + "-" + x)[..|a|] == a && (b + "-" + y)[..|b|] == b;
    assert (a + "-" + x)[|a| + 1..] == x && (b + "-" + y)[|b| + 1..] == y;
    IntTextInjective(m, n);
  }

  lemma GeneratedInjective(m: int, n: int, x: string, y: string)
    ensures GeneratedUid(m, x) == GeneratedUid(n, y) <==> m == n && SanitizeUID(x) == SanitizeUID(y)
  {
    if GeneratedUid(m, x) == GeneratedUid(n, y) {
      SuffixedInjective(m, n, SanitizeUID(x), SanitizeUID(y), UID_DOMAIN);
    }
  }

  lemma SuffixedInjective(m: int, n: int, s: string, t: string, suffix: string)
    requires IntText(m) + "-" + s + suffix == IntText(n) + "-" + t + suffix
    ensures m == n && s == t
  {
    assert IntText(m) + "-" + s + suffix == IntText(m) + "-" + (s + suffix);
    assert IntText(n) + "-" + t + suffix == IntText(n) + "-" + (t + suffix);
    NumberThenText(m, n, s + suffix, t + suffix);
    assert (s + suffix)[..|s|] == s && (t + suffix)[..|t|] == t;
  }

  lemma {:induction false} NewlinesFixed(s: string)
    requires '\r' !in s
    ensures NormalizeNewlines(s) == s
  {
    if s != "" {
      NewlinesFixed(s[1..]);
      assert s == [s[0]] + s[1..];
    }
  }

  /** A generated UID is read back as it is. */
  lemma GeneratedReadable(n: int, heading: string)
    ensures Trim(GeneratedUid(n, heading)) == GeneratedUid(n, heading)
    ensures Readable(GeneratedUid(n, heading)) == GeneratedUid(n, heading)
  {
    IntTextShape(n);
    SanitizedShape(heading);
    var u := GeneratedUid(n, heading);
    assert u[0] == IntText(n)[0];
    assert u[|u| - 1] == UID_DOMAIN[|UID_DOMAIN| - 1] == 'l';
    TrimFixes(u);
    NewlinesFixed(u);
  }

  // ----- collisions -----

  predicate Unnamed(v: EventView) {
    Trim(v.eventID) == ""
  }

  function PrintedUid(v: EventView): string {
    Readable(Uid(v))
  }

  /** Two events share a UID: two events without an id that start in the same second under headings that
      sanitise alike; two ids that differ only in white space at the ends and the spelling of line
      breaks; or an id that spells the generated text of an event without one. */
  predicate Clash(a: EventView, b: EventView) {
    if Unnamed(a) && Unnamed(b) then
      Unix(a.startAt) == Unix(b.startAt) && SanitizeUID(a.heading) == SanitizeUID(b.heading)
    else if Unnamed(a) then Readable(b.eventID) == GeneratedUid(Unix(a.startAt), a.heading)
    else if Unnamed(b) then Readable(a.eventID) == GeneratedUid(Unix(b.startAt), b.heading)
    else Readable(a.eventID) == Readable(b.eventID)
  }

  lemma PrintedUidOf(v: EventView)
    ensures PrintedUid(v) == if Unnamed(v) then GeneratedUid(Unix(v.startAt), v.heading) else Readable(v.eventID)
  {
    if Unnamed(v) {
      GeneratedReadable(Unix(v.startAt), v.heading);
    } else {
      TrimIdempotent(v.eventID);
    }
  }

  lemma ClashExact(a: EventView, b: EventView)
    ensures PrintedUid(a) == PrintedUid(b) <==> Clash(a, b)
  {
    PrintedUidOf(a);
    PrintedUidOf(b);
    GeneratedInjective(Unix(a.startAt), Unix(b.startAt), a.heading, b.heading);
  }

  /** The UIDs that a reader of the printed calendar finds are distinct exactly when no two of its events
      clash. */
  lemma PrintedUidsDistinct(views: seq<EventView>, generatedAt: Instant)
    ensures NoDuplicates(Lists.Map(ExpectedAll(views, generatedAt), (p: ParsedEvent) => p.uid)) <==>
            forall i, j :: 0 <= i < j < |views| ==> !Clash(views[i], views[j])
  {
    var uids := Lists.Map(ExpectedAll(views, generatedAt), (p: ParsedEvent) => p.uid);
    forall i | 0 <= i < |views|
      ensures uids[i] == PrintedUid(views[i])
    {
    }
    forall i, j | 0 <= i < j < |views|
      ensures uids[i] == uids[j] <==> Clash(views[i], views[j])
    {
      ClashExact(views[i], views[j]);
    }
  }

  // ----- what deduplication of the fetched events gives -----

  /** An id without white space at its ends and without carriage returns. */
  predicate Tidy(id: string) {
    Trimmed(id) && '\r' !in id
  }

  lemma TidyReads(id: string)
    requires Tidy(id)
    ensures Readable(id) == id
  {
    TrimFixes(id);
    NewlinesFixed(id);
  }

  /** The events are deduplicated by their raw ids: among tidy ids no two of what is left read alike. */
  lemma DedupTidy(events: seq<Event>, i: nat, j: nat)
    requires forall e :: e in events && !EventFetch.BlankID(e) ==> Tidy(e.id)
    requires var kept := EventFetch.DedupEvents(events);
      i < j < |kept| && !EventFetch.BlankID(kept[i]) && !EventFetch.BlankID(kept[j])
    ensures var kept := EventFetch.DedupEvents(events);
      Readable(kept[i].id) != Readable(kept[j].id)
  {
    var kept := EventFetch.DedupEvents(events);
    var at := EventFetch.DedupIsFirstOccurrences(events);
    assert kept[i] == events[at[i]] && kept[j] == events[at[j]];
    TidyReads(kept[i].id);
    TidyReads(kept[j].id);
    assert at[j] in at && EventFetch.Kept(events, at[j]);
  }

  /** Two ids that differ in white space only survive deduplication and are printed as one UID. */
  lemma SpacedIDsClash(x: Event, y: Event)
    requires x.id == "a" && y.id == "a "
    ensures EventFetch.DedupEvents([x, y]) == [x, y]
    ensures Readable(x.id) == Readable(y.id)
  {
    SpacedReadsAlike();
    EventFetch.DedupSnoc([], x);
    EventFetch.DedupSnoc([x], y);
    assert [] + [x] == [x] && [x] + [y] == [x, y];
    assert y.id !in EventFetch.IDs([x]);
  }

  lemma SpacedReadsAlike()
    ensures Trim("a") == "a" && Trim("a ") == "a"
  {
    TrimFixes("a");
    assert "" + "a" + " " == "a ";
    TrimCore("", "a", " ");
  }
}
