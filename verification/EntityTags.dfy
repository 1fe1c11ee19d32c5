/** Entity tags and the If-Match decision. The content hash is a parameter of every member. */
module EntityTags {
  import opened Text

  type Bytes = seq<bv8>

  /** A content hash, already printed in lower-case hexadecimal. */
  type Digest = Bytes -> string

  predicate HexChar(c: char) {
    '0' <= c <= '9' || 'a' <= c <= 'f'
  }

  ghost predicate PrintsHex(digest: Digest) {
    forall content :: forall i :: 0 <= i < |digest(content)| ==> HexChar(digest(content)[i])
  }

  function ResourceETag(content: Bytes, digest: Digest): string {
    "\"" + digest(content) + "\""
  }

  /** Some comma-separated piece of the field, trimmed, is the tag. */
  predicate Accepts(field: string, tag: string) {
    exists i :: 0 <= i < |Split(field, ',')| && Trim(Split(field, ',')[i]) == tag
  }

  predicate IfMatchSatisfied(ifMatch: string, found: bool, content: Bytes, digest: Digest) {
    if ifMatch == "*" then found else found && Accepts(ifMatch, ResourceETag(content, digest))
  }

  // ----- the If-Match field of section 13.1.1 of RFC 9110 -----

  /** One element of the list, with the optional white space around it. A list may hold empty
      elements (section 5.6.1.2). */
  datatype Element =
    | Blank(space: string)
    | Tag(before: string, weak: bool, opaqueTag: string, after: string)

  predicate OptionalSpace(s: string) {
    forall i :: 0 <= i < |s| ==> s[i] == ' ' || s[i] == '\t'
  }

  /** `etagc`: visible, not a double quote; commas are allowed. */
  predicate TagChar(c: char) {
    c == '!' || '#' <= c <= '~' || '\U{80}' <= c <= '\U{FF}'
  }

  predicate WellFormed(e: Element) {
    match e
    case Blank(space) => OptionalSpace(space)
    case Tag(before, _, opaqueTag, after) =>
      OptionalSpace(before) && OptionalSpace(after) && forall i :: 0 <= i < |opaqueTag| ==> TagChar(opaqueTag[i])
  }

  predicate WellFormedList(list: seq<Element>) {
    list != [] && forall i :: 0 <= i < |list| ==> WellFormed(list[i])
  }

  function TagText(weak: bool, opaqueTag: string): string {
    (if weak then "W/" else "") + "\"" + opaqueTag + "\""
  }

  function ElementText(e: Element): string {
    match e
    case Blank(space) => space
    case Tag(before, weak, opaqueTag, after) => before + TagText(weak, opaqueTag) + after
  }

  function ListText(list: seq<Element>): string
    requires list != []
  {
    if |list| == 1 then ElementText(list[0]) else ElementText(list[0]) + "," + ListText(list[1..])
  }

  /** Strong comparison (section 8.8.3.2) of a list element with the strong tag of `content`. */
  predicate StrongMatch(e: Element, content: Bytes, digest: Digest) {
    e.Tag? && !e.weak && e.opaqueTag == digest(content)
  }

  // ----- counting quotes -----

  function Quotes(s: string): nat {
    if s == "" then 0 else (if s[0] == '"' then 1 else 0) + Quotes(s[1..])
  }

  lemma {:induction false} QuotesAppend(a: string, b: string)
    ensures Quotes(a + b) == Quotes(a) + Quotes(b)
  {
    if a == "" {
      assert a + b == b;
    } else {
      assert (a + b)[1..] == a[1..] + b;
      QuotesAppend(a[1..], b);
    }
  }

  lemma {:induction false} QuotesNone(s: string)
    requires '"' !in s
    ensures Quotes(s) == 0
  {
    if s != "" {
      QuotesNone(s[1..]);
    }
  }

  lemma QuotesTrim(s: string)
    ensures Quotes(Trim(s)) <= Quotes(s)
  {
    var i, j := TrimCuts(s);
    assert s == s[..i] + s[i..j] + s[j..];
    QuotesAppend(s[..i] + s[i..j], s[j..]);
    QuotesAppend(s[..i], s[i..j]);
  }

  lemma {:induction false} QuotesPiece(s: string, k: nat)
    requires k < |Split(s, ',')|
    ensures Quotes(Split(s, ',')[k]) <= Quotes(s)
  {
    if s != "" {
      var rest := Split(s[1..], ',');
      if s[0] == ',' {
        if k > 0 {
          QuotesPiece(s[1..], k - 1);
        }
      } else if k > 0 {
        QuotesPiece(s[1..], k);
      } else {
        QuotesPiece(s[1..], 0);
        assert ([s[0]] + rest[0])[1..] == rest[0];
      }
    }
  }

  // ----- the decision -----

  lemma AcceptsAppend(a: string, b: string, tag: string)
    ensures Accepts(a + "," + b, tag) <==> Accepts(a, tag) || Accepts(b, tag)
  {
    SplitAppend(a, ',', b);
    var x, y := Split(a, ','), Split(b, ',');
    var xy := Split(a + "," + b, ',');
    assert xy == x + y;
    if i :| 0 <= i < |x| && Trim(x[i]) == tag {
      assert xy[i] == x[i];
    }
    if i :| 0 <= i < |y| && Trim(y[i]) == tag {
      assert xy[|x| + i] == y[i];
    }
  }

  /** A text with fewer than two quotes has no piece that reads as a quoted tag. */
  lemma FewQuotesRefused(s: string, content: Bytes, digest: Digest)
    requires Quotes(s) < 2
    ensures !Accepts(s, ResourceETag(content, digest))
  {
    var tag := ResourceETag(content, digest);
    QuotesAppend("\"" + digest(content), "\"");
    QuotesAppend("\"", digest(content));
    assert Quotes("\"") == 1;
    if i :| 0 <= i < |Split(s, ',')| && Trim(Split(s, ',')[i]) == tag {
      QuotesPiece(s, i);
      QuotesTrim(Split(s, ',')[i]);
    }
  }

  lemma {:induction false} FirstComma(s: string) returns (i: nat)
    requires ',' in s
    ensures i < |s| && s[i] == ',' && ',' !in s[..i]
  {
    i := 0;
    while s[i] != ','
      invariant i < |s| && ',' !in s[..i]
      invariant ',' in s[i..]
      decreases |s| - i
    {
      i := i + 1;
    }
  }

  lemma OneQuote(left: string, right: string)
    requires '"' !in left && '"' !in right
    ensures Quotes(left + "\"" + right) == 1
  {
    assert Quotes("\"") == 1;
    QuotesAppend(left + "\"", right);
    QuotesAppend(left, "\"");
    QuotesNone(left);
    QuotesNone(right);
  }

  /** Cut between its two quotes, a text is in no piece a quoted tag. */
  lemma CutInsideRefused(before: string, left: string, right: string, after: string, content: Bytes, digest: Digest)
    requires '"' !in before && '"' !in left && '"' !in right && '"' !in after
    ensures !Accepts(before + "\"" + left + "," + (right + "\"" + after), ResourceETag(content, digest))
  {
    OneQuote(before, left);
    OneQuote(right, after);
    FewQuotesRefused(before + "\"" + left, content, digest);
    FewQuotesRefused(right + "\"" + after, content, digest);
    AcceptsAppend(before + "\"" + left, right + "\"" + after, ResourceETag(content, digest));
  }

  /** A tag whose text holds a comma is cut inside its quotes and never accepted. */
  lemma CommaTagRefused(e: Element, content: Bytes, digest: Digest)
    requires e.Tag? && WellFormed(e) && ',' in e.opaqueTag
    ensures !Accepts(ElementText(e), ResourceETag(content, digest))
  {
    var k := FirstComma(e.opaqueTag);
    var left, right := e.opaqueTag[..k], e.opaqueTag[k + 1..];
    var before := e.before + (if e.weak then "W/" else "");
    assert e.opaqueTag == left + "," + right;
    assert ElementText(e) == before + "\"" + left + "," + (right + "\"" + e.after);
    CutInsideRefused(before, left, right, e.after, content, digest);
  }

  lemma PlainTagAccepted(e: Element, content: Bytes, digest: Digest)
    requires e.Tag? && WellFormed(e) && ',' !in e.opaqueTag
    ensures Accepts(ElementText(e), ResourceETag(content, digest)) <==> StrongMatch(e, content, digest)
  {
    var core := TagText(e.weak, e.opaqueTag);
    var text := e.before + core + e.after;
    assert ',' !in text;
    SplitFree(text, ',');
    TrimCore(e.before, core, e.after);
    assert Split(ElementText(e), ',')[0] == text;
    assert Accepts(ElementText(e), ResourceETag(content, digest)) <==> core == ResourceETag(content, digest);
    if !e.weak {
      assert core[1..|core| - 1] == e.opaqueTag;
      assert ResourceETag(content, digest)[1..|ResourceETag(content, digest)| - 1] == digest(content);
    } else {
      assert core[0] == 'W';
    }
  }

  lemma ElementDecision(e: Element, content: Bytes, digest: Digest)
    requires WellFormed(e) && PrintsHex(digest)
    ensures Accepts(ElementText(e), ResourceETag(content, digest)) <==> StrongMatch(e, content, digest)
  {
    if e.Blank? {
      QuotesNone(e.space);
      FewQuotesRefused(e.space, content, digest);
    } else if ',' in e.opaqueTag {
      CommaTagRefused(e, content, digest);
    } else {
      PlainTagAccepted(e, content, digest);
    }
  }

  /** Cutting the field at every comma decides every well-formed list as the grammar does, even when
      tags of the list contain commas, are weak, or elements are empty. */
  lemma {:induction false} ListDecision(list: seq<Element>, content: Bytes, digest: Digest)
    requires WellFormedList(list) && PrintsHex(digest)
    ensures Accepts(ListText(list), ResourceETag(content, digest)) <==>
            exists i :: 0 <= i < |list| && StrongMatch(list[i], content, digest)
  {
    ElementDecision(list[0], content, digest);
    if |list| > 1 {
      ListDecision(list[1..], content, digest);
      AcceptsAppend(ElementText(list[0]), ListText(list[1..]), ResourceETag(content, digest));
      if i :| 0 <= i < |list| && StrongMatch(list[i], content, digest) {
        if i > 0 {
          assert list[1..][i - 1] == list[i];
        }
      }
      if i :| 0 <= i < |list[1..]| && StrongMatch(list[1..][i], content, digest) {
        assert list[i + 1] == list[1..][i];
      }
    }
  }

  lemma ListTextNotStar(list: seq<Element>)
    requires WellFormedList(list)
    ensures ListText(list) != "*"
  {
    assert '*' in "*";
    if |list| == 1 && list[0].Blank? {
      assert '*' !in list[0].space;
    } else {
      assert |ListText(list)| > 1 || |list| > 1;
      assert |list| > 1 ==> ',' in ListText(list);
    }
  }

  /** The If-Match decision on every well-formed field value: a list passes exactly when the resource
      exists and a strong tag of the list is its tag; `*` passes exactly when it exists. */
  lemma IfMatchDecision(list: seq<Element>, found: bool, content: Bytes, digest: Digest)
    requires WellFormedList(list) && PrintsHex(digest)
    ensures IfMatchSatisfied(ListText(list), found, content, digest) <==>
            found && exists i :: 0 <= i < |list| && StrongMatch(list[i], content, digest)
    ensures IfMatchSatisfied("*", found, content, digest) <==> found
  {
    ListTextNotStar(list);
    ListDecision(list, content, digest);
  }

  /** A single current tag, sent back as it was received, passes only for content with that hash. */
  lemma SentTagDecision(tagged: Bytes, found: bool, content: Bytes, digest: Digest)
    requires PrintsHex(digest)
    ensures IfMatchSatisfied(ResourceETag(tagged, digest), found, content, digest) <==>
            found && digest(tagged) == digest(content)
  {
    var e := Tag("", false, digest(tagged), "");
    assert forall i :: 0 <= i < |digest(tagged)| ==> HexChar(digest(tagged)[i]) ==> TagChar(digest(tagged)[i]);
    assert WellFormed(e);
    assert ListText([e]) == ResourceETag(tagged, digest);
    IfMatchDecision([e], found, content, digest);
    assert [e][0] == e;
    assert StrongMatch([e][0], content, digest) <==> digest(tagged) == digest(content);
  }

  // ----- the field as a whole -----

  /** The If-Match field of a request: absent, `*`, or a list. */
  datatype IfMatchField = Absent | Star | Tags(list: seq<Element>)

  function FieldText(field: IfMatchField): string
    requires field.Tags? ==> field.list != []
  {
    match field
    case Absent => ""
    case Star => "*"
    case Tags(list) => ListText(list)
  }

  /** A field with an empty value is no field to the program. */
  predicate WellFormedField(field: IfMatchField) {
    field.Tags? ==> WellFormedList(field.list) && ListText(field.list) != ""
  }

  /** The condition of section 13.1.1 of RFC 9110 against the current content, if there is any. */
  ghost predicate Holds(field: IfMatchField, current: Option<Bytes>, digest: Digest) {
    match field
    case Absent => true
    case Star => current.Some?
    case Tags(list) =>
      current.Some? && exists i :: 0 <= i < |list| && StrongMatch(list[i], current.value, digest)
  }

  lemma FieldDecision(field: IfMatchField, found: bool, content: Bytes, digest: Digest)
    requires WellFormedField(field) && PrintsHex(digest)
    ensures FieldText(field) == "" <==> field == Absent
    ensures FieldText(field) != "" ==>
              (IfMatchSatisfied(FieldText(field), found, content, digest) <==>
               Holds(field, if found then Some(content) else None, digest))
  {
    if field.Tags? {
      IfMatchDecision(field.list, found, content, digest);
    }
  }
}
