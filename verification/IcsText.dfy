/** TEXT values of iCalendar: the printer's escaping and the reader of section 3.3.11 of RFC 5545. */
module IcsText {
  import opened Text

  /** The single pass of the replacer: at each position the first rule that matches applies. */
  function Replace(s: string): string {
    if s == "" then ""
    else if s[0] == '\\' then "\\\\" + Replace(s[1..])
    else if s[0] == ';' then "\\;" + Replace(s[1..])
    else if s[0] == ',' then "\\," + Replace(s[1..])
    else if |s| > 1 && s[0] == '\r' && s[1] == '\n' then "\\n" + Replace(s[2..])
    else if s[0] == '\n' || s[0] == '\r' then "\\n" + Replace(s[1..])
    else [s[0]] + Replace(s[1..])
  }

  function IcsEscape(value: string): string {
    Replace(Trim(value))
  }

  /** Every line break, in any of its three spellings, as one line feed. */
  function NormalizeNewlines(s: string): string {
    if s == "" then ""
    else if |s| > 1 && s[0] == '\r' && s[1] == '\n' then "\n" + NormalizeNewlines(s[2..])
    else if s[0] == '\r' then "\n" + NormalizeNewlines(s[1..])
    else [s[0]] + NormalizeNewlines(s[1..])
  }

  /** What a reader is expected to get back for a printed value. */
  function Readable(value: string): string {
    NormalizeNewlines(Trim(value))
  }

  function Onto(c: char, parsed: Option<seq<string>>): Option<seq<string>> {
    match parsed
    case Some(values) => if values == [] then None else Some([[c] + values[0]] + values[1..])
    case None => None
  }

  /** Reads a list of TEXT values separated by unescaped commas. A bare semicolon, a bare line break or
      an unknown escape is an error. */
  function ParseTextList(s: string): Option<seq<string>> {
    if s == "" then Some([""])
    else if s[0] == '\\' then
      if |s| == 1 then None
      else if s[1] == 'n' || s[1] == 'N' then Onto('\n', ParseTextList(s[2..]))
      else if s[1] == '\\' || s[1] == ';' || s[1] == ',' then Onto(s[1], ParseTextList(s[2..]))
      else None
    else if s[0] == ',' then
      match ParseTextList(s[1..])
      case Some(values) => Some([""] + values)
      case None => None
    else if s[0] == ';' || s[0] == '\n' || s[0] == '\r' then None
    else Onto(s[0], ParseTextList(s[1..]))
  }

  /** A single TEXT value: no unescaped comma. */
  function ParseText(s: string): Option<string> {
    match ParseTextList(s)
    case Some(values) => if |values| == 1 then Some(values[0]) else None
    case None => None
  }

  lemma OntoOne(c: char, value: string)
    ensures Onto(c, Some([value])) == Some([[c] + value])
  {
    assert [[c] + value] + [value][1..] == [[c] + value];
  }

  lemma {:induction false} ReplaceParses(s: string)
    ensures ParseTextList(Replace(s)) == Some([NormalizeNewlines(s)])
  {
    if s != "" {
      var broken := |s| > 1 && s[0] == '\r' && s[1] == '\n';
      var rest := if broken then s[2..] else s[1..];
      ReplaceParses(rest);
      var escaped := s[0] in "\\;,\n\r";
      var r := Replace(s);
      if escaped {
        assert r[2..] == Replace(rest);
        assert r[0] == '\\';
        assert r[1] == if s[0] == '\n' || s[0] == '\r' then 'n' else s[0];
      } else {
        assert r[1..] == Replace(rest);
      }
      OntoOne(if s[0] == '\r' then '\n' else s[0], NormalizeNewlines(rest));
    }
  }

  /** Escaping loses nothing but the spelling of line breaks and the white space at the ends: reading
      the escaped value back gives the value trimmed, with each line break one line feed. In particular
      the text holds no unescaped comma or semicolon and no raw line break. */
  lemma EscapeRoundTrip(value: string)
    ensures ParseText(IcsEscape(value)) == Some(Readable(value))
    ensures ParseTextList(IcsEscape(value)) == Some([Readable(value)])
    ensures '\r' !in IcsEscape(value) && '\n' !in IcsEscape(value)
  {
    ReplaceParses(Trim(value));
    ReplaceNoBreaks(Trim(value));
  }

  lemma {:induction false} ReplaceNoBreaks(s: string)
    ensures '\r' !in Replace(s) && '\n' !in Replace(s)
  {
    if s != "" {
      ReplaceNoBreaks(if |s| > 1 && s[0] == '\r' && s[1] == '\n' then s[2..] else s[1..]);
    }
  }

  // ----- control characters -----

  /** The characters the TEXT grammar has no place for. */
  predicate Control(c: char) {
    (c < ' ' && c != '\t') || c == '\U{7F}'
  }

  predicate NoControls(s: string) {
    forall i :: 0 <= i < |s| ==> !Control(s[i])
  }

  lemma NoControlsAppend(a: string, b: string)
    ensures NoControls(a + b) <==> NoControls(a) && NoControls(b)
  {
    if NoControls(a + b) {
      assert forall i :: 0 <= i < |a| ==> (a + b)[i] == a[i];
      assert forall i :: 0 <= i < |b| ==> (a + b)[|a| + i] == b[i];
    }
  }

  lemma {:induction false} ReplaceControlsExact(s: string)
    ensures NoControls(Replace(s)) <==> forall i :: 0 <= i < |s| && s[i] != '\r' && s[i] != '\n' ==> !Control(s[i])
  {
    if s != "" {
      var k := if |s| > 1 && s[0] == '\r' && s[1] == '\n' then 2 else 1;
      var rest := s[k..];
      ReplaceControlsExact(rest);
      var escaped := s[0] in "\\;,\n\r";
      var head := if !escaped then [s[0]] else if s[0] == '\n' || s[0] == '\r' then "\\n" else ['\\', s[0]];
      assert Replace(s) == head + Replace(rest);
      NoControlsAppend(head, Replace(rest));
      assert NoControls(head) <==> s[0] == '\r' || s[0] == '\n' || !Control(s[0]) by {
        assert head[0] == if escaped then '\\' else s[0];
      }
      assert forall i :: 0 <= i < |rest| ==> rest[i] == s[i + k];
      assert forall i :: k <= i < |s| ==> s[i] == rest[i - k];
    }
  }

  /** The printed value stays inside the TEXT grammar exactly when the trimmed value holds no control
      character other than tab and line breaks: those are printed as they are. */
  lemma EscapeControlsExact(value: string)
    ensures NoControls(IcsEscape(value)) <==>
            forall i :: 0 <= i < |Trim(value)| && Trim(value)[i] != '\r' && Trim(value)[i] != '\n' ==>
              !Control(Trim(value)[i])
  {
    ReplaceControlsExact(Trim(value));
  }

  /** A bell in a heading is printed as it is. */
  lemma BellPrinted()
    ensures Control('\U{7}') && IcsEscape("\U{7}") == "\U{7}" && !NoControls(IcsEscape("\U{7}"))
  {
    var bell := "\U{7}";
    TrimFixes(bell);
    assert bell[1..] == "";
    assert Replace(bell) == [bell[0]] + Replace("");
    assert Control(bell[0]);
  }
}
