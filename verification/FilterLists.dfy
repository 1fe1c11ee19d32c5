/** The list normalisers: `normalizeFilterList` and `parseCompactFilterValues` of the web server and
    `normalizeGroupIDs` of the Spond client. */
module FilterLists {
  import opened Text
  import Lists

  /** The trimmed, non-blank values of a list, in order. */
  function NonBlank(values: seq<string>): seq<string> {
    if values == [] then []
    else
      var init := NonBlank(values[..|values| - 1]);
      var t := Trim(values[|values| - 1]);
      if t == "" then init else init + [t]
  }

  function FilterList(values: seq<string>): seq<string> {
    Dedup(NonBlank(values))
  }

  /** A list that a filter parser can produce. */
  predicate Canonical(values: seq<string>) {
    NoDuplicates(values) && forall v :: v in values ==> v != "" && Trimmed(v)
  }

  lemma {:induction false} NonBlankTrims(values: seq<string>)
    ensures forall v :: v in NonBlank(values) ==> v != "" && Trimmed(v)
    ensures forall v :: v in NonBlank(values) <==> v != "" && exists i :: 0 <= i < |values| && Trim(values[i]) == v
  {
    if values != [] {
      var n := |values| - 1;
      NonBlankTrims(values[..n]);
      TrimIdempotent(values[n]);
      forall v | v != "" && exists i :: 0 <= i < |values| && Trim(values[i]) == v
        ensures v in NonBlank(values)
      {
        var i :| 0 <= i < |values| && Trim(values[i]) == v;
        if i < n {
          assert values[..n][i] == values[i];
        }
      }
    }
  }

  lemma {:induction false} NonBlankFixes(values: seq<string>)
    requires forall v :: v in values ==> v != "" && Trimmed(v)
    ensures NonBlank(values) == values
  {
    if values != [] {
      var init, x := values[..|values| - 1], values[|values| - 1];
      assert forall v :: v in init ==> v in init + [x];
      assert values == init + [x];
      NonBlankFixes(init);
      assert x in values;
      TrimFixes(x);
    }
  }

  lemma {:induction false} NonBlankAppend(a: seq<string>, b: seq<string>)
    ensures NonBlank(a + b) == NonBlank(a) + NonBlank(b)
  {
    if b == [] {
      assert a + b == a;
    } else {
      var n := |b| - 1;
      assert (a + b)[..|a + b| - 1] == a + b[..n];
      NonBlankAppend(a, b[..n]);
    }
  }

  /** The normal form is exactly the set of trimmed non-blank inputs, each once, and a list
      already in normal form is returned unchanged. */
  lemma FilterListCanonical(values: seq<string>)
    ensures Canonical(FilterList(values))
    ensures forall v :: v in FilterList(values) <==> v != "" && exists i :: 0 <= i < |values| && Trim(values[i]) == v
    ensures FilterList(FilterList(values)) == FilterList(values)
  {
    NonBlankTrims(values);
    NonBlankFixes(FilterList(values));
    DedupFixes(FilterList(values));
  }

  /** The loop of `normalizeFilterList` and of `normalizeGroupIDs`, which are the same code. */
  method NormalizeFilterList(values: seq<string>) returns (items: seq<string>)
    ensures items == FilterList(values)
  {
    items := [];
    var seen: set<string> := {};
    for i := 0 to |values|
      invariant items == FilterList(values[..i])
      invariant seen == set v | v in items
    {
      assert values[..i + 1][..i] == values[..i];
      var trimmed := Trim(values[i]);
      if trimmed == "" {
        continue;
      }
      DedupSnoc(NonBlank(values[..i]), trimmed);
      if trimmed in seen {
        continue;
      }
      seen := seen + {trimmed};
      items := items + [trimmed];
    }
    assert values[..|values|] == values;
  }

  lemma DedupSnoc<T>(xs: seq<T>, x: T)
    ensures Dedup(xs + [x]) == if x in Dedup(xs) then Dedup(xs) else Dedup(xs) + [x]
  {
    assert (xs + [x])[..|xs|] == xs;
  }

  /** All comma-separated pieces of all parts, in order. */
  function Pieces(parts: seq<string>): seq<string> {
    if parts == [] then [] else Pieces(parts[..|parts| - 1]) + Split(parts[|parts| - 1], ',')
  }

  /** `parseCompactFilterValues` on the concatenated query values. */
  function CompactFilter(parts: seq<string>): seq<string> {
    FilterList(NonBlank(Pieces(parts)))
  }

  method ParseCompactFilterValues(query: map<string, seq<string>>, names: seq<string>) returns (items: seq<string>)
    ensures items == CompactFilter(QueryValues(query, names))
  {
    var parts := GatherQueryValues(query, names);
    var values: seq<string> := [];
    for i := 0 to |parts|
      invariant values == NonBlank(Pieces(parts[..i]))
    {
      PiecesSnoc(parts, i);
      var pieces := NonBlankPieces(Split(parts[i], ','));
      values := values + pieces;
    }
    assert parts[..|parts|] == parts;
    items := NormalizeFilterList(values);
  }

  method GatherQueryValues(query: map<string, seq<string>>, names: seq<string>) returns (parts: seq<string>)
    ensures parts == QueryValues(query, names)
  {
    parts := [];
    for i := 0 to |names|
      invariant parts == QueryValues(query, names[..i])
    {
      assert names[..i + 1][..i] == names[..i];
      parts := parts + (if names[i] in query then query[names[i]] else []);
    }
    assert names[..|names|] == names;
  }

  method NonBlankPieces(splits: seq<string>) returns (values: seq<string>)
    ensures values == NonBlank(splits)
  {
    values := [];
    for j := 0 to |splits|
      invariant values == NonBlank(splits[..j])
    {
      assert splits[..j + 1][..j] == splits[..j];
      var trimmed := Trim(splits[j]);
      if trimmed == "" {
        continue;
      }
      values := values + [trimmed];
    }
    assert splits[..|splits|] == splits;
  }

  lemma PiecesSnoc(parts: seq<string>, i: nat)
    requires i < |parts|
    ensures NonBlank(Pieces(parts[..i + 1])) == NonBlank(Pieces(parts[..i])) + NonBlank(Split(parts[i], ','))
  {
    assert parts[..i + 1][..i] == parts[..i];
    NonBlankAppend(Pieces(parts[..i]), Split(parts[i], ','));
  }

  lemma PiecesOne(s: string)
    ensures Pieces([s]) == Split(s, ',')
  {
    assert [s][..0] == [];
    assert Pieces([]) == [];
  }

  function QueryValues(query: map<string, seq<string>>, names: seq<string>): seq<string> {
    if names == [] then []
    else
      var name := names[|names| - 1];
      QueryValues(query, names[..|names| - 1]) + (if name in query then query[name] else [])
  }

  lemma {:induction false} PiecesFree(parts: seq<string>)
    ensures AllFree(Pieces(parts), ',')
  {
    if parts != [] {
      PiecesFree(parts[..|parts| - 1]);
      SplitPiecesFree(parts[|parts| - 1], ',');
    }
  }

  lemma {:induction false} PiecesOfFree(parts: seq<string>)
    requires AllFree(parts, ',')
    ensures Pieces(parts) == parts
  {
    if parts != [] {
      var init, x := parts[..|parts| - 1], parts[|parts| - 1];
      PiecesOfFree(init);
      SplitFree(x, ',');
      assert parts == init + [x];
    }
  }

  lemma {:induction false} SplitJoinPieces(values: seq<string>)
    requires |values| > 0
    ensures Split(Join(values, ","), ',') == Pieces(values)
  {
    var init, last := values[..|values| - 1], values[|values| - 1];
    if init == [] {
      PiecesOne(last);
      assert values == [last];
    } else {
      SplitJoinPieces(init);
      assert values == init + [last];
      JoinAppend(init, [last], ",");
      SplitAppend(Join(init, ","), ',', last);
    }
  }

  /** Joining parameter values with commas or repeating the parameter is the same query. */
  lemma JoinedEqualsRepeated(values: seq<string>)
    ensures CompactFilter([Join(values, ",")]) == CompactFilter(values)
  {
    PiecesOne(Join(values, ","));
    if values == [] {
      NonBlankTrims([""]);
      assert Trim("") == "";
    } else {
      SplitJoinPieces(values);
    }
  }

  /** Parse, print, parse: what was parsed is canonical and comma-free, and its comma-joined
      print parses back to it; group-id normalisation leaves it alone. */
  lemma CompactFilterRoundTrip(parts: seq<string>)
    ensures var items := CompactFilter(parts);
      && Canonical(items) && AllFree(items, ',')
      && CompactFilter([Join(items, ",")]) == items
      && FilterList(items) == items
  {
    var pieces := Pieces(parts);
    var items := CompactFilter(parts);
    FilterListCanonical(NonBlank(pieces));
    FilterListCanonical(items);
    NonBlankTrims(pieces);
    NonBlankFixes(items);
    DedupFixes(items);
    PiecesFree(parts);
    forall i | 0 <= i < |items|
      ensures ',' !in items[i]
    {
      assert items[i] in items;
      NonBlankFixes(NonBlank(pieces));
      var k :| 0 <= k < |pieces| && Trim(pieces[k]) == items[i];
      if ',' in items[i] {
        TrimKeepsChars(pieces[k], ',');
      }
    }
    JoinedEqualsRepeated(items);
    PiecesOfFree(items);
  }

  // ----- order and completeness -----

  /** The position holds the first occurrence of a trimmed non-blank value. */
  ghost predicate FirstValue(values: seq<string>, i: int) {
    0 <= i < |values| && Trim(values[i]) != "" && forall j :: 0 <= j < i ==> Trim(values[j]) != Trim(values[i])
  }

  ghost function FirstValues(values: seq<string>): int -> bool {
    i => FirstValue(values, i)
  }

  lemma FirstValueInit(values: seq<string>)
    requires values != []
    ensures var init := values[..|values| - 1];
      forall i :: 0 <= i < |init| ==> FirstValues(init)(i) == FirstValues(values)(i)
  {
    var init := values[..|values| - 1];
    forall i | 0 <= i < |init|
      ensures FirstValue(init, i) == FirstValue(values, i)
    {
      assert forall j :: 0 <= j <= i ==> init[j] == values[j];
    }
  }

  /** A normalised list has each trimmed non-blank value once, in the order of their first occurrences. */
  lemma {:induction false} FilterListFirst(values: seq<string>) returns (at: seq<nat>)
    ensures Lists.Picks(|values|, at, FirstValues(values)) && |at| == |FilterList(values)|
    ensures forall k :: 0 <= k < |at| ==> FilterList(values)[k] == Trim(values[at[k]])
  {
    if values == [] {
      return [];
    }
    var n := |values| - 1;
    var init := values[..n];
    at := FilterListFirst(init);
    FirstValueLast(values);
    FilterListSnoc(values);
    FirstValueInit(values);
    Lists.PicksSnoc(n, at, FirstValues(init), FirstValues(values));
    if FirstValue(values, n) {
      at := at + [n];
    }
  }

  lemma FirstValueLast(values: seq<string>)
    requires values != []
    ensures var n := |values| - 1;
      FirstValue(values, n) <==> Trim(values[n]) != "" && Trim(values[n]) !in FilterList(values[..n])
  {
    var n := |values| - 1;
    FilterListCanonical(values[..n]);
    assert forall j :: 0 <= j < n ==> values[..n][j] == values[j];
  }

  lemma FilterListSnoc(values: seq<string>)
    requires values != []
    ensures var n := |values| - 1;
      var init, t := FilterList(values[..n]), Trim(values[n]);
      FilterList(values) == if t == "" || t in init then init else init + [t]
  {
    var n := |values| - 1;
    if Trim(values[n]) != "" {
      DedupSnoc(NonBlank(values[..n]), Trim(values[n]));
    }
  }

  /** A value is selected exactly if some comma-separated piece of some value of one of the parameters is,
      trimmed, that value. */
  lemma CompactFilterExact(query: map<string, seq<string>>, names: seq<string>, v: string)
    ensures v in CompactFilter(QueryValues(query, names)) <==>
            v != "" && exists name, part, piece ::
              name in names && name in query && part in query[name] && piece in Split(part, ',') && Trim(piece) == v
  {
    var parts := QueryValues(query, names);
    CompactIsFilter(parts);
    FilterListCanonical(Pieces(parts));
    if v in CompactFilter(parts) {
      var i :| 0 <= i < |Pieces(parts)| && Trim(Pieces(parts)[i]) == v;
      CompactFilterFrom(query, names, Pieces(parts)[i]);
    }
    if name, part, piece :|
      name in names && name in query && part in query[name] && piece in Split(part, ',') && Trim(piece) == v {
      CompactFilterHas(query, names, name, part, piece);
    }
  }

  lemma CompactFilterFrom(query: map<string, seq<string>>, names: seq<string>, piece: string)
    requires piece in Pieces(QueryValues(query, names))
    ensures exists name, part :: name in names && name in query && part in query[name] && piece in Split(part, ',')
  {
    PiecesIn(QueryValues(query, names), piece);
    var part :| part in QueryValues(query, names) && piece in Split(part, ',');
    QueryValuesIn(query, names, part);
  }

  lemma CompactFilterHas(query: map<string, seq<string>>, names: seq<string>, name: string, part: string, piece: string)
    requires name in names && name in query && part in query[name] && piece in Split(part, ',')
    ensures piece in Pieces(QueryValues(query, names))
  {
    QueryValuesIn(query, names, part);
    PiecesIn(QueryValues(query, names), piece);
  }

  lemma CompactIsFilter(parts: seq<string>)
    ensures CompactFilter(parts) == FilterList(Pieces(parts))
  {
    NonBlankTrims(Pieces(parts));
    NonBlankFixes(NonBlank(Pieces(parts)));
  }

  lemma {:induction false} PiecesIn(parts: seq<string>, piece: string)
    ensures piece in Pieces(parts) <==> exists part :: part in parts && piece in Split(part, ',')
  {
    if parts != [] {
      var init, last := parts[..|parts| - 1], parts[|parts| - 1];
      PiecesIn(init, piece);
      assert parts == init + [last];
      assert last in parts;
    }
  }

  lemma {:induction false} QueryValuesIn(query: map<string, seq<string>>, names: seq<string>, part: string)
    ensures part in QueryValues(query, names) <==> exists name :: name in names && name in query && part in query[name]
  {
    if names != [] {
      var init, last := names[..|names| - 1], names[|names| - 1];
      QueryValuesIn(query, init, part);
      assert names == init + [last];
    }
  }

  /** The order: what an earlier parameter or an earlier value selects comes first, and of one value the
      earlier piece. */
  lemma {:induction false} CompactFilterOrder(query: map<string, seq<string>>, a: seq<string>, b: seq<string>)
    ensures QueryValues(query, a + b) == QueryValues(query, a) + QueryValues(query, b)
    ensures CompactFilter(QueryValues(query, a)) == FilterList(Pieces(QueryValues(query, a)))
    ensures CompactFilter(QueryValues(query, a + b)) ==
            FilterList(Pieces(QueryValues(query, a)) + Pieces(QueryValues(query, b)))
  {
    QueryValuesAppend(query, a, b);
    CompactIsFilter(QueryValues(query, a));
    CompactIsFilter(QueryValues(query, a + b));
    PiecesAppend(QueryValues(query, a), QueryValues(query, b));
  }

  lemma {:induction false} QueryValuesAppend(query: map<string, seq<string>>, a: seq<string>, b: seq<string>)
    ensures QueryValues(query, a + b) == QueryValues(query, a) + QueryValues(query, b)
  {
    if b == [] {
      assert a + b == a;
    } else {
      assert (a + b)[..|a + b| - 1] == a + b[..|b| - 1];
      QueryValuesAppend(query, a, b[..|b| - 1]);
    }
  }

  lemma {:induction false} PiecesAppend(a: seq<string>, b: seq<string>)
    ensures Pieces(a + b) == Pieces(a) + Pieces(b)
  {
    if b == [] {
      assert a + b == a;
    } else {
      assert (a + b)[..|a + b| - 1] == a + b[..|b| - 1];
      PiecesAppend(a, b[..|b| - 1]);
    }
  }
}
