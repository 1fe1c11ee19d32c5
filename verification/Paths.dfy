/** Request paths: which user and resource a URL path addresses, and where the resource lives in
    the user's file tree. */
module Paths {
  import opened Text

  const PREFIX := "/caldav"

  /** A path segment that names something: not empty, not a dot segment, no slash. */
  predicate Ordinary(seg: string) {
    seg != "" && seg != "." && seg != ".." && '/' !in seg
  }

  predicate AllOrdinary(segs: seq<string>) {
    forall i :: 0 <= i < |segs| ==> Ordinary(segs[i])
  }

  // ----- path.Clean -----

  function CleanStep(stack: seq<string>, seg: string, rooted: bool): seq<string> {
    if seg == "" || seg == "." then stack
    else if seg != ".." then stack + [seg]
    else if stack != [] && stack[|stack| - 1] != ".." then stack[..|stack| - 1]
    else if rooted then stack
    else stack + [seg]
  }

  function CleanSegments(stack: seq<string>, segs: seq<string>, rooted: bool): seq<string>
    decreases |segs|
  {
    if segs == [] then stack else CleanSegments(CleanStep(stack, segs[0], rooted), segs[1..], rooted)
  }

  predicate Rooted(p: string) {
    p != "" && p[0] == '/'
  }

  /** The segments `path.Clean` leaves of a path. */
  function Segments(p: string): seq<string> {
    CleanSegments([], Split(p, '/'), Rooted(p))
  }

  function Clean(p: string): string {
    if p == "" then "."
    else if Rooted(p) then "/" + Join(Segments(p), "/")
    else if Segments(p) == [] then "."
    else Join(Segments(p), "/")
  }

  lemma {:induction false} CleanSegmentsOrdinary(stack: seq<string>, segs: seq<string>)
    requires AllOrdinary(stack) && AllFree(segs, '/')
    ensures AllOrdinary(CleanSegments(stack, segs, true))
    decreases |segs|
  {
    if segs != [] {
      CleanSegmentsOrdinary(CleanStep(stack, segs[0], true), segs[1..]);
    }
  }

  lemma {:induction false} CleanSegmentsFixes(stack: seq<string>, segs: seq<string>)
    requires AllOrdinary(segs)
    ensures CleanSegments(stack, segs, true) == stack + segs
    decreases |segs|
  {
    if segs != [] {
      CleanSegmentsFixes(stack + [segs[0]], segs[1..]);
      assert stack + [segs[0]] + segs[1..] == stack + segs;
    } else {
      assert stack + segs == stack;
    }
  }

  lemma SegmentsOrdinary(p: string)
    requires Rooted(p)
    ensures AllOrdinary(Segments(p))
  {
    SplitPiecesFree(p, '/');
    CleanSegmentsOrdinary([], Split(p, '/'));
  }

  /** Cleaning a path that is already clean changes nothing. */
  lemma SegmentsOfJoined(segs: seq<string>)
    requires AllOrdinary(segs)
    ensures Segments("/" + Join(segs, "/")) == segs
  {
    if segs == [] {
      SegmentsOfRoot();
    } else {
      SplitJoin(segs, '/');
      assert ([""] + segs)[1..] == segs;
      CleanSegmentsFixes([], segs);
      assert [] + segs == segs;
    }
  }

  lemma SegmentsOfRoot()
    ensures Segments("/") == []
  {
    assert "/" + "" == "/";
    assert ["", ""][1..] == [""] && [""][1..] == [];
    assert CleanSegments([], [""], true) == CleanSegments([], [], true);
  }

  lemma JoinedInjective(a: seq<string>, b: seq<string>)
    requires AllOrdinary(a) && AllOrdinary(b) && Join(a, "/") == Join(b, "/")
    ensures a == b
  {
    SegmentsOfJoined(a);
    SegmentsOfJoined(b);
  }

  // ----- normalizeResourcePath, toHandlerPath -----

  /** The user a request path addresses, and the resource path within that user's tree. */
  function NormalizeResourcePath(requestPath: string, defaultUser: string): (string, string) {
    var cleaned := Clean(requestPath);
    if cleaned == PREFIX || cleaned == PREFIX + "/" || !HasPrefix(cleaned, PREFIX) then (defaultUser, "")
    else
      var trimmed := TrimPrefix(cleaned, PREFIX);
      if trimmed == "" || trimmed == "/" then (defaultUser, "")
      else
        var segments := Split(TrimPrefix(trimmed, "/"), '/');
        if |segments| == 1 then
          if '.' in segments[0] then (defaultUser, segments[0]) else (segments[0], "")
        else (segments[0], Join(segments[1..], "/"))
  }

  function ToHandlerPath(resourcePath: string): string {
    if resourcePath == "" then PREFIX else PREFIX + "/" + TrimPrefix(resourcePath, "/")
  }

  /** What is left of the cleaned segments once the `/caldav` prefix is cut. Only the text prefix is
      cut, so `/caldavx/f` leaves the same segments as `/caldav/x/f`. */
  function Addressed(requestPath: string): seq<string> {
    if !Rooted(requestPath) then []
    else
      var segs := Segments(requestPath);
      if segs == [] || !HasPrefix(segs[0], "caldav") then []
      else if segs[0] == "caldav" then segs[1..]
      else [segs[0][6..]] + segs[1..]
  }

  /** The reading of the addressed segments: a lone file name belongs to the default user, any other
      first segment is a user. */
  function AddressOf(segs: seq<string>, defaultUser: string): (string, string) {
    if segs == [] then (defaultUser, "")
    else if |segs| == 1 then
      if '.' in segs[0] then (defaultUser, segs[0]) else (segs[0], "")
    else (segs[0], Join(segs[1..], "/"))
  }

  lemma {:induction false} CleanSegmentsFree(stack: seq<string>, segs: seq<string>, rooted: bool)
    requires AllFree(stack, '/') && AllFree(segs, '/')
    requires forall i :: 0 <= i < |stack| ==> stack[i] != ""
    ensures var out := CleanSegments(stack, segs, rooted);
      AllFree(out, '/') && forall i :: 0 <= i < |out| ==> out[i] != ""
    decreases |segs|
  {
    if segs != [] {
      CleanSegmentsFree(CleanStep(stack, segs[0], rooted), segs[1..], rooted);
    }
  }

  lemma CleanRelative(p: string)
    requires !Rooted(p)
    ensures !Rooted(Clean(p))
  {
    if p != "" && Segments(p) != [] {
      SplitPiecesFree(p, '/');
      CleanSegmentsFree([], Split(p, '/'), false);
      var segs := Segments(p);
      assert segs[0] != "" && '/' !in segs[0];
      assert Join(segs, "/")[0] == segs[0][0];
      assert segs[0][0] in segs[0];
    }
  }

  lemma PrefixOfSegment(seg: string, tail: string)
    requires '/' !in seg && (tail == "" || tail[0] == '/')
    ensures HasPrefix("/" + seg + tail, PREFIX) <==> HasPrefix(seg, "caldav")
    ensures HasPrefix(seg, "caldav") ==> "/" + seg + tail == PREFIX + (seg[6..] + tail)
  {
    var whole := "/" + seg + tail;
    assert PREFIX == "/" + "caldav";
    if HasPrefix(seg, "caldav") {
      assert seg == "caldav" + seg[6..];
    } else if HasPrefix(whole, PREFIX) {
      PrefixBreaks(seg, tail);
    }
  }

  lemma PrefixBreaks(seg: string, tail: string)
    requires '/' !in seg && (tail == "" || tail[0] == '/')
    requires HasPrefix("/" + seg + tail, PREFIX)
    ensures HasPrefix(seg, "caldav")
  {
    var whole := "/" + seg + tail;
    SegmentChar(seg, tail, 5);
    forall i | 0 <= i < 6
      ensures i < |seg| && seg[i] == "caldav"[i]
    {
      SegmentChar(seg, tail, i);
    }
    assert seg[..6] == "caldav";
  }

  lemma {:induction false} SegmentChar(seg: string, tail: string, i: nat)
    requires '/' !in seg && (tail == "" || tail[0] == '/')
    requires HasPrefix("/" + seg + tail, PREFIX) && i < 6
    ensures i < |seg| && seg[i] == "caldav"[i]
    decreases i
  {
    var whole := "/" + seg + tail;
    assert PREFIX[i + 1] == "caldav"[i];
    assert whole[..7][i + 1] == whole[i + 1];
    if i > 0 {
      SegmentChar(seg, tail, i - 1);
    }
  }

  function TailOf(segs: seq<string>): string
    requires segs != []
  {
    if |segs| == 1 then "" else "/" + Join(segs[1..], "/")
  }

  lemma CleanRooted(segs: seq<string>)
    requires AllOrdinary(segs) && segs != []
    ensures HasPrefix("/" + Join(segs, "/"), PREFIX) <==> HasPrefix(segs[0], "caldav")
    ensures HasPrefix(segs[0], "caldav") ==> "/" + Join(segs, "/") == PREFIX + (segs[0][6..] + TailOf(segs))
  {
    var tail := TailOf(segs);
    assert Join(segs, "/") == segs[0] + tail;
    assert "/" + Join(segs, "/") == "/" + segs[0] + tail;
    PrefixOfSegment(segs[0], tail);
  }

  lemma AddressedOrdinary(requestPath: string)
    ensures Addressed(requestPath) != [] ==>
              && AllOrdinary(Addressed(requestPath)[1..])
              && Addressed(requestPath)[0] != "" && '/' !in Addressed(requestPath)[0]
  {
    if Addressed(requestPath) != [] {
      SegmentsOrdinary(requestPath);
      var segs := Segments(requestPath);
      if segs[0] == "caldav" {
        assert Ordinary(segs[1]);
        assert Addressed(requestPath)[1..] == segs[2..];
      } else {
        assert Ordinary(segs[0]);
        assert Addressed(requestPath)[1..] == segs[1..];
        assert segs[0] == "caldav" + segs[0][6..];
      }
    }
  }

  /** The string surgery of `normalizeResourcePath` computes the segment reading, for every request
      path: absolute or not, clean or not, under the prefix or not. */
  lemma NormalizeReadsSegments(requestPath: string, defaultUser: string)
    ensures NormalizeResourcePath(requestPath, defaultUser) == AddressOf(Addressed(requestPath), defaultUser)
  {
    var cleaned := Clean(requestPath);
    if !Rooted(requestPath) {
      CleanRelative(requestPath);
    } else {
      SegmentsOrdinary(requestPath);
      var segs := Segments(requestPath);
      if segs == [] {
        assert cleaned == "/";
      } else {
        CleanRooted(segs);
        if HasPrefix(segs[0], "caldav") {
          NormalizeUnderPrefix(requestPath, defaultUser);
        }
      }
    }
  }

  lemma NormalizeUnderPrefix(requestPath: string, defaultUser: string)
    requires Rooted(requestPath) && AllOrdinary(Segments(requestPath))
    requires Segments(requestPath) != [] && HasPrefix(Segments(requestPath)[0], "caldav")
    ensures NormalizeResourcePath(requestPath, defaultUser) == AddressOf(Addressed(requestPath), defaultUser)
  {
    var cleaned := Clean(requestPath);
    var segs := Segments(requestPath);
    CleanRooted(segs);
    var trimmed := segs[0][6..] + TailOf(segs);
    assert cleaned == PREFIX + trimmed;
    assert TrimPrefix(cleaned, PREFIX) == trimmed;
    if Addressed(requestPath) == [] {
      assert trimmed == "";
    } else {
      AddressedText(requestPath);
      assert |cleaned| == |PREFIX| + |trimmed|;
    }
  }

  /** What follows the prefix, as text. */
  lemma AddressedText(requestPath: string)
    requires Addressed(requestPath) != []
    ensures var segs, left := Segments(requestPath), Addressed(requestPath);
      var trimmed := segs[0][6..] + TailOf(segs);
      && TrimPrefix(trimmed, "/") == Join(left, "/") && Split(Join(left, "/"), '/') == left
      && trimmed != "" && trimmed != "/"
  {
    AddressedOrdinary(requestPath);
    var segs, left := Segments(requestPath), Addressed(requestPath);
    AddressedFree(requestPath);
    SplitJoin(left, '/');
    var body := Join(left, "/");
    if segs[0] == "caldav" {
      assert segs[0][6..] == "" && left == segs[1..];
      assert "" + ("/" + body) == "/" + body;
    } else {
      assert left[1..] == segs[1..];
      assert segs[0][6..] + TailOf(segs) == body;
    }
  }

  // ----- aliasing -----

  /** The backward-compatible reading: `a` names a lone file with a dot, `b` the same file under the
      default user. */
  predicate LegacyAlias(a: string, b: string, defaultUser: string) {
    var segs := Addressed(a);
    |segs| == 1 && '.' in segs[0] && Addressed(b) == [defaultUser, segs[0]]
  }

  lemma AddressAliases(a: seq<string>, b: seq<string>, defaultUser: string)
    requires AllFree(a, '/') && AllFree(b, '/')
    requires AddressOf(a, defaultUser) == AddressOf(b, defaultUser) && AddressOf(a, defaultUser).1 != ""
    ensures a == b
      || (|a| == 1 && '.' in a[0] && b == [defaultUser, a[0]])
      || (|b| == 1 && '.' in b[0] && a == [defaultUser, b[0]])
  {
    var restA, restB := if |a| == 1 then a else a[1..], if |b| == 1 then b else b[1..];
    assert Join(restA, "/") == AddressOf(a, defaultUser).1;
    assert Join(restB, "/") == AddressOf(b, defaultUser).1;
    SplitJoin(restA, '/');
    SplitJoin(restB, '/');
    assert restA == restB;
    if |a| > 1 {
      assert a == [a[0]] + a[1..];
    }
    if |b| > 1 {
      assert b == [b[0]] + b[1..];
    }
  }

  /** Two request paths address the same resource exactly when they leave the same segments or one is
      the legacy spelling of the other. */
  lemma AliasingExact(p: string, q: string, defaultUser: string)
    requires NormalizeResourcePath(p, defaultUser).1 != ""
    ensures NormalizeResourcePath(p, defaultUser) == NormalizeResourcePath(q, defaultUser) <==>
            Addressed(p) == Addressed(q) || LegacyAlias(p, q, defaultUser) || LegacyAlias(q, p, defaultUser)
  {
    NormalizeReadsSegments(p, defaultUser);
    NormalizeReadsSegments(q, defaultUser);
    AddressedOrdinary(p);
    AddressedOrdinary(q);
    if NormalizeResourcePath(p, defaultUser) == NormalizeResourcePath(q, defaultUser) {
      AddressedFree(p);
      AddressedFree(q);
      AddressAliases(Addressed(p), Addressed(q), defaultUser);
    }
  }

  lemma AddressedFree(requestPath: string)
    ensures AllFree(Addressed(requestPath), '/')
  {
    AddressedOrdinary(requestPath);
    var segs := Addressed(requestPath);
    forall i | 0 <= i < |segs|
      ensures '/' !in segs[i]
    {
      if i > 0 {
        assert segs[1..][i - 1] == segs[i];
      }
    }
  }

  predicate UnderPrefix(requestPath: string) {
    Rooted(requestPath) && Segments(requestPath) != [] && HasPrefix(Segments(requestPath)[0], "caldav")
  }

  /** The prefix is a whole segment: `/caldav/...`, as the server mounts it. */
  predicate Mounted(requestPath: string) {
    Rooted(requestPath) && Segments(requestPath) != [] && Segments(requestPath)[0] == "caldav"
  }

  /** Paths that leave the same segments have the same cleaned form, except that one of them may have
      lost the slash after the prefix (`/caldavx/f` for `/caldav/x/f`). */
  lemma AddressedExact(p: string, q: string)
    requires UnderPrefix(p) && UnderPrefix(q)
    ensures Addressed(p) == Addressed(q) <==>
            Clean(p) == Clean(q)
            || (Mounted(p) && !Mounted(q) && Segments(p) == ["caldav"] + Addressed(q))
            || (Mounted(q) && !Mounted(p) && Segments(q) == ["caldav"] + Addressed(p))
  {
    SegmentsOrdinary(p);
    SegmentsOrdinary(q);
    var a, b := Segments(p), Segments(q);
    if Clean(p) == Clean(q) {
      assert Clean(p)[1..] == Join(a, "/") && Clean(q)[1..] == Join(b, "/");
      JoinedInjective(a, b);
    }
    AddressedMounted(p);
    AddressedMounted(q);
    if Addressed(p) == Addressed(q) && Mounted(p) == Mounted(q) {
      assert a == b;
    }
  }

  /** The segments are recovered from the addressed ones and from whether the prefix was whole. */
  lemma AddressedMounted(p: string)
    requires UnderPrefix(p)
    ensures Mounted(p) ==> Segments(p) == ["caldav"] + Addressed(p)
    ensures !Mounted(p) ==> Addressed(p) != [] && Segments(p) == ["caldav" + Addressed(p)[0]] + Addressed(p)[1..]
  {
    var a := Segments(p);
    assert a == [a[0]] + a[1..];
    assert a[0] == "caldav" + a[0][6..];
  }

  // ----- the path inside the user's tree -----

  /** A resource path made of ordinary segments only. */
  predicate CleanResource(resourcePath: string) {
    resourcePath != "" && AllOrdinary(Split(resourcePath, '/'))
  }

  /** The node a resource path names in the tree, as hydration computes it. */
  function TreePath(resourcePath: string): seq<string> {
    Segments("/" + resourcePath)
  }

  lemma CleanTreePath(resourcePath: string)
    requires CleanResource(resourcePath)
    ensures TreePath(resourcePath) == Split(resourcePath, '/') && TreePath(resourcePath) != []
    ensures AllOrdinary(TreePath(resourcePath)) && Join(TreePath(resourcePath), "/") == resourcePath
  {
    JoinSplit(resourcePath, '/');
    SegmentsOfJoined(Split(resourcePath, '/'));
  }

  lemma CleanJoined(segs: seq<string>)
    requires AllOrdinary(segs) && segs != []
    ensures CleanResource(Join(segs, "/")) && TreePath(Join(segs, "/")) == segs
  {
    SplitJoin(segs, '/');
    SegmentsOfJoined(segs);
  }

  /** A resource path that comes out of normalisation has ordinary segments only, unless the request
      was the slashless `/caldav.` or `/caldav..`; those two name the root of the tree. */
  lemma ResultOrdinaryExact(requestPath: string, defaultUser: string)
    requires NormalizeResourcePath(requestPath, defaultUser).1 != ""
    ensures var r := NormalizeResourcePath(requestPath, defaultUser).1;
      && (CleanResource(r) <==> Addressed(requestPath) != ["."] && Addressed(requestPath) != [".."])
      && (CleanResource(r) <==> TreePath(r) != [])
  {
    NormalizeReadsSegments(requestPath, defaultUser);
    AddressedOrdinary(requestPath);
    var segs := Addressed(requestPath);
    var r := NormalizeResourcePath(requestPath, defaultUser).1;
    if |segs| > 1 {
      CleanJoined(segs[1..]);
    } else {
      assert segs == [r];
      SplitFree(r, '/');
      if Ordinary(r) {
        assert Join([r], "/") == r;
        CleanJoined([r]);
      } else {
        assert "/" + r == "" + "/" + r;
        SplitAppend("", '/', r);
        assert Split("/" + r, '/') == ["", r];
        assert ["", r][1..] == [r] && [r][1..] == [];
        assert CleanSegments([], [r], true) == CleanSegments([], [], true);
      }
    }
  }

  lemma ResourceNotRooted(requestPath: string, defaultUser: string)
    requires NormalizeResourcePath(requestPath, defaultUser).1 != ""
    ensures NormalizeResourcePath(requestPath, defaultUser).1[0] != '/'
  {
    NormalizeReadsSegments(requestPath, defaultUser);
    AddressedOrdinary(requestPath);
    var segs := Addressed(requestPath);
  }

  /** What the WebDAV handler sees once its prefix is stripped is the node hydration wrote. */
  lemma HandlerSeesHydratedPath(requestPath: string, defaultUser: string)
    requires NormalizeResourcePath(requestPath, defaultUser).1 != ""
    ensures var r := NormalizeResourcePath(requestPath, defaultUser).1;
      Segments(TrimPrefix(ToHandlerPath(r), PREFIX)) == TreePath(r)
  {
    ResourceNotRooted(requestPath, defaultUser);
  }

  /** The canonical spelling of a user's resource reaches that user and that resource. */
  lemma CanonicalPath(user: string, segs: seq<string>)
    requires Ordinary(user) && AllOrdinary(segs) && segs != []
    ensures forall d :: NormalizeResourcePath("/" + Join(["caldav", user] + segs, "/"), d) == (user, Join(segs, "/"))
  {
    var all := ["caldav", user] + segs;
    assert forall i :: 0 <= i < |segs| ==> all[i + 2] == segs[i];
    assert Ordinary("caldav");
    SegmentsOfJoined(all);
    var p := "/" + Join(all, "/");
    assert all[1..] == [user] + segs;
    assert Addressed(p) == [user] + segs;
    assert ([user] + segs)[1..] == segs;
    forall d {
      NormalizeReadsSegments(p, d);
    }
  }

  // ----- where the two surprises are met -----

  lemma CleanSegmentsCons(stack: seq<string>, seg: string, rest: seq<string>)
    ensures CleanSegments(stack, [seg] + rest, true) == CleanSegments(CleanStep(stack, seg, true), rest, true)
  {
    assert ([seg] + rest)[1..] == rest;
  }

  /** The server mounts `/caldav` and what lies below, but a dot-dot segment leads out of the mount:
      `/caldav/../x` is handled as `/x`. */
  function Outside(segs: seq<string>): string {
    "/" + Join(["caldav", ".."] + segs, "/")
  }

  lemma OutsideSegments(segs: seq<string>)
    requires AllOrdinary(segs) && segs != []
    ensures Segments(Outside(segs)) == segs
  {
    var all := ["caldav", ".."] + segs;
    SplitJoin(all, '/');
    assert [""] + all == [""] + (["caldav"] + ([".."] + segs));
    DotDotUndoes(segs);
  }

  lemma DotDotUndoes(segs: seq<string>)
    requires AllOrdinary(segs)
    ensures CleanSegments([], [""] + (["caldav"] + ([".."] + segs)), true) == segs
  {
    CleanSegmentsCons([], "", ["caldav"] + ([".."] + segs));
    CleanSegmentsCons([], "caldav", [".."] + segs);
    assert [] + ["caldav"] == ["caldav"];
    CleanSegmentsCons(["caldav"], "..", segs);
    assert ["caldav"][..0] == [];
    CleanSegmentsFixes([], segs);
    assert [] + segs == segs;
  }

  /** Spelled through the root, a user or a file can follow the prefix without a slash. */
  lemma OutsideAddressed(first: string, more: seq<string>, defaultUser: string)
    requires first != "" && '/' !in first && AllOrdinary(more)
    ensures NormalizeResourcePath(Outside(["caldav" + first] + more), defaultUser) ==
            AddressOf([first] + more, defaultUser)
  {
    var seg := "caldav" + first;
    assert seg[0] == 'c' && |seg| > 6 && seg[6..] == first && seg[..6] == "caldav";
    assert Ordinary(seg);
    var segs := [seg] + more;
    assert segs[1..] == more;
    OutsideSegments(segs);
    assert Addressed(Outside(segs)) == [first] + more;
    NormalizeReadsSegments(Outside(segs), defaultUser);
  }

  lemma OutsideSpelled(segs: seq<string>)
    requires segs != []
    ensures Outside(segs) == "/caldav/../" + Join(segs, "/")
  {
    JoinAppend(["caldav", ".."], segs, "/");
    assert ["caldav", ".."][1..] == [".."];
    assert Join(["caldav", ".."], "/") == "caldav" + "/" + "..";
    assert "/" + ("caldav" + "/" + ".." + "/" + Join(segs, "/")) == "/caldav/../" + Join(segs, "/");
  }

  /** A request that reaches the handler and whose resource is the root of the tree:
      `/caldav/../caldav.` addresses the resource `.`. */
  lemma DotReachable(defaultUser: string)
    ensures NormalizeResourcePath("/caldav/../caldav.", defaultUser) == (defaultUser, ".")
    ensures TreePath(".") == []
  {
    OutsideSpelled(["caldav."]);
    assert "/caldav/../" + "caldav." == "/caldav/../caldav.";
    OutsideAddressed(".", [], defaultUser);
    assert "caldav" + "." == "caldav.";
    assert ["caldav" + "."] + [] == ["caldav."];
    assert [""] + ["."] == ["", "."];
    SplitFree(".", '/');
    assert "/" + "." == "/.";
    CleanSegmentsCons([], "", ["."]);
    assert ["."] + [] == ["."];
    CleanSegmentsCons([], ".", []);
  }

  /** Two requests that reach the handler, differ after cleaning, and address one resource:
      `/caldav/../caldavx/f` and `/caldav/x/f`. */
  lemma AliasReachable(defaultUser: string)
    ensures NormalizeResourcePath("/caldav/../caldavx/f", defaultUser) == ("x", "f")
    ensures NormalizeResourcePath("/" + Join(["caldav", "x", "f"], "/"), defaultUser) == ("x", "f")
  {
    OutsideSpelled(["caldavx", "f"]);
    assert ["caldavx", "f"][1..] == ["f"];
    assert "/caldav/../" + ("caldavx" + "/" + "f") == "/caldav/../caldavx/f";
    OutsideAddressed("x", ["f"], defaultUser);
    assert "caldav" + "x" == "caldavx";
    assert ["caldav" + "x"] + ["f"] == ["caldavx", "f"];
    assert (["x"] + ["f"])[1..] == ["f"] && Join(["f"], "/") == "f";
    assert ["caldav", "x"] + ["f"] == ["caldav", "x", "f"];
    CanonicalPath("x", ["f"]);
  }

  // ----- the plain spellings -----

  /** Dot and empty segments disappear from a path, ... */
  lemma CleanDropsEmpty(a: seq<string>, x: string, b: seq<string>)
    requires AllOrdinary(a) && (x == "." || x == "") && AllOrdinary(b)
    ensures CleanSegments([], a + ([x] + b), true) == a + b
  {
    CleanThrough(a, [x] + b);
    CleanSegmentsCons(a, x, b);
    CleanSegmentsFixes(a, b);
  }

  /** ... and a dot-dot segment together with the segment before it. */
  lemma CleanDropsParent(a: seq<string>, x: string, b: seq<string>)
    requires AllOrdinary(a) && Ordinary(x) && AllOrdinary(b)
    ensures CleanSegments([], a + ([x] + ([".."] + b)), true) == a + b
  {
    CleanThrough(a, [x] + ([".."] + b));
    CleanSegmentsCons(a, x, [".."] + b);
    CleanSegmentsCons(a + [x], "..", b);
    assert (a + [x])[..|a|] == a;
    CleanSegmentsFixes(a, b);
  }

  lemma {:induction false} CleanThrough(a: seq<string>, rest: seq<string>)
    requires AllOrdinary(a)
    ensures CleanSegments([], a + rest, true) == CleanSegments(a, rest, true)
    decreases |a|
  {
    if a == [] {
      assert a + rest == rest;
    } else {
      var init, x := a[..|a| - 1], a[|a| - 1];
      assert a + rest == init + ([x] + rest) && init + [x] == a;
      CleanThrough(init, [x] + rest);
      CleanSegmentsCons(init, x, rest);
    }
  }

  /** `/caldav/{user}` is the user's root, and `/caldav/{file}` with a dot is a file of the default user. */
  lemma OneSegment(seg: string, defaultUser: string)
    requires Ordinary(seg)
    ensures NormalizeResourcePath("/caldav/" + seg, defaultUser) ==
            if '.' in seg then (defaultUser, seg) else (seg, "")
  {
    assert ["caldav", seg][1..] == [seg];
    assert "/" + Join(["caldav", seg], "/") == "/caldav/" + seg by {
      assert Join(["caldav", seg], "/") == "caldav" + "/" + seg;
      assert "/" + ("caldav" + "/" + seg) == "/caldav/" + seg;
    }
    SegmentsOfJoined(["caldav", seg]);
    assert Addressed("/caldav/" + seg) == [seg];
    NormalizeReadsSegments("/caldav/" + seg, defaultUser);
  }

  /** The mount itself, and any path whose first segment does not start with the prefix, is the default
      user's root. */
  lemma RootOfDefault(requestPath: string, defaultUser: string)
    requires !Rooted(requestPath) || Segments(requestPath) == [] || Segments(requestPath) == ["caldav"]
             || !HasPrefix(Segments(requestPath)[0], "caldav")
    ensures NormalizeResourcePath(requestPath, defaultUser) == (defaultUser, "")
  {
    NormalizeReadsSegments(requestPath, defaultUser);
  }
}
