/** What a path means: its list of segments and whether it starts at the root. Normalising
    keeps exactly that, and a sanitized file name stays below its app's directory. */
module Paths {
  import opened Basics

  const PATH_MAX_LEN: nat := 256

  // ---------- Segments ----------

  function FirstSlash(s: string): (n: nat)
    ensures n <= |s| && '/' !in s[..n]
    ensures n < |s| ==> s[n] == '/'
  {
    if s == "" || s[0] == '/' then 0 else 1 + FirstSlash(s[1..])
  }

  /** The non-empty parts between the slashes. */
  function Segments(s: string): (segments: seq<string>)
    ensures Proper(segments)
    decreases |s|
  {
    if s == "" then []
    else if s[0] == '/' then Segments(s[1..])
    else [s[..FirstSlash(s)]] + Segments(s[FirstSlash(s)..])
  }

  predicate Proper(segments: seq<string>) {
    forall i :: 0 <= i < |segments| ==> segments[i] != "" && '/' !in segments[i]
  }

  predicate Absolute(s: string) {
    s != "" && s[0] == '/'
  }

  function Root(s: string): string {
    if Absolute(s) then "/" else ""
  }

  function Join(segments: seq<string>): string {
    if segments == [] then ""
    else if |segments| == 1 then segments[0]
    else segments[0] + "/" + Join(segments[1..])
  }

  lemma SegmentThenRest(segment: string, rest: string)
    requires segment != "" && '/' !in segment && (rest == "" || rest[0] == '/')
    ensures FirstSlash(segment + rest) == |segment|
    ensures Segments(segment + rest) == [segment] + Segments(rest)
  {
    FirstSlashAfter(segment, rest);
    var s := segment + rest;
    hide FirstSlash;
    assert s[0] in segment;
    assert s[..|segment|] == segment && s[|segment|..] == rest;
  }

  lemma {:induction false} FirstSlashAfter(segment: string, rest: string)
    requires '/' !in segment && (rest == "" || rest[0] == '/')
    ensures FirstSlash(segment + rest) == |segment|
  {
    if segment != "" {
      FirstSlashAfter(segment[1..], rest);
      assert (segment + rest)[0] in segment;
      assert (segment + rest)[1..] == segment[1..] + rest;
    } else {
      assert "" + rest == rest;
    }
  }

  lemma SegmentsOfRooted(s: string)
    ensures Segments("/" + s) == Segments(s)
  {
    assert ("/" + s)[1..] == s;
  }

  lemma FirstOfSegments(s: string)
    requires s != "" && s[0] != '/'
    ensures var n := FirstSlash(s); n > 0 && s == s[..n] + s[n..] && Segments(s) == [s[..n]] + Segments(s[n..])
  {
    hide FirstSlash;
  }

  /** Two texts with a slash between them have the segments of the first and of the second. */
  lemma {:induction false} SegmentsOfBoth(a: string, b: string)
    ensures Segments(a + "/" + b) == Segments(a) + Segments(b)
    decreases |a|
  {
    if a == "" {
      assert a + "/" + b == "/" + b;
      SegmentsOfRooted(b);
    } else if a[0] == '/' {
      SegmentsOfBoth(a[1..], b);
      assert (a + "/" + b)[1..] == a[1..] + "/" + b;
    } else {
      FirstOfSegments(a);
      hide Segments;
      var n := FirstSlash(a);
      var first, rest := a[..n], a[n..];
      SegmentsOfBoth(rest, b);
      Assoc(first, rest, "/");
      Assoc(first, rest + "/", b);
      SegmentThenRest(first, rest + "/" + b);
    }
  }

  /** Joining and splitting are inverse. */
  lemma {:induction false} SegmentsOfJoin(segments: seq<string>)
    requires Proper(segments)
    ensures Segments(Join(segments)) == segments
  {
    if segments != [] {
      SegmentsOfJoin(segments[1..]);
      SegmentThenRest(segments[0], "");
      assert segments[0] + "" == segments[0];
      assert Segments("") == [];
      if |segments| > 1 {
        SegmentsOfBoth(segments[0], Join(segments[1..]));
      } else {
        assert segments == [segments[0]];
      }
    }
  }

  lemma {:induction false} JoinEnds(segments: seq<string>)
    requires Proper(segments) && segments != []
    ensures var j := Join(segments); j != "" && j[0] != '/' && j[|j| - 1] != '/'
  {
    if |segments| > 1 {
      JoinEnds(segments[1..]);
    }
  }

  // ---------- Normalising ----------

  // Drops every slash that follows a slash.
  function Squeeze(s: string, lastWasSlash: bool): string {
    if s == "" then ""
    else if s[0] != '/' then [s[0]] + Squeeze(s[1..], false)
    else if lastWasSlash then Squeeze(s[1..], true)
    else "/" + Squeeze(s[1..], true)
  }

  function Trim(s: string): string {
    if |s| > 1 && s[|s| - 1] == '/' then s[..|s| - 1] else s
  }

  function Normalize(s: string): string {
    Trim(Squeeze(s, false))
  }

  lemma {:induction false} SqueezeSegment(segment: string, rest: string, last: bool)
    requires segment != "" && '/' !in segment
    ensures Squeeze(segment + rest, last) == segment + Squeeze(rest, false)
    decreases |segment|
  {
    var s := segment + rest;
    assert s[0] == segment[0] && segment[0] in segment;
    assert s[1..] == segment[1..] + rest;
    if |segment| > 1 {
      SqueezeSegment(segment[1..], rest, false);
    } else {
      assert s[1..] == rest;
    }
  }

  // The slash that stays behind the last segment.
  function Tail(s: string): string {
    if Segments(s) != [] && s != "" && s[|s| - 1] == '/' then "/" else ""
  }

  lemma {:induction false} NoSegments(s: string)
    requires Segments(s) == [] && s != ""
    ensures s[|s| - 1] == '/'
    decreases |s|
  {
    if |s| > 1 {
      NoSegments(s[1..]);
    }
  }

  lemma {:induction false} SqueezeIsJoin(s: string)
    ensures Squeeze(s, true) == Join(Segments(s)) + Tail(s)
    decreases |s|
  {
    if s == "" {
    } else if s[0] == '/' {
      SqueezeIsJoin(s[1..]);
    } else {
      var n := FirstSlash(s);
      FirstOfSegments(s);
      hide Squeeze, Segments, Join, Tail;
      SqueezeSegment(s[..n], s[n..], true);
      if n == |s| {
        SqueezeLastSegment(s);
      } else {
        SqueezeIsJoin(s[n + 1..]);
        SqueezeAtSlash(s, n);
      }
    }
  }

  lemma SqueezeLastSegment(s: string)
    requires s != "" && FirstSlash(s) == |s| && Squeeze(s, true) == s[..|s|] + Squeeze(s[|s|..], false)
    ensures Squeeze(s, true) == Join(Segments(s)) + Tail(s)
  {
    assert s[..|s|] == s && s[|s|..] == "";
    assert s[|s| - 1] in s[..|s|];
    assert s[0] in s[..|s|];
    assert s + "" == s;
    FirstOfSegments(s);
  }

  lemma SqueezeAtSlash(s: string, n: nat)
    requires s != "" && s[0] != '/' && n == FirstSlash(s) < |s|
    requires Squeeze(s, true) == s[..n] + Squeeze(s[n..], false)
    requires Squeeze(s[n + 1..], true) == Join(Segments(s[n + 1..])) + Tail(s[n + 1..])
    ensures Squeeze(s, true) == Join(Segments(s)) + Tail(s)
  {
    AtSlash(s, n);
    var first, rest := s[..n], s[n + 1..];
    var segments := Segments(rest);
    assert Join([first]) == first;
    hide Squeeze, Segments, Tail, FirstSlash;
    if segments != [] {
      JoinFirst(first, segments);
      hide Join;
      Regroup(first, "/", Join(segments), Tail(s));
    }
  }

  lemma AtSlash(s: string, n: nat)
    requires s != "" && s[0] != '/' && n == FirstSlash(s) < |s|
    ensures var rest := s[n + 1..];
      && Segments(s) == [s[..n]] + Segments(rest)
      && Squeeze(s[n..], false) == "/" + Squeeze(rest, true)
      && Tail(s) == (if Segments(rest) == [] then "/" else Tail(rest))
      && (Segments(rest) == [] ==> Tail(rest) == "")
  {
    var rest := s[n + 1..];
    assert s[n..][1..] == rest;
    FirstOfSegments(s);
    if Segments(rest) == [] {
      NoSegments(s[n..]);
    } else {
      assert rest[|rest| - 1] == s[|s| - 1];
    }
  }

  lemma JoinFirst(first: string, segments: seq<string>)
    requires segments != []
    ensures Join([first] + segments) == first + "/" + Join(segments)
  {
    assert ([first] + segments)[1..] == segments;
  }

  lemma Regroup(a: string, b: string, c: string, d: string)
    ensures a + (b + (c + d)) == a + b + c + d
  {
    Assoc(a + b, c, d);
    Assoc(a, b, c + d);
  }

  /** Normalising is splitting at the slashes and joining again, with one slash in front if
      there was one. */
  lemma NormalizeIsCanonical(s: string)
    ensures Normalize(s) == Root(s) + Join(Segments(s))
  {
    if s == "" {
      return;
    }
    var joined := Join(Segments(s));
    if Segments(s) != [] {
      JoinEnds(Segments(s));
    }
    if Absolute(s) {
      SqueezeIsJoin(s[1..]);
      assert Squeeze(s, false) == "/" + (joined + Tail(s[1..]));
      hide Squeeze, Segments, Join, Absolute;
      TrimJoined("/", joined, Tail(s[1..]));
    } else {
      SqueezeIsJoin(s);
      assert Squeeze(s, false) == Squeeze(s, true);
      assert "" + (joined + Tail(s)) == joined + Tail(s);
      hide Squeeze, Segments, Join, Absolute;
      TrimJoined("", joined, Tail(s));
    }
  }

  lemma TrimJoined(root: string, joined: string, tail: string)
    requires root == "" || root == "/"
    requires tail == "" || (tail == "/" && joined != "")
    requires joined != "" ==> joined[|joined| - 1] != '/'
    ensures Trim(root + (joined + tail)) == root + joined
  {
    assert root + (joined + "/") == root + joined + "/";
    assert root + (joined + "") == root + joined;
    assert (root + joined + "/")[..|root + joined|] == root + joined;
  }

  /** The segments and the starting point of a path survive. */
  lemma NormalizeKeepsMeaning(s: string)
    ensures Segments(Normalize(s)) == Segments(s)
    ensures Absolute(Normalize(s)) == Absolute(s)
  {
    NormalizeIsCanonical(s);
    var segments := Segments(s);
    SegmentsOfJoin(segments);
    SegmentsOfRooted(Join(segments));
    assert "" + Join(segments) == Join(segments);
    if segments != [] {
      JoinEnds(segments);
    }
  }

  /** Two paths have the same normal form exactly when they mean the same. */
  lemma NormalizeIff(s: string, t: string)
    ensures Normalize(s) == Normalize(t) <==> Segments(s) == Segments(t) && Absolute(s) == Absolute(t)
  {
    NormalizeIsCanonical(s);
    NormalizeIsCanonical(t);
    NormalizeKeepsMeaning(s);
    NormalizeKeepsMeaning(t);
    hide Normalize, Segments, Absolute, Join;
  }

  lemma NormalizeIsIdempotent(s: string)
    ensures Normalize(Normalize(s)) == Normalize(s)
  {
    NormalizeKeepsMeaning(s);
    hide Normalize, Segments, Absolute;
    NormalizeIff(Normalize(s), s);
  }

  ghost predicate SingleSlashes(s: string, lastWasSlash: bool) {
    && (lastWasSlash && s != "" ==> s[0] != '/')
    && (forall i :: 0 <= i < |s| - 1 ==> s[i] != '/' || s[i + 1] != '/')
  }

  lemma {:induction false} SqueezeLeavesSingles(s: string, last: bool)
    ensures SingleSlashes(Squeeze(s, last), last)
    decreases |s|
  {
    if s != "" {
      SqueezeLeavesSingles(s[1..], s[0] == '/');
    }
  }

  /** No slash follows another, and none ends a path that is not the root. */
  lemma NormalizeLeavesNoExtraSlash(s: string)
    ensures var r := Normalize(s);
      && (forall i :: 0 <= i < |r| - 1 ==> r[i] != '/' || r[i + 1] != '/')
      && (r != "" && r != "/" ==> r[|r| - 1] != '/')
  {
    SqueezeLeavesSingles(s, false);
    hide Squeeze;
    var x := Squeeze(s, false);
    assert |x| > 1 ==> x[|x| - 2] != '/' || x[|x| - 2 + 1] != '/';
  }

  // ---------- Building ----------

  /** base/app/file, leaving out what is empty. */
  function Joined(base: string, app: string, file: string): string {
    WithSlash(base) + app + (if app != "" && file != "" then "/" else "") + file
  }

  function WithSlash(base: string): string {
    if base == "" || base[|base| - 1] == '/' then base else base + "/"
  }

  lemma SegmentsAfterBase(base: string, rest: string)
    ensures Segments(WithSlash(base) + rest) == Segments(base) + Segments(rest)
  {
    if base == "" {
      assert "" + rest == rest;
    } else if base[|base| - 1] == '/' {
      var above := base[..|base| - 1];
      assert base == above + "/";
      hide Segments;
      SegmentsOfSlashed(above);
      SegmentsOfBoth(above, rest);
    } else {
      hide Segments;
      SegmentsOfBoth(base, rest);
    }
  }

  lemma SegmentsOfSlashed(s: string)
    ensures Segments(s + "/") == Segments(s)
  {
    SegmentsOfBoth(s, "");
    assert s + "/" + "" == s + "/";
    assert Segments("") == [];
  }

  lemma {:induction false} JoinBoth(a: seq<string>, b: seq<string>)
    requires a != [] && b != []
    ensures Join(a + b) == Join(a) + "/" + Join(b)
  {
    assert (a + b)[1..] == a[1..] + b;
    if |a| > 1 {
      JoinBoth(a[1..], b);
    } else {
      assert a[1..] + b == b;
    }
  }

  lemma WithSlashJoins(base: string, names: seq<string>)
    requires base != "" && base == Root(base) + Join(Segments(base)) && names != []
    ensures WithSlash(base) + Join(names) == Root(base) + Join(Segments(base) + names)
  {
    var above := Segments(base);
    hide Segments;
    if above == [] {
      assert above + names == names && Join(above) == "";
    } else {
      JoinBoth(above, names);
      JoinEnds(above);
      hide Join;
      assert base[|base| - 1] == Join(above)[|Join(above)| - 1];
      assert WithSlash(base) + Join(names) == Root(base) + (Join(above) + "/" + Join(names));
    }
  }

  lemma NormalIsJoined(s: string)
    requires s != "" && Normalize(s) == s
    ensures s == Root(s) + Join(Segments(s))
    ensures !Absolute(s) ==> Segments(s) != [] && s == Join(Segments(s))
  {
    NormalizeIsCanonical(s);
  }

  lemma JoinedText(base: string, app: string, file: string)
    requires base != "" && app != "" && file != ""
    ensures Joined(base, app, file) == WithSlash(base) + (app + "/" + file)
    ensures Root(Joined(base, app, file)) == Root(base)
  {
  }

  /** A path that is built of normal parts is normal: no slash is added that normalising would
      take away. */
  lemma BuiltIsNormal(base: string, app: string, file: string)
    requires base != "" && app != "" && file != "" && !Absolute(app) && !Absolute(file)
    requires Normalize(base) == base && Normalize(app) == app && Normalize(file) == file
    ensures Normalize(Joined(base, app, file)) == Joined(base, app, file)
  {
    JoinedText(base, app, file);
    hide Normalize, Joined, WithSlash, Segments, Join;
    NormalIsJoined(base);
    NormalIsJoined(app);
    NormalIsJoined(file);
    NormalizeIsCanonical(Joined(base, app, file));
    hide Root, Absolute;
    SegmentsAfterBase(base, app + "/" + file);
    SegmentsOfBoth(app, file);
    JoinBoth(Segments(app), Segments(file));
    WithSlashJoins(base, Segments(app) + Segments(file));
  }

  // A name that is one segment.
  predicate OneSegment(app: string) {
    app != "" && '/' !in app
  }

  lemma SegmentsOfJoined(base: string, app: string, file: string)
    requires OneSegment(app) && file != ""
    ensures Segments(Joined(base, app, file)) == Segments(base) + [app] + Segments(file)
  {
    assert app + "" == app && Segments("") == [];
    hide Segments;
    SegmentThenRest(app, "");
    SegmentsOfBoth(app, file);
    SegmentsAfterBase(base, app + "/" + file);
    Assoc(WithSlash(base), app, "/");
    Assoc(WithSlash(base), app + "/", file);
    hide WithSlash;
  }

  // ---------- Sanitizing ----------

  predicate HasDots(s: string) {
    exists i :: 0 <= i < |s| - 1 && s[i] == '.' && s[i + 1] == '.'
  }

  datatype Verdict = Safe | Invalid | NotPermitted | NoAccess | TooLong

  function Sanitize(path: string): Verdict {
    if path == "" then Invalid
    else if path[0] == '/' then NotPermitted
    else if HasDots(path) then NoAccess
    else if |path| >= PATH_MAX_LEN then TooLong
    else Safe
  }

  lemma {:induction false} DotsInSegment(s: string)
    requires ".." in Segments(s)
    ensures HasDots(s)
    decreases |s|
  {
    if s != "" && s[0] == '/' {
      DotsInSegment(s[1..]);
      var i :| 0 <= i < |s[1..]| - 1 && s[1..][i] == '.' && s[1..][i + 1] == '.';
      assert s[i + 1] == '.' && s[i + 1 + 1] == '.';
    } else if s != "" {
      var n := FirstSlash(s);
      if s[..n] == ".." {
        assert s[0] == s[..n][0] && s[0 + 1] == s[..n][1];
      } else {
        DotsInSegment(s[n..]);
        var i :| 0 <= i < |s[n..]| - 1 && s[n..][i] == '.' && s[n..][i + 1] == '.';
        assert s[n + i] == '.' && s[n + i + 1] == '.';
      }
    }
  }

  // Two dots in a row are within one segment.
  lemma {:induction false} DotsIff(s: string)
    ensures HasDots(s) <==> exists i :: 0 <= i < |Segments(s)| && HasDots(Segments(s)[i])
    decreases |s|
  {
    if s != "" && s[0] == '/' {
      DotsIff(s[1..]);
      DotsLater(s, 1);
      SegmentsBehindSlash(s);
      assert !HasDots(s[..1]);
      hide HasDots, Segments;
      assert Segments(s) == Segments(s[1..]);
    } else if s != "" {
      FirstOfSegments(s);
      var n := FirstSlash(s);
      DotsIff(s[n..]);
      DotsLater(s, n);
      hide HasDots, Segments, FirstSlash;
      var rest := Segments(s[n..]);
      assert Segments(s) == [s[..n]] + rest;
      assert HasDots(s[..n]) ==> HasDots(Segments(s)[0]);
      assert forall i :: 0 <= i < |rest| ==> rest[i] == Segments(s)[i + 1];
      assert forall i :: 0 < i < |Segments(s)| ==> Segments(s)[i] == rest[i - 1];
    }
  }

  lemma SegmentsBehindSlash(s: string)
    requires s != "" && s[0] == '/'
    ensures Segments(s) == Segments(s[1..])
  {
  }

  // No dots across the end of a segment.
  lemma DotsLater(s: string, n: nat)
    requires 0 < n <= |s| && (n < |s| ==> s[n] == '/' || s[n - 1] == '/')
    ensures HasDots(s) <==> HasDots(s[..n]) || HasDots(s[n..])
  {
    if HasDots(s[..n]) {
      var i :| 0 <= i < |s[..n]| - 1 && s[..n][i] == '.' && s[..n][i + 1] == '.';
      assert s[i] == '.' && s[i + 1] == '.';
    }
    if HasDots(s[n..]) {
      var i :| 0 <= i < |s[n..]| - 1 && s[n..][i] == '.' && s[n..][i + 1] == '.';
      assert s[n + i] == '.' && s[n + i + 1] == '.';
    }
    if HasDots(s) {
      var i :| 0 <= i < |s| - 1 && s[i] == '.' && s[i + 1] == '.';
      if i + 1 < n {
        assert s[..n][i] == '.' && s[..n][i + 1] == '.';
      } else {
        assert s[n..][i - n] == '.' && s[n..][i - n + 1] == '.';
      }
    }
  }

  /** What is refused, and why: the empty path, an absolute one, one with two dots in a row in any
      segment, and one that does not fit its buffer; and nothing else. */
  lemma SafeIff(path: string)
    ensures var dots := exists i :: 0 <= i < |Segments(path)| && HasDots(Segments(path)[i]);
      && (Sanitize(path) == Safe <==> path != "" && !Absolute(path) && !dots && |path| < PATH_MAX_LEN)
      && (Sanitize(path) == Invalid <==> path == "")
      && (Sanitize(path) == NotPermitted <==> Absolute(path))
      && (Sanitize(path) == NoAccess <==> path != "" && !Absolute(path) && dots)
  {
    DotsIff(path);
    hide Segments, HasDots;
  }

  // ---------- Where a path leads ----------

  /** Walking the segments from the root: "." stays, ".." goes up. */
  function Resolve(segments: seq<string>): seq<string>
    decreases |segments|
  {
    if segments == [] then [] else
    var n := |segments| - 1;
    var place := Resolve(segments[..n]);
    if segments[n] == "." then place
    else if segments[n] != ".." then place + [segments[n]]
    else if place == [] then []
    else place[..|place| - 1]
  }

  /** Without ".." one only goes down. */
  lemma {:induction false} ResolveBelow(above: seq<string>, below: seq<string>)
    requires ".." !in below
    ensures Resolve(above + below) == Resolve(above) + Resolve(below)
    decreases |below|
  {
    if below == [] {
      assert above + below == above;
    } else {
      var n := |below| - 1;
      assert below[n] in below;
      ResolveBelow(above, below[..n]);
      assert (above + below)[..|above| + n] == above + below[..n];
    }
  }

  lemma {:induction false} ResolvedNames(segments: seq<string>)
    ensures "." !in Resolve(segments) && ".." !in Resolve(segments)
    decreases |segments|
  {
    if segments != [] {
      ResolvedNames(segments[..|segments| - 1]);
    }
  }

  function Place(path: string): seq<string> {
    Resolve(Segments(path))
  }

  lemma SafeStaysBelow(base: string, app: string, file: string)
    requires OneSegment(app) && app != "." && app != ".." && Sanitize(file) == Safe
    ensures Place(Joined(base, app, file)) == Place(base) + [app] + Place(file)
  {
    if ".." in Segments(file) {
      DotsInSegment(file);
    }
    hide Segments;
    SegmentsOfJoined(base, app, file);
    ResolveBelow(Segments(base), [app]);
    ResolveBelow([], [app]);
    ResolveBelow(Segments(base) + [app], Segments(file));
    assert Resolve([app]) == [app] by {
      assert [app][..0] == [];
    }
  }

  lemma PrefixHolds(above: seq<string>, name: string, place: seq<string>)
    ensures above + [name] <= place ==> name in place
  {
    if above + [name] <= place {
      assert (above + [name])[|above|] == place[|above|];
    }
  }

  /** A sanitized file of an app whose name is one segment is found in the app's directory
      below the base, exactly when the app is not called "." or "..". */
  lemma SafeStaysBelowIff(base: string, app: string, file: string)
    requires OneSegment(app) && Sanitize(file) == Safe
    ensures Place(base) + [app] <= Place(Joined(base, app, file)) <==> app != "." && app != ".."
  {
    if app != "." && app != ".." {
      SafeStaysBelow(base, app, file);
    } else {
      ResolvedNames(Segments(Joined(base, app, file)));
      hide Segments, Resolve, Joined;
      PrefixHolds(Place(base), app, Place(Joined(base, app, file)));
    }
  }
}
