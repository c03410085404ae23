/** Running-state detection (lib.rs:133-151): which lines of a `ps -axo
    command` snapshot count as a running app with a given bundle name.  The
    snapshot itself is an input; taking it is not modelled. */
module ProcessMatch {
  import opened Text
  import opened Paths

  /** The marker of helper processes that never count as the app. */
  const SidecarMarker: string := "/backend-sidecar"

  /** The text a launchable line must contain: the executable directory of
      the bundle, lower-cased as a whole. */
  function BundleSegment(bundle: string): string {
    ToLower("/" + bundle + ".app/contents/macos/")
  }

  /** Only the bundle name in the segment has letters to fold. */
  lemma BundleSegmentSplit(bundle: string)
    ensures BundleSegment(bundle) == "/" + ToLower(bundle) + ".app/contents/macos/"
  {
    ToLowerConcat("/" + bundle, ".app/contents/macos/");
    ToLowerConcat("/", bundle);
  }

  /** `is_launchable_app_process_line` (lib.rs:133-145). */
  function IsLaunchableAppProcessLine(line: string, bundle: string): bool {
    var normalized := ToLower(Trim(line));
    if normalized == [] then false
    else if !Contains(normalized, BundleSegment(bundle)) then false
    else !Contains(normalized, SidecarMarker)
  }

  /** `lines().any(...)` of `is_app_running_in_commands` (lib.rs:147-151),
      one line after the other. */
  function AnyLaunchable(lines: seq<string>, bundle: string): bool {
    if lines == [] then false
    else IsLaunchableAppProcessLine(lines[0], bundle) || AnyLaunchable(lines[1..], bundle)
  }

  /** `is_app_running_in_commands` (lib.rs:147-151). */
  function IsAppRunningInCommands(bundle: string, commands: string): bool {
    AnyLaunchable(Lines(commands), bundle)
  }

  // ---------------------------------------------------------------------
  // What a launchable line is

  /** Lower-casing leaves white space alone, so trimming before or after
      it is the same. */
  lemma LowerCharKeepsWhitespace(c: char)
    ensures IsWhitespace(LowerChar(c)) <==> IsWhitespace(c)
  {
  }

  /** A pattern whose first and last characters are not white space occurs
      in the lower-cased line exactly when it occurs in the lower-cased
      trimmed line: trimming only removes white space around it. */
  lemma OccursIgnoringTrim(t: string, s: string)
    requires t != [] && !IsWhitespace(t[0]) && !IsWhitespace(t[|t| - 1])
    ensures Occurs(t, ToLower(Trim(s))) <==> Occurs(t, ToLower(s))
  {
    if Occurs(t, ToLower(Trim(s))) {
      LowerTrimIsSlice(s);
      OccursInSlice(t, ToLower(s), TrimOffset(s), TrimOffset(s) + |Trim(s)|);
    }
    if Occurs(t, ToLower(s)) {
      OccursSurvivesTrim(t, s);
    }
  }

  /** The lower-cased trimmed line is a slice of the lower-cased line. */
  lemma LowerTrimIsSlice(s: string)
    ensures TrimOffset(s) + |Trim(s)| <= |s|
    ensures ToLower(Trim(s)) == ToLower(s)[TrimOffset(s)..TrimOffset(s) + |Trim(s)|]
  {
    var r, i := Trim(s), TrimOffset(s);
    TrimSpec(s);
    assert r == s[i..i + |r|];
    ToLowerSlice(s, i, i + |r|);
  }

  lemma OccursSurvivesTrim(t: string, s: string)
    requires t != [] && !IsWhitespace(t[0]) && !IsWhitespace(t[|t| - 1])
    requires Occurs(t, ToLower(s))
    ensures Occurs(t, ToLower(Trim(s)))
  {
    var p :| OccursAt(t, ToLower(s), p);
    OccurrenceSurvivesTrim(t, s, p);
  }

  lemma OccurrenceSurvivesTrim(t: string, s: string, p: int)
    requires t != [] && !IsWhitespace(t[0]) && !IsWhitespace(t[|t| - 1])
    requires OccursAt(t, ToLower(s), p)
    ensures OccursAt(t, ToLower(Trim(s)), p - TrimOffset(s))
  {
    var r := Trim(s);
    OccurrenceEndsAreNotWhitespace(t, s, p);
    TrimKeepsInnerSlice(s, p, p + |t|);
    var i := TrimOffset(s);
    assert r == s[i..i + |r|];
    ToLowerSlice(s, i, i + |r|);
    OccursInsideSlice(t, ToLower(s), p, i, i + |r|);
  }

  lemma OccurrenceEndsAreNotWhitespace(t: string, s: string, p: int)
    requires t != [] && !IsWhitespace(t[0]) && !IsWhitespace(t[|t| - 1])
    requires OccursAt(t, ToLower(s), p)
    ensures !IsWhitespace(s[p]) && !IsWhitespace(s[p + |t| - 1])
  {
    var low := ToLower(s);
    assert low[p] == t[0] && low[p + |t| - 1] == t[|t| - 1];
    LowerCharKeepsWhitespace(s[p]);
    LowerCharKeepsWhitespace(s[p + |t| - 1]);
  }

  /** The line test, stated without trimming: a line counts exactly when,
      ignoring ASCII case, it contains `/<bundle>.app/contents/macos/` and
      does not contain `/backend-sidecar`.  The non-empty test of the source
      is implied by the first condition. */
  lemma LaunchableLineIff(line: string, bundle: string)
    ensures IsLaunchableAppProcessLine(line, bundle) <==>
              Occurs(BundleSegment(bundle), ToLower(line)) && !Occurs(SidecarMarker, ToLower(line))
  {
    var seg := BundleSegment(bundle);
    var n := ToLower(Trim(line));
    assert seg[0] == '/' && seg[|seg| - 1] == '/';
    OccursIgnoringTrim(seg, line);
    OccursIgnoringTrim(SidecarMarker, line);
    ContainsIffOccurs(n, seg);
    ContainsIffOccurs(n, SidecarMarker);
  }

  /** A line naming the sidecar never counts, whatever the bundle. */
  lemma SidecarLineNeverCounts(line: string, bundle: string)
    requires Occurs(SidecarMarker, ToLower(line))
    ensures !IsLaunchableAppProcessLine(line, bundle)
  {
    LaunchableLineIff(line, bundle);
  }

  lemma LowerExecutableDirectory()
    ensures ToLower(".app/Contents/MacOS/") == ".app/contents/macos/"
  {
  }

  /** The bundle's executable directory, lower-cased, is its segment. */
  lemma LowerExecutableDirIsSegment(spelling: string, bundle: string)
    requires EqIgnoreCase(spelling, bundle)
    ensures ToLower("/" + spelling + ".app/Contents/MacOS/") == BundleSegment(bundle)
  {
    ToLowerConcat("/", spelling);
    ToLowerConcat("/" + spelling, ".app/Contents/MacOS/");
    BundleSegmentSplit(bundle);
    LowerExecutableDirectory();
  }

  /** `<dir>/<spelling>.app/Contents/MacOS/<exe>` holds the segment of
      every bundle name the spelling matches ignoring ASCII case, right after
      `dir`. */
  lemma SegmentOccurs(dir: string, spelling: string, exe: string, bundle: string)
    requires EqIgnoreCase(spelling, bundle)
    ensures OccursAt(BundleSegment(bundle), ToLower(dir + "/" + spelling + ".app/Contents/MacOS/" + exe), |dir|)
  {
    var line := dir + "/" + spelling + ".app/Contents/MacOS/" + exe;
    var mid := "/" + spelling + ".app/Contents/MacOS/";
    assert line == dir + mid + exe;
    ToLowerConcat(dir + mid, exe);
    ToLowerConcat(dir, mid);
    LowerExecutableDirIsSegment(spelling, bundle);
    var low := ToLower(line);
    assert low == ToLower(dir) + ToLower(mid) + ToLower(exe);
    assert low[|dir|..|dir| + |mid|] == ToLower(mid);
  }

  /** The executable of `<dir>/<bundle>.app/Contents/MacOS/<exe>` counts for
      every spelling of the bundle name that agrees ignoring ASCII case,
      wherever the bundle lives, unless the line names the sidecar. */
  lemma LaunchedBundleLineCounts(dir: string, spelling: string, exe: string, bundle: string)
    requires EqIgnoreCase(spelling, bundle)
    requires !Occurs(SidecarMarker, ToLower(dir + "/" + spelling + ".app/Contents/MacOS/" + exe))
    ensures IsLaunchableAppProcessLine(dir + "/" + spelling + ".app/Contents/MacOS/" + exe, bundle)
  {
    SegmentOccurs(dir, spelling, exe, bundle);
    LaunchableLineIff(dir + "/" + spelling + ".app/Contents/MacOS/" + exe, bundle);
  }

  /** A snapshot means "running" exactly when one of its lines counts. */
  lemma {:induction false} AnyLaunchableIff(lines: seq<string>, bundle: string)
    ensures AnyLaunchable(lines, bundle) <==>
              exists k :: 0 <= k < |lines| && IsLaunchableAppProcessLine(lines[k], bundle)
  {
    if lines != [] {
      AnyLaunchableIff(lines[1..], bundle);
      if AnyLaunchable(lines[1..], bundle) {
        var k :| 0 <= k < |lines[1..]| && IsLaunchableAppProcessLine(lines[1..][k], bundle);
        assert lines[k + 1] == lines[1..][k];
      }
      if exists k :: 0 <= k < |lines| && IsLaunchableAppProcessLine(lines[k], bundle) {
        var k :| 0 <= k < |lines| && IsLaunchableAppProcessLine(lines[k], bundle);
        if k > 0 {
          assert lines[1..][k - 1] == lines[k];
        }
      }
    }
  }

  lemma IsAppRunningInCommandsIff(bundle: string, commands: string)
    ensures IsAppRunningInCommands(bundle, commands) <==>
              exists line :: line in Lines(commands) && IsLaunchableAppProcessLine(line, bundle)
  {
    AnyLaunchableIff(Lines(commands), bundle);
  }

  // ---------------------------------------------------------------------
  // Lines made of `/`-led path pieces

  /** A path written as its pieces, each a `/` and a component. */
  function Concat(pieces: seq<string>): string {
    if pieces == [] then [] else pieces[0] + Concat(pieces[1..])
  }

  /** `p` starts with `/` and holds no other `/`. */
  predicate SlashPiece(p: string) {
    p != [] && p[0] == '/' && forall k :: 1 <= k < |p| ==> p[k] != '/'
  }

  /** A piece of a command line: a `/`, then a component with no `/` and no
      line break. */
  predicate PathPiece(p: string) {
    p != [] && p[0] == '/' && forall k :: 1 <= k < |p| ==> p[k] != '/' && p[k] != '\n'
  }

  predicate PathPieces(pieces: seq<string>) {
    forall i :: 0 <= i < |pieces| ==> PathPiece(pieces[i])
  }

  lemma {:induction false} ConcatSplit(pieces: seq<string>, k: int)
    requires 0 <= k <= |pieces|
    ensures Concat(pieces) == Concat(pieces[..k]) + Concat(pieces[k..])
  {
    if k > 0 {
      ConcatSplit(pieces[1..], k - 1);
      assert pieces[1..][..k - 1] == pieces[..k][1..];
      assert pieces[1..][k - 1..] == pieces[k..];
    }
  }

  lemma OccursInLeft(t: string, x: string, y: string)
    requires Occurs(t, ToLower(x))
    ensures Occurs(t, ToLower(x + y))
  {
    ToLowerConcat(x, y);
    assert ToLower(x + y)[..|x|] == ToLower(x);
    OccursInSlice(t, ToLower(x + y), 0, |x|);
  }

  lemma OccursInRight(t: string, x: string, y: string)
    requires Occurs(t, ToLower(y))
    ensures Occurs(t, ToLower(x + y))
  {
    ToLowerConcat(x, y);
    assert ToLower(x + y)[|x|..|x + y|] == ToLower(y);
    OccursInSlice(t, ToLower(x + y), |x|, |x + y|);
  }

  /** A pattern found in a run of consecutive pieces is found in the whole
      path. */
  lemma OccursInPieces(t: string, pieces: seq<string>, lo: int, hi: int)
    requires 0 <= lo <= hi <= |pieces|
    requires Occurs(t, ToLower(Concat(pieces[lo..hi])))
    ensures Occurs(t, ToLower(Concat(pieces)))
  {
    var rest := pieces[lo..];
    ConcatSplit(pieces, lo);
    ConcatSplit(rest, hi - lo);
    assert rest[..hi - lo] == pieces[lo..hi];
    OccursInLeft(t, Concat(pieces[lo..hi]), Concat(rest[hi - lo..]));
    OccursInRight(t, Concat(pieces[..lo]), Concat(rest));
  }

  lemma {:induction false} ConcatHasNoNewline(pieces: seq<string>)
    requires PathPieces(pieces)
    ensures '\n' !in Concat(pieces)
  {
    if pieces != [] {
      assert PathPiece(pieces[0]);
      assert PathPieces(pieces[1..]);
      ConcatHasNoNewline(pieces[1..]);
      forall k | 0 <= k < |Concat(pieces)| ensures Concat(pieces)[k] != '\n' {
        if k >= |pieces[0]| {
          assert Concat(pieces)[k] == Concat(pieces[1..])[k - |pieces[0]|];
        }
      }
    }
  }

  /** A path ends with the last character of its last piece. */
  lemma ConcatLast(pieces: seq<string>)
    requires pieces != [] && pieces[|pieces| - 1] != []
    ensures Concat(pieces) != []
    ensures Concat(pieces)[|Concat(pieces)| - 1] == pieces[|pieces| - 1][|pieces[|pieces| - 1]| - 1]
  {
    var n := |pieces|;
    ConcatSplit(pieces, n - 1);
    assert pieces[n - 1..] == [pieces[n - 1]];
    assert Concat(pieces[n - 1..]) == pieces[n - 1] + Concat([]);
  }

  lemma LowerKeepsSlashPiece(p: string)
    requires SlashPiece(p)
    ensures SlashPiece(ToLower(p))
  {
  }

  /** A pattern led by its only `/` occurs in a piece led by its only `/`
      exactly when it starts the piece. */
  lemma OccursInSlashPiece(t: string, a: string)
    requires t != [] && t[0] == '/'
    requires SlashPiece(a)
    ensures Occurs(t, a) <==> t <= a
  {
    if t <= a {
      assert OccursAt(t, a, 0);
    }
    if Occurs(t, a) {
      var p :| OccursAt(t, a, p);
      assert a[p] == t[0];
      assert p == 0;
    }
  }

  /** Such a pattern cannot straddle the `/` that starts `b`. */
  lemma OccursInSlashJoin(t: string, a: string, b: string)
    requires SlashPiece(t)
    requires b != [] && b[0] == '/'
    ensures Occurs(t, a + b) <==> Occurs(t, a) || Occurs(t, b)
  {
    var s := a + b;
    if Occurs(t, a) {
      var p :| OccursAt(t, a, p);
      assert s[p..p + |t|] == a[p..p + |t|];
      assert OccursAt(t, s, p);
    }
    if Occurs(t, b) {
      var p :| OccursAt(t, b, p);
      assert s[|a| + p..|a| + p + |t|] == b[p..p + |t|];
      assert OccursAt(t, s, |a| + p);
    }
    if Occurs(t, s) {
      var p :| OccursAt(t, s, p);
      forall k | p <= k < p + |t| ensures s[k] == t[k - p] {
        assert s[p..p + |t|][k - p] == s[k];
      }
      if p + |t| <= |a| {
        assert s[p..p + |t|] == a[p..p + |t|];
        assert OccursAt(t, a, p);
      } else {
        assert s[|a|] == '/';
        assert p >= |a|;
        assert s[p..p + |t|] == b[p - |a|..p - |a| + |t|];
        assert OccursAt(t, b, p - |a|);
      }
    }
  }

  /** A pattern led by its only `/` occurs in a path of pieces, ignoring
      ASCII case, exactly when it starts one of the lower-cased pieces. */
  lemma {:induction false} SlashPatternOccursIffPieceStart(t: string, pieces: seq<string>)
    requires SlashPiece(t)
    requires PathPieces(pieces)
    ensures Occurs(t, ToLower(Concat(pieces))) <==>
              exists i :: 0 <= i < |pieces| && t <= ToLower(pieces[i])
  {
    if pieces == [] {
      assert ToLower(Concat(pieces)) == [];
    } else {
      var head, tail := pieces[0], pieces[1..];
      assert PathPiece(head);
      assert PathPieces(tail);
      SlashPatternOccursIffPieceStart(t, tail);
      ToLowerConcat(head, Concat(tail));
      var a, b := ToLower(head), ToLower(Concat(tail));
      LowerKeepsSlashPiece(head);
      OccursInSlashPiece(t, a);
      if tail == [] {
        assert ToLower(Concat(pieces)) == a;
      } else {
        assert PathPiece(tail[0]);
        ConcatSplit(tail, 1);
        assert tail[..1] == [tail[0]];
        assert Concat(tail[..1]) == tail[0] + Concat([]);
        assert Concat(tail)[0] == '/';
        assert b[0] == '/';
        OccursInSlashJoin(t, a, b);
      }
      if exists i :: 0 <= i < |pieces| && t <= ToLower(pieces[i]) {
        var i :| 0 <= i < |pieces| && t <= ToLower(pieces[i]);
        if i > 0 {
          assert tail[i - 1] == pieces[i];
        }
      }
      if exists i :: 0 <= i < |tail| && t <= ToLower(tail[i]) {
        var i :| 0 <= i < |tail| && t <= ToLower(tail[i]);
        assert pieces[i + 1] == tail[i];
      }
    }
  }

  /** Every occurrence of a pattern carries its prefixes with it. */
  lemma OccursPrefix(t: string, s: string, k: int)
    requires 0 <= k <= |t| && Occurs(t, s)
    ensures Occurs(t[..k], s)
  {
    var p :| OccursAt(t, s, p);
    assert s[p..p + k] == s[p..p + |t|][..k];
    assert OccursAt(t[..k], s, p);
  }

  /** No piece starts, ignoring ASCII case, with a pattern whose second,
      third or fourth character it does not share. */
  lemma NoPieceStartsWith(t: string, pieces: seq<string>)
    requires |t| >= 4
    requires forall i :: 0 <= i < |pieces| ==>
               |pieces[i]| < 4 || LowerChar(pieces[i][1]) != t[1] ||
               LowerChar(pieces[i][2]) != t[2] || LowerChar(pieces[i][3]) != t[3]
    ensures forall i :: 0 <= i < |pieces| ==> !(t <= ToLower(pieces[i]))
  {
  }

  /** A path of pieces none of which starts, ignoring ASCII case, with the
      first three letters of the bundle name after a `/` never counts for
      that bundle. */
  lemma OtherBundleDoesNotCount(pieces: seq<string>, bundle: string)
    requires PathPieces(pieces)
    requires |bundle| >= 3 && bundle[0] != '/' && bundle[1] != '/' && bundle[2] != '/'
    requires forall i :: 0 <= i < |pieces| ==>
               |pieces[i]| < 4 || LowerChar(pieces[i][1]) != LowerChar(bundle[0]) ||
               LowerChar(pieces[i][2]) != LowerChar(bundle[1]) || LowerChar(pieces[i][3]) != LowerChar(bundle[2])
    ensures !IsLaunchableAppProcessLine(Concat(pieces), bundle)
  {
    var seg := BundleSegment(bundle);
    BundleSegmentSplit(bundle);
    assert seg[1] == LowerChar(bundle[0]) && seg[2] == LowerChar(bundle[1]) && seg[3] == LowerChar(bundle[2]);
    var head := seg[..4];
    assert SlashPiece(head);
    NoPieceStartsWith(head, pieces);
    SlashPatternOccursIffPieceStart(head, pieces);
    if Occurs(seg, ToLower(Concat(pieces))) {
      OccursPrefix(seg, ToLower(Concat(pieces)), 4);
    }
    LaunchableLineIff(Concat(pieces), bundle);
  }

  lemma SidecarMarkerIsSlashPiece()
    ensures SlashPiece(SidecarMarker)
  {
  }

  /** The pieces `/<spelling>.app`, `/Contents`, `/MacOS`, `/<exe>` make
      up the executable path inside the bundle. */
  lemma ConcatBundlePieces(spelling: string, exe: string)
    ensures Concat(["/" + spelling + ".app", "/Contents", "/MacOS", "/" + exe])
              == [] + "/" + spelling + ".app/Contents/MacOS/" + exe
  {
    var ps := ["/" + spelling + ".app", "/Contents", "/MacOS", "/" + exe];
    var p1, p2, p3 := ps[1..], ps[2..], ps[3..];
    assert p1[1..] == p2 && p2[1..] == p3 && p3[1..] == [];
    assert Concat(p3) == "/" + exe + Concat([]);
    assert Concat(p2) == "/MacOS" + Concat(p3);
    assert Concat(p1) == "/Contents" + Concat(p2);
    assert Concat(ps) == "/" + spelling + ".app" + Concat(p1);
  }

  /** Those pieces hold the segment of every bundle name the spelling
      matches ignoring ASCII case. */
  lemma BundlePiecesHoldSegment(spelling: string, exe: string, bundle: string)
    requires EqIgnoreCase(spelling, bundle)
    ensures Occurs(BundleSegment(bundle), ToLower(Concat(["/" + spelling + ".app", "/Contents", "/MacOS", "/" + exe])))
  {
    ConcatBundlePieces(spelling, exe);
    SegmentOccurs([], spelling, exe, bundle);
  }

  /** A path of pieces none of which starts with `/backend-sidecar` counts
      for a bundle when a run of its pieces holds the bundle's segment. */
  lemma PiecesCount(pieces: seq<string>, bundle: string, lo: int, hi: int)
    requires PathPieces(pieces)
    requires forall i :: 0 <= i < |pieces| ==> !(SidecarMarker <= ToLower(pieces[i]))
    requires 0 <= lo <= hi <= |pieces|
    requires Occurs(BundleSegment(bundle), ToLower(Concat(pieces[lo..hi])))
    ensures IsLaunchableAppProcessLine(Concat(pieces), bundle)
  {
    OccursInPieces(BundleSegment(bundle), pieces, lo, hi);
    SidecarMarkerIsSlashPiece();
    SlashPatternOccursIffPieceStart(SidecarMarker, pieces);
    LaunchableLineIff(Concat(pieces), bundle);
  }

  /** A path with a piece that starts with `/backend-sidecar` never
      counts. */
  lemma SidecarPieceNeverCounts(pieces: seq<string>, bundle: string, i: int)
    requires PathPieces(pieces) && 0 <= i < |pieces|
    requires SidecarMarker <= ToLower(pieces[i])
    ensures !IsLaunchableAppProcessLine(Concat(pieces), bundle)
  {
    SidecarMarkerIsSlashPiece();
    SlashPatternOccursIffPieceStart(SidecarMarker, pieces);
    SidecarLineNeverCounts(Concat(pieces), bundle);
  }

  /** A command line of pieces whose last piece does not end in `\r` is one
      line of a snapshot. */
  lemma PiecesAreOneLine(pieces: seq<string>)
    requires PathPieces(pieces) && pieces != []
    requires pieces[|pieces| - 1][|pieces[|pieces| - 1]| - 1] != '\r'
    ensures '\n' !in Concat(pieces) && Concat(pieces) != []
    ensures StripCarriageReturn(Concat(pieces)) == Concat(pieces)
  {
    assert PathPiece(pieces[|pieces| - 1]);
    ConcatHasNoNewline(pieces);
    ConcatLast(pieces);
  }

  /** A snapshot of two lines, each ended by `\n`, is running a bundle when
      either line counts. */
  lemma TwoLineSnapshot(a: string, b: string, bundle: string)
    requires '\n' !in a && StripCarriageReturn(a) == a
    requires '\n' !in b && StripCarriageReturn(b) == b
    ensures IsAppRunningInCommands(bundle, a + "\n" + b + "\n") <==>
              IsLaunchableAppProcessLine(a, bundle) || IsLaunchableAppProcessLine(b, bundle)
  {
    LinesOfJoinLines([a, b]);
    assert [a, b][1..] == [b];
    assert JoinLines([b]) == b + "\n" + JoinLines([]);
    assert JoinLines([a, b]) == a + "\n" + b + "\n";
    IsAppRunningInCommandsIff(bundle, a + "\n" + b + "\n");
  }

  /** A snapshot of one line with no `\n` is running a bundle when that line
      counts. */
  lemma OneLineSnapshot(a: string, bundle: string)
    requires '\n' !in a && a != []
    ensures IsAppRunningInCommands(bundle, a) <==> IsLaunchableAppProcessLine(a, bundle)
  {
    LinesSingle(a);
    IsAppRunningInCommandsIff(bundle, a);
  }

  // ---------------------------------------------------------------------
  // The unit tests of lib.rs:551-589, each line written as its pieces

  function CompanionDevBuildPieces(): seq<string> {
    ["/Users", "/jordanheckler", "/companion", "/src-tauri", "/target", "/release",
     "/bundle", "/macos", "/companion.app", "/Contents", "/MacOS", "/app"]
  }

  function DugoutSidecarPieces(): seq<string> {
    ["/Applications", "/Dugout.app", "/Contents", "/MacOS", "/backend-sidecar"]
  }

  function DugoutSidecarWithArgumentsPieces(): seq<string> {
    ["/Applications", "/Dugout.app", "/Contents", "/MacOS", "/backend-sidecar --port 7001"]
  }

  function DugoutAppPieces(): seq<string> {
    ["/Applications", "/Dugout.app", "/Contents", "/MacOS", "/app"]
  }

  function ConsoleAppPieces(): seq<string> {
    ["/Applications", "/HM Admin Console.app", "/Contents", "/MacOS", "/app"]
  }

  lemma CompanionDevBuildPiecesShape()
    ensures PathPieces(CompanionDevBuildPieces())
  {
    assert PathPiece("/Users");
    assert PathPiece("/jordanheckler");
    assert PathPiece("/companion");
    assert PathPiece("/src-tauri");
    assert PathPiece("/target");
    assert PathPiece("/release");
    assert PathPiece("/bundle");
    assert PathPiece("/macos");
    assert PathPiece("/companion.app");
    assert PathPiece("/Contents");
    assert PathPiece("/MacOS");
    assert PathPiece("/app");
  }

  lemma DugoutSidecarPiecesShape()
    ensures PathPieces(DugoutSidecarPieces())
  {
    assert PathPiece("/Applications");
    assert PathPiece("/Dugout.app");
    assert PathPiece("/Contents");
    assert PathPiece("/MacOS");
    assert PathPiece("/backend-sidecar");
  }

  lemma DugoutSidecarWithArgumentsPiecesShape()
    ensures PathPieces(DugoutSidecarWithArgumentsPieces())
  {
    assert PathPiece("/Applications");
    assert PathPiece("/Dugout.app");
    assert PathPiece("/Contents");
    assert PathPiece("/MacOS");
    assert PathPiece("/backend-sidecar --port 7001");
  }

  lemma DugoutAppPiecesShape()
    ensures PathPieces(DugoutAppPieces())
  {
    assert PathPiece("/Applications");
    assert PathPiece("/Dugout.app");
    assert PathPiece("/Contents");
    assert PathPiece("/MacOS");
    assert PathPiece("/app");
  }

  /** No piece of the Dugout line shares the second to fourth letters of
      `/companion.app`, ignoring ASCII case. */
  lemma DugoutAppIsNotCompanionByLetters()
    ensures forall i :: 0 <= i < |DugoutAppPieces()| ==>
              |DugoutAppPieces()[i]| < 4 || LowerChar(DugoutAppPieces()[i][1]) != LowerChar("Companion"[0]) ||
              LowerChar(DugoutAppPieces()[i][2]) != LowerChar("Companion"[1]) || LowerChar(DugoutAppPieces()[i][3]) != LowerChar("Companion"[2])
  {
  }

  lemma ConsoleAppPiecesShape()
    ensures PathPieces(ConsoleAppPieces())
  {
    assert PathPiece("/Applications");
    assert PathPiece("/HM Admin Console.app");
    assert PathPiece("/Contents");
    assert PathPiece("/MacOS");
    assert PathPiece("/app");
  }

  lemma ConsoleAppHasNoSidecar()
    ensures forall i :: 0 <= i < |ConsoleAppPieces()| ==> !(SidecarMarker <= ToLower(ConsoleAppPieces()[i]))
  {
    NoPieceStartsWith(SidecarMarker, ConsoleAppPieces());
  }

  lemma CompanionDevBuildHasNoSidecar()
    ensures forall i :: 0 <= i < |CompanionDevBuildPieces()| ==> !(SidecarMarker <= ToLower(CompanionDevBuildPieces()[i]))
  {
    NoPieceStartsWith(SidecarMarker, CompanionDevBuildPieces());
  }

  lemma CompanionBundlePieces()
    ensures CompanionDevBuildPieces()[8..12] == ["/" + "companion" + ".app", "/Contents", "/MacOS", "/" + "app"]
  {
    assert CompanionDevBuildPieces()[8..12] == ["/companion.app", "/Contents", "/MacOS", "/app"];
    assert "/companion.app" == "/" + "companion" + ".app";
    assert "/app" == "/" + "app";
  }

  /** A five-piece path is its pieces one after the other. */
  lemma ConcatFive(a: string, b: string, c: string, d: string, e: string)
    ensures Concat([a, b, c, d, e]) == a + b + c + d + e
  {
    var ps := [a, b, c, d, e];
    assert ps[1..][1..][1..][1..][1..] == [];
    assert Concat(ps[1..][1..][1..][1..]) == e;
    assert Concat(ps[1..][1..][1..]) == d + e;
    assert Concat(ps[1..][1..]) == c + d + e;
    assert Concat(ps[1..]) == b + c + d + e;
  }

  /** The pieces spell the unit tests' lines. */
  lemma DugoutAppLine()
    ensures Concat(DugoutAppPieces()) == "/Applications/Dugout.app/Contents/MacOS/app"
  {
    ConcatFive("/Applications", "/Dugout.app", "/Contents", "/MacOS", "/app");
    assert "/Applications" + "/Dugout.app" == "/Applications/Dugout.app";
    assert "/Applications/Dugout.app" + "/Contents" == "/Applications/Dugout.app/Contents";
    assert "/Applications/Dugout.app/Contents" + "/MacOS" == "/Applications/Dugout.app/Contents/MacOS";
    assert "/Applications/Dugout.app/Contents/MacOS" + "/app" == "/Applications/Dugout.app/Contents/MacOS/app";
  }

  lemma ConsoleAppLine()
    ensures Concat(ConsoleAppPieces()) == "/Applications/HM Admin Console.app/Contents/MacOS/app"
  {
    ConcatFive("/Applications", "/HM Admin Console.app", "/Contents", "/MacOS", "/app");
    assert "/Applications" + "/HM Admin Console.app" == "/Applications/HM Admin Console.app";
    assert "/Applications/HM Admin Console.app" + "/Contents" == "/Applications/HM Admin Console.app/Contents";
    assert "/Applications/HM Admin Console.app/Contents" + "/MacOS" == "/Applications/HM Admin Console.app/Contents/MacOS";
    assert "/Applications/HM Admin Console.app/Contents/MacOS" + "/app" == "/Applications/HM Admin Console.app/Contents/MacOS/app";
  }

  /** lib.rs:551-555: a dev build of Companion, anywhere on disk and with a
      lower-case bundle directory, counts as Companion. */
  lemma DetectsAppFromAnyLocation()
    ensures IsLaunchableAppProcessLine(Concat(CompanionDevBuildPieces()), "Companion")
  {
    CompanionDevBuildPiecesShape();
    CompanionDevBuildHasNoSidecar();
    CompanionBundlePieces();
    assert EqIgnoreCase("companion", "Companion");
    BundlePiecesHoldSegment("companion", "app", "Companion");
    PiecesCount(CompanionDevBuildPieces(), "Companion", 8, 12);
  }

  /** lib.rs:557-561: the Dugout sidecar is not Dugout. */
  lemma IgnoresSidecarProcesses()
    ensures !IsLaunchableAppProcessLine(Concat(DugoutSidecarPieces()), "Dugout")
  {
    DugoutSidecarPiecesShape();
    SidecarPieceNeverCounts(DugoutSidecarPieces(), "Dugout", 4);
  }

  lemma SidecarWithArgumentsStartsWithMarker()
    ensures SidecarMarker <= ToLower("/backend-sidecar --port 7001")
  {
  }

  /** lib.rs:563-567: nor is it with arguments after it. */
  lemma IgnoresSidecarProcessesWithArguments()
    ensures !IsLaunchableAppProcessLine(Concat(DugoutSidecarWithArgumentsPieces()), "Dugout")
  {
    DugoutSidecarWithArgumentsPiecesShape();
    SidecarWithArgumentsStartsWithMarker();
    SidecarPieceNeverCounts(DugoutSidecarWithArgumentsPieces(), "Dugout", 4);
  }

  /** lib.rs:569-573: a Dugout line does not count for Companion. */
  lemma DoesNotCrossMatchOtherBundles()
    ensures !IsLaunchableAppProcessLine("/Applications/Dugout.app/Contents/MacOS/app", "Companion")
  {
    DugoutAppLine();
    DugoutAppPiecesShape();
    DugoutAppIsNotCompanionByLetters();
    OtherBundleDoesNotCount(DugoutAppPieces(), "Companion");
  }

  lemma CompanionDevBuildIsNotDugout()
    ensures !IsLaunchableAppProcessLine(Concat(CompanionDevBuildPieces()), "Dugout")
  {
    CompanionDevBuildPiecesShape();
    OtherBundleDoesNotCount(CompanionDevBuildPieces(), "Dugout");
  }

  /** lib.rs:575-583: in a snapshot holding the Dugout sidecar and a
      Companion build, Companion is running and Dugout is not. */
  lemma RunningStateUsesMatchingNonSidecarProcessesOnly()
    ensures IsAppRunningInCommands("Companion", Concat(DugoutSidecarPieces()) + "\n" + Concat(CompanionDevBuildPieces()) + "\n")
    ensures !IsAppRunningInCommands("Dugout", Concat(DugoutSidecarPieces()) + "\n" + Concat(CompanionDevBuildPieces()) + "\n")
  {
    var sidecar, companion := Concat(DugoutSidecarPieces()), Concat(CompanionDevBuildPieces());
    DugoutSidecarPiecesShape();
    PiecesAreOneLine(DugoutSidecarPieces());
    CompanionDevBuildPiecesShape();
    PiecesAreOneLine(CompanionDevBuildPieces());
    DetectsAppFromAnyLocation();
    IgnoresSidecarProcesses();
    CompanionDevBuildIsNotDugout();
    TwoLineSnapshot(sidecar, companion, "Companion");
    TwoLineSnapshot(sidecar, companion, "Dugout");
  }

  lemma ConsoleBundlePieces()
    ensures ConsoleAppPieces()[1..5] == ["/" + "HM Admin Console" + ".app", "/Contents", "/MacOS", "/" + "app"]
  {
    assert ConsoleAppPieces()[1..5] == ["/HM Admin Console.app", "/Contents", "/MacOS", "/app"];
    assert "/HM Admin Console.app" == "/" + "HM Admin Console" + ".app";
    assert "/app" == "/" + "app";
  }

  /** lib.rs:585-589: a bundle name with spaces is found. */
  lemma SupportsBundleNamesWithSpaces()
    ensures IsAppRunningInCommands("HM Admin Console", "/Applications/HM Admin Console.app/Contents/MacOS/app")
  {
    ConsoleAppLine();
    var pieces := ConsoleAppPieces();
    ConsoleAppPiecesShape();
    ConsoleAppHasNoSidecar();
    ConsoleBundlePieces();
    BundlePiecesHoldSegment("HM Admin Console", "app", "HM Admin Console");
    PiecesCount(pieces, "HM Admin Console", 1, 5);
    PiecesAreOneLine(pieces);
    OneLineSnapshot(Concat(pieces), "HM Admin Console");
  }
}
