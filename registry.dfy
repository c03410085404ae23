/** The app registry list and its normal form (`sort_and_dedupe_apps`,
    lib.rs:201-223): at most one entry per path, paths compared ignoring ASCII
    case, the later entry winning; sorted by lower-cased name, then by
    lower-cased path. */
module Registry {
  import opened Text

  /** One entry of the registry file (`RegisteredApp`, lib.rs:74-79). */
  datatype RegisteredApp = RegisteredApp(name: string, path: string)

  /** The identity test used everywhere in the registry. */
  predicate SamePath(a: RegisteredApp, b: RegisteredApp) {
    EqIgnoreCase(a.path, b.path)
  }

  /** The comparator handed to `sort_by` (lib.rs:215-220). */
  function CompareApps(x: RegisteredApp, y: RegisteredApp): Ordering {
    match Compare(ToLower(x.name), ToLower(y.name))
    case Equal => Compare(ToLower(x.path), ToLower(y.path))
    case Less => Less
    case Greater => Greater
  }

  predicate InOrder(x: RegisteredApp, y: RegisteredApp) {
    CompareApps(x, y) != Greater
  }

  ghost predicate Sorted(s: seq<RegisteredApp>) {
    forall i, j :: 0 <= i < j < |s| ==> InOrder(s[i], s[j])
  }

  ghost predicate UniquePaths(s: seq<RegisteredApp>) {
    forall i, j :: 0 <= i < j < |s| ==> !SamePath(s[i], s[j])
  }

  /** Some entry of `s` has `path`, ignoring ASCII case. */
  ghost predicate HasPath(s: seq<RegisteredApp>, path: string) {
    exists i :: 0 <= i < |s| && EqIgnoreCase(s[i].path, path)
  }

  /** No later entry of `apps` shares the path of `apps[k]`. */
  ghost predicate LastForPath(apps: seq<RegisteredApp>, k: int) {
    0 <= k < |apps| && forall j :: k < j < |apps| ==> !SamePath(apps[j], apps[k])
  }

  // ---------------------------------------------------------------------
  // The comparator is a total preorder

  lemma CompareAppsFlip(x: RegisteredApp, y: RegisteredApp)
    ensures CompareApps(y, x) == Flip(CompareApps(x, y))
  {
    CompareAntisymmetric(ToLower(x.name), ToLower(y.name));
    CompareAntisymmetric(ToLower(x.path), ToLower(y.path));
  }

  lemma InOrderTotal(x: RegisteredApp, y: RegisteredApp)
    ensures InOrder(x, y) || InOrder(y, x)
  {
    CompareAppsFlip(x, y);
  }

  lemma InOrderTransitive(x: RegisteredApp, y: RegisteredApp, z: RegisteredApp)
    requires InOrder(x, y) && InOrder(y, z)
    ensures InOrder(x, z)
  {
    var a, b, c := ToLower(x.name), ToLower(y.name), ToLower(z.name);
    CompareTransitive(a, b, c);
    CompareEqualIff(a, b);
    CompareEqualIff(b, c);
    CompareEqualIff(a, c);
    CompareAntisymmetric(a, b);
    if Compare(a, b) == Equal && Compare(b, c) == Equal {
      CompareTransitive(ToLower(x.path), ToLower(y.path), ToLower(z.path));
    }
  }

  /** Entries with different paths never compare equal: their lower-cased
      paths differ, so the tie-break decides. */
  lemma DistinctPathsCompareStrictly(x: RegisteredApp, y: RegisteredApp)
    requires !SamePath(x, y)
    ensures CompareApps(x, y) != Equal
  {
    CompareEqualIff(ToLower(x.path), ToLower(y.path));
  }

  // ---------------------------------------------------------------------
  // The de-duplicating loop

  /** `iter_mut().find(|e| e.path.eq_ignore_ascii_case(path))`, as the
      position of the entry it finds. */
  function FindPath(apps: seq<RegisteredApp>, path: string): (r: Option<nat>)
    ensures r.Some? ==> r.value < |apps| && EqIgnoreCase(apps[r.value].path, path)
    ensures r.Some? ==> forall j :: 0 <= j < r.value ==> !EqIgnoreCase(apps[j].path, path)
    ensures r.None? ==> forall j :: 0 <= j < |apps| ==> !EqIgnoreCase(apps[j].path, path)
  {
    if apps == [] then None
    else if EqIgnoreCase(apps[0].path, path) then Some(0)
    else match FindPath(apps[1..], path)
      case None => None
      case Some(i) => Some(i + 1)
  }

  /** One step of the loop in `sort_and_dedupe_apps` (lib.rs:204-213), which
      is also the upsert of `add_registered_app` (lib.rs:310-317): the first
      entry with the same path is overwritten in place, otherwise `app` is
      appended. */
  function Upsert(apps: seq<RegisteredApp>, app: RegisteredApp): (r: seq<RegisteredApp>)
    ensures app in r
    ensures forall e :: e in r ==> e == app || e in apps
    ensures forall i :: 0 <= i < |apps| && !SamePath(apps[i], app) ==> i < |r| && r[i] == apps[i]
    ensures |r| == |apps| || r == apps + [app]
    ensures !HasPath(apps, app.path) ==> r == apps + [app]
    ensures UniquePaths(apps) ==> UniquePaths(r)
    ensures UniquePaths(apps) ==> forall e :: e in r && SamePath(e, app) ==> e == app
  {
    match FindPath(apps, app.path)
    case Some(i) =>
      var r := apps[i := app];
      assert forall j :: 0 <= j < |r| ==> r[j] == app || r[j] == apps[j];
      r
    case None =>
      var r := apps + [app];
      assert forall j :: 0 <= j < |r| ==> r[j] == app || r[j] == apps[j];
      r
  }

  /** What the loop has built once it has seen `apps`. */
  function Dedupe(apps: seq<RegisteredApp>): seq<RegisteredApp> {
    if apps == [] then [] else Upsert(Dedupe(apps[..|apps| - 1]), apps[|apps| - 1])
  }

  /** The loop keeps exactly the last entry given for each path: no two
      results share a path, every result is the last input entry with its
      path, and every such last entry is kept. */
  lemma {:induction false} DedupeKeepsLastOfEachPath(apps: seq<RegisteredApp>)
    ensures UniquePaths(Dedupe(apps))
    ensures forall k :: LastForPath(apps, k) ==> apps[k] in Dedupe(apps)
    ensures forall e :: e in Dedupe(apps) ==> exists k :: LastForPath(apps, k) && apps[k] == e
    ensures |Dedupe(apps)| <= |apps|
  {
    if apps != [] {
      var n := |apps|;
      DedupeKeepsLastOfEachPath(apps[..n - 1]);
      assert apps[..n - 1] + [apps[n - 1]] == apps;
      UpsertKeepsLastOfEachPath(apps[..n - 1], apps[n - 1], Dedupe(apps[..n - 1]));
    }
  }

  /** One turn of the loop keeps the property of DedupeKeepsLastOfEachPath. */
  lemma UpsertKeepsLastOfEachPath(pre: seq<RegisteredApp>, a: RegisteredApp, d: seq<RegisteredApp>)
    requires UniquePaths(d)
    requires forall k :: LastForPath(pre, k) ==> pre[k] in d
    requires forall e :: e in d ==> exists k :: LastForPath(pre, k) && pre[k] == e
    requires |d| <= |pre|
    ensures UniquePaths(Upsert(d, a))
    ensures forall k :: LastForPath(pre + [a], k) ==> (pre + [a])[k] in Upsert(d, a)
    ensures forall e :: e in Upsert(d, a) ==> exists k :: LastForPath(pre + [a], k) && (pre + [a])[k] == e
    ensures |Upsert(d, a)| <= |pre + [a]|
  {
    var apps := pre + [a];
    var d' := Upsert(d, a);
    forall k | LastForPath(apps, k) ensures apps[k] in d' {
      if k < |pre| {
        assert apps[k] == pre[k];
        assert LastForPath(pre, k) by {
          forall j | k < j < |pre| ensures !SamePath(pre[j], pre[k]) {
            assert apps[j] == pre[j];
          }
        }
        assert !SamePath(a, apps[k]) by {
          assert apps[|pre|] == a;
        }
        var q :| 0 <= q < |d| && d[q] == apps[k];
        assert d'[q] == apps[k];
      }
    }
    forall e | e in d' ensures exists k :: LastForPath(apps, k) && apps[k] == e {
      if e == a {
        assert LastForPath(apps, |pre|);
      } else {
        assert !SamePath(e, a);
        var k :| LastForPath(pre, k) && pre[k] == e;
        assert LastForPath(apps, k);
      }
    }
  }

  /** A list whose paths are already distinct passes through the loop
      unchanged. */
  lemma {:induction false} DedupeOfUniqueIsIdentity(apps: seq<RegisteredApp>)
    requires UniquePaths(apps)
    ensures Dedupe(apps) == apps
  {
    if apps != [] {
      var n := |apps|;
      var pre := apps[..n - 1];
      assert UniquePaths(pre);
      DedupeOfUniqueIsIdentity(pre);
      assert !HasPath(pre, apps[n - 1].path) by {
        forall i | 0 <= i < |pre| ensures !EqIgnoreCase(pre[i].path, apps[n - 1].path) {
          assert !SamePath(apps[i], apps[n - 1]);
        }
      }
      assert pre + [apps[n - 1]] == apps;
    }
  }

  // ---------------------------------------------------------------------
  // The sort

  /** Insert `x` before the first entry it does not exceed. */
  function Insert(x: RegisteredApp, t: seq<RegisteredApp>): (r: seq<RegisteredApp>)
    ensures multiset(r) == multiset{x} + multiset(t)
  {
    if t == [] || InOrder(x, t[0]) then [x] + t
    else
      assert t == [t[0]] + t[1..];
      [t[0]] + Insert(x, t[1..])
  }

  /** `sort_by` with `CompareApps`, as a stable insertion sort: an entry
      goes before every later entry that compares equal to it. */
  function SortApps(s: seq<RegisteredApp>): (r: seq<RegisteredApp>)
    ensures multiset(r) == multiset(s)
  {
    if s == [] then []
    else
      assert s == [s[0]] + s[1..];
      Insert(s[0], SortApps(s[1..]))
  }

  /** Insertion adds `x` and keeps every entry of `t`. */
  lemma InsertEntries(x: RegisteredApp, t: seq<RegisteredApp>)
    ensures forall e :: e in Insert(x, t) <==> e == x || e in t
  {
    forall e ensures e in Insert(x, t) <==> e == x || e in t {
      assert e in Insert(x, t) <==> e in multiset(Insert(x, t));
      assert e in t <==> e in multiset(t);
    }
  }

  lemma ConsKeepsSorted(x: RegisteredApp, t: seq<RegisteredApp>)
    requires Sorted(t)
    requires forall e :: e in t ==> InOrder(x, e)
    ensures Sorted([x] + t)
  {
    var r := [x] + t;
    forall i, j | 0 <= i < j < |r| ensures InOrder(r[i], r[j]) {
      if i == 0 { assert r[j] == t[j - 1] && t[j - 1] in t; }
      else { assert r[i] == t[i - 1] && r[j] == t[j - 1]; }
    }
  }

  lemma ConsKeepsUnique(x: RegisteredApp, t: seq<RegisteredApp>)
    requires UniquePaths(t)
    requires forall e :: e in t ==> !SamePath(x, e)
    ensures UniquePaths([x] + t)
  {
    var r := [x] + t;
    forall i, j | 0 <= i < j < |r| ensures !SamePath(r[i], r[j]) {
      if i == 0 { assert r[j] == t[j - 1] && t[j - 1] in t; }
      else { assert r[i] == t[i - 1] && r[j] == t[j - 1]; }
    }
  }

  lemma {:induction false} InsertKeepsSorted(x: RegisteredApp, t: seq<RegisteredApp>)
    requires Sorted(t)
    ensures Sorted(Insert(x, t))
  {
    if t == [] {
    } else if InOrder(x, t[0]) {
      forall e | e in t ensures InOrder(x, e) {
        var j :| 0 <= j < |t| && t[j] == e;
        if j > 0 { InOrderTransitive(x, t[0], t[j]); }
      }
      ConsKeepsSorted(x, t);
    } else {
      var u := Insert(x, t[1..]);
      assert Sorted(t[1..]);
      InsertKeepsSorted(x, t[1..]);
      InOrderTotal(x, t[0]);
      InsertEntries(x, t[1..]);
      forall e | e in u ensures InOrder(t[0], e) {
        if e != x {
          var k :| 0 <= k < |t[1..]| && t[1..][k] == e;
          assert t[k + 1] == e;
        }
      }
      ConsKeepsSorted(t[0], u);
    }
  }

  lemma {:induction false} SortAppsSorted(s: seq<RegisteredApp>)
    ensures Sorted(SortApps(s))
  {
    if s != [] {
      SortAppsSorted(s[1..]);
      InsertKeepsSorted(s[0], SortApps(s[1..]));
    }
  }

  lemma {:induction false} InsertKeepsUnique(x: RegisteredApp, t: seq<RegisteredApp>)
    requires UniquePaths(t)
    requires forall e :: e in t ==> !SamePath(e, x)
    ensures UniquePaths(Insert(x, t))
  {
    if t != [] && !InOrder(x, t[0]) {
      var u := Insert(x, t[1..]);
      assert UniquePaths(t[1..]);
      InsertKeepsUnique(x, t[1..]);
      InsertEntries(x, t[1..]);
      forall e | e in u ensures !SamePath(t[0], e) {
        if e != x {
          var k :| 0 <= k < |t[1..]| && t[1..][k] == e;
          assert t[k + 1] == e;
        }
      }
      ConsKeepsUnique(t[0], u);
    } else {
      ConsKeepsUnique(x, t);
    }
  }

  lemma {:induction false} SortAppsKeepsUnique(s: seq<RegisteredApp>)
    requires UniquePaths(s)
    ensures UniquePaths(SortApps(s))
  {
    if s != [] {
      assert UniquePaths(s[1..]);
      SortAppsKeepsUnique(s[1..]);
      forall e | e in SortApps(s[1..]) ensures !SamePath(e, s[0]) {
        assert e in multiset(SortApps(s[1..]));
        var k :| 0 <= k < |s[1..]| && s[1..][k] == e;
        assert s[k + 1] == e;
      }
      InsertKeepsUnique(s[0], SortApps(s[1..]));
    }
  }

  /** A list that is already in order is left as it is. */
  lemma {:induction false} SortAppsOfSortedIsIdentity(s: seq<RegisteredApp>)
    requires Sorted(s)
    ensures SortApps(s) == s
  {
    if s != [] {
      assert Sorted(s[1..]);
      SortAppsOfSortedIsIdentity(s[1..]);
      if |s| > 1 {
        assert InOrder(s[0], s[1]);
      }
      assert [s[0]] + s[1..] == s;
    }
  }

  // ---------------------------------------------------------------------
  // The normal form

  /** The list `sort_and_dedupe_apps` returns for `apps`. */
  function NormalizeApps(apps: seq<RegisteredApp>): seq<RegisteredApp> {
    SortApps(Dedupe(apps))
  }

  /** Everything `sort_and_dedupe_apps` promises about its result. */
  ghost predicate IsNormalFormOf(r: seq<RegisteredApp>, apps: seq<RegisteredApp>) {
    && UniquePaths(r)
    && Sorted(r)
    && |r| <= |apps|
    && (forall e :: e in r ==> exists k :: LastForPath(apps, k) && apps[k] == e)
    && (forall k :: LastForPath(apps, k) ==> apps[k] in r)
  }

  lemma NormalizeAppsIsNormalForm(apps: seq<RegisteredApp>)
    ensures IsNormalFormOf(NormalizeApps(apps), apps)
  {
    var d := Dedupe(apps);
    DedupeKeepsLastOfEachPath(apps);
    SortAppsSorted(d);
    SortAppsKeepsUnique(d);
    var r := SortApps(d);
    assert |r| == |multiset(r)| == |multiset(d)| == |d|;
    forall e | e in r ensures e in d {
      assert e in multiset(r);
    }
    forall e | e in d ensures e in r {
      assert e in multiset(d);
    }
  }

  /** Entries whose paths are distinct and which are in order are already
      normal: the normal form of such a list is the list itself. */
  lemma NormalizeAppsOfNormal(apps: seq<RegisteredApp>)
    requires UniquePaths(apps) && Sorted(apps)
    ensures NormalizeApps(apps) == apps
  {
    DedupeOfUniqueIsIdentity(apps);
    SortAppsOfSortedIsIdentity(apps);
  }

  /** Normalising twice is normalising once: `read_registered_apps` hands
      back a normal list, and `add_registered_app`/`remove_registered_app`
      normalise it again. */
  lemma NormalizeAppsIdempotent(apps: seq<RegisteredApp>)
    ensures NormalizeApps(NormalizeApps(apps)) == NormalizeApps(apps)
  {
    NormalizeAppsIsNormalForm(apps);
    NormalizeAppsOfNormal(NormalizeApps(apps));
  }

  /** Two entries in the normal form are strictly ordered, so the order is
      fully decided by lower-cased name and lower-cased path. */
  lemma NormalFormStrictlyOrdered(r: seq<RegisteredApp>, i: int, j: int)
    requires UniquePaths(r) && Sorted(r)
    requires 0 <= i < j < |r|
    ensures CompareApps(r[i], r[j]) == Less
  {
    DistinctPathsCompareStrictly(r[i], r[j]);
  }

  /** A list whose paths are already distinct keeps exactly its entries. */
  lemma NormalizeAppsOfUniqueKeepsEntries(apps: seq<RegisteredApp>)
    requires UniquePaths(apps)
    ensures forall e :: e in NormalizeApps(apps) <==> e in apps
  {
    DedupeOfUniqueIsIdentity(apps);
    forall e ensures e in NormalizeApps(apps) <==> e in apps {
      assert e in NormalizeApps(apps) <==> e in multiset(NormalizeApps(apps));
      assert e in apps <==> e in multiset(apps);
    }
  }

  /** Two lists in normal form with the same entries start with the same
      entry: it is the least of them. */
  lemma SameEntriesSameHead(a: seq<RegisteredApp>, b: seq<RegisteredApp>)
    requires UniquePaths(a) && Sorted(a) && UniquePaths(b) && Sorted(b)
    requires forall e :: e in a <==> e in b
    requires a != [] && b != []
    ensures a[0] == b[0]
  {
    assert a[0] in b && b[0] in a;
    var j :| 0 <= j < |b| && b[j] == a[0];
    var i :| 0 <= i < |a| && a[i] == b[0];
    if i > 0 { NormalFormStrictlyOrdered(a, 0, i); }
    if j > 0 { NormalFormStrictlyOrdered(b, 0, j); }
    CompareAppsFlip(a[0], b[0]);
  }

  /** Dropping a shared first entry from two lists without repeated paths
      leaves lists with the same entries. */
  lemma SameEntriesSameTail(a: seq<RegisteredApp>, b: seq<RegisteredApp>)
    requires UniquePaths(a) && UniquePaths(b)
    requires forall e :: e in a <==> e in b
    requires a != [] && b != [] && a[0] == b[0]
    ensures forall e :: e in a[1..] <==> e in b[1..]
  {
    forall e | e in a[1..] ensures e in b[1..] {
      var k :| 0 <= k < |a| - 1 && a[1..][k] == e;
      assert !SamePath(a[0], a[k + 1]);
      assert a[k + 1] in a;
      var m :| 0 <= m < |b| && b[m] == e;
      assert b[1..][m - 1] == e;
    }
    forall e | e in b[1..] ensures e in a[1..] {
      var k :| 0 <= k < |b| - 1 && b[1..][k] == e;
      assert !SamePath(b[0], b[k + 1]);
      assert b[k + 1] in b;
      var m :| 0 <= m < |a| && a[m] == e;
      assert a[1..][m - 1] == e;
    }
  }

  /** The normal form is determined by its entries: two lists in normal form
      that hold the same entries are the same list. */
  lemma {:induction false} SameEntriesSameNormalForm(a: seq<RegisteredApp>, b: seq<RegisteredApp>)
    requires UniquePaths(a) && Sorted(a) && UniquePaths(b) && Sorted(b)
    requires forall e :: e in a <==> e in b
    ensures a == b
    decreases |a|
  {
    assert a != [] ==> a[0] in b;
    assert b != [] ==> b[0] in a;
    if a != [] && b != [] {
      SameEntriesSameHead(a, b);
      SameEntriesSameTail(a, b);
      assert UniquePaths(a[1..]) && Sorted(a[1..]) && UniquePaths(b[1..]) && Sorted(b[1..]);
      SameEntriesSameNormalForm(a[1..], b[1..]);
      assert a == [a[0]] + a[1..] && b == [b[0]] + b[1..];
    }
  }

  // ---------------------------------------------------------------------
  // The function of lib.rs:201-223

  /** One more turn of the loop upserts the next entry. */
  lemma DedupeStep(apps: seq<RegisteredApp>, i: int)
    requires 0 <= i < |apps|
    ensures Dedupe(apps[..i + 1]) == Upsert(Dedupe(apps[..i]), apps[i])
  {
    assert apps[..i + 1][..i] == apps[..i];
  }

  /** `sort_and_dedupe_apps`: the loop builds `deduped` by overwriting or
      appending, then the list is sorted. */
  method SortAndDedupeApps(apps: seq<RegisteredApp>) returns (r: seq<RegisteredApp>)
    ensures r == NormalizeApps(apps)
    ensures IsNormalFormOf(r, apps)
  {
    var deduped: seq<RegisteredApp> := [];
    for i := 0 to |apps|
      invariant deduped == Dedupe(apps[..i])
    {
      var app := apps[i];
      DedupeStep(apps, i);
      match FindPath(deduped, app.path) {
        case Some(k) =>
          deduped := deduped[k := app];
        case None =>
          deduped := deduped + [app];
      }
    }
    assert apps[..|apps|] == apps;
    r := SortApps(deduped);
    NormalizeAppsIsNormalForm(apps);
  }

  /** Three entries where the last two share a path and the first sorts
      after the last: the later of the two wins and the result has two
      entries. */
  lemma LaterDuplicateWins(first: RegisteredApp, dup: RegisteredApp, later: RegisteredApp)
    requires !SamePath(first, dup) && SamePath(dup, later)
    requires CompareApps(first, later) == Greater
    ensures NormalizeApps([first, dup, later]) == [later, first]
  {
    DedupeOfThree(first, dup, later);
    SortOfTwo(first, later);
  }

  lemma DedupeOfTwo(first: RegisteredApp, dup: RegisteredApp)
    requires !SamePath(first, dup)
    ensures Dedupe([first, dup]) == [first, dup]
  {
    assert Dedupe([first]) == [first] by {
      assert [first][..0] == [];
    }
    assert [first, dup][..1] == [first];
    assert FindPath([first], dup.path) == None;
  }

  lemma DedupeOfThree(first: RegisteredApp, dup: RegisteredApp, later: RegisteredApp)
    requires !SamePath(first, dup) && SamePath(dup, later)
    ensures Dedupe([first, dup, later]) == [first, later]
  {
    DedupeOfTwo(first, dup);
    assert [first, dup, later][..2] == [first, dup];
    assert FindPath([first, dup], later.path) == Some(1);
  }

  lemma SortOfTwo(first: RegisteredApp, later: RegisteredApp)
    requires CompareApps(first, later) == Greater
    ensures SortApps([first, later]) == [later, first]
  {
    assert SortApps([later]) == [later] by {
      assert [later][1..] == [];
    }
    assert [first, later][1..] == [later];
  }

  /** The case of lib.rs:598-618: two spellings of the Companion path, the
      later one ("Companion Updated") wins and sorts before "Dugout". */
  lemma DedupeScenario()
    ensures
      var dugout := RegisteredApp("Dugout", "/Applications/Dugout.app");
      var companion := RegisteredApp("Companion", "/Applications/companion.app");
      var updated := RegisteredApp("Companion Updated", "/applications/Companion.app");
      var r := NormalizeApps([dugout, companion, updated]);
      |r| == 2 && r[0].name == "Companion Updated" && r[1].name == "Dugout"
  {
    var dugout := RegisteredApp("Dugout", "/Applications/Dugout.app");
    var companion := RegisteredApp("Companion", "/Applications/companion.app");
    var updated := RegisteredApp("Companion Updated", "/applications/Companion.app");
    assert !SamePath(dugout, companion) && SamePath(companion, updated) by {
      ScenarioPaths();
    }
    assert CompareApps(dugout, updated) == Greater by {
      assert ToLower(dugout.name)[0] == 'd' && ToLower(updated.name)[0] == 'c';
    }
    LaterDuplicateWins(dugout, companion, updated);
  }

  /** The path comparisons the scenario above turns on. */
  lemma ScenarioPaths()
    ensures EqIgnoreCase("/Applications/companion.app", "/applications/Companion.app")
    ensures !EqIgnoreCase("/Applications/Dugout.app", "/Applications/companion.app")
  {
  }
}
