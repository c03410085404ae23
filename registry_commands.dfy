/** The list logic of the `add_registered_app` and `remove_registered_app`
    commands (lib.rs:290-340).  The registry file is an input list
    (`stored`, what `read_registered_apps` parses before normalising it) and
    the command's result is the list it would write back and return. */
module RegistryCommands {
  import opened Text
  import opened Paths
  import opened Registry

  /** The validation errors of the two commands. */
  datatype RegistryError =
    | PathRequired                    // "App path is required."
    | InvalidBundlePath(path: string) // "Invalid app bundle path: {path}. Expected an existing .app directory."
    | NameUnderivable                 // "Failed to derive app name from path."
    | NameEmpty                       // "App name cannot be empty."

  datatype Result<T> = Success(value: T) | Failure(error: RegistryError)

  /** `normalize_app_path` (lib.rs:181-199).  `onDisk` stands for the
      `exists() && is_dir()` half of `is_valid_app_bundle_path`, and
      `canonical` for what `fs::canonicalize` returns (`None` when it fails,
      in which case the trimmed path is kept). */
  function NormalizeAppPath(path: string, onDisk: bool, canonical: Option<string>): (r: Result<string>)
    ensures Trim(path) == [] ==> r == Failure(PathRequired)
    ensures Trim(path) != [] && !(HasAppExtension(Trim(path)) && onDisk) ==> r == Failure(InvalidBundlePath(Trim(path)))
    ensures r.Success? <==> Trim(path) != [] && HasAppExtension(Trim(path)) && onDisk
    ensures r.Success? && canonical.Some? ==> r.value == canonical.value
    ensures r.Success? && canonical.None? ==> r.value == Trim(path)
  {
    var trimmed := Trim(path);
    if trimmed == [] then Failure(PathRequired)
    else if !(HasAppExtension(trimmed) && onDisk) then Failure(InvalidBundlePath(trimmed))
    else match canonical
      case Some(resolved) => Success(resolved)
      case None => Success(trimmed)
  }

  /** `name.unwrap_or(fallback_name)`. */
  function ChosenName(name: Option<string>, fallback: string): string {
    match name
    case Some(given) => given
    case None => fallback
  }

  /** The checks of `add_registered_app` before the registry is read
      (lib.rs:292-302), and the entry they produce.  The bundle name is
      derived before the given name is looked at, so a path without a stem
      fails even when a name is given. */
  function NewEntry(path: string, name: Option<string>, onDisk: bool, canonical: Option<string>): (r: Result<RegisteredApp>)
    ensures Trim(path) == [] ==> r == Failure(PathRequired)
    ensures Trim(path) != [] && !(HasAppExtension(Trim(path)) && onDisk) ==> r == Failure(InvalidBundlePath(Trim(path)))
    ensures name.Some? && Trim(name.value) == [] ==> r.Failure?
    ensures r.Success? ==> HasAppExtension(Trim(path)) && onDisk
    ensures r.Success? ==> r.value.name != [] && Trim(r.value.name) == r.value.name
    ensures r.Success? && canonical.None? ==> r.value.path == Trim(path)
    ensures r.Success? && name.Some? ==> r.value.name == Trim(name.value)
    ensures NormalizeAppPath(path, onDisk, canonical).Failure? ==>
              r == Failure(NormalizeAppPath(path, onDisk, canonical).error)
    ensures r == Failure(NameUnderivable) <==>
              NormalizeAppPath(path, onDisk, canonical).Success? &&
              BundleNameFromAppPath(NormalizeAppPath(path, onDisk, canonical).value).None?
    ensures r.Success? <==>
              NormalizeAppPath(path, onDisk, canonical).Success? &&
              BundleNameFromAppPath(NormalizeAppPath(path, onDisk, canonical).value).Some? &&
              Trim(ChosenName(name, BundleNameFromAppPath(NormalizeAppPath(path, onDisk, canonical).value).value)) != []
    ensures r.Success? ==> r.value.path == NormalizeAppPath(path, onDisk, canonical).value
    ensures r.Success? && canonical.Some? ==> r.value.path == canonical.value
    ensures r.Success? && name.None? ==> r.value.name == Trim(BundleNameFromAppPath(r.value.path).value)
  {
    match NormalizeAppPath(path, onDisk, canonical)
    case Failure(e) => Failure(e)
    case Success(p) =>
      match BundleNameFromAppPath(p)
      case None => Failure(NameUnderivable)
      case Some(fallback) =>
        var chosen := ChosenName(name, fallback);
        var n := Trim(chosen);
        if n == [] then Failure(NameEmpty)
        else
          TrimIdempotent(chosen);
          Success(RegisteredApp(n, p))
  }

  /** Registering an existing bundle `<dir>/<bundle>.app` without a name,
      when canonicalisation leaves the path as it is, succeeds with the
      trimmed bundle name, unless that name is blank. */
  lemma NewEntryOfAppBundle(path: string, dir: string, bundle: string)
    requires bundle != [] && '/' !in bundle
    requires Trim(path) == dir + "/" + bundle + ".app"
    ensures Trim(bundle) != [] ==>
              NewEntry(path, None, true, None) == Success(RegisteredApp(Trim(bundle), Trim(path)))
    ensures Trim(bundle) == [] ==> NewEntry(path, None, true, None) == Failure(NameEmpty)
  {
    BundleNameOfAppBundle(dir, bundle);
  }

  /** The registry after `app` has been upserted into it and the list
      normalised again. */
  function AddedRegistry(registry: seq<RegisteredApp>, app: RegisteredApp): seq<RegisteredApp> {
    NormalizeApps(Upsert(registry, app))
  }

  /** The filter of `remove_registered_app` (lib.rs:332-335): keep the
      entries whose path differs from `path` ignoring ASCII case, in order. */
  function RetainOtherPaths(apps: seq<RegisteredApp>, path: string): (r: seq<RegisteredApp>)
    ensures forall e :: e in r <==> e in apps && !EqIgnoreCase(e.path, path)
    ensures |r| <= |apps|
    ensures UniquePaths(apps) ==> UniquePaths(r)
  {
    if apps == [] then []
    else
      var rest := RetainOtherPaths(apps[1..], path);
      assert forall e :: e in apps <==> e == apps[0] || e in apps[1..];
      if EqIgnoreCase(apps[0].path, path) then
        assert UniquePaths(apps) ==> UniquePaths(apps[1..]);
        rest
      else
        var r := [apps[0]] + rest;
        assert UniquePaths(apps) ==> UniquePaths(r) by {
          if UniquePaths(apps) {
            UniqueHeadAndTail(apps);
            ConsKeepsUnique(apps[0], rest);
          }
        }
        r
  }

  /** The tail of a list with distinct paths has distinct paths, none of
      them the head's. */
  lemma UniqueHeadAndTail(apps: seq<RegisteredApp>)
    requires UniquePaths(apps) && apps != []
    ensures UniquePaths(apps[1..])
    ensures forall e :: e in apps[1..] ==> !SamePath(apps[0], e)
  {
    forall e | e in apps[1..] ensures !SamePath(apps[0], e) {
      var k :| 0 <= k < |apps[1..]| && apps[1..][k] == e;
      assert apps[k + 1] == e;
    }
  }

  /** The registry after every entry with `path` has been dropped and the
      list normalised again. */
  function RemovedRegistry(registry: seq<RegisteredApp>, path: string): seq<RegisteredApp> {
    NormalizeApps(RetainOtherPaths(registry, path))
  }

  /** What `add_registered_app` promises about the list it writes: it is in
      normal form, holds `app` as the only entry with its path, keeps every
      entry of the registry that has another path, and holds nothing else. */
  ghost predicate UpsertedInto(registry: seq<RegisteredApp>, app: RegisteredApp, r: seq<RegisteredApp>) {
    && UniquePaths(r) && Sorted(r)
    && app in r
    && (forall e :: e in r && SamePath(e, app) ==> e == app)
    && (forall e :: e in registry && !SamePath(e, app) ==> e in r)
    && (forall e :: e in r ==> e == app || e in registry)
  }

  /** What `remove_registered_app` promises about the list it writes: it is
      in normal form and holds exactly the entries of the registry whose path
      differs from `path`. */
  ghost predicate RemovedFrom(registry: seq<RegisteredApp>, path: string, r: seq<RegisteredApp>) {
    && UniquePaths(r) && Sorted(r)
    && (forall e :: e in r <==> e in registry && !EqIgnoreCase(e.path, path))
  }

  lemma AddedRegistryUpserts(registry: seq<RegisteredApp>, app: RegisteredApp)
    requires UniquePaths(registry)
    ensures UpsertedInto(registry, app, AddedRegistry(registry, app))
  {
    var u := Upsert(registry, app);
    NormalizeAppsOfUniqueKeepsEntries(u);
    NormalizeAppsIsNormalForm(u);
    forall e | e in registry && !SamePath(e, app) ensures e in u {
      var i :| 0 <= i < |registry| && registry[i] == e;
    }
  }

  lemma RemovedRegistryRemoves(registry: seq<RegisteredApp>, path: string)
    requires UniquePaths(registry)
    ensures RemovedFrom(registry, path, RemovedRegistry(registry, path))
  {
    var kept := RetainOtherPaths(registry, path);
    NormalizeAppsOfUniqueKeepsEntries(kept);
    NormalizeAppsIsNormalForm(kept);
  }

  /** `add_registered_app` (lib.rs:290-322). */
  method AddRegisteredApp(stored: seq<RegisteredApp>, path: string, name: Option<string>,
                          onDisk: bool, canonical: Option<string>)
    returns (res: Result<seq<RegisteredApp>>)
    ensures NewEntry(path, name, onDisk, canonical).Failure? ==>
              res == Failure(NewEntry(path, name, onDisk, canonical).error)
    ensures NewEntry(path, name, onDisk, canonical).Success? ==>
              res == Success(AddedRegistry(NormalizeApps(stored), NewEntry(path, name, onDisk, canonical).value))
    ensures res.Success? ==>
              UpsertedInto(NormalizeApps(stored), NewEntry(path, name, onDisk, canonical).value, res.value)
  {
    var entry := NewEntry(path, name, onDisk, canonical);
    if entry.Failure? {
      return Failure(entry.error);
    }
    var newApp := entry.value;
    var apps := SortAndDedupeApps(stored);
    ghost var registry := apps;
    match FindPath(apps, newApp.path) {
      case Some(k) =>
        apps := apps[k := newApp];
      case None =>
        apps := apps + [newApp];
    }
    assert apps == Upsert(registry, newApp);
    var sorted := SortAndDedupeApps(apps);
    AddedRegistryUpserts(registry, newApp);
    return Success(sorted);
  }

  /** `remove_registered_app` (lib.rs:324-340). */
  method RemoveRegisteredApp(stored: seq<RegisteredApp>, path: string)
    returns (res: Result<seq<RegisteredApp>>)
    ensures Trim(path) == [] ==> res == Failure(PathRequired)
    ensures Trim(path) != [] ==> res == Success(RemovedRegistry(NormalizeApps(stored), Trim(path)))
    ensures res.Success? ==> RemovedFrom(NormalizeApps(stored), Trim(path), res.value)
  {
    var trimmedPath := Trim(path);
    if trimmedPath == [] {
      return Failure(PathRequired);
    }
    var apps := SortAndDedupeApps(stored);
    var retained := RetainOtherPaths(apps, trimmedPath);
    var sorted := SortAndDedupeApps(retained);
    RemovedRegistryRemoves(apps, trimmedPath);
    return Success(sorted);
  }

  /** Removing a path just added gives the registry back, when the registry
      held nothing with that path before. */
  lemma RemoveUndoesAdd(registry: seq<RegisteredApp>, app: RegisteredApp)
    requires UniquePaths(registry) && Sorted(registry)
    requires !HasPath(registry, app.path)
    ensures RemovedRegistry(AddedRegistry(registry, app), app.path) == registry
  {
    var added := AddedRegistry(registry, app);
    AddedRegistryUpserts(registry, app);
    RemovedRegistryRemoves(added, app.path);
    var r := RemovedRegistry(added, app.path);
    assert EqIgnoreCase(app.path, app.path);
    forall e | e in registry ensures e in r {
      var i :| 0 <= i < |registry| && registry[i] == e;
      assert !EqIgnoreCase(e.path, app.path);
      assert e in added;
    }
    forall e | e in r ensures e in registry {
      assert e in added && !EqIgnoreCase(e.path, app.path);
      assert e != app;
    }
    SameEntriesSameNormalForm(r, registry);
  }
}
