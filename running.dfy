/** The two status commands (lib.rs:376-390 and 472-481): which apps a
    `ps` snapshot shows running.  The snapshot is an input; taking it is not
    modelled. */
module Running {
  import opened Text
  import opened Paths
  import opened ProcessMatch
  import opened Launch

  /** `RunningAppsResponse` (lib.rs:67-72). */
  datatype RunningApps = RunningApps(companion: bool, dugout: bool, hmm: bool)

  /** `RunningRegisteredApp` (lib.rs:81-86). */
  datatype RunningRegisteredApp = RunningRegisteredApp(path: string, running: bool)

  /** `get_running_apps` (lib.rs:472-481).  Each flag tests the bundle that
      `launch_app` opens for the same key. */
  function GetRunningApps(commands: string): (r: RunningApps)
    ensures r.companion == IsAppRunningInCommands(TargetOf("companion").bundle, commands)
    ensures r.dugout == IsAppRunningInCommands(TargetOf("dugout").bundle, commands)
    ensures r.hmm == IsAppRunningInCommands(TargetOf("hmm").bundle, commands)
  {
    RunningApps(
      IsAppRunningInCommands("Companion", commands),
      IsAppRunningInCommands("Dugout", commands),
      IsAppRunningInCommands("HM Admin Console", commands))
  }

  /** Whether one registered path is running: its bundle name must be
      derivable and some line of the snapshot must count for it. */
  predicate PathRunning(path: string, commands: string) {
    match BundleNameFromAppPath(path)
    case Some(bundle) => IsAppRunningInCommands(bundle, commands)
    case None => false
  }

  /** `get_running_registered_apps` (lib.rs:376-390): one answer per path,
      in order. */
  function GetRunningRegisteredApps(paths: seq<string>, commands: string): (r: seq<RunningRegisteredApp>)
    ensures |r| == |paths|
    ensures forall i :: 0 <= i < |paths| ==> r[i].path == paths[i]
    ensures forall i :: 0 <= i < |paths| ==> r[i].running == PathRunning(paths[i], commands)
  {
    if paths == [] then []
    else [RunningRegisteredApp(paths[0], PathRunning(paths[0], commands))]
         + GetRunningRegisteredApps(paths[1..], commands)
  }

  /** A registered `<dir>/<name>.app` shows as running when the snapshot
      holds its executable `<other>/<spelling>.app/Contents/MacOS/<exe>`,
      under any directory and in any ASCII spelling of the name, unless that
      line names the sidecar. */
  lemma RegisteredBundleRunning(dir: string, name: string, commands: string,
                                other: string, spelling: string, exe: string)
    requires name != [] && '/' !in name
    requires EqIgnoreCase(spelling, name)
    requires other + "/" + spelling + ".app/Contents/MacOS/" + exe in Lines(commands)
    requires !Occurs(SidecarMarker, ToLower(other + "/" + spelling + ".app/Contents/MacOS/" + exe))
    ensures PathRunning(dir + "/" + name + ".app", commands)
  {
    BundleNameOfAppBundle(dir, name);
    LaunchedBundleLineCounts(other, spelling, exe, name);
    IsAppRunningInCommandsIff(name, commands);
  }

  /** The `get_running_apps` answer for the snapshot of lib.rs:577-580:
      Companion is running and Dugout is not. */
  lemma RunningAppsOfTestSnapshot()
    ensures GetRunningApps(Concat(DugoutSidecarPieces()) + "\n" + Concat(CompanionDevBuildPieces()) + "\n").companion
    ensures !GetRunningApps(Concat(DugoutSidecarPieces()) + "\n" + Concat(CompanionDevBuildPieces()) + "\n").dugout
  {
    RunningStateUsesMatchingNonSidecarProcessesOnly();
  }
}
