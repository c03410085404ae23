/** The fixed name mapping of the `launch_app` command (lib.rs:24-31): the
    three keys the frontend sends and the bundle each one opens with
    `open -a`.  Running `open` is not modelled. */
module Launch {
  import opened Text
  import opened Paths

  datatype LaunchTarget =
    | Mapped(bundle: string)
    | Unsupported(appName: string)   // "Unsupported app name: {app_name}"

  /** The keys `launch_app` accepts, matched exactly. */
  predicate IsSupportedKey(appName: string) {
    appName == "companion" || appName == "dugout" || appName == "hmm"
  }

  /** The bundles those keys open. */
  predicate IsKnownBundle(bundle: string) {
    bundle == "Companion" || bundle == "Dugout" || bundle == "HM Admin Console"
  }

  /** The `match` of `launch_app` (lib.rs:26-31). */
  function TargetOf(appName: string): (r: LaunchTarget)
    ensures r.Mapped? <==> IsSupportedKey(appName)
    ensures r.Mapped? ==> IsKnownBundle(r.bundle)
    ensures r.Unsupported? ==> r.appName == appName
  {
    match appName
    case "companion" => Mapped("Companion")
    case "dugout" => Mapped("Dugout")
    case "hmm" => Mapped("HM Admin Console")
    case _ => Unsupported(appName)
  }

  /** Every known bundle is opened by exactly one key. */
  lemma TargetOfInjective(a: string, b: string)
    requires TargetOf(a).Mapped? && TargetOf(b).Mapped?
    requires TargetOf(a).bundle == TargetOf(b).bundle
    ensures a == b
  {
    assert "Companion" != "Dugout";
    assert "Companion" != "HM Admin Console";
    assert "Dugout" != "HM Admin Console";
  }

  /** Every known bundle is reached by some key. */
  lemma TargetOfOnto(bundle: string)
    requires IsKnownBundle(bundle)
    ensures exists appName :: TargetOf(appName) == Mapped(bundle)
  {
    if bundle == "Companion" {
      assert TargetOf("companion") == Mapped(bundle);
    } else if bundle == "Dugout" {
      assert TargetOf("dugout") == Mapped(bundle);
    } else {
      assert TargetOf("hmm") == Mapped(bundle);
    }
  }

  /** The path the failure message of `launch_app` points to
      (`/Applications/{mapped_name}.app`, lib.rs:43-45) is a valid bundle
      path whose bundle name is the mapped name again. */
  lemma ExpectedPathNamesTarget(appName: string)
    requires IsSupportedKey(appName)
    ensures BundleNameFromAppPath("/Applications/" + TargetOf(appName).bundle + ".app") == Some(TargetOf(appName).bundle)
    ensures HasAppExtension("/Applications/" + TargetOf(appName).bundle + ".app")
  {
    KnownBundleIsOneComponent(TargetOf(appName).bundle);
  }

  lemma KnownBundleIsOneComponent(bundle: string)
    requires IsKnownBundle(bundle)
    ensures BundleNameFromAppPath("/Applications/" + bundle + ".app") == Some(bundle)
    ensures HasAppExtension("/Applications/" + bundle + ".app")
  {
    assert "/Applications/" + bundle + ".app" == "/Applications" + "/" + bundle + ".app";
    BundleNameOfAppBundle("/Applications", bundle);
  }
}
