/** Disabling a FIPS entitlement: remove the FIPS metapackage(s) it
    introduced, never the conditional packages, and only what is installed. */
module FipsRemoval {
  import opened Wrappers
  import opened Entitlements
  import opened FipsPackages
  import opened Apt

  /** A sequence that lists no element twice. */
  predicate NoDuplicates(s: seq<string>) {
    forall i, j :: 0 <= i < j < |s| ==> s[i] != s[j]
  }

  /** The packages to remove: (resolved - conditional) intersected with the
      installed packages. */
  function RemovalTargets(resolved: seq<string>, installed: set<string>): (t: set<string>)
    ensures t <= installed
    ensures forall p :: p in t ==> p in resolved && p !in ConditionalPackages
    ensures forall p :: p in resolved && p in installed && p !in ConditionalPackages ==> p in t
  {
    ((set p | p in resolved) - (set c | c in ConditionalPackages)) * installed
  }

  /** The conditional pairs appended during resolution never reach the
      removal set: it is decided by the substituted base list alone. */
  lemma RemovalIgnoresConditionalPairs(base: seq<string>, installed: set<string>, features: Features,
                                       series: string, cloud: CloudId)
    ensures RemovalTargets(ResolvePackages(base, installed, features, series, cloud), installed)
         == RemovalTargets(ReplaceMetapackage(base, features, series, cloud), installed)
  {
    var resolved := ResolvePackages(base, installed, features, series, cloud);
    var pkgs := ReplaceMetapackage(base, features, series, cloud);
    assert resolved == pkgs + resolved[|base|..];
    ResolvedSuffixIsConditional(base, installed, features, series, cloud);
  }

  /** The fixed head of the removal command line. */
  const RemoveCommandHead: seq<string> := ["apt-get", "remove", "--assume-yes"] + DpkgConfOptions

  /** The removal command `remove_packages` issues, if any. The package
      arguments list the removal set in no particular order (the source
      turns a set into a list), each exactly once. */
  method RemovePackagesCommand(v: Variant, base: seq<string>, installed: set<string>, features: Features,
                               series: string, cloud: CloudId)
    returns (cmd: Option<AptCommand>)
    ensures cmd.None? <==> RemovalTargets(ResolvePackages(base, installed, features, series, cloud), installed) == {}
    ensures cmd.Some? ==>
      && |cmd.value.args| > |RemoveCommandHead|
      && cmd.value.args[..|RemoveCommandHead|] == RemoveCommandHead
      && NoDuplicates(cmd.value.args[|RemoveCommandHead|..])
      && (forall p :: p in cmd.value.args[|RemoveCommandHead|..]
            <==> p in RemovalTargets(ResolvePackages(base, installed, features, series, cloud), installed))
      && cmd.value.onFailure == EnabledFailed(v.Title())
      && cmd.value.env == NoninteractiveEnv
  {
    var targets := RemovalTargets(ResolvePackages(base, installed, features, series, cloud), installed);
    if targets == {} {
      return None;
    }
    var listed := ListSet(targets);
    var args := RemoveCommandHead + listed;
    assert args[|RemoveCommandHead|..] == listed;
    cmd := Some(AptCommand(args, EnabledFailed(v.Title()), NoninteractiveEnv));
  }

  /** `list(s)`: the elements of a set, each once, in some order. */
  method ListSet(s: set<string>) returns (listed: seq<string>)
    ensures NoDuplicates(listed)
    ensures forall p :: p in listed <==> p in s
    ensures |listed| == |s|
  {
    var rest := s;
    listed := [];
    while rest != {}
      invariant rest <= s
      invariant forall p :: p in listed ==> p in s && p !in rest
      invariant forall p :: p in s ==> p in listed || p in rest
      invariant NoDuplicates(listed)
      invariant |listed| + |rest| == |s|
      decreases |rest|
    {
      var p :| p in rest;
      listed := listed + [p];
      rest := rest - {p};
    }
  }
}
