/** The package list the FIPS entitlements install: the contract's base
    packages, with the generic FIPS metapackage swapped for a cloud-specific
    one where needed, followed by every conditional `(root, root-hmac)` pair
    whose root is already installed. */
module FipsPackages {
  import opened Wrappers
  import opened PyText
  import opened PyIter
  import opened Entitlements

  const FipsMetapackage: string := "ubuntu-fips"

  /** The cloud-specific FIPS metapackage for a cloud tag. */
  function CloudMetapackage(cloudId: string): string {
    "ubuntu-" + cloudId + "-fips"
  }

  /** The metapackage is swapped only on bionic Azure or AWS instances, and
      only while the `disable_fips_metapackage_override` switch is unset. */
  predicate MetapackageOverrideApplies(features: Features, series: string, cloud: CloudId) {
    && !features.disableFipsMetapackageOverride
    && series == "bionic"
    && (cloud == Some("azure") || cloud == Some("aws"))
  }

  /** Element-wise rewrite of `pkgs`, turning every `from` into `to`. */
  function SubstituteAll(pkgs: seq<string>, from: string, to: string): (r: seq<string>)
    ensures |r| == |pkgs|
    ensures forall i :: 0 <= i < |pkgs| ==> r[i] == (if pkgs[i] == from then to else pkgs[i])
  {
    if |pkgs| == 0 then []
    else [if pkgs[0] == from then to else pkgs[0]] + SubstituteAll(pkgs[1..], from, to)
  }

  /** The base package list with the cloud metapackage substitution applied.
      Only the exact name "ubuntu-fips" is touched; the list keeps its length
      and every other entry stays where it is. */
  function ReplaceMetapackage(pkgs: seq<string>, features: Features, series: string, cloud: CloudId): (r: seq<string>)
    ensures |r| == |pkgs|
    ensures !MetapackageOverrideApplies(features, series, cloud) ==> r == pkgs
    ensures forall i :: 0 <= i < |pkgs| && pkgs[i] != FipsMetapackage ==> r[i] == pkgs[i]
    ensures MetapackageOverrideApplies(features, series, cloud) ==>
      forall i :: 0 <= i < |pkgs| && pkgs[i] == FipsMetapackage ==> r[i] == CloudMetapackage(cloud.value)
  {
    if features.disableFipsMetapackageOverride then pkgs
    else if series != "bionic" then pkgs
    else if cloud.None? || cloud.value == "" || cloud.value !in ["azure", "aws"] then pkgs
    else SubstituteAll(pkgs, FipsMetapackage, CloudMetapackage(cloud.value))
  }

  /** The substitution changes the list exactly when it applies and the list
      names the generic metapackage. */
  lemma ReplaceMetapackageChangesIff(pkgs: seq<string>, features: Features, series: string, cloud: CloudId)
    ensures ReplaceMetapackage(pkgs, features, series, cloud) != pkgs
        <==> MetapackageOverrideApplies(features, series, cloud) && FipsMetapackage in pkgs
  {
    var r := ReplaceMetapackage(pkgs, features, series, cloud);
    if MetapackageOverrideApplies(features, series, cloud) && FipsMetapackage in pkgs {
      var i :| 0 <= i < |pkgs| && pkgs[i] == FipsMetapackage;
      assert |CloudMetapackage(cloud.value)| != |FipsMetapackage|;
      assert r[i] != pkgs[i];
    }
  }

  /** After the substitution the generic metapackage is gone wherever it
      applies, so substituting again changes nothing. */
  lemma ReplaceMetapackageIdempotent(pkgs: seq<string>, features: Features, series: string, cloud: CloudId)
    ensures MetapackageOverrideApplies(features, series, cloud) ==>
      FipsMetapackage !in ReplaceMetapackage(pkgs, features, series, cloud)
    ensures ReplaceMetapackage(ReplaceMetapackage(pkgs, features, series, cloud), features, series, cloud)
         == ReplaceMetapackage(pkgs, features, series, cloud)
  {
    var r := ReplaceMetapackage(pkgs, features, series, cloud);
    if MetapackageOverrideApplies(features, series, cloud) {
      assert |CloudMetapackage(cloud.value)| != |FipsMetapackage|;
      assert FipsMetapackage !in r;
      ReplaceMetapackageChangesIff(r, features, series, cloud);
    }
  }

  /** The `groupby` key of a conditional package: its name with "-hmac"
      removed. */
  function HmacRoot(name: string): string {
    Replace(name, "-hmac", "")
  }

  /** The conditional packages grouped by root. */
  function ConditionalGroups(): seq<Group<string, string>> {
    GroupBy(ConditionalPackages, HmacRoot)
  }

  /** The roots of the conditional pairs, in declaration order. */
  const HmacRoots: seq<string> := ["openssh-client", "openssh-server", "strongswan"]

  /** A root together with its `-hmac` companion. */
  function PairGroup(root: string): Group<string, string> {
    Group(root, [root, root + "-hmac"])
  }

  /** The three `(root, root-hmac)` pairs, in declaration order. */
  const ExpectedGroups: seq<Group<string, string>> :=
    [PairGroup(HmacRoots[0]), PairGroup(HmacRoots[1]), PairGroup(HmacRoots[2])]

  /** The pairs written out. */
  lemma ExpectedGroupsLiteral()
    ensures ExpectedGroups == [
      Group("openssh-client", ["openssh-client", "openssh-client-hmac"]),
      Group("openssh-server", ["openssh-server", "openssh-server-hmac"]),
      Group("strongswan", ["strongswan", "strongswan-hmac"])
    ]
  {
    assert HmacRoots[0] + "-hmac" == "openssh-client-hmac";
    assert HmacRoots[1] + "-hmac" == "openssh-server-hmac";
    assert HmacRoots[2] + "-hmac" == "strongswan-hmac";
  }

  /** Grouping the conditional packages by root yields exactly three adjacent
      pairs, each a root followed by its `-hmac` companion. */
  lemma ConditionalGroupsArePairs()
    ensures ConditionalGroups() == ExpectedGroups
  {
    ExpectedGroupsWellGrouped();
    ExpectedGroupsFlatten();
    GroupByUnique(ConditionalPackages, HmacRoot, ExpectedGroups);
  }

  lemma ExpectedGroupsWellGrouped()
    ensures WellGrouped(ExpectedGroups, HmacRoot)
  {
    var gs := ExpectedGroups;
    forall g, j | 0 <= g < |gs| && 0 <= j < |gs[g].items|
      ensures HmacRoot(gs[g].items[j]) == gs[g].key
    {
      HmacRootOfPair(HmacRoots[g], HmacRoots[g] + "-hmac");
    }
  }

  lemma ExpectedGroupsFlatten()
    ensures Flatten(ExpectedGroups) == ConditionalPackages
  {
    ExpectedGroupsLiteral();
    var gs := ExpectedGroups;
    assert gs[1..][1..][1..] == [];
    assert Flatten(gs[1..][1..]) == gs[2].items;
    assert Flatten(gs[1..]) == gs[1].items + gs[2].items;
  }

  /** A root without an 'm' and its `-hmac` companion share the root as key. */
  lemma HmacRootOfPair(root: string, companion: string)
    requires 'm' !in root
    requires companion == root + "-hmac"
    ensures HmacRoot(root) == root && HmacRoot(companion) == root
  {
    StripHmac(root);
  }

  /** The groups whose key is installed, in order. */
  function InstalledGroups(gs: seq<Group<string, string>>, installed: set<string>): seq<Group<string, string>> {
    if |gs| == 0 then []
    else (if gs[0].key in installed then [gs[0]] else []) + InstalledGroups(gs[1..], installed)
  }

  /** The `for` loop over the groups: appends each group whose root is
      installed to `acc`. It is the filtered groups laid end to end. */
  function AppendInstalledGroups(acc: seq<string>, gs: seq<Group<string, string>>, installed: set<string>): (r: seq<string>)
    ensures r == acc + Flatten(InstalledGroups(gs, installed))
    decreases |gs|
  {
    if |gs| == 0 then acc
    else
      var acc' := if gs[0].key in installed then acc + gs[0].items else acc;
      FlattenCons(gs[0], InstalledGroups(gs[1..], installed));
      assert [] + InstalledGroups(gs[1..], installed) == InstalledGroups(gs[1..], installed);
      AppendInstalledGroups(acc', gs[1..], installed)
  }

  /** What the installed conditional pairs contribute, written out pair by
      pair. */
  function InstalledPairs(installed: set<string>): seq<string> {
    (if "openssh-client" in installed then ["openssh-client", "openssh-client-hmac"] else [])
    + (if "openssh-server" in installed then ["openssh-server", "openssh-server-hmac"] else [])
    + (if "strongswan" in installed then ["strongswan", "strongswan-hmac"] else [])
  }

  /** The package list to install: the substituted base list unchanged,
      then the pair of every installed root, in declaration order. */
  function ResolvePackages(base: seq<string>, installed: set<string>, features: Features,
                           series: string, cloud: CloudId): (r: seq<string>)
    ensures |base| <= |r|
    ensures r[..|base|] == ReplaceMetapackage(base, features, series, cloud)
    ensures r[|base|..] == InstalledPairs(installed)
  {
    var pkgs := ReplaceMetapackage(base, features, series, cloud);
    ConditionalGroupsArePairs();
    InstalledPairsFromGroups(installed);
    AppendInstalledGroups(pkgs, ConditionalGroups(), installed)
  }

  /** Filtering the three pairs by installed root and laying them end to end
      gives the pair-by-pair list. */
  lemma InstalledPairsFromGroups(installed: set<string>)
    ensures Flatten(InstalledGroups(ExpectedGroups, installed)) == InstalledPairs(installed)
  {
    ExpectedGroupsLiteral();
    var g := ExpectedGroups;
    assert g[1..][1..][1..] == [];
    var a := if g[0].key in installed then [g[0]] else [];
    var b := if g[1].key in installed then [g[1]] else [];
    var c := if g[2].key in installed then [g[2]] else [];
    assert InstalledGroups(g[1..][1..][1..], installed) == [];
    assert InstalledGroups(g[1..][1..], installed) == c;
    assert InstalledGroups(g[1..], installed) == b + c;
    assert InstalledGroups(g, installed) == a + (b + c);
    FlattenAppend(a, b + c);
    FlattenAppend(b, c);
  }

  /** Every appended package is a conditional package, and a pair is
      appended whole: an installed root brings its `-hmac` companion along
      whether or not the companion is installed. */
  lemma ResolvedSuffixIsConditional(base: seq<string>, installed: set<string>, features: Features,
                                    series: string, cloud: CloudId)
    ensures forall p :: p in ResolvePackages(base, installed, features, series, cloud)[|base|..] ==> p in ConditionalPackages
    ensures forall g, j :: 0 <= g < |ExpectedGroups| && ExpectedGroups[g].key in installed && 0 <= j < |ExpectedGroups[g].items| ==>
      ExpectedGroups[g].items[j] in ResolvePackages(base, installed, features, series, cloud)[|base|..]
  {
    InstalledPairsContents(installed);
  }

  lemma InstalledPairsContents(installed: set<string>)
    ensures forall p :: p in InstalledPairs(installed) ==> p in ConditionalPackages
    ensures forall g, j :: 0 <= g < |ExpectedGroups| && ExpectedGroups[g].key in installed && 0 <= j < |ExpectedGroups[g].items| ==>
      ExpectedGroups[g].items[j] in InstalledPairs(installed)
  {
    var a := if "openssh-client" in installed then ["openssh-client", "openssh-client-hmac"] else [];
    var b := if "openssh-server" in installed then ["openssh-server", "openssh-server-hmac"] else [];
    var c := if "strongswan" in installed then ["strongswan", "strongswan-hmac"] else [];
    var s := InstalledPairs(installed);
    assert s == a + b + c;
    ExpectedGroupsLiteral();
    forall p | p in s
      ensures p in ConditionalPackages
    {
      assert p in a || p in b || p in c;
    }
    forall g, j | 0 <= g < |ExpectedGroups| && ExpectedGroups[g].key in installed && 0 <= j < |ExpectedGroups[g].items|
      ensures ExpectedGroups[g].items[j] in s
    {
      assert g == 0 || g == 1 || g == 2;
      assert j == 0 || j == 1;
      if g == 0 {
        assert s[j] == a[j];
      } else if g == 1 {
        assert s[|a| + j] == b[j];
      } else {
        assert s[|a| + |b| + j] == c[j];
      }
    }
  }

  /** Nothing is appended exactly when no root of a conditional pair is
      installed. */
  lemma ResolveAppendsNothingIff(base: seq<string>, installed: set<string>, features: Features,
                                 series: string, cloud: CloudId)
    ensures |ResolvePackages(base, installed, features, series, cloud)| == |base|
        <==> "openssh-client" !in installed && "openssh-server" !in installed && "strongswan" !in installed
  {
  }

  /** With `openssh-client` installed but neither `openssh-server` nor
      `strongswan`, exactly the `openssh-client` pair is appended. */
  lemma ResolveOpensshClientOnly(base: seq<string>, installed: set<string>, features: Features,
                                 series: string, cloud: CloudId)
    requires "openssh-client" in installed
    requires "openssh-server" !in installed && "strongswan" !in installed
    ensures ResolvePackages(base, installed, features, series, cloud)
         == ReplaceMetapackage(base, features, series, cloud) + ["openssh-client", "openssh-client-hmac"]
  {
    var r := ResolvePackages(base, installed, features, series, cloud);
    assert r == r[..|base|] + r[|base|..];
  }
}
