/** The static affordances of the FIPS entitlements: the ordered list of
    `(reason, predicate, flag)` entries the generic affordance evaluator
    checks before enabling. Predicates are named checks evaluated against
    explicit host facts. */
module Affordances {
  import opened Wrappers
  import opened Entitlements

  /** Why an affordance blocks. `FipsBlockOnCloud` carries the arguments of
      the cloud-block message template, whose text lives elsewhere. */
  datatype Reason =
    | Message(text: string)
    | FipsBlockOnCloud(service: string, cloud: Option<string>)

  /** The predicate of an affordance. */
  datatype Check = IsContainer | XenialCloudBlocked | FipsUpdatesEnabled

  /** One affordance entry. `flag` is handed to the evaluator unchanged. */
  datatype Affordance = Affordance(reason: Reason, check: Check, flag: bool)

  /** The host facts the predicates read. `fipsUpdatesEnabled` is whether the
      FIPS Updates entitlement currently reports ENABLED. */
  datatype HostFacts = HostFacts(
    isContainer: bool,
    features: Features,
    series: string,
    cloud: CloudId,
    fipsUpdatesEnabled: bool)

  /** Whether FIPS must be refused on a xenial Azure or GCE instance. The
      override switch wins over every other input, and an unknown cloud
      never blocks. */
  function PreventFipsOnXenialCloud(features: Features, series: string, cloud: CloudId): (blocked: bool)
    ensures blocked <==>
      && !features.allowXenialFipsOnCloud
      && series == "xenial"
      && (cloud == Some("azure") || cloud == Some("gce"))
  {
    if features.allowXenialFipsOnCloud then false
    else if series != "xenial" then false
    else if cloud.None? then false
    else cloud.value in ["azure", "gce"]
  }

  /** The article-and-name the cloud-block message uses for a cloud, looked
      up with a missing cloud treated as "". */
  function CloudTitle(cloud: CloudId): (title: Option<string>)
    ensures title.Some? <==> cloud == Some("azure") || cloud == Some("gce")
    ensures cloud == Some("azure") ==> title == Some("an Azure")
    ensures cloud == Some("gce") ==> title == Some("a GCP")
  {
    var titles := map["azure" := "an Azure", "gce" := "a GCP"];
    var id := cloud.GetOr("");
    if id in titles then Some(titles[id]) else None
  }

  /** Evaluates a predicate against the host facts. */
  function Holds(c: Check, h: HostFacts): bool {
    match c
    case IsContainer => h.isContainer
    case XenialCloudBlocked => PreventFipsOnXenialCloud(h.features, h.series, h.cloud)
    case FipsUpdatesEnabled => h.fipsUpdatesEnabled
  }

  /** The two affordances both variants declare, for a service of the given
      title on the given cloud. */
  function CommonAffordances(title: string, cloud: CloudId): seq<Affordance> {
    [
      Affordance(Message("Cannot install " + title + " on a container"), IsContainer, false),
      Affordance(FipsBlockOnCloud(title, CloudTitle(cloud)), XenialCloudBlocked, false)
    ]
  }

  /** The affordances of a variant: the common two, in order, and for FIPS
      a third refusing to enable while FIPS Updates is enabled. */
  function StaticAffordances(v: Variant, cloud: CloudId): (r: seq<Affordance>)
    ensures |r| == if v == Fips then 3 else 2
    ensures r[..2] == CommonAffordances(v.Title(), cloud)
    ensures r[0].check == IsContainer && r[1].check == XenialCloudBlocked
    ensures forall i :: 0 <= i < |r| ==> !r[i].flag
    ensures v == Fips ==>
      r[2] == Affordance(Message("Cannot enable FIPS when FIPS Updates is enabled"), FipsUpdatesEnabled, false)
  {
    var common := CommonAffordances(v.Title(), cloud);
    match v
    case FipsUpdates => common
    case Fips =>
      FipsConflictText();
      common + [Affordance(Message("Cannot enable " + v.Title() + " when " + FipsUpdates.Title() + " is enabled"),
                           FipsUpdatesEnabled, false)]
  }

  /** The FIPS Updates conflict message, formatted from the two titles. */
  lemma FipsConflictText()
    ensures "Cannot enable " + Fips.Title() + " when " + FipsUpdates.Title() + " is enabled"
         == "Cannot enable FIPS when FIPS Updates is enabled"
  {
  }

  /** Some predicate of a variant's affordances holds exactly when the host
      is a container, or FIPS is refused on this xenial cloud, or (for FIPS
      only) FIPS Updates is enabled. */
  lemma AffordanceTriggers(v: Variant, h: HostFacts)
    ensures (exists i :: 0 <= i < |StaticAffordances(v, h.cloud)| && Holds(StaticAffordances(v, h.cloud)[i].check, h))
        <==> h.isContainer
             || PreventFipsOnXenialCloud(h.features, h.series, h.cloud)
             || (v == Fips && h.fipsUpdatesEnabled)
  {
    var r := StaticAffordances(v, h.cloud);
    assert r[0] == r[..2][0] && r[1] == r[..2][1];
    if v == Fips {
      assert Holds(r[2].check, h) == h.fipsUpdatesEnabled;
    }
  }

  /** With the override switch set, only the container check and (for FIPS)
      the FIPS Updates check can hold, whatever the release and cloud. */
  lemma OverrideAllowsXenialCloud(v: Variant, h: HostFacts)
    requires h.features.allowXenialFipsOnCloud
    requires !h.isContainer && !h.fipsUpdatesEnabled
    ensures forall i :: 0 <= i < |StaticAffordances(v, h.cloud)| ==> !Holds(StaticAffordances(v, h.cloud)[i].check, h)
  {
    AffordanceTriggers(v, h);
  }
}
