/**
 * Placement of a job on the cloud: whether the cloud can run a job whose
 * label expression is given (canProvision), and which image it starts on
 * which Docker host for it (both provisionJob overloads).
 *
 * The candidates are tried in a fixed order: first every image the label
 * expression names with a `docker/<image>` atom, then every image of the
 * global configuration. A candidate is taken when the expression matches
 * the label set the new node would carry; its image is then started on the
 * available hosts in ranked order until one of them accepts it.
 */
module Placement {
  import opened Common
  import opened Bindings
  import opened LabelImages
  import opened HostRanking

  /** An image of the global configuration and the labels it offers. */
  datatype PreconfiguredImage = PreconfiguredImage(imageName: string, labels: set<string>)

  /**
   * The cloud as its provisioning code reads it: its own label atoms, the
   * per-host job limit, the directory mappings parsed from its
   * configuration, and the hosts listHosts() returns.
   */
  datatype Cloud = Cloud(labels: set<string>, maxExecutors: Int32, directoryMappings: seq<Binding>, hosts: seq<Host>)

  /** An image together with the label atoms a node running it would carry. */
  datatype Candidate = Candidate(imageName: string, nodeLabels: set<string>)

  /** The node provisionSlave() starts: its host, image, labels and directory mappings. */
  datatype Slave = Slave(host: Host, imageName: string, nodeLabels: set<string>, bindings: seq<Binding>)

  datatype ProvisionResult = Provisioned(slave: Slave) | NoCapacity | NotSupported

  /** Label.matches: whether the expression accepts a set of label atoms (its grammar is not modelled). */
  type Matcher = (Label, set<string>) -> bool

  // ---------------------------------------------------------------------
  // The candidates and the first that matches
  // ---------------------------------------------------------------------

  /** The candidate for an image atom of the job's own expression: the atom plus the cloud's labels. */
  function JobCandidates(found: seq<string>, cloud: Cloud): seq<Candidate>
    requires forall k :: 0 <= k < |found| ==> IsImageAtom(found[k])
  {
    seq(|found|, k requires 0 <= k < |found| && IsImageAtom(found[k]) => Candidate(ExtractImageName(found[k]), {found[k]} + cloud.labels))
  }

  /** The candidate for a configured image: its `docker/<image>` atom, its own labels and the cloud's. */
  function ImageCandidate(image: PreconfiguredImage, cloud: Cloud): Candidate
  {
    Candidate(image.imageName, {ImageLabelPrefix + image.imageName} + image.labels + cloud.labels)
  }

  function ImageCandidates(images: seq<PreconfiguredImage>, cloud: Cloud): seq<Candidate>
  {
    seq(|images|, k requires 0 <= k < |images| => ImageCandidate(images[k], cloud))
  }

  /** Every candidate, in the order both loops of canProvision and provisionJob try them. */
  function Candidates(expr: Label, images: seq<PreconfiguredImage>, cloud: Cloud): seq<Candidate>
  {
    var found := ListPotentialImages(Some(expr));
    assert forall k :: 0 <= k < |found| ==> IsImageAtom(found[k]) by {
      PotentialImagesAreImageAtoms(Some(expr));
    }
    JobCandidates(found, cloud) + ImageCandidates(images, cloud)
  }

  /** The position of the first candidate whose label set the expression matches, if any does. */
  function FirstMatch(expr: Label, cands: seq<Candidate>, matches: Matcher): (r: Option<nat>)
    ensures r.Some? ==> r.value < |cands| && matches(expr, cands[r.value].nodeLabels)
    ensures r.Some? ==> forall k :: 0 <= k < r.value ==> !matches(expr, cands[k].nodeLabels)
    ensures r.None? <==> forall k :: 0 <= k < |cands| ==> !matches(expr, cands[k].nodeLabels)
  {
    if cands == [] then None
    else if matches(expr, cands[0].nodeLabels) then Some(0)
    else match FirstMatch(expr, cands[1..], matches)
      case None => None
      case Some(i) => Some(i + 1)
  }

  /** A matching candidate with no match before it is the first match. */
  lemma FirstMatchAt(expr: Label, cands: seq<Candidate>, matches: Matcher, i: nat)
    requires i < |cands| && matches(expr, cands[i].nodeLabels)
    requires forall k :: 0 <= k < i ==> !matches(expr, cands[k].nodeLabels)
    ensures FirstMatch(expr, cands, matches) == Some(i)
  {
  }

  // ---------------------------------------------------------------------
  // Specification of the three operations
  // ---------------------------------------------------------------------

  /** provisionJob(imageName, nodeLabels): the slave on the first ranked host that accepts it. */
  function FirstSuccess(ranked: seq<HostCount>, imageName: string, nodeLabels: set<string>, bindings: seq<Binding>): ProvisionResult
  {
    if ranked == [] then NoCapacity
    else if ranked[0].host.provisionOk then Provisioned(Slave(ranked[0].host, imageName, nodeLabels, bindings))
    else FirstSuccess(ranked[1..], imageName, nodeLabels, bindings)
  }

  function ProvisionOn(c: Candidate, cloud: Cloud): ProvisionResult
  {
    FirstSuccess(Ranked(cloud.hosts, cloud.maxExecutors), c.imageName, c.nodeLabels, cloud.directoryMappings)
  }

  /** canProvision: a label is given and some candidate matches it. */
  predicate CanProvisionSpec(expr: Option<Label>, images: seq<PreconfiguredImage>, cloud: Cloud, matches: Matcher)
  {
    expr.Some? && FirstMatch(expr.value, Candidates(expr.value, images, cloud), matches).Some?
  }

  /** provisionJob(job): the first matching candidate, started on the ranked hosts. */
  function ProvisionJobSpec(expr: Option<Label>, images: seq<PreconfiguredImage>, cloud: Cloud, matches: Matcher): ProvisionResult
  {
    if expr.None? then NotSupported
    else
      var cands := Candidates(expr.value, images, cloud);
      match FirstMatch(expr.value, cands, matches)
      case None => NotSupported
      case Some(i) => ProvisionOn(cands[i], cloud)
  }

  /** The candidate list lines up with the discovered atoms, then with the configured images. */
  lemma CandidatesAt(expr: Label, images: seq<PreconfiguredImage>, cloud: Cloud)
    ensures var found := ListPotentialImages(Some(expr));
      var cands := Candidates(expr, images, cloud);
      |cands| == |found| + |images| &&
      (forall k :: 0 <= k < |found| ==>
        IsImageAtom(found[k]) && cands[k] == Candidate(ExtractImageName(found[k]), {found[k]} + cloud.labels)) &&
      (forall k :: 0 <= k < |images| ==> cands[|found| + k] == ImageCandidate(images[k], cloud))
  {
    PotentialImagesAreImageAtoms(Some(expr));
  }

  // ---------------------------------------------------------------------
  // The operations
  // ---------------------------------------------------------------------

  /** canProvision(label): the two loops over the candidates, returning at the first match. */
  method CanProvision(expr: Option<Label>, images: seq<PreconfiguredImage>, cloud: Cloud, matches: Matcher) returns (b: bool)
    ensures b == CanProvisionSpec(expr, images, cloud, matches)
  {
    if expr.None? {
      return false;
    }
    var l := expr.value;
    CandidatesAt(l, images, cloud);
    ghost var cands := Candidates(l, images, cloud);
    var found := ListPotentialImages(expr);
    var i := 0;
    while i < |found|
      invariant 0 <= i <= |found|
      invariant forall k :: 0 <= k < i ==> !matches(l, cands[k].nodeLabels)
    {
      var cloudImageLabels := {found[i]} + cloud.labels;
      if matches(l, cloudImageLabels) {
        assert cands[i].nodeLabels == cloudImageLabels;
        return true;
      }
      i := i + 1;
    }
    var j := 0;
    while j < |images|
      invariant 0 <= j <= |images|
      invariant forall k :: 0 <= k < |found| + j ==> !matches(l, cands[k].nodeLabels)
    {
      var image := images[j];
      var cloudImageLabels := {ImageLabelPrefix + image.imageName} + image.labels + cloud.labels;
      if matches(l, cloudImageLabels) {
        assert cands[|found| + j].nodeLabels == cloudImageLabels;
        return true;
      }
      assert cands[|found| + j].nodeLabels == cloudImageLabels;
      j := j + 1;
    }
    return false;
  }

  /** provisionJob(imageName, nodeLabels): tries the ranked hosts in order; a host that fails is skipped. */
  method ProvisionImage(imageName: string, nodeLabels: set<string>, cloud: Cloud) returns (r: ProvisionResult)
    ensures r == FirstSuccess(Ranked(cloud.hosts, cloud.maxExecutors), imageName, nodeLabels, cloud.directoryMappings)
  {
    var ranked := ListAvailableHosts(cloud.hosts, cloud.maxExecutors);
    var i := 0;
    while i < |ranked|
      invariant 0 <= i <= |ranked|
      invariant FirstSuccess(ranked[i..], imageName, nodeLabels, cloud.directoryMappings)
             == FirstSuccess(ranked, imageName, nodeLabels, cloud.directoryMappings)
    {
      var host := ranked[i];
      if host.host.provisionOk {
        return Provisioned(Slave(host.host, imageName, nodeLabels, cloud.directoryMappings));
      }
      assert ranked[i..][1..] == ranked[i + 1..];
      i := i + 1;
    }
    return NoCapacity;
  }

  /** provisionJob(job): the first matching candidate's image, started by ProvisionImage. */
  method ProvisionJob(expr: Option<Label>, images: seq<PreconfiguredImage>, cloud: Cloud, matches: Matcher) returns (r: ProvisionResult)
    ensures r == ProvisionJobSpec(expr, images, cloud, matches)
  {
    if expr.None? {
      return NotSupported;
    }
    var l := expr.value;
    CandidatesAt(l, images, cloud);
    ghost var cands := Candidates(l, images, cloud);
    var found := ListPotentialImages(expr);
    var i := 0;
    while i < |found|
      invariant 0 <= i <= |found|
      invariant forall k :: 0 <= k < i ==> !matches(l, cands[k].nodeLabels)
    {
      var cloudImageLabels := {found[i]} + cloud.labels;
      if matches(l, cloudImageLabels) {
        assert cands[i] == Candidate(ExtractImageName(found[i]), cloudImageLabels);
        FirstMatchAt(l, cands, matches, i);
        r := ProvisionImage(ExtractImageName(found[i]), cloudImageLabels, cloud);
        return;
      }
      i := i + 1;
    }
    var j := 0;
    while j < |images|
      invariant 0 <= j <= |images|
      invariant forall k :: 0 <= k < |found| + j ==> !matches(l, cands[k].nodeLabels)
    {
      var image := images[j];
      var cloudImageLabels := {ImageLabelPrefix + image.imageName} + image.labels + cloud.labels;
      assert cands[|found| + j] == Candidate(image.imageName, cloudImageLabels);
      if matches(l, cloudImageLabels) {
        FirstMatchAt(l, cands, matches, |found| + j);
        r := ProvisionImage(image.imageName, cloudImageLabels, cloud);
        return;
      }
      j := j + 1;
    }
    return NotSupported;
  }

  // ---------------------------------------------------------------------
  // Properties
  // ---------------------------------------------------------------------

  /**
   * The host loop starts the slave on the first ranked host that accepts
   * it, with the image, labels and mappings it was given; it reports no
   * capacity exactly when every ranked host fails, and never reports the
   * job as unsupported.
   */
  lemma {:induction false} FirstSuccessMeaning(ranked: seq<HostCount>, imageName: string, nodeLabels: set<string>, bindings: seq<Binding>)
    ensures var r := FirstSuccess(ranked, imageName, nodeLabels, bindings);
      !r.NotSupported? &&
      (r.NoCapacity? <==> forall k :: 0 <= k < |ranked| ==> !ranked[k].host.provisionOk) &&
      (r.Provisioned? ==>
        r.slave.imageName == imageName && r.slave.nodeLabels == nodeLabels && r.slave.bindings == bindings &&
        exists k :: 0 <= k < |ranked| && ranked[k].host == r.slave.host && ranked[k].host.provisionOk &&
          forall m :: 0 <= m < k ==> !ranked[m].host.provisionOk)
  {
    if ranked != [] && !ranked[0].host.provisionOk {
      FirstSuccessMeaning(ranked[1..], imageName, nodeLabels, bindings);
      var r := FirstSuccess(ranked, imageName, nodeLabels, bindings);
      if r.Provisioned? {
        var k :| 0 <= k < |ranked[1..]| && ranked[1..][k].host == r.slave.host && ranked[1..][k].host.provisionOk &&
          forall m :: 0 <= m < k ==> !ranked[1..][m].host.provisionOk;
        assert forall m :: 0 <= m < k + 1 ==> !ranked[m].host.provisionOk by {
          forall m | 0 <= m < k + 1 ensures !ranked[m].host.provisionOk {
            if m > 0 {
              assert ranked[m] == ranked[1..][m - 1];
            }
          }
        }
        assert ranked[k + 1] == ranked[1..][k];
      } else {
        assert forall k :: 1 <= k < |ranked| ==> ranked[k] == ranked[1..][k - 1];
      }
    }
  }

  /** canProvision answers yes exactly when provisionJob does not report the job as unsupported. */
  lemma CanProvisionIffSupported(expr: Option<Label>, images: seq<PreconfiguredImage>, cloud: Cloud, matches: Matcher)
    ensures CanProvisionSpec(expr, images, cloud, matches) <==> ProvisionJobSpec(expr, images, cloud, matches) != NotSupported
  {
    if expr.Some? {
      var cands := Candidates(expr.value, images, cloud);
      match FirstMatch(expr.value, cands, matches)
      case None =>
      case Some(i) =>
        FirstSuccessMeaning(Ranked(cloud.hosts, cloud.maxExecutors), cands[i].imageName, cands[i].nodeLabels, cloud.directoryMappings);
    }
  }

  /**
   * A provisioned slave runs on a host of the cloud that answered its
   * status and count queries, was below the limit and accepted the job,
   * and every host ranked ahead of it refused; it carries the cloud's
   * directory mappings and a label set that includes the cloud's labels and
   * the `docker/<image>` atom of its image, and that the job's expression
   * matches.
   */
  lemma ProvisionedSlave(expr: Option<Label>, images: seq<PreconfiguredImage>, cloud: Cloud, matches: Matcher)
    requires ProvisionJobSpec(expr, images, cloud, matches).Provisioned?
    ensures var s := ProvisionJobSpec(expr, images, cloud, matches).slave;
      var ranked := Ranked(cloud.hosts, cloud.maxExecutors);
      s.host in cloud.hosts && Listed(s.host, cloud.maxExecutors) && s.host.provisionOk &&
      s.bindings == cloud.directoryMappings &&
      cloud.labels <= s.nodeLabels && ImageLabelPrefix + s.imageName in s.nodeLabels &&
      matches(expr.value, s.nodeLabels) &&
      exists k :: 0 <= k < |ranked| && ranked[k].host == s.host &&
        forall m :: 0 <= m < k ==> !ranked[m].host.provisionOk
  {
    var l := expr.value;
    var cands := Candidates(l, images, cloud);
    var i := FirstMatch(l, cands, matches).value;
    var ranked := Ranked(cloud.hosts, cloud.maxExecutors);
    assert ProvisionJobSpec(expr, images, cloud, matches) == ProvisionOn(cands[i], cloud);
    FirstSuccessMeaning(ranked, cands[i].imageName, cands[i].nodeLabels, cloud.directoryMappings);
    RankedEntries(cloud.hosts, cloud.maxExecutors);
    CandidateLabels(l, images, cloud, i);
  }

  /** Every candidate's label set holds the cloud's labels and the `docker/<image>` atom of its image. */
  lemma CandidateLabels(expr: Label, images: seq<PreconfiguredImage>, cloud: Cloud, i: nat)
    requires i < |Candidates(expr, images, cloud)|
    ensures var c := Candidates(expr, images, cloud)[i];
      cloud.labels <= c.nodeLabels && ImageLabelPrefix + c.imageName in c.nodeLabels
  {
    CandidatesAt(expr, images, cloud);
    var found := ListPotentialImages(Some(expr));
    if i < |found| {
      assert ImageLabelPrefix + ExtractImageName(found[i]) == found[i];
    } else {
      assert Candidates(expr, images, cloud)[i] == ImageCandidate(images[i - |found|], cloud);
    }
  }

  /** When no host of the cloud has room for a job, nothing is provisioned. */
  lemma NoRoomNoSlave(expr: Option<Label>, images: seq<PreconfiguredImage>, cloud: Cloud, matches: Matcher)
    requires forall h :: h in cloud.hosts ==> !Listed(h, cloud.maxExecutors)
    ensures ProvisionJobSpec(expr, images, cloud, matches) in {NoCapacity, NotSupported}
  {
    if ProvisionJobSpec(expr, images, cloud, matches).Provisioned? {
      ProvisionedSlave(expr, images, cloud, matches);
    }
  }

  /**
   * An image the job's expression names itself is preferred to every
   * configured image: when one of its candidates matches, the candidate
   * chosen is one of the discovered `docker/<image>` atoms, never a
   * configured image, and a provisioned slave runs that atom's image with
   * that atom and the cloud's labels.
   */
  lemma JobImagesComeFirst(expr: Label, images: seq<PreconfiguredImage>, cloud: Cloud, matches: Matcher, a: string)
    requires a in ListPotentialImages(Some(expr)) && matches(expr, {a} + cloud.labels)
    ensures FirstMatch(expr, Candidates(expr, images, cloud), matches).Some?
    ensures FirstMatch(expr, Candidates(expr, images, cloud), matches).value < |ListPotentialImages(Some(expr))|
    ensures ProvisionJobSpec(Some(expr), images, cloud, matches).Provisioned? ==>
      exists b :: b in ListPotentialImages(Some(expr)) && |b| >= |ImageLabelPrefix| &&
        ProvisionJobSpec(Some(expr), images, cloud, matches).slave.imageName == ExtractImageName(b) &&
        ProvisionJobSpec(Some(expr), images, cloud, matches).slave.nodeLabels == {b} + cloud.labels
  {
    var found := ListPotentialImages(Some(expr));
    var cands := Candidates(expr, images, cloud);
    CandidatesAt(expr, images, cloud);
    var k :| 0 <= k < |found| && found[k] == a;
    assert matches(expr, cands[k].nodeLabels);
    var i := FirstMatch(expr, cands, matches).value;
    assert i <= k;
    var ranked := Ranked(cloud.hosts, cloud.maxExecutors);
    FirstSuccessMeaning(ranked, cands[i].imageName, cands[i].nodeLabels, cloud.directoryMappings);
    assert found[i] in found;
  }

  /** The expression `docker/ubuntu && linux` on a cloud labelled linux has the one candidate ubuntu. */
  lemma ExampleUbuntuCandidate(cloud: Cloud)
    requires cloud.labels == {"linux"}
    ensures Candidates(Composite([Some(Atom("docker/ubuntu")), Some(Atom("linux"))]), [], cloud)
         == [Candidate("ubuntu", {"docker/ubuntu", "linux"})]
  {
    var expr := Composite([Some(Atom("docker/ubuntu")), Some(Atom("linux"))]);
    ExampleUbuntuAndLinux();
    CandidatesAt(expr, [], cloud);
    var cands := Candidates(expr, [], cloud);
    assert cands[0] == Candidate(ExtractImageName("docker/ubuntu"), {"docker/ubuntu"} + {"linux"});
    assert {"docker/ubuntu"} + {"linux"} == {"docker/ubuntu", "linux"};
  }

  /** With a limit of four, a host running one job ranks ahead of a host running three. */
  lemma ExampleRanking(busy: Host, idle: Host)
    requires busy.statusOk && busy.runningJobs == Some(3)
    requires idle.statusOk && idle.runningJobs == Some(1)
    ensures Ranked([busy, idle], 4) == [HostCount(idle, 3), HostCount(busy, 1)]
  {
    var a := [busy, idle];
    assert a[..1] == [busy] && [busy][..0] == [];
    assert Available([busy], 4) == [HostCount(busy, 1)];
    assert Available(a, 4) == [HostCount(busy, 1), HostCount(idle, 3)];
    var b, i := HostCount(busy, 1), HostCount(idle, 3);
    assert [b, i][1..] == [i] && [i][1..] == [];
    assert SortByCapacity([i]) == [i];
    CompareOfCapacities(b, i);
    assert Insert(b, [i]) == [i] + Insert(b, []);
  }

  /**
   * The job `docker/ubuntu && linux` on a cloud labelled linux with a limit
   * of four jobs per host: of a host running three jobs and one running one,
   * the ubuntu image is started on the one with more room.
   */
  lemma ExampleUbuntuOnRoomiestHost(busy: Host, idle: Host, matches: Matcher)
    requires busy.statusOk && busy.runningJobs == Some(3) && busy.provisionOk
    requires idle.statusOk && idle.runningJobs == Some(1) && idle.provisionOk
    requires matches(Composite([Some(Atom("docker/ubuntu")), Some(Atom("linux"))]), {"docker/ubuntu", "linux"})
    ensures ProvisionJobSpec(Some(Composite([Some(Atom("docker/ubuntu")), Some(Atom("linux"))])), [], Cloud({"linux"}, 4, [], [busy, idle]), matches)
         == Provisioned(Slave(idle, "ubuntu", {"docker/ubuntu", "linux"}, []))
  {
    var cloud := Cloud({"linux"}, 4, [], [busy, idle]);
    var expr := Composite([Some(Atom("docker/ubuntu")), Some(Atom("linux"))]);
    ExampleUbuntuCandidate(cloud);
    var cands := Candidates(expr, [], cloud);
    FirstMatchAt(expr, cands, matches, 0);
    ExampleRanking(busy, idle);
  }
}
