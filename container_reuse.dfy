/**
 * The decision whether the slave launcher can reuse a job's existing
 * container or must delete and recreate it: the container is reused only
 * when it was made from the same image name, command, volume paths and
 * image build, and has the environment a new container would get.
 */
module ContainerReuse {
  import opened Common
  import opened SlaveArgs

  /** The options a new container would be created with. */
  datatype CreateOpts = CreateOpts(image: string, command: seq<string>, volumes: seq<string>, environment: seq<string>)

  /**
   * What inspecting the existing container reports: the image name and
   * command it was configured with, its volume paths (null when it has
   * none), the id of the image build it runs and its environment entries.
   */
  datatype ContainerInfo = ContainerInfo(
    configImage: string,
    configCmd: Option<seq<string>>,
    configVolumes: Option<set<string>>,
    imageId: string,
    configEnv: Option<seq<string>>)

  /** What inspecting the job's image reports: the id of its current build and its environment entries. */
  datatype ImageInfo = ImageInfo(id: string, configEnv: Option<seq<string>>)

  /** `(Volumes or {}).keys()` */
  function VolumePaths(info: ContainerInfo): set<string>
  {
    if info.configVolumes.None? then {} else info.configVolumes.value
  }

  /** `set(create_opts['volumes'])` */
  function AsSet(paths: seq<string>): set<string>
  {
    set p | p in paths
  }

  /** The environment a new container gets: the image's entries, overridden by the create options'. */
  function ExpectedEnv(image: ImageInfo, opts: CreateOpts): Result<map<string, string>, string>
  {
    match EnvToMapFirstSplit(image.configEnv)
    case Failure(bad) => Failure(bad)
    case Success(fromImage) =>
      match EnvToMapFirstSplit(Some(opts.environment))
      case Failure(bad) => Failure(bad)
      case Success(fromOpts) => Success(fromImage + fromOpts)
  }

  /**
   * container_changed as a function: True at the first of the image name,
   * command, volume paths or image build that differs; otherwise whether
   * the expected environment differs from the container's as a
   * dictionary. An entry that does not split into a key and a value is an
   * error.
   */
  function ContainerChangedSpec(info: ContainerInfo, opts: CreateOpts, image: ImageInfo): Result<bool, string>
  {
    if opts.image != info.configImage then Success(true)
    else if info.configCmd != Some(opts.command) then Success(true)
    else if VolumePaths(info) != AsSet(opts.volumes) then Success(true)
    else if image.id != info.imageId then Success(true)
    else
      match ExpectedEnv(image, opts)
      case Failure(bad) => Failure(bad)
      case Success(expected) =>
        match EnvToMapFirstSplit(info.configEnv)
        case Failure(bad) => Failure(bad)
        case Success(actual) => Success(expected != actual)
  }

  /** A subset has no more elements than its superset. */
  lemma {:induction false} SubsetSize<T>(a: set<T>, b: set<T>)
    requires a <= b
    ensures |a| <= |b|
    decreases |a|
  {
    if a != {} {
      var x :| x in a;
      SubsetSize(a - {x}, b - {x});
    }
  }

  /** Two dictionaries of one size, where every entry of the first is in the second, are equal. */
  lemma MapsEqualByEntries(a: map<string, string>, b: map<string, string>)
    requires |a| == |b|
    requires forall k :: k in a ==> k in b && b[k] == a[k]
    ensures a == b
  {
    if a.Keys != b.Keys {
      var x :| x in b.Keys && x !in a.Keys;
      SubsetSize(a.Keys, b.Keys - {x});
    }
  }

  /** The loop's test is inequality: different sizes, or a key of the first missing from or different in the second. */
  lemma MapsDifferIff(a: map<string, string>, b: map<string, string>)
    ensures a != b <==> |a| != |b| || exists k :: k in a && (k !in b || a[k] != b[k])
  {
    if |a| == |b| && forall k :: k in a ==> k in b && b[k] == a[k] {
      MapsEqualByEntries(a, b);
    }
  }

  /**
   * container_changed: the four configuration checks, then the expected
   * environment built with an in-place update and compared with the
   * container's by size and key by key.
   */
  method ContainerChanged(info: ContainerInfo, opts: CreateOpts, image: ImageInfo) returns (r: Result<bool, string>)
    ensures r == ContainerChangedSpec(info, opts, image)
  {
    if opts.image != info.configImage {
      return Success(true);
    }
    if info.configCmd != Some(opts.command) {
      return Success(true);
    }
    var containerVols := if info.configVolumes.None? then {} else info.configVolumes.value;
    var expectedVols := set p | p in opts.volumes;
    if containerVols != expectedVols {
      return Success(true);
    }
    if image.id != info.imageId {
      return Success(true);
    }
    var fromImage := EnvToMapFirstSplit(image.configEnv);
    if fromImage.Failure? {
      return Failure(fromImage.error);
    }
    var expectedEnv := fromImage.value;
    var fromOpts := EnvToMapFirstSplit(Some(opts.environment));
    if fromOpts.Failure? {
      return Failure(fromOpts.error);
    }
    expectedEnv := expectedEnv + fromOpts.value;
    var fromContainer := EnvToMapFirstSplit(info.configEnv);
    if fromContainer.Failure? {
      return Failure(fromContainer.error);
    }
    var containerEnv := fromContainer.value;
    if |expectedEnv| != |containerEnv| {
      return Success(true);
    }
    var remaining := expectedEnv.Keys;
    while remaining != {}
      invariant remaining <= expectedEnv.Keys
      invariant forall k :: k in expectedEnv && k !in remaining ==> k in containerEnv && containerEnv[k] == expectedEnv[k]
      decreases |remaining|
    {
      var k :| k in remaining;
      if k !in containerEnv || expectedEnv[k] != containerEnv[k] {
        return Success(true);
      }
      remaining := remaining - {k};
    }
    MapsEqualByEntries(expectedEnv, containerEnv);
    return Success(false);
  }

  /**
   * Once the configuration checks pass and every environment parses, the
   * container counts as changed exactly when the dictionaries differ in
   * size, or a key expected is missing from the container or has another
   * value there.
   */
  lemma EnvironmentDecision(info: ContainerInfo, opts: CreateOpts, image: ImageInfo)
    requires opts.image == info.configImage && info.configCmd == Some(opts.command)
    requires VolumePaths(info) == AsSet(opts.volumes) && image.id == info.imageId
    requires ExpectedEnv(image, opts).Success? && EnvToMapFirstSplit(info.configEnv).Success?
    ensures var expected := ExpectedEnv(image, opts).value;
      var actual := EnvToMapFirstSplit(info.configEnv).value;
      ContainerChangedSpec(info, opts, image) == Success(true) <==>
        |expected| != |actual| || exists k :: k in expected && (k !in actual || expected[k] != actual[k])
  {
    MapsDifferIff(ExpectedEnv(image, opts).value, EnvToMapFirstSplit(info.configEnv).value);
  }

  /** The environment entries an image reports, null read as none. */
  function EnvEntries(env: Option<seq<string>>): seq<string>
  {
    if env.None? then [] else env.value
  }

  /**
   * A container made from these options and this image build, whose
   * environment lists the image's entries followed by the options', is
   * reused.
   */
  lemma MatchingContainerIsReused(opts: CreateOpts, image: ImageInfo)
    requires forall i :: 0 <= i < |EnvEntries(image.configEnv)| ==> '=' in EnvEntries(image.configEnv)[i]
    requires forall i :: 0 <= i < |opts.environment| ==> '=' in opts.environment[i]
    ensures ContainerChangedSpec(
      ContainerInfo(opts.image, Some(opts.command), Some(AsSet(opts.volumes)), image.id,
        Some(EnvEntries(image.configEnv) + opts.environment)),
      opts, image) == Success(false)
  {
    var fromImage := EnvEntries(image.configEnv);
    EnvToMapFirstSplitSucceeds(fromImage);
    EnvToMapFirstSplitSucceeds(opts.environment);
    assert EntriesToMap([], 1) == Success(map[]);
    EntriesToMapAppend(fromImage, opts.environment, 1);
  }
  /**
   * container_changed as written: the same checks, with the environment
   * dictionaries built by env_to_map's `split('=', 2)`, which fails on an
   * entry with two `=`.
   */
  function ContainerChangedAsWritten(info: ContainerInfo, opts: CreateOpts, image: ImageInfo): Result<bool, string>
  {
    if opts.image != info.configImage then Success(true)
    else if info.configCmd != Some(opts.command) then Success(true)
    else if VolumePaths(info) != AsSet(opts.volumes) then Success(true)
    else if image.id != info.imageId then Success(true)
    else
      match EnvToMap(image.configEnv)
      case Failure(bad) => Failure(bad)
      case Success(fromImage) =>
        match EnvToMap(Some(opts.environment))
        case Failure(bad) => Failure(bad)
        case Success(fromOpts) =>
          match EnvToMap(info.configEnv)
          case Failure(bad) => Failure(bad)
          case Success(actual) => Success(fromImage + fromOpts != actual)
  }

  /** Every entry holds exactly one `=`. */
  predicate SingleEquals(entries: seq<string>)
  {
    forall i :: 0 <= i < |entries| ==> multiset(entries[i])['='] == 1
  }

  lemma EnvReadingsAgree(env: Option<seq<string>>)
    requires SingleEquals(EnvEntries(env))
    ensures EnvToMap(env) == EnvToMapFirstSplit(env)
  {
    if env.Some? {
      EnvToMapReadingsAgree(env.value);
    }
  }

  /**
   * Where every environment entry holds exactly one `=`, the decision as
   * written and the decision with the corrected env_to_map are the same.
   */
  lemma DecisionsAgree(info: ContainerInfo, opts: CreateOpts, image: ImageInfo)
    requires SingleEquals(EnvEntries(image.configEnv)) && SingleEquals(opts.environment)
    requires SingleEquals(EnvEntries(info.configEnv))
    ensures ContainerChangedAsWritten(info, opts, image) == ContainerChangedSpec(info, opts, image)
  {
    EnvReadingsAgree(image.configEnv);
    EnvReadingsAgree(Some(opts.environment));
    EnvReadingsAgree(info.configEnv);
  }

  /**
   * The program as written reuses a container made from these options and
   * this image build when every environment entry holds exactly one `=`.
   */
  lemma MatchingContainerIsReusedAsWritten(opts: CreateOpts, image: ImageInfo)
    requires SingleEquals(EnvEntries(image.configEnv)) && SingleEquals(opts.environment)
    ensures ContainerChangedAsWritten(
      ContainerInfo(opts.image, Some(opts.command), Some(AsSet(opts.volumes)), image.id,
        Some(EnvEntries(image.configEnv) + opts.environment)),
      opts, image) == Success(false)
  {
    var fromImage := EnvEntries(image.configEnv);
    var all := fromImage + opts.environment;
    assert forall i :: 0 <= i < |fromImage| ==> '=' in multiset(fromImage[i]);
    assert forall i :: 0 <= i < |opts.environment| ==> '=' in multiset(opts.environment[i]);
    MatchingContainerIsReused(opts, image);
    assert SingleEquals(all) by {
      forall i | 0 <= i < |all| ensures multiset(all[i])['='] == 1 {
        if i >= |fromImage| {
          assert all[i] == opts.environment[i - |fromImage|];
        }
      }
    }
    DecisionsAgree(
      ContainerInfo(opts.image, Some(opts.command), Some(AsSet(opts.volumes)), image.id, Some(all)),
      opts, image);
  }
}
