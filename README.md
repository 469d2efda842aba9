# Docker build cloud: a verified model

This project models, in Dafny, the core of the Jenkins "docker build" plugin.
The plugin's cloud runs each build in a Docker container on one of a set of
Docker hosts. Inside the container, a Python launcher starts the build slave.
The model covers the following parts:

- **Directory mappings** (`Bindings`): the text block of `host[:container][:access]`
  lines that the cloud parses into bindings (`parseBindings`, `cleanLine`,
  `BINDING_ACCESS`). It includes the line-numbered error messages and the
  fail-fast loop. Two round trips are proved: formatted bindings parse back
  unchanged, and writing back what a parse gives and parsing again gives the same result.
- **Image discovery** (`LabelImages`): the `docker/<image>` atoms found in a
  job's label expression (`discoverPotentialImages`, `listPotentialImages`,
  `extractImageName`).
- **Host ranking** (`HostRanking`): the hosts that answer and have room, ranked
  by remaining capacity (`listAvailableHosts`, `HostCount.compareTo`, the stable
  `Collections.sort`).
- **Placement** (`Placement`): `canProvision` and both `provisionJob`
  overloads. A job is tried against the image atoms of its own label, then
  against the preconfigured images. The first candidate whose labels the
  expression matches is placed on the first ranked host that accepts it.
- **Form checks** (`CloudValidators`): the `Descriptor.doCheck*` validators of
  the cloud's configuration form.
- **Slave launcher arguments** (`SlaveArgs`): the `--env` and `--volume`
  argument types of the launcher (`env_var`, `volume`, with their regular
  expressions modelled by explicit backtracking) and `env_to_map`.
- **Container reuse** (`ContainerReuse`): `container_changed`, which decides
  whether an existing job container can be reused.

Loops that the source runs with early returns are Dafny methods, and each is
proved against a specification function. The parse loop, the candidate loops,
the host loop and the environment comparison loop are all written this way.
Properties are proved as lemmas about those functions.

Some inputs come from outside the code and are passed in as parameters:

- the global list of preconfigured images;
- the answers of the Docker hosts;
- the label matcher `Label.matches`;
- the image inspection in `container_changed`.

## Model

Functions that only define what an operation computes carry no contract of
their own; the lemmas about them are listed instead:
`HostRanking.Compare` (`CompareOfCapacities`), `LabelImages.ListPotentialImages`
(`PotentialImagesAreImageAtoms`), `Bindings.AccessOf` (`AccessOfTokens`),
`Bindings.SplitLines` (`SplitLinesWithoutBreak`, `SplitRunsAtBreak`),
`SlaveArgs.EnvToMap` (`EnvToMapAsWritten`), `SlaveArgs.EnvToMapFirstSplit`
(`EnvToMapFirstSplitSucceeds`, `EntriesToMapKeys`, `EntriesToMapLastWins`) and
`ContainerReuse.ContainerChangedSpec` (`ContainerChanged`, `EnvironmentDecision`,
`MatchingContainerIsReused`).

| member | source | states |
|---|---|---|
| Common.Wrap32 | plugin/src/main/java/net/dump247/jenkins/plugins/dockerbuild/DockerCloud.java:398-401 | Java int arithmetic: a result inside the 32-bit range is unchanged |
| Common.Wrap32Congruent | plugin/src/main/java/net/dump247/jenkins/plugins/dockerbuild/DockerCloud.java:398-401 | the wrapped value differs from the true value by a multiple of 2^32 |
| Common.TrimEmptyIff | plugin/src/main/java/net/dump247/jenkins/plugins/dockerbuild/DockerCloud.java:355-359 | `String.trim()` is empty exactly when every char is a blank or control char (code ≤ U+0020) |
| Common.TrimOfUntrimmed | plugin/src/main/java/net/dump247/jenkins/plugins/dockerbuild/DockerCloud.java:335-336 | trimming a string with no blank at either end leaves it unchanged |
| Common.IndexOf | plugin/src/main/java/net/dump247/jenkins/plugins/dockerbuild/DockerCloud.java:332 | `indexOf` is -1 exactly when the char is absent; otherwise it is the first occurrence |
| Common.JavaSplitPieces | plugin/src/main/java/net/dump247/jenkins/plugins/dockerbuild/DockerCloud.java:289 | no piece of `split(":")` contains the separator |
| Common.DecimalString | plugin/src/main/java/net/dump247/jenkins/plugins/dockerbuild/DockerCloud.java:292 | the `%d` digits of a line number read back as that number, with no leading zero |
| Common.ToLowerAsciiChars | plugin/src/main/java/net/dump247/jenkins/plugins/dockerbuild/DockerCloud.java:297 | lower-casing maps 'A'..'Z' to 'a'..'z' and leaves every other char as it is |
| Bindings.AccessOfTokens | plugin/src/main/java/net/dump247/jenkins/plugins/dockerbuild/DockerCloud.java:71-74 | after lower-casing, only `r` (read) and `rw` (read-write) are access tokens, in any letter case |
| Bindings.SplitLinesWithoutBreak | plugin/src/main/java/net/dump247/jenkins/plugins/dockerbuild/DockerCloud.java:284 | a text without CR or LF is one segment |
| Bindings.SplitRunsAtBreak | plugin/src/main/java/net/dump247/jenkins/plugins/dockerbuild/DockerCloud.java:284 | a whole run of CR/LF chars separates two segments (`split("[\r\n]+")`) |
| Bindings.CleanLine | plugin/src/main/java/net/dump247/jenkins/plugins/dockerbuild/DockerCloud.java:331-337 | the cleaned line has no `#` and no blank at either end |
| Bindings.CleanLineIdempotent | plugin/src/main/java/net/dump247/jenkins/plugins/dockerbuild/DockerCloud.java:331-337 | cleaning a cleaned line changes nothing |
| Bindings.CleanLineDropsComment | plugin/src/main/java/net/dump247/jenkins/plugins/dockerbuild/DockerCloud.java:331-337 | the cleaned line is the trimmed text before the first `#`; with no `#` it is the trimmed line |
| Bindings.ExampleCommentLine | plugin/src/main/java/net/dump247/jenkins/plugins/dockerbuild/DockerCloud.java:331-337 | `  /data:rw # cache` cleans to `/data:rw` |
| Bindings.CommentIsIgnored | plugin/src/main/java/net/dump247/jenkins/plugins/dockerbuild/DockerCloud.java:284-288 | a one-line text with a comment after its code parses exactly as its trimmed code alone |
| Bindings.ParseLine | plugin/src/main/java/net/dump247/jenkins/plugins/dockerbuild/DockerCloud.java:289-323 | a line that is accepted yields a binding whose host and container paths are both absolute |
| Bindings.ParseFields | plugin/src/main/java/net/dump247/jenkins/plugins/dockerbuild/DockerCloud.java:289-323 | the imperative field handling, with `containerDir` and `bindingAccess` reassigned, equals the field rules; accepted paths are absolute |
| Bindings.ParseBindings | plugin/src/main/java/net/dump247/jenkins/plugins/dockerbuild/DockerCloud.java:279-329 | a null or empty text gives no bindings; otherwise the result is the segment-by-segment parse; every binding has absolute paths |
| Bindings.ParseLines | plugin/src/main/java/net/dump247/jenkins/plugins/dockerbuild/DockerCloud.java:281-325 | the counting loop (blank lines skipped, stop at the first bad line) equals the segment parse numbered from 1 |
| Bindings.ParseFromIsParseSegments | plugin/src/main/java/net/dump247/jenkins/plugins/dockerbuild/DockerCloud.java:284-325 | the loop's state after i segments is the collected bindings prepended to the parse of the rest, numbered from i+1 |
| Bindings.ErrorMessage | plugin/src/main/java/net/dump247/jenkins/plugins/dockerbuild/DockerCloud.java:292-320 | the message is "Invalid directory mapping", then the rule text of its kind (none for a wrong field count, ", unsupported access statement, use r or rw", ", use absolute paths"), then ` (line N): ` with N in decimal, then the cleaned line |
| Bindings.ErrorMessageIdentifiesLine | plugin/src/main/java/net/dump247/jenkins/plugins/dockerbuild/DockerCloud.java:292-320 | two messages for the same rule and line text are equal only when they name the same line number |
| Bindings.ParseSucceedsIffAllSegmentsOk | plugin/src/main/java/net/dump247/jenkins/plugins/dockerbuild/DockerCloud.java:284-325 | a parse succeeds exactly when every segment is blank after cleaning or is a valid line |
| Bindings.ParseYieldsOneBindingPerLine | plugin/src/main/java/net/dump247/jenkins/plugins/dockerbuild/DockerCloud.java:284-325 | a successful parse yields one binding per non-blank cleaned segment, in input order |
| Bindings.FailingSegmentIsReported | plugin/src/main/java/net/dump247/jenkins/plugins/dockerbuild/DockerCloud.java:285-320 | a failed parse reports the segment number of a non-blank, invalid segment, together with its cleaned text and the rule it breaks |
| Bindings.SegmentsBeforeFailureAreOk | plugin/src/main/java/net/dump247/jenkins/plugins/dockerbuild/DockerCloud.java:284-325 | every segment before the reported one was blank or valid, so the parse fails on the first bad line |
| Bindings.ParsedBindingsAreCanonical | plugin/src/main/java/net/dump247/jenkins/plugins/dockerbuild/DockerCloud.java:284-323 | every parsed path is absolute and has no colon, `#`, CR, LF or trailing blank, since it is a trimmed `:`-piece of a cleaned segment |
| Bindings.AccessToken | plugin/src/main/java/net/dump247/jenkins/plugins/dockerbuild/DockerCloud.java:71-74 | the token written for an access reads back as that access |
| Bindings.FormatBindingParses | plugin/src/main/java/net/dump247/jenkins/plugins/dockerbuild/DockerCloud.java:286-323 | a formatted `host:container:access` line is already clean and parses back to its binding |
| Bindings.FormattedTextLines | plugin/src/main/java/net/dump247/jenkins/plugins/dockerbuild/DockerCloud.java:283-284 | the formatted text is not empty, and its segments are exactly the formatted lines |
| Bindings.FormatThenParse | plugin/src/main/java/net/dump247/jenkins/plugins/dockerbuild/DockerCloud.java:279-329 | round trip: bindings with canonical paths, written one per line, parse back to the same list in the same order |
| Bindings.ParseFormatParse | plugin/src/main/java/net/dump247/jenkins/plugins/dockerbuild/DockerCloud.java:279-329 | parse, write back one binding per line, parse again: the second parse gives the bindings of the first |
| Bindings.OneLineText | plugin/src/main/java/net/dump247/jenkins/plugins/dockerbuild/DockerCloud.java:283-323 | a one-line text without a comment gives the result of that line, reported as line 1 |
| Bindings.OneField | plugin/src/main/java/net/dump247/jenkins/plugins/dockerbuild/DockerCloud.java:314-321 | one field mounts the host path at the same path, read-only, or is a relative-path error |
| Bindings.TwoFields | plugin/src/main/java/net/dump247/jenkins/plugins/dockerbuild/DockerCloud.java:306-321 | with two fields, an access token in the second sets the access and mounts at the host path; anything else there is the container path, read-only |
| Bindings.ThreeFields | plugin/src/main/java/net/dump247/jenkins/plugins/dockerbuild/DockerCloud.java:300-321 | with three fields, the third must be an access token, or the line is the unsupported-access error; both paths must be absolute |
| Bindings.ThreeFieldText | plugin/src/main/java/net/dump247/jenkins/plugins/dockerbuild/DockerCloud.java:283-323 | a one-line text of three plain fields is the unsupported-access error, one binding, or the relative-path error, reported as line 1 |
| Bindings.JavaSplitOfJoined | plugin/src/main/java/net/dump247/jenkins/plugins/dockerbuild/DockerCloud.java:289 | `split(":")` gives back the colon-free fields of a colon-joined line whose last field is not empty |
| Bindings.TooManyFields | plugin/src/main/java/net/dump247/jenkins/plugins/dockerbuild/DockerCloud.java:289-293 | a line of more than three colon-free fields, the last not empty, is the field-count error |
| Bindings.TrailingColonIgnored | plugin/src/main/java/net/dump247/jenkins/plugins/dockerbuild/DockerCloud.java:289-293 | a trailing colon adds no field: Java's split drops the empty last piece, so the line reads as without it |
| Bindings.ExampleThreeFields | plugin/src/main/java/net/dump247/jenkins/plugins/dockerbuild/DockerCloud.java:279-329 | `/data:/app/data:rw` is one read-write binding |
| Bindings.ExampleOneField | plugin/src/main/java/net/dump247/jenkins/plugins/dockerbuild/DockerCloud.java:314-316 | `/data` is mounted at `/data`, read-only |
| Bindings.ExampleRelativeContainer | plugin/src/main/java/net/dump247/jenkins/plugins/dockerbuild/DockerCloud.java:306-320 | `/rel:data` is a relative-path error on line 1 |
| Bindings.LineAfterBreakRunIsLineTwo | plugin/src/main/java/net/dump247/jenkins/plugins/dockerbuild/DockerCloud.java:284-285 | line numbers count segments, so a bad second line is line 2 whatever the run of breaks before it |
| LabelImages.Discover | plugin/src/main/java/net/dump247/jenkins/plugins/dockerbuild/DockerCloud.java:412-439 | discovery only appends to the results it is given, and only `docker/<non-empty>` atoms |
| LabelImages.DiscoverIsFilteredAtoms | plugin/src/main/java/net/dump247/jenkins/plugins/dockerbuild/DockerCloud.java:412-439 | discovery appends exactly the image atoms among the expression's atoms, left to right |
| LabelImages.PotentialImagesAreImageAtoms | plugin/src/main/java/net/dump247/jenkins/plugins/dockerbuild/DockerCloud.java:408-410 | an atom is listed exactly when it occurs in the expression and is `docker/` followed by at least one char |
| LabelImages.DiscoveredImageNames | plugin/src/main/java/net/dump247/jenkins/plugins/dockerbuild/DockerCloud.java:404-410 | every listed atom is the prefix followed by the non-empty image name extracted from it |
| LabelImages.DiscoverLeaves | plugin/src/main/java/net/dump247/jenkins/plugins/dockerbuild/DockerCloud.java:413-426 | a null label lists nothing; a single atom is listed exactly when it is an image atom |
| LabelImages.ExtractImageName | plugin/src/main/java/net/dump247/jenkins/plugins/dockerbuild/DockerCloud.java:404-406 | the name is the atom without its `docker/` prefix |
| LabelImages.ExampleUbuntuAndLinux | plugin/src/main/java/net/dump247/jenkins/plugins/dockerbuild/DockerCloud.java:404-439 | `docker/ubuntu && linux` lists `docker/ubuntu`, whose image name is `ubuntu` |
| HostRanking.CompareOfCapacities | plugin/src/main/java/net/dump247/jenkins/plugins/dockerbuild/DockerCloud.java:398-401 | for non-negative capacities, `compareTo` orders the larger capacity first and treats equal capacities as equal |
| HostRanking.Entry | plugin/src/main/java/net/dump247/jenkins/plugins/dockerbuild/DockerCloud.java:211-225 | a host is listed exactly when its status and count queries succeed and the count is below the limit; its capacity is the limit minus the count, between 1 and the limit |
| HostRanking.AvailableEntries | plugin/src/main/java/net/dump247/jenkins/plugins/dockerbuild/DockerCloud.java:207-228 | every available entry is a listed host of the cloud with capacity limit minus count |
| HostRanking.ListedHostsAreAvailable | plugin/src/main/java/net/dump247/jenkins/plugins/dockerbuild/DockerCloud.java:211-225 | every host that answers and is below the limit appears among the available entries |
| HostRanking.SortPermutes | plugin/src/main/java/net/dump247/jenkins/plugins/dockerbuild/DockerCloud.java:226 | sorting is a permutation |
| HostRanking.SortIsSorted | plugin/src/main/java/net/dump247/jenkins/plugins/dockerbuild/DockerCloud.java:226 | sorting with `compareTo` orders the entries from highest to lowest capacity |
| HostRanking.SortIsStable | plugin/src/main/java/net/dump247/jenkins/plugins/dockerbuild/DockerCloud.java:226 | sorting is stable: the entries of any one capacity keep their host order |
| HostRanking.ListAvailableHosts | plugin/src/main/java/net/dump247/jenkins/plugins/dockerbuild/DockerCloud.java:207-228 | the host loop followed by the sort gives the ranking: sorted by falling capacity and a permutation of the available entries |
| HostRanking.RankedHosts | plugin/src/main/java/net/dump247/jenkins/plugins/dockerbuild/DockerCloud.java:207-228 | the ranking is sorted, is a permutation of the available entries, and keeps host order within each capacity |
| HostRanking.RankedEntries | plugin/src/main/java/net/dump247/jenkins/plugins/dockerbuild/DockerCloud.java:207-228 | every ranked entry is a listed host of the cloud, with capacity limit minus count |
| HostRanking.RankedMonotonic | plugin/src/main/java/net/dump247/jenkins/plugins/dockerbuild/DockerCloud.java:226-227 | a host with more room is tried before a host with less |
| Placement.FirstMatch | plugin/src/main/java/net/dump247/jenkins/plugins/dockerbuild/DockerCloud.java:159-185 | the candidate chosen is the first whose label set the expression matches; there is none exactly when no candidate matches |
| Placement.CandidatesAt | plugin/src/main/java/net/dump247/jenkins/plugins/dockerbuild/DockerCloud.java:159-185 | the job's own image atoms come first, each with the cloud's labels; then each preconfigured image, with its own labels and the cloud's |
| Placement.CanProvision | plugin/src/main/java/net/dump247/jenkins/plugins/dockerbuild/DockerCloud.java:110-144 | the two candidate loops answer yes exactly when some candidate's label set is matched; a null label answers no |
| Placement.ProvisionImage | plugin/src/main/java/net/dump247/jenkins/plugins/dockerbuild/DockerCloud.java:190-201 | the host loop returns the result of the first ranked host that accepts the slave, or no capacity |
| Placement.ProvisionJob | plugin/src/main/java/net/dump247/jenkins/plugins/dockerbuild/DockerCloud.java:155-188 | a null label is not supported; otherwise the first matched candidate is provisioned, and with no match the job is not supported |
| Placement.FirstSuccessMeaning | plugin/src/main/java/net/dump247/jenkins/plugins/dockerbuild/DockerCloud.java:190-201 | the host loop never reports not supported; it reports no capacity exactly when every ranked host refuses; otherwise the slave is on the first host that accepts, with the image, labels and mappings given |
| Placement.CanProvisionIffSupported | plugin/src/main/java/net/dump247/jenkins/plugins/dockerbuild/DockerCloud.java:110-188 | `canProvision` says yes exactly when `provisionJob` does not answer not supported |
| Placement.ProvisionedSlave | plugin/src/main/java/net/dump247/jenkins/plugins/dockerbuild/DockerCloud.java:155-228 | a provisioned slave is on an available host of the cloud that accepted it, and every host ranked ahead of it refused; it carries the cloud's mappings and labels, its `docker/<image>` atom, and a label set the job matches |
| Placement.CandidateLabels | plugin/src/main/java/net/dump247/jenkins/plugins/dockerbuild/DockerCloud.java:163-180 | every candidate's labels hold the cloud's labels and its own `docker/<image>` atom |
| Placement.NoRoomNoSlave | plugin/src/main/java/net/dump247/jenkins/plugins/dockerbuild/DockerCloud.java:190-228 | when no host has room, nothing is provisioned |
| Placement.JobImagesComeFirst | plugin/src/main/java/net/dump247/jenkins/plugins/dockerbuild/DockerCloud.java:159-170 | if an image atom of the job's own label matches, the candidate chosen is one of the label's discovered atoms, never a preconfigured image, and a provisioned slave runs that atom's image with that atom and the cloud's labels |
| Placement.ExampleUbuntuCandidate | plugin/src/main/java/net/dump247/jenkins/plugins/dockerbuild/DockerCloud.java:159-170 | `docker/ubuntu && linux` on a cloud labelled `linux` has the one candidate `ubuntu` with labels {`docker/ubuntu`, `linux`} |
| Placement.ExampleRanking | plugin/src/main/java/net/dump247/jenkins/plugins/dockerbuild/DockerCloud.java:207-228 | with limit 4, a host running 1 job ranks before one running 3 |
| Placement.ExampleUbuntuOnRoomiestHost | plugin/src/main/java/net/dump247/jenkins/plugins/dockerbuild/DockerCloud.java:155-228 | such a job is provisioned on the host with most room |
| CloudValidators.DoCheckName | plugin/src/main/java/net/dump247/jenkins/plugins/dockerbuild/DockerCloud.java:355-359 | a name is rejected with "Name is required" exactly when it is null or all blanks and control chars |
| CloudValidators.DoCheckCredentialsId | plugin/src/main/java/net/dump247/jenkins/plugins/dockerbuild/DockerCloud.java:361-365 | credentials are rejected exactly when they are given but the client would ignore them for lack of TLS |
| CloudValidators.DoCheckDirectoryMappingsString | plugin/src/main/java/net/dump247/jenkins/plugins/dockerbuild/DockerCloud.java:367-374 | mappings are accepted exactly when they parse; otherwise the parse error's message is shown |
| CloudValidators.DoCheckDockerPort | plugin/src/main/java/net/dump247/jenkins/plugins/dockerbuild/DockerCloud.java:376-380 | a port is accepted exactly when it is between 1 and 65535, with the error message otherwise |
| CloudValidators.DoCheckMaxExecutors | plugin/src/main/java/net/dump247/jenkins/plugins/dockerbuild/DockerCloud.java:382-386 | a limit is accepted exactly when it is at least 1, with the error message otherwise |
| CloudValidators.RejectedLimitListsNoHost | plugin/src/main/java/net/dump247/jenkins/plugins/dockerbuild/DockerCloud.java:382-386 | under a limit the form rejects, no host is ever available |
| CloudValidators.AcceptedLimitListsIdleHosts | plugin/src/main/java/net/dump247/jenkins/plugins/dockerbuild/DockerCloud.java:382-386 | under a limit the form accepts, every answering idle host is available with the whole limit as capacity |
| SlaveArgs.DotStarDollar | plugin/src/main/resources/com/github/dump247/jenkins/plugins/dockerjob/slaves/create_slave.py:19 | `.*$` matches the rest of the text exactly when it holds no line feed, except possibly one at the very end |
| SlaveArgs.MatchEnvVarIffShape | plugin/src/main/resources/com/github/dump247/jenkins/plugins/dockerjob/slaves/create_slave.py:19 | the lazy regex `^[a-zA-Z_][a-zA-Z_0-9]*?=.*$` matches exactly when the text is a name, `=`, and a one-line value |
| SlaveArgs.EnvVar | plugin/src/main/resources/com/github/dump247/jenkins/plugins/dockerjob/slaves/create_slave.py:175-179 | the argument is accepted unchanged exactly when it has the `NAME=value` shape; otherwise the error names it |
| SlaveArgs.MatchVolume | plugin/src/main/resources/com/github/dump247/jenkins/plugins/dockerjob/slaves/create_slave.py:20 | an access group, when present, is non-empty |
| SlaveArgs.MatchVolumeParts | plugin/src/main/resources/com/github/dump247/jenkins/plugins/dockerjob/slaves/create_slave.py:20 | a match has two one-line absolute paths of length at least 2, and is the whole text, possibly before a final line feed |
| SlaveArgs.Volume | plugin/src/main/resources/com/github/dump247/jenkins/plugins/dockerjob/slaves/create_slave.py:182-197 | no match is the "not a valid directory mapping" error; a match succeeds exactly when the access is absent, `ro` or `rw`, and is read-only unless it is `rw` |
| SlaveArgs.VolumeRoundTrip | plugin/src/main/resources/com/github/dump247/jenkins/plugins/dockerjob/slaves/create_slave.py:20-197 | `host:container[:access]` written from plain paths matches back to the same parts; with no access, `ro` or `rw` it is a volume with the same paths |
| SlaveArgs.ExampleVolumes | plugin/src/main/resources/com/github/dump247/jenkins/plugins/dockerjob/slaves/create_slave.py:182-197 | `/data:/data` is read-only, `/a:/b:rw` is read-write, `/a:/b:x` is rejected |
| SlaveArgs.SplitN | plugin/src/main/resources/com/github/dump247/jenkins/plugins/dockerjob/slaves/create_slave.py:60 | `str.split(sep, maxsplit)` gives between 1 and maxsplit+1 parts |
| SlaveArgs.SplitOnceIntoTwo | plugin/src/main/resources/com/github/dump247/jenkins/plugins/dockerjob/slaves/create_slave.py:60 | `split('=', 1)` gives two parts exactly when the entry has an `=` |
| SlaveArgs.SplitTwiceIntoTwo | plugin/src/main/resources/com/github/dump247/jenkins/plugins/dockerjob/slaves/create_slave.py:60 | `split('=', 2)` gives two parts exactly when the entry has exactly one `=` |
| SlaveArgs.EntriesToMapSucceeds | plugin/src/main/resources/com/github/dump247/jenkins/plugins/dockerjob/slaves/create_slave.py:60 | the dictionary is built exactly when every entry splits into two parts |
| SlaveArgs.EntriesToMapKeys | plugin/src/main/resources/com/github/dump247/jenkins/plugins/dockerjob/slaves/create_slave.py:60 | the keys are exactly the entries' names |
| SlaveArgs.EntriesToMapLastWins | plugin/src/main/resources/com/github/dump247/jenkins/plugins/dockerjob/slaves/create_slave.py:60 | the value of a name is the one in its last entry |
| SlaveArgs.EnvToMapAsWritten | plugin/src/main/resources/com/github/dump247/jenkins/plugins/dockerjob/slaves/create_slave.py:56-60 | `env_to_map` as written: None gives `{}`; it succeeds exactly when every entry has exactly one `=` |
| SlaveArgs.EnvToMapFirstSplitSucceeds | plugin/src/main/resources/com/github/dump247/jenkins/plugins/dockerjob/slaves/create_slave.py:56-60 | the corrected `env_to_map` succeeds exactly when every entry has an `=` |
| SlaveArgs.EnvToMapReadingsAgree | plugin/src/main/resources/com/github/dump247/jenkins/plugins/dockerjob/slaves/create_slave.py:56-60 | on entries with exactly one `=`, the written and corrected readings give the same dictionary |
| SlaveArgs.EntriesToMapAppend | plugin/src/main/resources/com/github/dump247/jenkins/plugins/dockerjob/slaves/create_slave.py:91-92 | the dictionary of two entry lists, one after the other, is the first updated by the second |
| SlaveArgs.EnvValueWithEquals | plugin/src/main/resources/com/github/dump247/jenkins/plugins/dockerjob/slaves/create_slave.py:56-60 | `A=b=c` is accepted by `env_var`, but `env_to_map` as written fails on it; the corrected reading maps `A` to `b=c` |
| ContainerReuse.MapsDifferIff | plugin/src/main/resources/com/github/dump247/jenkins/plugins/dockerjob/slaves/create_slave.py:96-106 | the size test and the key-by-key test together decide dictionary inequality |
| ContainerReuse.ContainerChanged | plugin/src/main/resources/com/github/dump247/jenkins/plugins/dockerjob/slaves/create_slave.py:63-106 | the checks in order (image name, command, volume paths, image build, then the environment compared by size and key by key) equal the decision |
| ContainerReuse.EnvironmentDecision | plugin/src/main/resources/com/github/dump247/jenkins/plugins/dockerjob/slaves/create_slave.py:89-106 | once the configuration agrees, the container has changed exactly when the dictionaries differ in size, or an expected key is missing or has another value |
| ContainerReuse.MatchingContainerIsReused | plugin/src/main/resources/com/github/dump247/jenkins/plugins/dockerjob/slaves/create_slave.py:63-106 | with the corrected `env_to_map`, a container made from the same options and image build, with the image's environment followed by the options', is reused |
| ContainerReuse.DecisionsAgree | plugin/src/main/resources/com/github/dump247/jenkins/plugins/dockerjob/slaves/create_slave.py:56-106 | when every environment entry holds exactly one `=`, the decision as written (`split('=', 2)`) equals the decision with the corrected `env_to_map` |
| ContainerReuse.MatchingContainerIsReusedAsWritten | plugin/src/main/resources/com/github/dump247/jenkins/plugins/dockerjob/slaves/create_slave.py:56-106 | the program as written reuses such a matching container when every environment entry holds exactly one `=` |

## Left out

- I/O is not modelled: the Docker daemon, sockets, standard streams and logging. The host queries `status()`, `countRunningJobs()` and `provisionSlave` become per-host data: whether the status query succeeds, the running count (or none when the query throws), and whether provisioning on that host fails with an `IOException`.
- Placement.ProvisionImage: only the `IOException` that `provisionSlave` can throw is modelled, as a per-host refusal after which the next host is tried. Any other exception escapes `provisionJob` and ends the host loop; that path is not modelled. Whether a host refuses is fixed per host. The real call could depend on the image or labels, or fail at random; the built slave is modelled as a record of its host, image, labels and mappings.
- `Label.matches` is a function parameter with no interpretation, so the model proves nothing about what a label expression matches. `Label.parse` and `readResolve` are not modelled: the cloud's labels are given as a set of atoms, and its mappings as already-parsed bindings.
- LabelImages.Discover: the reflection over a label's public fields is modelled as a composite label with an ordered list of operands. The order of `getFields()` is taken to be the operand order, and the `IllegalAccessException` branch, which only logs, is not modelled.
- The global configuration singleton (`DockerGlobalConfiguration.get()`) is replaced by the list of preconfigured images, passed as a parameter.
- `provision`, `buildDockerClient` and `doFillCredentialsIdItems` are not modelled. They only create clients or return constants. The credentials condition of `buildDockerClient` (line 237) is kept as `CloudValidators.CredentialsUsed`.
- HostRanking.ListAvailableHosts: the running-job count is a natural number. The negative count a misbehaving host could report, and the overflow of `maxExecutors - count` it would allow, are not modelled. `Collections.sort` is modelled by a stable insertion sort, and the model proves only the results the library promises: sorted, a permutation, stable.
- Bindings.ParseLines: the `int` line counter is unbounded, so its wrap-around after 2^31 lines is not modelled.
- Bindings.AccessOf: `toLowerCase` is modelled for ASCII letters only. No non-ASCII char lowers to `r` or `w`, so the set of accepted tokens is the same.
- The label sets built with `ImmutableSet` are modelled as sets of atom names, without their iteration order.
- ContainerReuse.ContainerChanged: `docker_client.inspect_image` becomes the `image` parameter, and an inspection failure is not modelled. The change messages written to standard error are left out. The environment dictionaries are built with the corrected `env_to_map` (see Findings); the decision as written is `ContainerReuse.ContainerChangedAsWritten`, proved equal to it when every entry holds exactly one `=`.
- `create_server`, `run_server`, `pull_job_image`, `find_job_container`, `message` and `main` of the launcher are not modelled: they are process, socket and Docker client plumbing. `env_var` and `volume` are modelled as the argument types `main` uses.

## Findings

| source | as written | input that shows it | evidently intended | confidence | as-written member | corrected member |
|---|---|---|---|---|---|---|
| plugin/src/main/resources/com/github/dump247/jenkins/plugins/dockerjob/slaves/create_slave.py:56-60 | `env_to_map` splits each entry with `entry.split('=', 2)` and unpacks the parts into a key and a value. An entry with two `=` gives three parts, and the unpacking raises `ValueError`. | the entry `A=b=c`, which `env_var` accepts as an `--env` argument | split at the first `=` only (`split('=', 1)`), giving `A` → `b=c` | high; not executed | SlaveArgs.EnvValueWithEquals | SlaveArgs.EnvToMapFirstSplit |
