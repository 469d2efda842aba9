/**
 * The checks the cloud's configuration form runs on each field as it is
 * typed: a required name, credentials only with TLS, directory mappings
 * that parse, a TCP port and a positive job limit.
 */
module CloudValidators {
  import opened Common
  import opened Bindings
  import opened HostRanking

  /** The answer of a field check: accepted, or rejected with the message shown beside the field. */
  datatype FormValidation = Ok | Error(message: string)

  /** Guava's Strings.nullToEmpty. */
  function NullToEmpty(value: Option<string>): string
  {
    match value
    case None => ""
    case Some(s) => s
  }

  /** Guava's Strings.isNullOrEmpty. */
  predicate IsNullOrEmpty(value: Option<string>)
  {
    value.None? || value.value == ""
  }

  /** doCheckName: a name that is null, empty or only blanks and control chars is rejected. */
  function DoCheckName(value: Option<string>): (r: FormValidation)
    ensures r.Error? <==> forall i :: 0 <= i < |NullToEmpty(value)| ==> IsTrimmed(NullToEmpty(value)[i])
    ensures r.Error? ==> r.message == "Name is required"
  {
    TrimEmptyIff(NullToEmpty(value));
    if |Trim(NullToEmpty(value))| == 0 then Error("Name is required") else Ok
  }

  /** buildDockerClient looks credentials up only when TLS is on and an id is given. */
  predicate CredentialsUsed(credentialsId: Option<string>, tlsEnabled: bool)
  {
    tlsEnabled && !IsNullOrEmpty(credentialsId)
  }

  /** doCheckCredentialsId: credentials are rejected exactly when they are given but would be ignored for lack of TLS. */
  function DoCheckCredentialsId(value: Option<string>, tlsEnabled: bool): (r: FormValidation)
    ensures r.Error? <==> !IsNullOrEmpty(value) && !CredentialsUsed(value, tlsEnabled)
    ensures r.Error? ==> r.message == "TLS is required when authentication is enabled"
  {
    if !tlsEnabled && !IsNullOrEmpty(value) then Error("TLS is required when authentication is enabled") else Ok
  }

  /**
   * doCheckDirectoryMappingsString: the mappings are accepted exactly when
   * parseBindings accepts them; otherwise the parse error's message is shown.
   */
  method DoCheckDirectoryMappingsString(value: Option<string>) returns (r: FormValidation)
    ensures r.Ok? <==> ParseBindingsSpec(value).Success?
    ensures r.Error? ==> r.message == ErrorMessage(ParseBindingsSpec(value).error)
    ensures r.Error? ==> StartsWith(r.message, "Invalid directory mapping")
  {
    var parsed := ParseBindings(value);
    match parsed
    case Success(_) =>
      r := Ok;
    case Failure(e) =>
      r := Error(ErrorMessage(e));
  }

  /** doCheckDockerPort: the port must be a TCP port number: it fits in 16 unsigned bits and is not 0. */
  function DoCheckDockerPort(value: Int32): (r: FormValidation)
    ensures r.Ok? <==> 0 < value < 0x1_0000
    ensures r.Error? ==> r.message == "Invalid port value. Must be between 1 and 65535."
  {
    if value < 1 || value > 65535 then Error("Invalid port value. Must be between 1 and 65535.") else Ok
  }

  /** doCheckMaxExecutors: the limit must allow at least one job per host. */
  function DoCheckMaxExecutors(value: Int32): (r: FormValidation)
    ensures r.Ok? <==> value >= 1
    ensures r.Error? ==> r.message == "Invalid limit value. Must be greater than or equal to 1."
  {
    if value < 1 then Error("Invalid limit value. Must be greater than or equal to 1.") else Ok
  }

  /** A limit the form rejects leaves no host with room: listAvailableHosts finds nothing. */
  lemma RejectedLimitListsNoHost(hosts: seq<Host>, maxExecutors: Int32)
    requires DoCheckMaxExecutors(maxExecutors).Error?
    ensures Available(hosts, maxExecutors) == []
  {
    AvailableEntries(hosts, maxExecutors);
  }

  /** Under a limit the form accepts, every responding host with no running job is listed with the whole limit as capacity. */
  lemma AcceptedLimitListsIdleHosts(hosts: seq<Host>, maxExecutors: Int32, h: Host)
    requires DoCheckMaxExecutors(maxExecutors).Ok?
    requires h in hosts && h.statusOk && h.runningJobs == Some(0)
    ensures HostCount(h, maxExecutors) in Available(hosts, maxExecutors)
  {
    ListedHostsAreAvailable(hosts, maxExecutors);
  }
}
