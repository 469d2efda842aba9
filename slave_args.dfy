/**
 * The command-line argument types of the slave launcher: `--env NAME=VALUE`
 * entries, `--volume /host:/container[:access]` mappings, and the turning of
 * a list of `KEY=VALUE` entries into a dictionary.
 *
 * The two regular expressions are written out as the backtracking matcher
 * of Python's `re` module runs them: `.` is any char but a line feed, `$`
 * holds at the end or before a line feed that ends the input, a greedy star
 * takes the longest run and backs off, a lazy one takes the shortest and
 * grows.
 */
module SlaveArgs {
  import opened Common

  // ---------------------------------------------------------------------
  // Regular-expression building blocks
  // ---------------------------------------------------------------------

  /** `[a-zA-Z_]` */
  predicate IsNameStart(c: char)
  {
    'a' <= c <= 'z' || 'A' <= c <= 'Z' || c == '_'
  }

  /** `[a-zA-Z_0-9]` */
  predicate IsNameChar(c: char)
  {
    IsNameStart(c) || '0' <= c <= '9'
  }

  /** `.` without DOTALL. */
  predicate IsDotChar(c: char)
  {
    c != '\n'
  }

  /** `$` without MULTILINE, at position i. */
  predicate DollarAt(s: string, i: nat)
  {
    i == |s| || (i + 1 == |s| && s[i] == '\n')
  }

  /** The end of the longest run of `.` chars starting at i. */
  function DotRunEnd(s: string, i: nat): (j: nat)
    requires i <= |s|
    ensures i <= j <= |s|
    ensures i < |s| && IsDotChar(s[i]) ==> i < j
    decreases |s| - i
  {
    if i < |s| && IsDotChar(s[i]) then DotRunEnd(s, i + 1) else i
  }

  /** A greedy star backing off from hi towards lo until `$` holds. */
  function BackOff(s: string, lo: nat, hi: nat): (r: Option<nat>)
    requires lo <= hi <= |s|
    ensures r.Some? ==> lo <= r.value <= hi
    decreases hi - lo
  {
    if DollarAt(s, hi) then Some(hi)
    else if hi == lo then None
    else BackOff(s, lo, hi - 1)
  }

  /** Every char of the run is a `.` char and the run stops at a line feed or at the end. */
  lemma {:induction false} DotRunEndDots(s: string, i: nat)
    requires i <= |s|
    ensures forall k :: i <= k < DotRunEnd(s, i) ==> IsDotChar(s[k])
    ensures DotRunEnd(s, i) < |s| ==> s[DotRunEnd(s, i)] == '\n'
    decreases |s| - i
  {
    if i < |s| && IsDotChar(s[i]) {
      DotRunEndDots(s, i + 1);
    }
  }

  /** Backing off inside a run of `.` chars never helps: `$` holds only at the run's end, if there. */
  lemma {:induction false} BackOffInRun(s: string, i: nat, lo: nat, hi: nat)
    requires i <= |s| && i <= lo <= hi <= DotRunEnd(s, i)
    ensures BackOff(s, lo, hi) == if DollarAt(s, hi) then Some(hi) else None
    decreases hi - lo
  {
    DotRunEndDots(s, i);
    if !DollarAt(s, hi) && hi > lo {
      BackOffInRun(s, i, lo, hi - 1);
      assert IsDotChar(s[hi - 1]);
    }
  }

  /** One logical line: a line feed appears at most as the last char. */
  predicate LineValue(v: string)
  {
    forall k :: 0 <= k < |v| && v[k] == '\n' ==> k == |v| - 1
  }

  /** `.*$` from position i holds exactly when the rest is one logical line. */
  lemma DotStarDollar(s: string, i: nat)
    requires i <= |s|
    ensures BackOff(s, i, DotRunEnd(s, i)).Some? <==> LineValue(s[i..])
  {
    var j := DotRunEnd(s, i);
    DotRunEndDots(s, i);
    BackOffInRun(s, i, i, j);
    if DollarAt(s, j) {
      forall k | 0 <= k < |s[i..]| && s[i..][k] == '\n' ensures k == |s[i..]| - 1 {
        assert s[i + k] == '\n';
      }
    } else {
      assert s[i..][j - i] == '\n';
    }
  }

  // ---------------------------------------------------------------------
  // env_var
  // ---------------------------------------------------------------------

  /** `[a-zA-Z_0-9]*?=.*$` from position k: the lazy star stops at the first position where the rest matches. */
  function LazyNameFrom(s: string, k: nat): bool
    requires k <= |s|
    decreases |s| - k
  {
    if k < |s| && s[k] == '=' && BackOff(s, k + 1, DotRunEnd(s, k + 1)).Some? then true
    else if k < |s| && IsNameChar(s[k]) then LazyNameFrom(s, k + 1)
    else false
  }

  /** ENV_VAR_PATTERN.match(s). */
  predicate MatchEnvVar(s: string)
  {
    |s| > 0 && IsNameStart(s[0]) && LazyNameFrom(s, 1)
  }

  /** The shape ENV_VAR_PATTERN describes: a name, the first `=`, then one logical line. */
  predicate EnvVarShape(s: string)
  {
    var n := IndexOf(s, '=');
    n >= 1 && IsNameStart(s[0]) && (forall k :: 1 <= k < n ==> IsNameChar(s[k])) && LineValue(s[n + 1..])
  }

  lemma {:induction false} LazyNameFromShape(s: string, k: nat)
    requires 1 <= k <= |s| && '=' !in s[..k]
    requires forall j :: 1 <= j < k ==> IsNameChar(s[j])
    ensures LazyNameFrom(s, k) <==>
      var n := IndexOf(s, '=');
      n >= k && (forall j :: k <= j < n ==> IsNameChar(s[j])) && LineValue(s[n + 1..])
    decreases |s| - k
  {
    var n := IndexOf(s, '=');
    forall j | 0 <= j < k ensures s[j] != '=' {
      assert s[..k][j] == s[j];
    }
    assert n == -1 || n >= k;
    if k < |s| && s[k] == '=' {
      assert n == k;
      DotStarDollar(s, k + 1);
      assert LazyNameFrom(s, k) == LineValue(s[k + 1..]);
    } else if k < |s| && IsNameChar(s[k]) {
      assert s[..k + 1] == s[..k] + [s[k]];
      LazyNameFromShape(s, k + 1);
      assert LazyNameFrom(s, k) == LazyNameFrom(s, k + 1);
      assert n != k;
    } else {
      assert !LazyNameFrom(s, k);
      assert n >= k ==> k < n && !IsNameChar(s[k]);
    }
  }

  /** The matcher accepts exactly the strings of the declarative shape. */
  lemma MatchEnvVarIffShape(s: string)
    ensures MatchEnvVar(s) <==> EnvVarShape(s)
  {
    if |s| > 0 && IsNameStart(s[0]) {
      assert s[..1] == [s[0]];
      LazyNameFromShape(s, 1);
    }
  }

  /**
   * env_var: the argument unchanged when it is a name (a letter or `_`,
   * then letters, digits or `_`), a `=` and a value on one line; otherwise
   * the argparse error.
   */
  function EnvVar(value: string): (r: Result<string, string>)
    ensures r.Success? <==> EnvVarShape(value)
    ensures r.Success? ==> r.value == value
    ensures r.Failure? ==> r.error == value + " is not a valid environment variable"
  {
    MatchEnvVarIffShape(value);
    if MatchEnvVar(value) then Success(value) else Failure(value + " is not a valid environment variable")
  }

  // ---------------------------------------------------------------------
  // volume
  // ---------------------------------------------------------------------

  /** The groups VOLUME_PATTERN captures: host, container and, when present, access. */
  datatype VolumeMatch = VolumeMatch(host: string, container: string, access: Option<string>)

  /** `(?::(.+))?$` at position e: the optional access group is tried first, then skipped; None when neither matches. */
  function AccessTail(s: string, e: nat): (r: Option<Option<string>>)
    requires e <= |s|
    ensures r.Some? && r.value.Some? ==> |r.value.value| >= 1
  {
    var taken := if e + 1 < |s| && s[e] == ':' && IsDotChar(s[e + 1]) then BackOff(s, e + 2, DotRunEnd(s, e + 1)) else None;
    if taken.Some? then Some(Some(s[e + 1..taken.value]))
    else if DollarAt(s, e) then Some(None)
    else None
  }

  /** `(/.+?)` for the container, tried with end e: the lazy group grows one char at a time until the rest matches. */
  function ContainerFrom(s: string, e: nat): (r: Option<(nat, Option<string>)>)
    requires e <= |s|
    ensures r.Some? ==> e <= r.value.0 <= |s|
    ensures r.Some? && r.value.1.Some? ==> |r.value.1.value| >= 1
    decreases |s| - e
  {
    match AccessTail(s, e)
    case Some(access) => Some((e, access))
    case None => if e < |s| && IsDotChar(s[e]) then ContainerFrom(s, e + 1) else None
  }

  /** `(/.+?):` for the host, tried with end e, then the container group after the colon. */
  function HostFrom(s: string, e: nat): (r: Option<VolumeMatch>)
    requires 2 <= e <= |s|
    ensures r.Some? && r.value.access.Some? ==> |r.value.access.value| >= 1
    decreases |s| - e
  {
    var tail := if e + 2 < |s| && s[e] == ':' && s[e + 1] == '/' && IsDotChar(s[e + 2]) then ContainerFrom(s, e + 3) else None;
    if tail.Some? then Some(VolumeMatch(s[..e], s[e + 1..tail.value.0], tail.value.1))
    else if e < |s| && IsDotChar(s[e]) then HostFrom(s, e + 1)
    else None
  }

  /** VOLUME_PATTERN.match(s). */
  function MatchVolume(s: string): (r: Option<VolumeMatch>)
    ensures r.Some? && r.value.access.Some? ==> |r.value.access.value| >= 1
  {
    if 2 <= |s| && s[0] == '/' && IsDotChar(s[1]) then HostFrom(s, 2) else None
  }

  /** The dictionary volume returns. */
  datatype VolumeSpec = VolumeSpec(host: string, container: string, readOnly: bool)

  /**
   * volume: the host and container groups and the access, which defaults
   * to `ro`; anything but `ro` or `rw` is refused, as is a string the
   * pattern does not match.
   */
  function Volume(value: string): (r: Result<VolumeSpec, string>)
    ensures MatchVolume(value).None? ==> r == Failure(value + " is not a valid directory mapping")
    ensures MatchVolume(value).Some? ==>
      var m := MatchVolume(value).value;
      (r.Success? <==> m.access in {None, Some("ro"), Some("rw")}) &&
      (r.Success? ==> r.value == VolumeSpec(m.host, m.container, m.access != Some("rw"))) &&
      (r.Failure? ==> r.error == value + " has invalid access specification")
  {
    match MatchVolume(value)
    case None => Failure(value + " is not a valid directory mapping")
    case Some(m) =>
      var access := if m.access.None? || m.access.value == "" then "ro" else m.access.value;
      if access != "rw" && access != "ro" then Failure(value + " has invalid access specification")
      else Success(VolumeSpec(m.host, m.container, access == "ro"))
  }

  /** The text the groups came from: `host:container` and `:access` when present. */
  function Joined(m: VolumeMatch): string
  {
    m.host + ":" + m.container + AccessText(m.access)
  }

  function AccessText(access: Option<string>): string
  {
    match access
    case None => ""
    case Some(a) => ":" + a
  }

  /** A group of `.` chars. */
  predicate OneLine(p: string)
  {
    '\n' !in p
  }

  /** An access tail found at e is a non-empty group on one line running to the end or to a final line feed. */
  lemma AccessTailParts(s: string, e: nat)
    requires e <= |s| && AccessTail(s, e).Some?
    ensures var t := AccessTail(s, e).value;
      (s[e..] == AccessText(t) || s[e..] == AccessText(t) + "\n") &&
      (t.Some? ==> |t.value| >= 1 && OneLine(t.value))
  {
    if e + 1 < |s| && s[e] == ':' && IsDotChar(s[e + 1]) {
      var j := DotRunEnd(s, e + 1);
      DotRunEndDots(s, e + 1);
      BackOffInRun(s, e + 1, e + 2, j);
      if DollarAt(s, j) {
        var a := s[e + 1..j];
        assert forall k :: 0 <= k < |a| ==> a[k] == s[e + 1 + k];
        if j == |s| {
          assert s[e..] == ":" + a;
        } else {
          assert s[e..] == ":" + a + "\n";
        }
      }
    }
  }

  /** The container group holds `.` chars only. */
  lemma {:induction false} ContainerFromParts(s: string, e: nat)
    requires e <= |s| && ContainerFrom(s, e).Some?
    ensures var t := ContainerFrom(s, e).value;
      AccessTail(s, t.0) == Some(t.1) && OneLine(s[e..t.0])
    decreases |s| - e
  {
    if AccessTail(s, e).None? {
      ContainerFromParts(s, e + 1);
      var t := ContainerFrom(s, e).value;
      assert s[e..t.0] == [s[e]] + s[e + 1..t.0];
    }
  }

  /** A final line feed after the written groups. */
  lemma JoinedThenNewline(m: VolumeMatch)
    ensures m.host + ":" + m.container + (AccessText(m.access) + "\n") == Joined(m) + "\n"
  {
  }

  /** The groups cut from s at the host's end e and the container's end ce, given what follows ce. */
  lemma GroupsAt(s: string, e: nat, ce: nat, access: Option<string>)
    requires 2 <= e && e + 3 <= ce <= |s| && s[e] == ':' && s[e + 1] == '/' && IsDotChar(s[e + 2])
    requires OneLine(s[e + 3..ce])
    requires s[ce..] == AccessText(access) || s[ce..] == AccessText(access) + "\n"
    ensures var m := VolumeMatch(s[..e], s[e + 1..ce], access);
      |m.container| >= 2 && m.container[0] == '/' && OneLine(m.container) &&
      (s == Joined(m) || s == Joined(m) + "\n")
  {
    var m := VolumeMatch(s[..e], s[e + 1..ce], access);
    assert m.container == [s[e + 1], s[e + 2]] + s[e + 3..ce];
    assert s == m.host + ":" + m.container + s[ce..];
    if s[ce..] != AccessText(access) {
      JoinedThenNewline(m);
    }
  }

  /** The parts when the container group is found right after the host ending at e. */
  lemma HostSplitParts(s: string, e: nat)
    requires 2 <= e && e + 2 < |s| && s[e] == ':' && s[e + 1] == '/' && IsDotChar(s[e + 2])
    requires ContainerFrom(s, e + 3).Some? && OneLine(s[..e])
    ensures var t := ContainerFrom(s, e + 3).value;
      var m := VolumeMatch(s[..e], s[e + 1..t.0], t.1);
      |m.container| >= 2 && m.container[0] == '/' && OneLine(m.container) &&
      (m.access.Some? ==> |m.access.value| >= 1 && OneLine(m.access.value)) &&
      (s == Joined(m) || s == Joined(m) + "\n")
  {
    var t := ContainerFrom(s, e + 3).value;
    ContainerFromParts(s, e + 3);
    AccessTailParts(s, t.0);
    GroupsAt(s, e, t.0, t.1);
  }

  lemma {:induction false} HostFromParts(s: string, e: nat)
    requires 2 <= e <= |s| && HostFrom(s, e).Some? && OneLine(s[..e])
    ensures var m := HostFrom(s, e).value;
      |m.host| >= e && m.host[..e] == s[..e] && OneLine(m.host) &&
      |m.container| >= 2 && m.container[0] == '/' && OneLine(m.container) &&
      (m.access.Some? ==> |m.access.value| >= 1 && OneLine(m.access.value)) &&
      (s == Joined(m) || s == Joined(m) + "\n")
    decreases |s| - e
  {
    if e + 2 < |s| && s[e] == ':' && s[e + 1] == '/' && IsDotChar(s[e + 2]) && ContainerFrom(s, e + 3).Some? {
      HostSplitParts(s, e);
    } else {
      assert s[..e + 1] == s[..e] + [s[e]];
      HostFromParts(s, e + 1);
    }
  }

  /**
   * What a match captures: a host and a container path, each a `/` and at
   * least one more char on one line, and a non-empty access when given;
   * together they make up the whole argument, apart from a final line feed.
   */
  lemma MatchVolumeParts(s: string)
    requires MatchVolume(s).Some?
    ensures var m := MatchVolume(s).value;
      |m.host| >= 2 && m.host[0] == '/' && OneLine(m.host) &&
      |m.container| >= 2 && m.container[0] == '/' && OneLine(m.container) &&
      (m.access.Some? ==> |m.access.value| >= 1 && OneLine(m.access.value)) &&
      (s == Joined(m) || s == Joined(m) + "\n")
  {
    assert s[..2] == [s[0], s[1]];
    HostFromParts(s, 2);
  }

  /** A path that reads back as itself: a `/`, at least one more char, no colon, on one line. */
  predicate PlainPath(p: string)
  {
    |p| >= 2 && p[0] == '/' && ':' !in p && OneLine(p)
  }

  /** A run of `.` chars reaching the end. */
  lemma {:induction false} DotRunToEnd(s: string, i: nat)
    requires i <= |s| && '\n' !in s[i..]
    ensures DotRunEnd(s, i) == |s|
    decreases |s| - i
  {
    if i < |s| {
      assert s[i] == s[i..][0];
      assert s[i + 1..] == s[i..][1..];
      DotRunToEnd(s, i + 1);
    }
  }

  /** The access part written after the container is read back by the optional group. */
  lemma AccessTailOfText(s: string, ce: nat, access: Option<string>)
    requires ce <= |s| && s[ce..] == AccessText(access)
    requires access.Some? ==> |access.value| >= 1 && OneLine(access.value)
    ensures AccessTail(s, ce) == Some(access)
  {
    if access.Some? {
      var a := access.value;
      assert s[ce] == ':' && s[ce + 1] == a[0];
      assert s[ce + 1..] == a;
      DotRunToEnd(s, ce + 1);
      assert s[ce + 1..|s|] == a;
    }
  }

  /** The lazy container group stops at the first colon, where the written access part begins. */
  lemma {:induction false} ContainerFromPlain(s: string, e: nat, ce: nat, access: Option<string>)
    requires e <= ce <= |s| && s[ce..] == AccessText(access)
    requires access.Some? ==> |access.value| >= 1 && OneLine(access.value)
    requires forall k :: e <= k < ce ==> s[k] != ':' && s[k] != '\n'
    ensures ContainerFrom(s, e) == Some((ce, access))
    decreases ce - e
  {
    if e < ce {
      assert !DollarAt(s, e);
      ContainerFromPlain(s, e + 1, ce, access);
    } else {
      AccessTailOfText(s, ce, access);
    }
  }

  /** At the colon that ends the written host path, the container group reads back the rest. */
  lemma HostFromAtColon(m: VolumeMatch)
    requires PlainPath(m.host) && PlainPath(m.container)
    requires m.access.Some? ==> |m.access.value| >= 1 && OneLine(m.access.value)
    ensures HostFrom(Joined(m), |m.host|) == Some(m)
  {
    var s := Joined(m);
    var h := |m.host|;
    var ce := h + 1 + |m.container|;
    assert s[..h] == m.host && s[h + 1..ce] == m.container && s[ce..] == AccessText(m.access);
    assert s[h] == ':' && s[h + 1] == '/' && s[h + 2] == m.container[1];
    assert forall k :: h + 3 <= k < ce ==> s[k] == m.container[k - h - 1];
    ContainerFromPlain(s, h + 3, ce, m.access);
  }

  /** The lazy host group stops at the first colon. */
  lemma {:induction false} HostFromPlain(m: VolumeMatch, e: nat)
    requires PlainPath(m.host) && PlainPath(m.container)
    requires m.access.Some? ==> |m.access.value| >= 1 && OneLine(m.access.value)
    requires 2 <= e <= |m.host|
    ensures HostFrom(Joined(m), e) == Some(m)
    decreases |m.host| - e
  {
    if e < |m.host| {
      var s := Joined(m);
      assert s[e] == m.host[e];
      HostFromPlain(m, e + 1);
    } else {
      HostFromAtColon(m);
    }
  }

  /**
   * Round trip: a host and container path without colons, and an access
   * when given, written as `host:container[:access]`, are read back as
   * the same groups; `ro`, `rw` or no access give the mapping, read-only
   * unless the access is `rw`.
   */
  lemma VolumeRoundTrip(m: VolumeMatch)
    requires PlainPath(m.host) && PlainPath(m.container)
    requires m.access.Some? ==> |m.access.value| >= 1 && OneLine(m.access.value)
    ensures MatchVolume(Joined(m)) == Some(m)
    ensures m.access in {None, Some("ro"), Some("rw")} ==>
      Volume(Joined(m)) == Success(VolumeSpec(m.host, m.container, m.access != Some("rw")))
  {
    var s := Joined(m);
    assert s[0] == '/' && s[1] == m.host[1];
    HostFromPlain(m, 2);
  }

  /** `/data:/data` is read-only by default, `/a:/b:rw` is writable, `/a:/b:x` is refused. */
  lemma ExampleVolumes()
    ensures Volume("/data:/data") == Success(VolumeSpec("/data", "/data", true))
    ensures Volume("/a:/b:rw") == Success(VolumeSpec("/a", "/b", false))
    ensures Volume("/a:/b:x").Failure?
  {
    VolumeRoundTrip(VolumeMatch("/data", "/data", None));
    assert Joined(VolumeMatch("/data", "/data", None)) == "/data:/data";
    VolumeRoundTrip(VolumeMatch("/a", "/b", Some("rw")));
    assert Joined(VolumeMatch("/a", "/b", Some("rw"))) == "/a:/b:rw";
    VolumeRoundTrip(VolumeMatch("/a", "/b", Some("x")));
    assert Joined(VolumeMatch("/a", "/b", Some("x"))) == "/a:/b:x";
  }

  // ---------------------------------------------------------------------
  // env_to_map
  // ---------------------------------------------------------------------

  /** Python's str.split(sep, maxsplit): at most maxsplit splits, from the left. */
  function SplitN(s: string, sep: char, maxsplit: nat): (r: seq<string>)
    ensures 1 <= |r| <= maxsplit + 1
    decreases maxsplit
  {
    if maxsplit == 0 || sep !in s then [s]
    else
      var i := IndexOf(s, sep);
      [s[..i]] + SplitN(s[i + 1..], sep, maxsplit - 1)
  }

  /** The text before an entry's first `=`. */
  function Key(entry: string): string
    requires '=' in entry
  {
    entry[..IndexOf(entry, '=')]
  }

  /** The text after an entry's first `=`. */
  function Value(entry: string): string
    requires '=' in entry
  {
    entry[IndexOf(entry, '=') + 1..]
  }

  /** `key, value = parts`: None when the split does not have exactly two parts (a ValueError). */
  function Unpack(parts: seq<string>): Option<(string, string)>
  {
    if |parts| == 2 then Some((parts[0], parts[1])) else None
  }

  /**
   * The dictionary comprehension over the entries, each split at most
   * maxsplit times: a later key overrides an earlier one, and the first
   * entry that does not unpack into a key and a value raises.
   */
  function EntriesToMap(entries: seq<string>, maxsplit: nat): Result<map<string, string>, string>
  {
    if entries == [] then Success(map[])
    else
      match EntriesToMap(entries[..|entries| - 1], maxsplit)
      case Failure(bad) => Failure(bad)
      case Success(m) =>
        match EntryPair(entries[|entries| - 1], maxsplit)
        case None => Failure(entries[|entries| - 1])
        case Some(kv) => Success(m[kv.0 := kv.1])
  }

  /** One entry of the comprehension: `entry.split('=', maxsplit)` unpacked into a key and a value. */
  function EntryPair(entry: string, maxsplit: nat): Option<(string, string)>
  {
    Unpack(SplitN(entry, '=', maxsplit))
  }

  /** env_to_map as written: `split('=', 2)`; null is the empty dictionary. */
  function EnvToMap(env: Option<seq<string>>): Result<map<string, string>, string>
  {
    if env.None? then Success(map[]) else EntriesToMap(env.value, 2)
  }

  /** env_to_map with `split('=', 1)`: the key before the first `=`, the rest as the value. */
  function EnvToMapFirstSplit(env: Option<seq<string>>): Result<map<string, string>, string>
  {
    if env.None? then Success(map[]) else EntriesToMap(env.value, 1)
  }

  /** An entry splits into exactly two parts, its key and its value, or not at all into two. */
  lemma SplitIntoTwo(s: string, maxsplit: nat)
    requires maxsplit >= 1
    ensures |SplitN(s, '=', maxsplit)| == 2 ==> '=' in s && SplitN(s, '=', maxsplit) == [Key(s), Value(s)]
  {
    if '=' in s {
      var rest := s[IndexOf(s, '=') + 1..];
      if '=' in rest && maxsplit >= 2 {
        assert |SplitN(rest, '=', maxsplit - 1)| >= 2;
      }
    }
  }

  /** One entry splits into two parts with maxsplit 1 exactly when it holds a `=`. */
  lemma SplitOnceIntoTwo(s: string)
    ensures |SplitN(s, '=', 1)| == 2 <==> '=' in s
  {
  }

  /** One entry splits into two parts with maxsplit 2 exactly when it holds exactly one `=`. */
  lemma SplitTwiceIntoTwo(s: string)
    ensures |SplitN(s, '=', 2)| == 2 <==> multiset(s)['='] == 1
  {
    if '=' in s {
      var i := IndexOf(s, '=');
      assert s == s[..i] + [s[i]] + s[i + 1..];
      assert multiset(s) == multiset(s[..i]) + multiset{'='} + multiset(s[i + 1..]);
      assert multiset(s[..i])['='] == 0;
      if '=' in s[i + 1..] {
        assert |SplitN(s[i + 1..], '=', 1)| == 2;
      } else {
        assert multiset(s[i + 1..])['='] == 0;
      }
    } else {
      assert multiset(s)['='] == 0;
    }
  }

  /** The comprehension succeeds exactly when every entry unpacks. */
  lemma {:induction false} EntriesToMapSucceeds(entries: seq<string>, maxsplit: nat)
    ensures EntriesToMap(entries, maxsplit).Success? <==>
      forall i :: 0 <= i < |entries| ==> |SplitN(entries[i], '=', maxsplit)| == 2
  {
    if entries != [] {
      var init := entries[..|entries| - 1];
      EntriesToMapSucceeds(init, maxsplit);
      assert forall i :: 0 <= i < |init| ==> init[i] == entries[i];
    }
  }

  /** A successful comprehension had every entry split into its key and value, the last one included. */
  lemma EntriesToMapStep(entries: seq<string>, maxsplit: nat)
    requires maxsplit >= 1 && entries != [] && EntriesToMap(entries, maxsplit).Success?
    ensures var n := |entries| - 1;
      EntriesToMap(entries[..n], maxsplit).Success? && '=' in entries[n] &&
      EntriesToMap(entries, maxsplit).value == EntriesToMap(entries[..n], maxsplit).value[Key(entries[n]) := Value(entries[n])]
  {
    SplitIntoTwo(entries[|entries| - 1], maxsplit);
  }

  /** Every entry of a successful comprehension holds a `=`. */
  lemma {:induction false} EntriesHaveEquals(entries: seq<string>, maxsplit: nat)
    requires maxsplit >= 1 && EntriesToMap(entries, maxsplit).Success?
    ensures forall i :: 0 <= i < |entries| ==> '=' in entries[i]
  {
    if entries != [] {
      var n := |entries| - 1;
      EntriesToMapStep(entries, maxsplit);
      EntriesHaveEquals(entries[..n], maxsplit);
      assert forall i :: 0 <= i < n ==> entries[..n][i] == entries[i];
    }
  }

  /** The keys of a successful comprehension are exactly the entries' keys. */
  lemma {:induction false} EntriesToMapKeys(entries: seq<string>, maxsplit: nat)
    requires maxsplit >= 1 && EntriesToMap(entries, maxsplit).Success?
    ensures forall i :: 0 <= i < |entries| ==> '=' in entries[i]
    ensures forall k :: k in EntriesToMap(entries, maxsplit).value <==> exists i :: 0 <= i < |entries| && Key(entries[i]) == k
  {
    if entries != [] {
      var n := |entries| - 1;
      var init := entries[..n];
      EntriesToMapStep(entries, maxsplit);
      EntriesHaveEquals(entries, maxsplit);
      EntriesToMapKeys(init, maxsplit);
      var m0 := EntriesToMap(init, maxsplit).value;
      var m := EntriesToMap(entries, maxsplit).value;
      assert forall i :: 0 <= i < n ==> init[i] == entries[i];
      forall k ensures k in m <==> exists i :: 0 <= i < |entries| && Key(entries[i]) == k {
        if k in m0 {
          var i :| 0 <= i < n && Key(init[i]) == k;
          assert Key(entries[i]) == k;
        }
        if exists i :: 0 <= i < |entries| && Key(entries[i]) == k {
          var i :| 0 <= i < |entries| && Key(entries[i]) == k;
          if i < n {
            assert Key(init[i]) == k;
          }
        }
      }
    }
  }

  /** The entry at i, when no later entry has its key, gives that key its value. */
  lemma {:induction false} EntryLastWins(entries: seq<string>, maxsplit: nat, i: nat)
    requires maxsplit >= 1 && EntriesToMap(entries, maxsplit).Success?
    requires forall j :: 0 <= j < |entries| ==> '=' in entries[j]
    requires i < |entries| && forall j :: i < j < |entries| ==> Key(entries[j]) != Key(entries[i])
    ensures Key(entries[i]) in EntriesToMap(entries, maxsplit).value
    ensures EntriesToMap(entries, maxsplit).value[Key(entries[i])] == Value(entries[i])
    decreases |entries|
  {
    var n := |entries| - 1;
    EntriesToMapStep(entries, maxsplit);
    if i < n {
      var init := entries[..n];
      assert init[i] == entries[i];
      assert Key(entries[n]) != Key(entries[i]);
      forall j | 0 <= j < n ensures init[j] == entries[j] {
      }
      EntryLastWins(init, maxsplit, i);
    }
  }

  /** In a successful comprehension each key holds the value of the last entry with that key. */
  lemma EntriesToMapLastWins(entries: seq<string>, maxsplit: nat)
    requires maxsplit >= 1 && EntriesToMap(entries, maxsplit).Success?
    ensures forall i :: 0 <= i < |entries| ==> '=' in entries[i]
    ensures forall i :: 0 <= i < |entries| && (forall j :: i < j < |entries| ==> Key(entries[j]) != Key(entries[i])) ==>
      Key(entries[i]) in EntriesToMap(entries, maxsplit).value &&
      EntriesToMap(entries, maxsplit).value[Key(entries[i])] == Value(entries[i])
  {
    EntriesHaveEquals(entries, maxsplit);
    forall i | 0 <= i < |entries| && (forall j :: i < j < |entries| ==> Key(entries[j]) != Key(entries[i]))
      ensures Key(entries[i]) in EntriesToMap(entries, maxsplit).value
      ensures EntriesToMap(entries, maxsplit).value[Key(entries[i])] == Value(entries[i])
    {
      EntryLastWins(entries, maxsplit, i);
    }
  }

  /** env_to_map of null is the empty dictionary; as written, an entry with no `=` or with two or more fails it. */
  lemma EnvToMapAsWritten(env: Option<seq<string>>)
    ensures env.None? ==> EnvToMap(env) == Success(map[])
    ensures env.Some? ==> (EnvToMap(env).Success? <==> forall i :: 0 <= i < |env.value| ==> multiset(env.value[i])['='] == 1)
  {
    if env.Some? {
      EntriesToMapSucceeds(env.value, 2);
      forall i | 0 <= i < |env.value| {
        SplitTwiceIntoTwo(env.value[i]);
      }
    }
  }

  /** With the first-split reading, the dictionary exists exactly when every entry holds a `=`. */
  lemma EnvToMapFirstSplitSucceeds(env: seq<string>)
    ensures EnvToMapFirstSplit(Some(env)).Success? <==> forall i :: 0 <= i < |env| ==> '=' in env[i]
  {
    EntriesToMapSucceeds(env, 1);
  }

  /** Where every entry holds exactly one `=`, both readings build the same dictionary. */
  lemma {:induction false} EnvToMapReadingsAgree(entries: seq<string>)
    requires forall i :: 0 <= i < |entries| ==> multiset(entries[i])['='] == 1
    ensures EntriesToMap(entries, 2) == EntriesToMap(entries, 1)
  {
    if entries != [] {
      var n := |entries| - 1;
      assert forall i :: 0 <= i < n ==> entries[..n][i] == entries[i];
      EnvToMapReadingsAgree(entries[..n]);
      SplitTwiceIntoTwo(entries[n]);
      var rest := entries[n][IndexOf(entries[n], '=') + 1..];
      assert SplitN(rest, '=', 1) == [rest];
    }
  }

  /** Entries appended after others override them, key by key. */
  lemma {:induction false} EntriesToMapAppend(a: seq<string>, b: seq<string>, maxsplit: nat)
    requires EntriesToMap(a, maxsplit).Success? && EntriesToMap(b, maxsplit).Success?
    ensures EntriesToMap(a + b, maxsplit) == Success(EntriesToMap(a, maxsplit).value + EntriesToMap(b, maxsplit).value)
    decreases |b|
  {
    if b == [] {
      assert a + b == a;
      var ma := EntriesToMap(a, maxsplit).value;
      assert ma + map[] == ma;
    } else {
      var n := |b| - 1;
      var init := b[..n];
      assert (a + b)[..|a + b| - 1] == a + init;
      assert (a + b)[|a + b| - 1] == b[n];
      assert EntriesToMap(init, maxsplit).Success?;
      EntriesToMapAppend(a, init, maxsplit);
      var kv := EntryPair(b[n], maxsplit).value;
      UpdateOfUnion(EntriesToMap(a, maxsplit).value, EntriesToMap(init, maxsplit).value, kv.0, kv.1);
    }
  }

  lemma UpdateOfUnion<K, V>(m: map<K, V>, n: map<K, V>, k: K, v: V)
    ensures (m + n)[k := v] == m + n[k := v]
  {
  }

  /** The entry `A=b=c` holds two `=`: split twice it has three parts, split once two. */
  lemma TwoEqualsSplits()
    ensures |SplitN("A=b=c", '=', 2)| == 3
    ensures SplitN("A=b=c", '=', 1) == ["A", "b=c"]
  {
    var s := "A=b=c";
    assert s[1] == '=';
    assert IndexOf(s, '=') == 1;
    assert s[2..] == "b=c" && s[..1] == "A";
    assert "b=c"[1] == '=';
    SplitOnceIntoTwo("b=c");
  }

  /** env_var accepts `A=b=c`: its value `b=c` is on one line. */
  lemma EnvVarAcceptsEqualsInValue()
    ensures EnvVar("A=b=c") == Success("A=b=c")
  {
    var s := "A=b=c";
    assert s[1] == '=';
    assert IndexOf(s, '=') == 1;
    assert s[2..] == "b=c";
    assert LineValue(s[2..]);
  }

  /**
   * env_var accepts an entry whose value holds a `=`, which env_to_map as
   * written then cannot unpack; the first-split reading keeps the rest of
   * the entry as the value.
   */
  lemma EnvValueWithEquals()
    ensures EnvVar("A=b=c") == Success("A=b=c")
    ensures EnvToMap(Some(["A=b=c"])).Failure?
    ensures EnvToMapFirstSplit(Some(["A=b=c"])) == Success(map["A" := "b=c"])
  {
    EnvVarAcceptsEqualsInValue();
    TwoEqualsSplits();
    assert ["A=b=c"][..0] == [];
  }
}
