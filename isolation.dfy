/**
 * Kernel isolation audit (`check_kernel_isolation`): the fixed baselines of
 * namespaces, control groups and capabilities, each compared with what the
 * process can observe, and the parser for the `capsh --print` line that the
 * capability check reads.
 *
 * The environment is an input: a directory listing is `Some(names)` or
 * `None` when `os.listdir` raises, and the tool output is `Some(text)` or
 * `None` when `capsh` cannot be run or exits non-zero.
 */
module Isolation {
  import opened PyStr

  const ACTIVATED := "Activated"
  const NOT_ACTIVATED := "WARNING NOT ACTIVATED"
  const CAPSH_REQUIRED := "capsh tool required for capability check"

  const NAMESPACES: seq<string> := ["cgroup", "ipc", "mnt", "net", "pid", "user", "uts"]
  const CGROUPS: seq<string> :=
    ["cpu", "cpuacct", "blkio", "memory", "devices", "freezer", "net_cls", "perf_event",
     "net_prio", "hugetlb", "pids"]
  const CAPABILITIES: seq<string> :=
    ["CAP_CHOWN", "CAP_DAC_OVERRIDE", "CAP_FSETID", "CAP_FOWNER", "CAP_MKNOD", "CAP_NET_RAW",
     "CAP_SETGID", "CAP_SETUID", "CAP_SETPCAP", "CAP_NET_BIND_SERVICE", "CAP_SYS_CHROOT",
     "CAP_KILL", "CAP_AUDIT_WRITE"]

  /** What the capability entry of the report holds: a status per capability, or the marker string. */
  datatype Capabilities = Classified(statuses: map<string, string>) | Marker(text: string)

  datatype IsolationInfo = IsolationInfo(
    namespaces: map<string, string>,
    cgroups: map<string, string>,
    capabilities: Capabilities)

  /** The status string stored for one baseline name. */
  function Status(present: bool): string
  {
    if present then ACTIVATED else NOT_ACTIVATED
  }

  /** The dictionary one classification loop builds: every baseline name, with its status. */
  function Classification(baseline: seq<string>, observed: seq<string>): map<string, string>
  {
    map n | n in baseline :: Status(n in observed)
  }

  /** One classification loop: fills the dictionary name by name, in baseline order. */
  method Classify(baseline: seq<string>, observed: seq<string>) returns (statuses: map<string, string>)
    ensures statuses.Keys == set n | n in baseline
    ensures forall n :: n in statuses ==> (statuses[n] == ACTIVATED <==> n in observed)
    ensures forall n :: n in statuses ==> (statuses[n] == NOT_ACTIVATED <==> n !in observed)
    ensures statuses == Classification(baseline, observed)
  {
    statuses := map[];
    for k := 0 to |baseline|
      invariant statuses.Keys == set n | n in baseline[..k]
      invariant forall n :: n in statuses ==> statuses[n] == Status(n in observed)
    {
      assert baseline[..k + 1] == baseline[..k] + [baseline[k]];
      statuses := statuses[baseline[k] := Status(baseline[k] in observed)];
    }
    assert baseline[..|baseline|] == baseline;
  }

  /**
   * A classification depends only on which baseline names the listing
   * contains: reordering the listing, repeating entries or adding names
   * outside the baseline leaves it unchanged.
   */
  lemma ClassificationByMembership(baseline: seq<string>, observed: seq<string>, observed': seq<string>)
    requires forall n :: n in baseline ==> (n in observed <==> n in observed')
    ensures Classification(baseline, observed) == Classification(baseline, observed')
  {
  }

  /** No name is listed twice. */
  predicate NoDuplicates(names: seq<string>)
  {
    forall i, j :: 0 <= i < j < |names| ==> names[i] != names[j]
  }

  /** A list without duplicates has as many distinct names as entries. */
  lemma {:induction false} DistinctCount(names: seq<string>)
    requires NoDuplicates(names)
    ensures |set n | n in names| == |names|
  {
    if names != [] {
      var rest := names[1..];
      DistinctCount(rest);
      assert (set n | n in names) == (set n | n in rest) + {names[0]};
      assert names[0] !in rest;
    }
  }

  /** The namespace, cgroup and capability dictionaries have exactly 7, 11 and 13 keys. */
  lemma BaselineSizes(observed: seq<string>)
    ensures |Classification(NAMESPACES, observed).Keys| == 7
    ensures |Classification(CGROUPS, observed).Keys| == 11
    ensures |Classification(CAPABILITIES, observed).Keys| == 13
  {
    assert NoDuplicates(NAMESPACES);
    DistinctCount(NAMESPACES);
    assert NoDuplicates(CGROUPS);
    DistinctCount(CGROUPS);
    assert NoDuplicates(CAPABILITIES);
    DistinctCount(CAPABILITIES);
  }

  /**
   * `output.split('\n')[1].split('=')[1].split()`, or `None` where that
   * expression raises `IndexError` (fewer than two lines, or no `=` on the
   * second line).
   */
  function ParseCapabilities(output: string): Option<seq<string>>
  {
    var lines := Split(output, "\n");
    if |lines| < 2 then None
    else
      var fields := Split(lines[1], "=");
      if |fields| < 2 then None
      else Some(SplitWs(fields[1]))
  }

  /**
   * An output whose line 1 (counting from 0) is `pre=field...`, with no `=`
   * in `pre` or `field`, yields the whitespace-separated words of `field`.
   */
  lemma ParseCapabilitiesOk(line0: string, line1: string, tail: string, pre: string, field: string, post: string)
    requires '\n' !in line0 && '\n' !in line1
    requires tail == [] || tail[0] == '\n'
    requires line1 == pre + "=" + field + post
    requires '=' !in pre && '=' !in field
    requires post == [] || post[0] == '='
    ensures ParseCapabilities(line0 + "\n" + line1 + tail) == Some(SplitWs(field))
  {
    SplitCharSecond(line0, '\n', line1, tail);
    assert line1 == pre + ['='] + field + post;
    SplitCharSecond(pre, '=', field, post);
  }

  /** Output of a single line has no line 1: the parse fails. */
  lemma ParseCapabilitiesOneLine(output: string)
    requires '\n' !in output
    ensures ParseCapabilities(output) == None
  {
    SplitCharAbsent(output, '\n');
  }

  /** A line 1 without `=` has no field 1: the parse fails. */
  lemma ParseCapabilitiesNoEquals(line0: string, line1: string, tail: string)
    requires '\n' !in line0 && '\n' !in line1 && '=' !in line1
    requires tail == [] || tail[0] == '\n'
    ensures ParseCapabilities(line0 + "\n" + line1 + tail) == None
  {
    SplitCharSecond(line0, '\n', line1, tail);
    SplitCharAbsent(line1, '=');
  }

  /** The capability entry: the `try` block's dictionary, or the marker when the block raised. */
  function CapabilityReport(capsh: Option<string>): Capabilities
  {
    match capsh
    case None => Marker(CAPSH_REQUIRED)
    case Some(output) =>
      match ParseCapabilities(output)
      case None => Marker(CAPSH_REQUIRED)
      case Some(granted) => Classified(Classification(CAPABILITIES, granted))
  }

  /**
   * The capability entry is never partially filled: it is the marker exactly
   * when the tool or the parse failed, and otherwise a status for each of the
   * 13 baseline capabilities, `Activated` iff the parsed line names it.
   */
  lemma CapabilityReportAllOrNothing(capsh: Option<string>)
    ensures CapabilityReport(capsh).Marker? <==> capsh.None? || ParseCapabilities(capsh.value).None?
    ensures CapabilityReport(capsh).Marker? ==> CapabilityReport(capsh).text == CAPSH_REQUIRED
    ensures CapabilityReport(capsh).Classified? ==>
      var granted := ParseCapabilities(capsh.value).value;
      var statuses := CapabilityReport(capsh).statuses;
      && statuses.Keys == set c | c in CAPABILITIES
      && forall c :: c in statuses ==> (statuses[c] == ACTIVATED <==> c in granted)
  {
  }

  /** The keys and values of a classification, for any baseline and listing. */
  lemma ClassificationSpec(baseline: seq<string>, observed: seq<string>)
    ensures Classification(baseline, observed).Keys == set n | n in baseline
    ensures forall n :: n in Classification(baseline, observed) ==>
      (Classification(baseline, observed)[n] == ACTIVATED <==> n in observed)
  {
  }

  /** No baseline capability name contains a comma. */
  lemma CapabilitiesHaveNoComma()
    ensures forall k :: 0 <= k < |CAPABILITIES| ==> ',' !in CAPABILITIES[k]
  {
  }

  /** The text `Join(names, ",")` when the names are tokens without `,`, `=` or newline: one token, holding a comma when there are two names or more. */
  lemma CapabilityListText(names: seq<string>)
    requires |names| >= 1
    requires forall k :: 0 <= k < |names| ==> ',' !in names[k] && '=' !in names[k] && '\n' !in names[k]
    ensures '\n' !in Join(names, ",") && '=' !in Join(names, ",")
    ensures |names| >= 2 ==> ',' in Join(names, ",")
    ensures (forall k :: 0 <= k < |names| ==> IsToken(names[k])) ==> IsToken(Join(names, ","))
  {
    JoinAvoids(names, ",", '\n');
    JoinAvoids(names, ",", '=');
    if |names| >= 2 {
      assert Join(names, ",") == names[0] + "," + Join(names[1..], ",");
      assert Join(names, ",")[|names[0]|] == ',';
    }
    if forall k :: 0 <= k < |names| ==> IsToken(names[k]) {
      JoinToken(names, ",");
    }
  }

  /**
   * The output of `capsh --print` as the tool writes it: any line 0, then a
   * line 1 `pre=` followed by the capability names joined with commas, then
   * the remaining lines.
   */
  function CapshOutput(line0: string, pre: string, names: seq<string>, tail: string): string
    requires |names| >= 1
  {
    line0 + "\n" + (pre + "=" + Join(names, ",")) + tail
  }

  /** A line 1 `pre=field` whose field is one whitespace token parses to just that token. */
  lemma ParseCapabilitiesOneToken(line0: string, pre: string, field: string, tail: string)
    requires '\n' !in line0 && '\n' !in pre && '=' !in pre
    requires IsToken(field) && '\n' !in field && '=' !in field
    requires tail == [] || tail[0] == '\n'
    ensures ParseCapabilities(line0 + "\n" + (pre + "=" + field) + tail) == Some([field])
  {
    assert pre + "=" + field == pre + "=" + field + [];
    ParseCapabilitiesOk(line0, pre + "=" + field, tail, pre, field, []);
    SplitWsJoinSpace([field]);
  }

  /** As written, such an output parses to a single token: the whole comma-separated list. */
  lemma CapshOutputParse(line0: string, pre: string, names: seq<string>, tail: string)
    requires '\n' !in line0 && '\n' !in pre && '=' !in pre
    requires |names| >= 1
    requires forall k :: 0 <= k < |names| ==>
      IsToken(names[k]) && ',' !in names[k] && '=' !in names[k] && '\n' !in names[k]
    requires tail == [] || tail[0] == '\n'
    ensures ParseCapabilities(CapshOutput(line0, pre, names, tail)) == Some([Join(names, ",")])
  {
    CapabilityListText(names);
    ParseCapabilitiesOneToken(line0, pre, Join(names, ","), tail);
  }

  /**
   * As written, with the usual `capsh --print` output: line 1 is
   * `Bounding set =cap_chown,cap_kill,...`, a comma-separated list with no
   * whitespace. `split()` keeps that list as one token; it contains a comma,
   * which no baseline name does, so every capability reads
   * `WARNING NOT ACTIVATED`, whatever the process holds.
   */
  lemma CapshListNeverActivated(line0: string, pre: string, names: seq<string>, tail: string)
    requires '\n' !in line0 && '\n' !in pre && '=' !in pre
    requires |names| >= 2
    requires forall k :: 0 <= k < |names| ==>
      IsToken(names[k]) && ',' !in names[k] && '=' !in names[k] && '\n' !in names[k]
    requires tail == [] || tail[0] == '\n'
    ensures var report := CapabilityReport(Some(CapshOutput(line0, pre, names, tail)));
      && report.Classified?
      && report.statuses.Keys == set c | c in CAPABILITIES
      && forall c :: c in report.statuses ==> report.statuses[c] == NOT_ACTIVATED
  {
    CapshOutputParse(line0, pre, names, tail);
    var field := Join(names, ",");
    CapabilityListText(names);
    CapabilitiesHaveNoComma();
    ClassificationSpec(CAPABILITIES, [field]);
  }

  /** Each part of a list, upper-cased. */
  function UpperAll(parts: seq<string>): (us: seq<string>)
    ensures |us| == |parts|
    ensures forall k :: 0 <= k < |parts| ==> us[k] == Upper(parts[k])
  {
    if parts == [] then [] else [Upper(parts[0])] + UpperAll(parts[1..])
  }

  /**
   * The evident intent of the capability parse: the list after the `=` on
   * line 1, split on commas and upper-cased, so that `cap_chown` is matched
   * against `CAP_CHOWN`. It raises (`None`) where the source does.
   */
  function IntendedParseCapabilities(output: string): Option<seq<string>>
  {
    var lines := Split(output, "\n");
    if |lines| < 2 then None
    else
      var fields := Split(lines[1], "=");
      if |fields| < 2 then None
      else Some(UpperAll(Split(fields[1], ",")))
  }

  /** The intended parse on an output whose line 1 is `pre=field...`: the upper-cased comma-separated parts of `field`. */
  lemma IntendedParseCapabilitiesOk(line0: string, line1: string, tail: string, pre: string, field: string, post: string)
    requires '\n' !in line0 && '\n' !in line1
    requires tail == [] || tail[0] == '\n'
    requires line1 == pre + "=" + field + post
    requires '=' !in pre && '=' !in field
    requires post == [] || post[0] == '='
    ensures IntendedParseCapabilities(line0 + "\n" + line1 + tail) == Some(UpperAll(Split(field, ",")))
  {
    SplitCharSecond(line0, '\n', line1, tail);
    assert line1 == pre + ['='] + field + post;
    SplitCharSecond(pre, '=', field, post);
  }

  /** The capability entry under the intended parse. */
  function IntendedCapabilityReport(capsh: Option<string>): Capabilities
  {
    match capsh
    case None => Marker(CAPSH_REQUIRED)
    case Some(output) =>
      match IntendedParseCapabilities(output)
      case None => Marker(CAPSH_REQUIRED)
      case Some(granted) => Classified(Classification(CAPABILITIES, granted))
  }

  /** The upper-cased list holds exactly the upper-cased names. */
  lemma UpperAllMembers(names: seq<string>)
    ensures forall c :: c in UpperAll(names) <==> exists k :: 0 <= k < |names| && Upper(names[k]) == c
  {
  }

  /** The intended parse of that output is the names, upper-cased. */
  lemma IntendedCapshOutputParse(line0: string, pre: string, names: seq<string>, tail: string)
    requires '\n' !in line0 && '\n' !in pre && '=' !in pre
    requires |names| >= 1
    requires forall k :: 0 <= k < |names| ==> ',' !in names[k] && '=' !in names[k] && '\n' !in names[k]
    requires tail == [] || tail[0] == '\n'
    ensures IntendedParseCapabilities(CapshOutput(line0, pre, names, tail)) == Some(UpperAll(names))
  {
    var field := Join(names, ",");
    CapabilityListText(names);
    assert pre + "=" + field == pre + "=" + field + [];
    IntendedParseCapabilitiesOk(line0, pre + "=" + field, tail, pre, field, []);
    SplitCharJoin(names, ',');
  }

  /**
   * Under the intended parse, on the same `capsh --print` output, a baseline
   * capability is `Activated` exactly when some listed name upper-cases to it.
   */
  lemma IntendedCapabilityReportSpec(line0: string, pre: string, names: seq<string>, tail: string)
    requires '\n' !in line0 && '\n' !in pre && '=' !in pre
    requires |names| >= 1
    requires forall k :: 0 <= k < |names| ==> ',' !in names[k] && '=' !in names[k] && '\n' !in names[k]
    requires tail == [] || tail[0] == '\n'
    ensures var report := IntendedCapabilityReport(Some(CapshOutput(line0, pre, names, tail)));
      && report.Classified?
      && report.statuses.Keys == set c | c in CAPABILITIES
      && forall c :: c in report.statuses ==>
        (report.statuses[c] == ACTIVATED <==> exists k :: 0 <= k < |names| && Upper(names[k]) == c)
  {
    IntendedCapshOutputParse(line0, pre, names, tail);
    ClassificationSpec(CAPABILITIES, UpperAll(names));
    UpperAllMembers(names);
  }

  /**
   * `check_kernel_isolation`. The two `os.listdir` calls are outside any
   * `try`, so a failing listing makes the whole call raise (`None`); only the
   * capability check degrades to its marker.
   */
  method CheckKernelIsolation(nsListing: Option<seq<string>>, cgListing: Option<seq<string>>, capsh: Option<string>)
    returns (info: Option<IsolationInfo>)
    ensures info.None? <==> nsListing.None? || cgListing.None?
    ensures info.Some? ==> info.value.namespaces == Classification(NAMESPACES, nsListing.value)
    ensures info.Some? ==> info.value.cgroups == Classification(CGROUPS, cgListing.value)
    ensures info.Some? ==> info.value.capabilities == CapabilityReport(capsh)
  {
    if nsListing.None? {
      return None;
    }
    var namespaces := Classify(NAMESPACES, nsListing.value);
    if cgListing.None? {
      return None;
    }
    var cgroups := Classify(CGROUPS, cgListing.value);
    var capabilities := Marker(CAPSH_REQUIRED);
    if capsh.Some? {
      var parsed := ParseCapabilities(capsh.value);
      if parsed.Some? {
        var statuses := Classify(CAPABILITIES, parsed.value);
        capabilities := Classified(statuses);
      }
    }
    info := Some(IsolationInfo(namespaces, cgroups, capabilities));
  }
}
