/**
 * The colour each printer gives a value (`print_isolation_info`,
 * `print_user_privileges_info`, `print_network_security_info`). Only the
 * choice of colour is modelled; the printing and the escape codes are not.
 */
module Colours {
  import opened PyStr
  import Isolation
  import Privileges
  import Network

  datatype Colour = Green | Red | Blue

  /** An isolation status is green when it contains `Activated` (case-sensitive), red otherwise. */
  function IsolationColour(status: string): Colour
  {
    if Contains(status, Isolation.ACTIVATED) then Green else Red
  }

  /** `Activated` is green; `WARNING NOT ACTIVATED`, whose capitals do not match, is red. */
  lemma StatusColours()
    ensures IsolationColour(Isolation.ACTIVATED) == Green
    ensures IsolationColour(Isolation.NOT_ACTIVATED) == Red
  {
    assert OccursAt(Isolation.ACTIVATED, Isolation.ACTIVATED, 0);
    assert Isolation.ACTIVATED[1] == 'c' && 'c' !in Isolation.NOT_ACTIVATED;
    if Contains(Isolation.NOT_ACTIVATED, Isolation.ACTIVATED) {
      var i :| OccursAt(Isolation.NOT_ACTIVATED, Isolation.ACTIVATED, i);
      OccurrenceChars(Isolation.NOT_ACTIVATED, Isolation.ACTIVATED, i);
      assert false;
    }
  }

  /** A baseline name is shown green exactly when the observed listing holds it. */
  lemma ClassificationColour(baseline: seq<string>, observed: seq<string>, name: string)
    requires name in baseline
    ensures IsolationColour(Isolation.Classification(baseline, observed)[name]) == Green <==> name in observed
  {
    StatusColours();
  }

  /** A privilege value is green when it is falsy (0 or the empty string), red otherwise. */
  function PrivilegeColour(v: Privileges.Value): Colour
  {
    if !Privileges.Truthy(v) then Green else Red
  }

  /** The colours `print_user_privileges_info` gives the four dictionary values, in order. */
  function PrivilegeColours(p: Privileges.UserPrivileges): (colours: seq<Colour>)
    ensures |colours| == |Privileges.Values(p)|
    ensures forall k :: 0 <= k < |colours| ==>
      (colours[k] == Green <==> !Privileges.Truthy(Privileges.Values(p)[k]))
  {
    var values := Privileges.Values(p);
    seq(|values|, k requires 0 <= k < |values| => PrivilegeColour(values[k]))
  }

  /** As written: the answer `No` is a non-empty string, so "In Sudo Group" is red whatever the answer. */
  lemma SudoGroupAlwaysRed(userId: int, groupId: int, grepStatus: int, sudoOutput: string)
    ensures PrivilegeColours(Privileges.CheckUserPrivileges(userId, groupId, grepStatus, sudoOutput))[2] == Red
  {
  }

  /** As written: user id 0 (root) is falsy and so green; every other id is red. */
  lemma RootIdGreen(p: Privileges.UserPrivileges)
    ensures PrivilegeColours(p)[0] == Green <==> p.userId == 0
  {
  }

  /**
   * The colouring the printer's comment describes, green when the user lacks
   * the privilege: an id other than 0 (root), the answer `No` and an empty
   * grant listing are green.
   */
  function IntendedPrivilegeColours(p: Privileges.UserPrivileges): (colours: seq<Colour>)
    ensures |colours| == |Privileges.Values(p)|
  {
    [if p.userId == 0 then Red else Green,
     if p.groupId == 0 then Red else Green,
     if p.inSudoGroup == "Yes" then Red else Green,
     if p.sudoPermissions == "" then Green else Red]
  }

  /**
   * Under the intended colouring, the ids are red exactly when they are 0,
   * the group answer exactly when the pipeline exits 0, and the `sudo -l`
   * text exactly when it is non-empty (an error message included).
   */
  lemma IntendedPrivilegeColoursSpec(userId: int, groupId: int, grepStatus: int, sudoOutput: string)
    ensures var colours := IntendedPrivilegeColours(
        Privileges.CheckUserPrivileges(userId, groupId, grepStatus, sudoOutput));
      && (colours[0] == Red <==> userId == 0)
      && (colours[1] == Red <==> groupId == 0)
      && (colours[2] == Red <==> grepStatus == 0)
      && (colours[3] == Red <==> sudoOutput != "")
  {
  }

  /** The open-port list is red when non-empty, green when empty. */
  function OpenPortsColour(ports: seq<int>): Colour
  {
    if |ports| > 0 then Red else Green
  }

  /** The scan's list is red exactly when some port in [1, 1023] accepts a connection. */
  lemma ScanColour(connects: int -> bool)
    ensures OpenPortsColour(Network.OpenPortsBelow(Network.LAST_PORT + 1, connects)) == Red
      <==> exists p :: 1 <= p <= Network.LAST_PORT && connects(p)
  {
    var ports := Network.OpenPortsBelow(Network.LAST_PORT + 1, connects);
    if |ports| > 0 {
      assert ports[0] in ports;
    }
  }

  /** Other network values: `Available` red, `Not available` green, anything else blue. */
  function NetworkValueColour(info: string): Colour
  {
    if info == Network.AVAILABLE then Red
    else if info == Network.NOT_AVAILABLE then Green
    else Blue
  }

  /** Connectivity is red when the probe returned and blue otherwise; it is never green. */
  lemma ConnectivityColour(pingExit: Option<int>)
    ensures NetworkValueColour(Network.Connectivity(pingExit)) == (if pingExit == Some(0) then Red else Blue)
    ensures NetworkValueColour(Network.Connectivity(pingExit)) != Green
  {
  }

  /**
   * A resolver configuration that cannot be read, or has no `nameserver`
   * line, leaves the DNS field at `Error`, which is shown blue.
   */
  lemma DnsDefaultColour(resolv: Option<seq<string>>)
    requires resolv.None? || forall j :: 0 <= j < |resolv.value| ==> !Network.IsNameserverLine(resolv.value[j])
    ensures Network.DnsServer(resolv) == Network.ERROR
    ensures NetworkValueColour(Network.DnsServer(resolv)) == Blue
  {
    if resolv.Some? {
      Network.DnsNoNameserver(resolv.value);
    }
  }
}
