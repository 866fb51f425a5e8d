# n3rd container audit, modelled in Dafny

`nerdv2.py` audits a container from the inside. It checks three things:

- **Kernel isolation.** Fixed baselines of 7 namespaces, 11 control groups and 13 capabilities are compared with what the process observes. Each name becomes `Activated` or `WARNING NOT ACTIVATED`. If `capsh` fails or its output cannot be parsed, the capability section becomes the marker `capsh tool required for capability check`.
- **User privileges.** The uid, the gid, whether the user is in the `sudo` group, and the output of `sudo -l`.
- **Network exposure.** Internet connectivity, the first `nameserver` in the resolver configuration, the IPv4 address of each interface, and the TCP ports 1..1023 on 127.0.0.1 that accept a connection.

The printers colour each status value green, red or blue; interface addresses are printed uncoloured.

This project models that logic. The environment is passed in as inputs:

- A directory listing is `Option<seq<string>>`. `None` means `os.listdir` raised.
- Tool output is `Option<string>`. `None` means the call raised.
- The ping exit status is `Option<int>`. `None` means ping could not be started.
- `ip addr show` is an oracle `string -> Option<string>`.
- "Connect to port p succeeds" is an oracle `int -> bool`.

`PyStr` defines the Python `str` operations the parsers use: `split()`, `split(sep)`, `in` and `startswith`. Three helpers sit beside them:

- `Find`, Python's `find`, is the first-occurrence search through which `in` and `split(sep)` are defined.
- `Join`, `sep.join(parts)`, serves only to state round trips.
- `Upper`, `upper()` on ASCII letters, is used by the corrected capability parse.

The meaning of the operations is proved as round trips, first-occurrence properties and cons laws.

Modules and files:

- `pystr.dfy`: module `PyStr`.
- `isolation.dfy`: module `Isolation`, for `check_kernel_isolation`.
- `privileges.dfy`: module `Privileges`, for `check_user_privileges`.
- `network.dfy`: module `Network`, for `check_network_security`.
- `colours.dfy`: module `Colours`, for the colour choices of the three printers.

Each `for` loop of the three check functions is a `method` with loop invariants, proved against a specification function:

- the three classification loops (one `Classify` method);
- the resolver loop with its `break`;
- the interface loop that ends at the first failure;
- the port scan.

The model follows the code at these points, where its behaviour is easy to misread:

- The two `os.listdir` calls of the isolation check are outside any `try`. An unreadable namespace or cgroup directory therefore makes the whole check raise (`None`). It does not mark the entries "not activated".
- The DNS field defaults to the string `Error`, not to an absent value.
- Connectivity is `Available` or `Error`. `check_call` raises on a non-zero status, so `Not available` is never stored.
- A failing `ip addr show` ends the interface loop rather than degrading one entry.
- The address is the text after the first `inet ` up to the first `/`, the next `inet ` or the end, whichever comes first. This follows from `split("inet ")[1]`.
- Open ports are an ascending list, not a set.

## Model

| member | source | states |
|---|---|---|
| PyStr.IsSpace | nerdv2.py:29 | the characters Python's `isspace()` accepts, which separate the tokens of `str.split()` |
| PyStr.StartsWith | nerdv2.py:92 | `s.startswith(prefix)`: `prefix` is no longer than `s` and equals its beginning |
| PyStr.SplitWs | nerdv2.py:29 | `str.split()` returns tokens that are non-empty and contain no whitespace; SplitWsCons and SplitWsAllSpace fix its value on every input |
| PyStr.SplitWsAllSpace | nerdv2.py:93 | a string made only of whitespace, the empty string included, splits into no tokens |
| PyStr.SplitWsCons | nerdv2.py:93 | `(w + t + rest).split() == [t] + rest.split()` for a whitespace run `w`, a token `t` and a `rest` that is empty or starts with whitespace: a run of separators counts as one, and whitespace at either end yields no empty token |
| PyStr.SplitWsJoinSpace | nerdv2.py:29 | `" ".join(ts).split() == ts` for every list of such tokens |
| PyStr.SplitWsLeadingSpace | nerdv2.py:93 | leading whitespace does not change what `split()` returns |
| PyStr.Find | nerdv2.py:103-104 | the result is an index where `sub` occurs with no earlier occurrence, or `None` when `sub` occurs nowhere |
| PyStr.Contains | nerdv2.py:103 | `sub in s` holds iff `sub` occurs in `s` at some index |
| PyStr.Split | nerdv2.py:104 | `s.split(sep)` is never empty, and no piece contains `sep` |
| PyStr.JoinSplit | nerdv2.py:29 | `sep.join(s.split(sep)) == s` |
| PyStr.SplitHasSecond | nerdv2.py:103-104 | `s.split(sep)[1]` exists iff `sep in s`, so the guarded index cannot raise |
| PyStr.SplitHead | nerdv2.py:104 | piece 0 is the prefix of `s` before the first `sep`, or all of `s`; piece 1 is piece 0 of the text after that first `sep` |
| PyStr.SplitCharCons | nerdv2.py:29 | `(a + c + b).split(c) == [a] + b.split(c)` when the character `c` is not in `a` |
| PyStr.SplitCharFirst | nerdv2.py:29 | piece 0 of `(a + b).split(c)` is `a` when `a` has no `c` and `b` is empty or starts with `c` |
| PyStr.JoinAvoids | nerdv2.py:29 | `sep.join(parts)` has no character `c` when neither `sep` nor any part has one |
| PyStr.JoinToken | nerdv2.py:29 | joining whitespace tokens with a whitespace-free separator gives one whitespace token |
| PyStr.SplitCharJoin | nerdv2.py:29 | `c.join(parts).split(c) == parts` for a one-character separator that no part holds |
| PyStr.Upper | nerdv2.py:30-31 | `upper()` keeps the length and maps each character by the ASCII upper-case rule |
| PyStr.SplitCharAbsent | nerdv2.py:29 | splitting on a character that does not occur gives the whole string |
| PyStr.SplitCharSecond | nerdv2.py:29 | piece 1 of `(a + c + b + rest).split(c)` is `b` when neither `a` nor `b` holds `c` and `rest` is empty or starts with `c` |
| PyStr.OccurrenceChars | nerdv2.py:50 | every character of an occurrence of `sub` is the matching character of `s`, so `sub in s` needs each character of `sub` in `s` |
| Isolation.Status | nerdv2.py:19 | the `"Activated" if … else "WARNING NOT ACTIVATED"` choice for one name |
| Isolation.Classification | nerdv2.py:18-24 | the dictionary one classification loop builds; ClassificationSpec, Classify and ClassificationByMembership state its keys and values |
| Isolation.ClassificationSpec | nerdv2.py:18-24 | the keys are exactly the baseline names, and a value is `Activated` iff the listing holds the name |
| Isolation.Classify | nerdv2.py:17-24 | the dictionary has exactly the baseline names as keys; a value is `Activated` iff the name is in the listing, else `WARNING NOT ACTIVATED` |
| Isolation.ClassificationByMembership | nerdv2.py:17-24 | listings with the same baseline members classify alike, so reordering or repeating entries changes nothing |
| Isolation.DistinctCount | nerdv2.py:18-23 | a list without duplicates has as many distinct names as entries |
| Isolation.BaselineSizes | nerdv2.py:18-30 | the namespace, cgroup and capability dictionaries have exactly 7, 11 and 13 keys |
| Isolation.ParseCapabilities | nerdv2.py:29 | `output.split('\n')[1].split('=')[1].split()`, with `None` where an index raises; ParseCapabilitiesOk, OneLine and NoEquals state its value on every output shape |
| Isolation.ParseCapabilitiesOk | nerdv2.py:29 | when line 1 is `pre=field…` with no `=` in `pre` or `field`, the parsed capabilities are the whitespace tokens of `field` |
| Isolation.ParseCapabilitiesOneLine | nerdv2.py:29 | output with no newline has no line 1, so the parse fails |
| Isolation.ParseCapabilitiesNoEquals | nerdv2.py:29 | a line 1 without `=` makes the parse fail |
| Isolation.CapabilityReport | nerdv2.py:27-33 | the capability entry: the `try` block's dictionary, or the marker when it raised; its meaning is stated by CapabilityReportAllOrNothing |
| Isolation.CapabilityReportAllOrNothing | nerdv2.py:27-33 | the entry is the marker iff the tool or the parse failed; otherwise all 13 capabilities are present, each `Activated` iff parsed |
| Isolation.CapabilitiesHaveNoComma | nerdv2.py:30 | no baseline capability name contains a comma |
| Isolation.CapabilityListText | nerdv2.py:29 | a comma-joined list of names has no newline and no `=`; it contains a comma when there are two names or more; it is one whitespace token when the names are |
| Isolation.CapshOutput | nerdv2.py:28-29 | the tool's output with line 1 `pre=` followed by comma-joined capability names; CapshOutputParse and IntendedCapshOutputParse state how it parses |
| Isolation.ParseCapabilitiesOneToken | nerdv2.py:29 | a line 1 `pre=field` whose field is one whitespace token parses to exactly `[field]` |
| Isolation.CapshOutputParse | nerdv2.py:29 | as written, the comma-joined list parses to a single token, the whole list |
| Isolation.CapshListNeverActivated | nerdv2.py:29-31 | as written, with two or more comma-joined names on line 1, all 13 capabilities are `WARNING NOT ACTIVATED` whatever the names are |
| Isolation.UpperAll | nerdv2.py:29-31 | each element upper-cased, in order |
| Isolation.UpperAllMembers | nerdv2.py:29-31 | the upper-cased list holds exactly the upper-cased names |
| Isolation.IntendedParseCapabilities | nerdv2.py:29 | the corrected parse: the text after `=` on line 1, split on commas and upper-cased; it fails exactly where the source raises |
| Isolation.IntendedParseCapabilitiesOk | nerdv2.py:29 | on a line 1 `pre=field…`, the corrected parse gives the upper-cased comma-separated parts of `field` |
| Isolation.IntendedCapshOutputParse | nerdv2.py:29 | the corrected parse of the tool's comma-joined list is the names, upper-cased |
| Isolation.IntendedCapabilityReport | nerdv2.py:27-33 | the capability entry under the corrected parse |
| Isolation.IntendedCapabilityReportSpec | nerdv2.py:29-31 | under the corrected parse, each of the 13 capabilities is `Activated` iff some listed name upper-cases to it |
| Isolation.CheckKernelIsolation | nerdv2.py:9-35 | raises iff a listing fails; otherwise namespaces and cgroups are their classifications, whatever capsh did, and capabilities is the capability entry |
| Network.CheckCall | nerdv2.py:83 | `check_call` returns status 0 or raises; Connectivity states the field it leads to |
| Network.Connectivity | nerdv2.py:82-86 | `Available` iff the probe exits 0, otherwise `Error`; never `Not available` |
| Network.IsNameserverLine | nerdv2.py:92 | `line.startswith("nameserver")` |
| Network.NameserverValue | nerdv2.py:92-94 | the second `split()` token of a matching line, or `Error` when `split()[1]` raises; NameserverLineValue states it on a real resolver line |
| Network.DnsFromLines | nerdv2.py:89-94 | the DNS field the lines decide, scanned in file order; DnsFirstNameserver, DnsNoNameserver and DnsIgnoresLaterLines state its meaning |
| Network.DnsServer | nerdv2.py:89-96 | the DNS field, `Error` when the file cannot be read; ReadDnsServer is proved equal to it |
| Network.NameserverLineValue | nerdv2.py:92-94 | a line such as `nameserver 8.8.8.8\n` (`nameserver`, whitespace, an address token, trailing whitespace) starts with `nameserver` and yields the address |
| Network.DnsFirstNameserver | nerdv2.py:89-94 | the first line starting with `nameserver` decides the field: its second token, or `Error` when it has fewer than two tokens |
| Network.DnsNoNameserver | nerdv2.py:89-96 | with no `nameserver` line the field stays `Error` |
| Network.DnsIgnoresLaterLines | nerdv2.py:91-94 | replacing the lines after any `nameserver` line leaves the field unchanged |
| Network.ReadDnsServer | nerdv2.py:89-96 | the loop with `break` computes the DNS field; an unreadable file leaves `Error` |
| Network.InterfaceAddress | nerdv2.py:103-107 | the address recorded for one interface; InterfaceAddressFound, InterfaceAddressMissing and InterfaceAddressIpv6Only state its value |
| Network.ShorterOccurrence | nerdv2.py:103 | an occurrence of `sub` is also an occurrence of each prefix of `sub` |
| Network.InterfaceAddressFound | nerdv2.py:103-105 | with `inet ` present, the address is the text after its first occurrence, up to the first `/`, the next `inet ` or the end; it contains no `/` |
| Network.InterfaceAddressMissing | nerdv2.py:106-107 | without `inet `, the address is `No IPv4 address` |
| Network.InterfaceAddressIpv6Only | nerdv2.py:103-107 | output in which every `inet` is followed by `6` (IPv6 only) gets `No IPv4 address` |
| Network.FirstFailure | nerdv2.py:99-109 | the index of the first name whose query raises: every earlier query succeeds and that one fails |
| Network.AddressTable | nerdv2.py:100-107 | the address of every listed interface whose query succeeds |
| Network.Interfaces | nerdv2.py:99-109 | the interfaces before the first failing query, each with its address; InterfacesStopAtFailure and ListInterfaces state its meaning |
| Network.InterfacesStopAtFailure | nerdv2.py:99-109 | the names before the first failing query keep their addresses; with unique names, none from the failing one on is present |
| Network.ListInterfaces | nerdv2.py:99-109 | the loop that stops at the first failure builds exactly the specified table; a failed listing gives an empty table |
| Network.AppendAscending | nerdv2.py:120 | appending a value larger than every element keeps a list strictly ascending |
| Network.OpenPortsBelow | nerdv2.py:112-120 | the recorded ports are strictly ascending and are exactly the ports in [1, n) whose connect succeeds |
| Network.ScanPorts | nerdv2.py:112-121 | the scan over `range(1, 1024)` yields a strictly ascending, duplicate-free list of exactly the ports in [1, 1023] that connect |
| Network.NoOpenPortsBelow | nerdv2.py:112-120 | with no listener the list is empty |
| Network.OneOpenPortBelow | nerdv2.py:112-120 | with one listener `q` the list is `[q]` |
| Network.CheckNetworkSecurity | nerdv2.py:73-123 | each field is its own paragraph's result and depends only on that paragraph's input |
| Privileges.Truthy | nerdv2.py:56 | Python truthiness of a dictionary value (non-zero, non-empty); PrivilegeColours states the colour it decides |
| Privileges.SudoGroupAnswer | nerdv2.py:41 | `Yes` iff the pipeline exits 0, `No` iff it does not |
| Privileges.CheckUserPrivileges | nerdv2.py:37-44 | the ids and the `sudo -l` text are passed through; the group answer is `Yes` iff the pipeline exits 0 and `No` iff it does not |
| Privileges.Values | nerdv2.py:38-43 | the dictionary's four values in insertion order, the order in which the printer visits them |
| Colours.IsolationColour | nerdv2.py:50 | the case-sensitive `Activated` substring test; StatusColours and ClassificationColour state its result on every stored status |
| Colours.StatusColours | nerdv2.py:50 | `Activated` is green; `WARNING NOT ACTIVATED` is red, because the substring test is case-sensitive |
| Colours.ClassificationColour | nerdv2.py:50 | a baseline name is shown green iff the observed listing holds it |
| Colours.PrivilegeColour | nerdv2.py:56 | green for a falsy value, red for a truthy one; PrivilegeColours states it for every position |
| Colours.PrivilegeColours | nerdv2.py:55-56 | one colour per dictionary value, in order, each green iff its value is falsy |
| Colours.SudoGroupAlwaysRed | nerdv2.py:56 | as written, "In Sudo Group" is red for both `Yes` and `No` |
| Colours.RootIdGreen | nerdv2.py:56 | as written, the user id is green iff it is 0 (root) |
| Colours.IntendedPrivilegeColours | nerdv2.py:56 | the corrected colouring gives one colour per dictionary value |
| Colours.IntendedPrivilegeColoursSpec | nerdv2.py:56 | under the corrected colouring, the user and group ids are red iff 0, the group answer is red iff the pipeline exits 0, and the `sudo -l` text is red iff it is non-empty (an error message included) |
| Colours.OpenPortsColour | nerdv2.py:67 | red for a non-empty list, green for the empty one; ScanColour states it for the scan |
| Colours.ScanColour | nerdv2.py:67 | the open-port list is red iff some port in [1, 1023] connects |
| Colours.NetworkValueColour | nerdv2.py:70 | red for `Available`, green for `Not available`, blue otherwise; ConnectivityColour and DnsDefaultColour state it for the fields |
| Colours.ConnectivityColour | nerdv2.py:70 | connectivity is red when the probe returned, blue otherwise, and never green |
| Colours.DnsDefaultColour | nerdv2.py:70 | a resolver file that cannot be read or has no `nameserver` line leaves the DNS field at `Error`, which is shown blue |

## Left out

- `is_docker_environment` and `main` (nerdv2.py:6-7, 125-142) are left out: they are a file-existence check, `sys.exit(1)` and the order of the calls.
- `auditoria.py` is left out: it only passes listings and the uid through.
- The real `os.listdir`, `subprocess`, `open` and `socket` calls are left out. The model takes their results as inputs.
- Tool output is taken as it is after the newline translation that `universal_newlines=True` does.
- A resolver file that fails part-way through reading is not modelled separately. Before a `nameserver` line, it acts like a shorter file without one.
- The socket's 1-second timeout and its `close()` are not modelled. Only the connect outcome is an input.
- The `ip addr show` oracle gives the same output every time for the same name. This only matters for a name listed twice, which a directory listing does not produce.
- Printing and ANSI escapes are left out; only the colour choice is modelled.
- The printer loops (nerdv2.py:47, 49, 55, 61, 64) are not methods. Their colour choices are functions on the values they visit (`Colours.PrivilegeColours` covers the loop at line 55); the iteration and output order are not modelled.
- `print_isolation_info` would fail calling `.items()` on the capability marker string. The model leaves out this crash of the printer.
- Python dictionaries keep insertion order; Dafny maps do not. Key order only affects printing.
- `PyStr.Upper` upper-cases ASCII letters only. Python's `upper()` also maps other letters, which capability names do not contain.
- `PyStr.Split` requires a non-empty separator. Python raises `ValueError` on an empty one, and the source never passes one.
- Strings are sequences of Unicode scalar values. Lone surrogates, which a Python `str` can hold, are not modelled.

## Findings

| source | as written | input that shows it | evidently intended | confidence | as-written member | corrected member |
|---|---|---|---|---|---|---|
| nerdv2.py:56 | the colour is green iff the value is falsy, and the string `No` is truthy | user not in the sudo group: the pipeline exits 1, the answer is `No`, and it is printed red | green when the user lacks the privilege, as the comment on that line says | not executed; high | Colours.SudoGroupAlwaysRed | Colours.IntendedPrivilegeColoursSpec |
| nerdv2.py:56 | user id 0 is falsy, so root is green and every other user is red | running as root, uid 0 | red for root, the most privileged id; green for the others | not executed; medium | Colours.RootIdGreen | Colours.IntendedPrivilegeColoursSpec |
| nerdv2.py:29-31 | `split()` on line 1 of `capsh --print`, compared exactly with upper-case names | the usual line 1 `Bounding set =cap_chown,cap_kill,…`: the whole comma-separated, lower-case list is one token, so every capability reads `WARNING NOT ACTIVATED` | split the list on commas and compare case-insensitively, so held capabilities read `Activated` | not executed; medium, since it depends on the tool's output format | Isolation.CapshListNeverActivated | Isolation.IntendedCapabilityReportSpec |
