# Subnet calculator and MAC reformatter, modelled in Dafny

This project models two small network utilities.

`IP_tools/ip_calc.py` is an `ipcalc`-style subnet calculator. It takes an IPv4 or IPv6 address with a prefix length and reports:
- the address, netmask and wildcard;
- the network and broadcast addresses;
- the first and last host;
- the host count and the address type;
- optionally, each address as dot-separated groups of eight binary digits.

`IP_tools/convert_cisco_mac_to_unix.py` rewrites a Cisco-style MAC address (`hhhh.hhhh.hhhh`) in the Unix colon form (`hh:hh:hh:hh:hh:hh`).

The model has these modules:

- **Wrappers** holds the `Option` and `Result` types.
- **Arith** holds powers of two and a few facts about them.
- **Strings** holds the string operations the two programs use:
  - deleting every occurrence of a character (`Remove`);
  - joining groups with a separator (`Join`);
  - concatenation (`Concat`);
  - character substitution (`Substitute`).
- **Bits** represents a natural number below 2^w as its w bits, most significant first. Bitwise AND, OR and XOR are applied to those bits. A right shift is repeated halving.
- **BinaryRep** renders a number as the program does:
  - its shortest base-2 numeral, zero-filled to the width;
  - cut into groups of eight characters;
  - each group zero-filled to eight;
  - the groups joined by `.`.
- **IpCalc** holds:
  - the width choice (32 for version 4, 128 otherwise);
  - the mask and address arithmetic, using the formulas of the Python `ipaddress` module:
    - netmask = all-ones XOR (all-ones >> prefix);
    - wildcard = netmask XOR all-ones;
    - network = address AND netmask;
    - broadcast = network OR wildcard;
    - host count = broadcast − network + 1 − 2;
  - the consumption of the host query, on both the fast path and the exhaustive `--last-search` path;
  - the classifier;
  - `Calculate`, which ties all the reported values together.
- **CiscoMac** holds the dot removal and the pairing of characters two at a time from one shared iterator.

The width is a process-wide variable in the program (`LENGTH`). Here it is an explicit parameter.

## The host query

`Calculate` takes what the library's `hosts()` returns as an input of type `Hosts`: an iterator or a plain list. `LibraryHosts` states what the `ipaddress` documentation promises for a network of width w:

| Prefix | Version | What `hosts()` returns |
|---|---|---|
| w | any | a list holding the single address |
| w − 1 | any | an iterator over both addresses |
| shorter | 4 | an iterator from network + 1 to broadcast − 1 |
| shorter | 6 | an iterator from network + 1 up to and including the broadcast address |

The failures of the program are modelled as error values rather than crashes:

| Error value | When the program fails |
|---|---|
| `NotAnIterator` | the first host is asked of a list (a `TypeError`) |
| `StopIteration` | the first host is asked of an empty iterator |
| `NotEnoughValues` | the exhaustive search finds nothing after the first host |
| `NegativeAddress` | the fast path steps below address 0 |
| `AttributeError` | the classifier asks for a property the network does not have |

For the documented collection, `LibraryHostRange` proves:
- **Prefix w** (every /32 and /128, a bare address among them): the program reports no host range. The first host is asked of a list. Library versions that return an empty iterator at this prefix end in `StopIteration` instead, which the model also covers.
- **Prefix w − 1**: both paths start at the network address. The exhaustive path ends at the broadcast address; the fast path ends at the network address.
- **Version 4, prefix at most w − 2**: both paths report network + 1 to broadcast − 1. `StrategiesAgree` proves this for that iterator generically.
- **Version 6, prefix at most w − 2**: the exhaustive path ends at the broadcast address, and the fast path at the address just below it (see Findings).

For any non-empty iterator, `FastPathDegenerate` records how the fast path behaves at the two longest prefixes.

The host count is −1 at prefix w and 0 at prefix w − 1.

## The classifier

The network's named properties are taken as an uninterpreted predicate `holds` over property names. Only the names in `PROPERTIES` exist; any other name is an `AttributeError`.

The program builds the name by prefixing `is_` to each label. For the third label this gives `is_link-local`, which no network has. `ClassifyAsWritten` proves the consequence:
- the program reports `global` or `private`;
- for every other network it ends in `AttributeError`, after all other lines are printed.

`IntendedClassification` gives the evidently intended first-match behaviour, with the hyphen read as an underscore.

## Model

| member | source | states |
|---|---|---|
| IpCalc.Width | IP_tools/ip_calc.py:46 | the width is 32 exactly when the version is 4, and 128 otherwise |
| IpCalc.Netmask | IP_tools/ip_calc.py:50 | the netmask, defined as the library computes it; its bits and value are stated by MaskBits and MaskValues |
| IpCalc.Wildcard | IP_tools/ip_calc.py:51 | the wildcard (host mask), defined as the netmask XOR all-ones; stated by MaskBits and MaskValues |
| IpCalc.Network | IP_tools/ip_calc.py:54-55 | the network address, defined as address AND netmask; stated by NetworkBits, NetworkSplit, NetworkBounds and NetworkAligned |
| IpCalc.Broadcast | IP_tools/ip_calc.py:56 | the broadcast address, defined as network OR wildcard; stated by NetworkBits, NetworkSplit and NetworkBounds |
| IpCalc.NumAddresses | IP_tools/ip_calc.py:78 | the library's address count, broadcast − network + 1 |
| IpCalc.HostCount | IP_tools/ip_calc.py:78 | the reported count, the address count minus 2; its value is stated by HostCountValue |
| IpCalc.ShiftedOnes | IP_tools/ip_calc.py:50 | shifting the w-bit all-ones value right by the prefix length leaves 2^(w−prefix) − 1 |
| IpCalc.MaskBits | IP_tools/ip_calc.py:50-51 | the netmask's bits are `prefix` ones then w − prefix zeros; the wildcard's bits are their complement |
| IpCalc.MaskValues | IP_tools/ip_calc.py:50-51 | netmask = (2^prefix − 1)·2^(w−prefix); wildcard = 2^(w−prefix) − 1; the two share no bit and together cover all w bits |
| IpCalc.NetworkBits | IP_tools/ip_calc.py:54-56 | the network keeps the address's first `prefix` bits and clears the rest; the broadcast keeps them and sets the rest |
| IpCalc.NetworkSplit | IP_tools/ip_calc.py:54-56 | the address is high·2^(w−prefix) + low with low below 2^(w−prefix); the network is high·2^(w−prefix); the broadcast is that plus 2^(w−prefix) − 1 |
| IpCalc.NetworkBounds | IP_tools/ip_calc.py:54-56 | network ≤ address ≤ broadcast < 2^w, and broadcast = network + 2^(w−prefix) − 1 |
| IpCalc.NetworkAligned | IP_tools/ip_calc.py:54-55 | the network is the address rounded down to a multiple of 2^(w−prefix) |
| IpCalc.NetworkWildcardDisjoint | IP_tools/ip_calc.py:54-56 | the network address shares no bit with the wildcard |
| IpCalc.SameNetwork | IP_tools/ip_calc.py:54-56 | any address with the same leading `prefix` bits has the same network and broadcast |
| IpCalc.NetworkIdempotent | IP_tools/ip_calc.py:54-56 | the network of the network, and the network of the broadcast, are the network; the broadcast of the network is the broadcast |
| IpCalc.HostCountValue | IP_tools/ip_calc.py:78 | the host count is 2^(w−prefix) − 2 = broadcast − network − 1: −1 at prefix w and 0 at prefix w − 1 |
| IpCalc.StandardHosts | IP_tools/ip_calc.py:57 | the addresses strictly between network and broadcast, in order: the version 4 host iterator for prefixes up to w − 2 |
| IpCalc.LibraryHosts | IP_tools/ip_calc.py:57 | what the library documents `hosts()` to return, by prefix and version (see "The host query") |
| IpCalc.HostRangeOf | IP_tools/ip_calc.py:57-64 | the first and last host for a host query's result, or the `TypeError`, `StopIteration`, not-enough-values or negative-address failure |
| IpCalc.FindHostRange | IP_tools/ip_calc.py:57-64 | consuming the host query's result (one step, then on the exhaustive path a drain that keeps the last element) gives exactly HostRangeOf |
| IpCalc.StandardHostRange | IP_tools/ip_calc.py:57-64 | with at least two addresses between network and broadcast, the iterator over them runs from network + 1 to broadcast − 1, and both strategies report exactly that range |
| IpCalc.StrategiesAgree | IP_tools/ip_calc.py:54-64 | for prefix ≤ w − 2, the iterator from network + 1 to broadcast − 1 yields host-count ≥ 2 addresses, and the fast and exhaustive strategies give the same first and last host |
| IpCalc.FastPathDegenerate | IP_tools/ip_calc.py:63-64 | for any non-empty iterator: at prefix w − 1 the fast path's last host is the network address; at prefix w it is the network − 1, or an error when the network is address 0 |
| IpCalc.LibraryHostRange | IP_tools/ip_calc.py:57-64 | for the documented host collection: prefix w fails on the list; prefix w − 1 gives network to broadcast (exhaustive) or network to network (fast); version 4 gives network + 1 to broadcast − 1; version 6 ends at broadcast (exhaustive) or broadcast − 1 (fast) |
| IpCalc.FastPathMissesLastHost | IP_tools/ip_calc.py:60-64 | at prefix w − 1, and for version 6 at every shorter prefix, the fast path's last host is one below the exhaustive search's |
| IpCalc.LibraryHostsLast | IP_tools/ip_calc.py:57 | the documented host collection is never empty; its last element is broadcast − 1 for version 4 with at least two host bits, and the broadcast address otherwise |
| IpCalc.IntendedLastHost | IP_tools/ip_calc.py:63-64 | the last host the fast path is meant to produce: the last element of the documented host collection, equal to where the exhaustive search ends whenever there is an iterator |
| IpCalc.PropertyAsWritten | IP_tools/ip_calc.py:38 | the property name the program builds from a label, `is_` followed by the label unchanged |
| IpCalc.PropertyIntended | IP_tools/ip_calc.py:38 | the property name a label evidently stands for, with its hyphens read as underscores |
| IpCalc.Lookup | IP_tools/ip_calc.py:38 | a property's value when the network has a property of that name, an AttributeError otherwise |
| IpCalc.Classify | IP_tools/ip_calc.py:33-39 | the first-match search with lookups: the first label whose property holds, none, or the first lookup's error |
| IpCalc.GetType | IP_tools/ip_calc.py:33-39 | the loop over the labels equals Classify with the names as written: "global" if that holds, else "private" if that holds, else an AttributeError |
| IpCalc.ClassifyAsWritten | IP_tools/ip_calc.py:33-39 | with the names as written the result is "global", "private" or an AttributeError, decided exactly by the first two properties |
| IpCalc.NoTypeCounterexample | IP_tools/ip_calc.py:33-39 | a network with no property holding ends in an AttributeError as written, and gets no type with the intended names |
| IpCalc.ClassifySpec | IP_tools/ip_calc.py:33-39 | when every lookup succeeds, the result is the label at the least index whose property holds, and is none exactly when no property holds |
| IpCalc.ClassifyDeterministic | IP_tools/ip_calc.py:33-39 | the classification depends only on the values of the properties the labels name |
| IpCalc.IntendedClassification | IP_tools/ip_calc.py:33-39 | with the intended names every lookup succeeds, and the result is the first label whose property holds, or none exactly when none holds |
| IpCalc.IntendedNamesExist | IP_tools/ip_calc.py:8 | every label, its hyphens read as underscores, names a property networks have |
| IpCalc.LibraryOutcome | IP_tools/ip_calc.py:57-79 | with the documented host collection, the host range and the classification both succeed exactly when prefix < w and the network is global or private; for version 4 with prefix ≤ w − 2 the hosts are network + 1 to broadcast − 1 |
| IpCalc.Calculate | IP_tools/ip_calc.py:42-79 | fails exactly when consuming the host query fails (with that error) or later the classification fails (with its error); otherwise every reported value and binary rendering is the one defined here |
| BinaryRep.BinDigits | IP_tools/ip_calc.py:25 | the shortest base-2 numeral, at least one digit; its value is stated by BinDigitsValue |
| BinaryRep.ZFill | IP_tools/ip_calc.py:25-26 | left-padding with '0' to a width; its effect on the value is stated by ZFillValue |
| BinaryRep.Octets | IP_tools/ip_calc.py:26 | the string cut into groups of eight from the left; their shape is stated by BinaryStringRepShape |
| BinaryRep.PadOctets | IP_tools/ip_calc.py:26 | every group padded to eight characters |
| BinaryRep.BinaryStringRep | IP_tools/ip_calc.py:21-26 | the rendering at width w; stated by BinaryStringRepShape and BinaryStringRepRoundTrip |
| BinaryRep.BinDigitsValue | IP_tools/ip_calc.py:25 | the shortest numeral consists of binary digits and reads back as n |
| BinaryRep.BinDigitsLength | IP_tools/ip_calc.py:25 | a value below 2^w has at most w digits, so zero-filling to the width never truncates |
| BinaryRep.ZFillValue | IP_tools/ip_calc.py:25-26 | zero-filling gives the larger of the two lengths, keeps the digits binary and keeps the value |
| BinaryRep.PaddedDigits | IP_tools/ip_calc.py:25 | for n below 2^w, the numeral of n zero-filled to w is the w-bit representation of n and reads back as n |
| BinaryRep.BinaryStringRepShape | IP_tools/ip_calc.py:21-26 | for n below 2^w with w a positive multiple of 8, the rendering is w/8 groups of exactly eight binary digits joined by `.`, w + w/8 − 1 characters in all |
| BinaryRep.BinaryStringRepRoundTrip | IP_tools/ip_calc.py:21-26 | deleting the dots from the rendering leaves the w-bit representation, which reads back as n |
| Strings.Remove | IP_tools/convert_cisco_mac_to_unix.py:16 | deleting a character: the result is no longer, lacks the character, and has only characters of the input |
| Strings.Join | IP_tools/ip_calc.py:26 | the groups with one separator between neighbours; its length and round trip are stated by JoinLength and RemoveJoin |
| Strings.RemoveJoin | IP_tools/ip_calc.py:26 | deleting the separator from a join of groups free of it gives their concatenation |
| Strings.JoinLength | IP_tools/ip_calc.py:26 | a join of k ≥ 1 groups of length n has k·(n+1) − 1 characters, and the empty join none |
| CiscoMac.Pairs | IP_tools/convert_cisco_mac_to_unix.py:17-18 | the pairs drawn by zipping one shared iterator with itself; their shape is stated by PairsShape |
| CiscoMac.Convert | IP_tools/convert_cisco_mac_to_unix.py:16-18 | the conversion; stated by ConvertShape, ConvertRoundTrip, ConvertDropsUnpaired, ConvertEmpty and CiscoForm |
| CiscoMac.PairsShape | IP_tools/convert_cisco_mac_to_unix.py:17-18 | pairing from one shared iterator yields the consecutive two-character slices in order, \|t\|/2 of them, which together are t minus an unpaired last character |
| CiscoMac.ConvertShape | IP_tools/convert_cisco_mac_to_unix.py:16-18 | the output is the dot-free input cut into consecutive pairs joined by `:`; it is 3k − 1 characters long for k ≥ 1 pairs, empty with none, and contains no `.` |
| CiscoMac.ConvertRoundTrip | IP_tools/convert_cisco_mac_to_unix.py:16-18 | for an input without `:`, deleting the colons from the output gives back the dot-free input (without its last character when the count is odd) |
| CiscoMac.ConvertDropsUnpaired | IP_tools/convert_cisco_mac_to_unix.py:17-18 | with an odd number of characters left after dot removal, the last one is silently dropped |
| CiscoMac.ConvertEmpty | IP_tools/convert_cisco_mac_to_unix.py:16-18 | fewer than two characters left after dot removal (for example the empty input, or dots only) gives the empty output |
| CiscoMac.CiscoForm | IP_tools/convert_cisco_mac_to_unix.py:16-18 | any `aaaa.bbbb.cccc` input with dot-free groups becomes `aa:aa:bb:bb:cc:cc`, with no check of the digits |

## Left out

- Argument parsing, the usage message, the argument-count check and the exit code are left out: they are command-line plumbing.
- Printing and the column formatting are left out: they are output formatting only. An error value stands for the exception, whatever lines were printed before it.
- The textual form of addresses and masks is left out. The model works on the integer values the library parses and prints.
- Parsing of address strings, and its errors, is left out; it is done by the address library. It enters the model only as the `ValidInterface` bounds.
- The truth of each named network property is not modelled: it is decided by the library's tables of special ranges. The model takes it as the uninterpreted predicate `holds`, and `PROPERTIES` lists which names exist.
- `LibraryHosts` restates the host collections the library documents; the library's code is not part of this model.
- The `bin(...)` rendering of the host count (line 78) is left out. For the count −1 it prints `b1`. It needs nothing beyond the count that `HostCountValue` states.
- The time the exhaustive drain takes is not modelled; the drain is a loop over the input sequence.
- BinaryRep.ZFill: a leading sign gets special handling in Python's zero-fill, but no rendered string here has a sign, so that handling is not modelled.
- BinaryRep.BinaryStringRepShape: stated only for n below 2^w, with w a positive multiple of 8. Every rendered value is below 2^w, and both widths are multiples of 8.
- CiscoMac.ConvertRoundTrip: requires that the input holds no `:`. Otherwise colons of its own would be deleted too. ConvertShape states the output exactly without that condition.

## Findings

| source | as written | input that shows it | evidently intended | confidence | as-written member | corrected member |
|---|---|---|---|---|---|---|
| IP_tools/ip_calc.py:38 | the label `link-local` is looked up as the property `is_link-local`, which no network has, so every network that is neither global nor private ends in an AttributeError, and the later labels and "no type" are unreachable | `100.64.0.1/24` (shared address space, neither global nor private): all lines but the type are printed, then the lookup fails | look up `is_link_local`, and report the first label whose property holds, or none | high; not executed | IpCalc.ClassifyAsWritten | IpCalc.IntendedClassification |
| IP_tools/ip_calc.py:63-64 | the fast path takes broadcast − 1 as the last host, but the library's host collection ends at the broadcast address for version 6 and at prefix w − 1 | `2001:db8::1/64`: the fast path reports `2001:db8::ffff:ffff:ffff:fffe` where `--last-search` reports `2001:db8::ffff:ffff:ffff:ffff`; `10.0.0.0/31`: `10.0.0.0` against `10.0.0.1` | the last element of the host collection, which is what the exhaustive search finds | medium; not executed | IpCalc.FastPathMissesLastHost | IpCalc.IntendedLastHost |

`Calculate` models the program as written. The corrected members, with their proved properties, define the evidently intended behaviour beside it.
