# EZ-OpenVPN-Toolkit: a verified model of its computing core

EZ-OpenVPN-Toolkit is a Python tool that sets up an OpenVPN server and its
clients. This project models in Dafny the parts of the toolkit that compute
something, and proves what those parts promise. The modelled parts are:

- **The subnet registry** (`subnet_management.py`), in `subnet_management.dfy`.
  - `validate_subnet` reads an IPv4 network in either `a.b.c.d/p` or
    `address netmask` form. It clears host bits and refuses a network that
    overlaps an allocated one.
  - The `subnets.csv` registry is a class `Registry` whose fields are the
    file's existence and its records in file order. Saving, removing, looking
    up, listing and the client-only view are its methods.
  - Records are read by key, the first record being the header, as
    `csv.DictReader` does. A data record under a header without a `Name` or
    `Subnet` column makes the readers raise `KeyError`, as the module does.
  - The invariant that matters: allocated subnets never overlap pairwise.
- **IPv4 text and arithmetic**, in `ipv4.dfy`.
  - This is the subset of Python's `ipaddress` that the registry relies on.
  - Addresses are naturals below 2^32, and a subnet is an aligned
    `(address, prefix)` pair.
  - Masking is written arithmetically. Overlap is stated as sharing an
    address.
- **Python string helpers** (`strip`, `split`, `join`, `lower`,
  `startswith`, `splitlines`, `int`), in `text.dfy`, restricted to what the
  toolkit needs.
- **Extraction of inline sections** (`ovpn_config_check.py`), in
  `config_check.dfy`. This covers `extract_inline_section` and the argument
  list of `openssl_command`.
- **Configuration writers** (`EZ-OpenVPN-Toolkit/openvpn_config.py`), in
  `openvpn_config.dfy`. This covers:
  - the cipher guard and the `data-ciphers` value;
  - `inline_file`;
  - the path normalisation;
  - `update_timestamp`.
- **Decision steps of `main.py`**, in `setup_steps.dfy`. This covers:
  - the FlexEdge rewrite of `server.conf`;
  - the Ewon stripping of `<tls-auth>`;
  - cipher selection and the weakest cipher;
  - the two client-name loops;
  - the ordering of the tunnel and LAN subnet allocation in
    `initialize_server`.
- **Status parsing** (`ovpn_client_monitor.py`), in `client_monitor.dfy`. The
  status text of the OpenVPN management interface becomes client records,
  and the routing table is then merged into the clients held in an array.

Interactive input is a parameter: the sequence of answers the user would
type. A loop that would wait for more input than the sequence holds ends
with an explicit outcome instead (`NoMoreAnswers`, `None`).

## Model

| member | source | states |
|---|---|---|
| IPv4.ParseNetwork | subnet_management.py:40 | `ip_network` on IPv4 text: every failure is "not a network" or, strictly, "host bits set"; more than one `/`, a bad address or a bad prefix text fails; for `address/prefix` the parse succeeds iff parsing is loose or no host bit is set, with the prefix read after the slash; the network address is the given address with its host bits cleared, and strictly it equals the given address; a bare address is a /32 |
| IPv4.PrefixFromTextMeaning | subnet_management.py:40 | the text after the slash is a decimal prefix 0-32, or else a dotted netmask, or else a dotted hostmask whose complement is a netmask; it is refused iff it is none of these |
| IPv4.OversizedPrefixRefused | subnet_management.py:40 | `x/p` with a prefix above 32 is refused, strictly or not |
| IPv4.NetworkRoundTrip | subnet_management.py:74 | the text `str(subnet)` writes reads back, strictly or not, as the same network |
| IPv4.OverlapsMeaning | subnet_management.py:44 | two networks overlap iff they share an address, iff one contains the other's network address; overlap is symmetric |
| IPv4.OverlapsItself | subnet_management.py:44 | every network overlaps itself |
| IPv4.AddressRoundTrip | subnet_management.py:31 | the dotted text of an address parses back to that address and contains no `/` |
| IPv4.ParseOctet | subnet_management.py:31 | an octet is accepted iff it is one to three decimal digits without a leading zero and at most 255 |
| IPv4.PrefixOfNetmask | subnet_management.py:40 | a netmask after the slash gives the prefix whose netmask it is, and is refused when no prefix has it |
| IPv4.PopCountOfNetmask | subnet_management.py:33 | counting the set bits of the netmask of prefix p gives p |
| IPv4.ParseCidr | subnet_management.py:40 | `x/p` parses non-strictly to x with its host bits cleared, prefix p |
| IPv4.MaskHostBits | subnet_management.py:40 | the masked address is aligned, at most the address, and the address lies in its block |
| SubnetManagement.ParseSubnetInput | subnet_management.py:25-40 | input with a space and not exactly two tokens is refused; the netmask form with a bad mask is "Invalid netmask", and with a valid one it means `address/k`, k the number of 1-bits of the mask; input without a space is parsed as an address or CIDR, non-strictly |
| SubnetManagement.NetmaskFormIsPopCount | subnet_management.py:27-34 | `addr mask` means the same as `addr/k`, where k is the number of 1-bits of the mask, even for a non-contiguous mask |
| SubnetManagement.ContiguousNetmaskForm | subnet_management.py:27-34 | `addr` followed by the netmask of p means the same as `addr/p` |
| SubnetManagement.HostBitsAreCleared | subnet_management.py:40 | `10.8.0.5/24`-style input is normalized: host bits are cleared, not refused |
| SubnetManagement.ParseIsIdempotent | subnet_management.py:40 | parsing the printed text of an accepted network gives it back |
| SubnetManagement.FirstConflict | subnet_management.py:42-47 | the index of the first allocated subnet that overlaps, in list order: all before it are compatible |
| SubnetManagement.CheckAgainst | subnet_management.py:42-49 | the candidate is returned iff it is compatible with every allocated subnet; otherwise the error names the first conflicting one |
| SubnetManagement.ValidateSubnet | subnet_management.py:19-52 | parse errors propagate; success iff the input parses and the network overlaps none of the existing ones; with no existing subnets no overlap error is possible |
| SubnetManagement.DuplicateIsRefused | subnet_management.py:42-47 | a subnet already allocated is refused with an overlap error naming itself |
| SubnetManagement.AllocationKeepsDisjoint | subnet_management.py:42-47 | appending a subnet compatible with every row keeps the rows pairwise non-overlapping |
| SubnetManagement.SubnetColumn | subnet_management.py:61-62 | the column has one entry per row, the row's Subnet, in file order |
| SubnetManagement.PutMeaning | subnet_management.py:116 | `d[name] = subnet`: keys stay distinct, an existing key keeps its place, a new one goes last, other entries are unchanged and the key holds the new subnet |
| SubnetManagement.PutNames | subnet_management.py:116 | `d[name] = subnet` on the keys: they stay distinct, are unchanged for a present key and gain the new key last otherwise |
| SubnetManagement.PutEntries | subnet_management.py:116 | `d[name] = subnet` on the values: every other entry keeps its position and value; the key holds the new subnet |
| SubnetManagement.FirstNamed | subnet_management.py:97-99 | the index found is that of a row with the name and no earlier row has it; none found means no row has it |
| SubnetManagement.LastNamed | subnet_management.py:112-116 | the index of the row with the name after which no row has it |
| SubnetManagement.StrictRefinesLoose | subnet_management.py:99 | strict `ip_network` accepts exactly the texts the loose parse accepts without clearing a bit of the given address, and then gives the same network |
| SubnetManagement.ClientView | subnet_management.py:108-117 | the dictionary built from the rows has no repeated key |
| SubnetManagement.Field | subnet_management.py:60-62 | `row[key]` under `csv.DictReader`: a value iff the header record has a column of that name, the last such column's value; otherwise `KeyError` |
| SubnetManagement.Keyed | subnet_management.py:82-83 | the records `csv.DictReader` yields, one per data record, each seen through the header's keys; under the `Name,Subnet` header each record is itself |
| SubnetManagement.Registry.LoadExistingSubnets | subnet_management.py:55-63 | no file gives `[]`; `KeyError: 'Subnet'` exactly when a data record follows a header without a `Subnet` column; otherwise the Subnet value of every data record, in file order |
| SubnetManagement.Registry.SaveSubnet | subnet_management.py:66-75 | exactly one row `(name, str(subnet))` is appended; the header is written only when the file did not exist |
| SubnetManagement.Registry.RemoveClient | subnet_management.py:78-89 | no file: nothing changes; a data record under a header without `Name` raises `KeyError` and nothing is written; otherwise the header is written, then the kept records, unless a kept record has a key outside `Name`, `Subnet`, which raises `ValueError` after the header; a file this module wrote is rewritten without the records of that name |
| SubnetManagement.Registry.GetSubnetByName | subnet_management.py:92-100 | a data record under a header without `Name` raises `KeyError`; no file or no record with the name gives `None`; otherwise the first such record's subnet parsed strictly, or `KeyError` when the header has no `Subnet` column |
| SubnetManagement.FindByName | subnet_management.py:97-99 | the loop over the records: `KeyError` on the first record without a `Name` column; `None` when no record has the name; otherwise the first one's subnet, parsed strictly, or `KeyError` without a `Subnet` column |
| SubnetManagement.Registry.GetClientSubnets | subnet_management.py:103-117 | no file gives an empty dictionary; a data record under a header without `Name` raises `KeyError`; without a `Subnet` column it raises on the first client record and is empty when there is none; otherwise the client view of the data records |
| SubnetManagement.ReadClients | subnet_management.py:112-116 | the loop when the header has a `Subnet` column: `KeyError` without a `Name` column, otherwise the client view of the records |
| SubnetManagement.ScanClients | subnet_management.py:112-115 | the loop without a `Subnet` column: `KeyError` without a `Name` column, then `KeyError` iff some record is a client record; otherwise empty |
| SubnetManagement.RolesOnlyMeaning | subnet_management.py:114 | the records raise no `Subnet` lookup iff every one carries a role name |
| SubnetManagement.ClientViewKeys | subnet_management.py:113-116 | the keys are exactly the row names other than `openvpn_tunnel_subnet` and `server_local_private_subnet` |
| SubnetManagement.ClientViewLastWins | subnet_management.py:112-116 | each key holds the subnet of the last row with that name |
| SubnetManagement.ClientViewKeepsError | subnet_management.py:115 | once a client row fails to parse, the whole call raises |
| SubnetManagement.WithoutMembers | subnet_management.py:83 | a row survives removal iff it was present and has another name |
| SubnetManagement.WithoutConcat | subnet_management.py:83 | removal is applied to each part of the rows independently, keeping their order |
| SubnetManagement.WithoutAbsent | subnet_management.py:83 | removing a name no row has keeps the rows unchanged |
| SubnetManagement.SavedSubnetIsFound | subnet_management.py:92-100 | after a save under a new name, lookup finds the new row, which parses back to the saved subnet; under a present name the earlier row is still found |
| ConfigCheck.OpensslCommand | ovpn_config_check.py:24-28 | the command is the OpenSSL path followed by the arguments, one longer than them |
| ConfigCheck.ExtractInlineSection | ovpn_config_check.py:31-54 | the result is the concatenation of the lines the section reader copies |
| ConfigCheck.CopiedAppend | ovpn_config_check.py:43-54 | reading two pieces in turn: the second is read in the state the first leaves |
| ConfigCheck.CopiedPlain | ovpn_config_check.py:51-52 | lines that are not tag lines are copied verbatim inside a section and dropped outside |
| ConfigCheck.Block | ovpn_config_check.py:43-54 | a `<tag>` line, a body and a `</tag>` line contribute exactly the body, and the reader ends outside |
| ConfigCheck.Unterminated | ovpn_config_check.py:43-54 | an unterminated section runs to the end of the input |
| ConfigCheck.NothingThenBlock | ovpn_config_check.py:40-54 | lines before the first start tag, stray end tags included, contribute nothing |
| ConfigCheck.SectionsConcatenate | ovpn_config_check.py:43-54 | sections with the same tag are concatenated in file order |
| ConfigCheck.NoStartCopiesNothing | ovpn_config_check.py:40-54 | without a start-tag line nothing is copied |
| ConfigCheck.CopiedAreNotTags | ovpn_config_check.py:44-52 | every copied line is an input line and not a tag line |
| ConfigCheck.NoStartTagGivesEmpty | ovpn_config_check.py:54 | without a start tag the result is the empty string |
| OpenvpnConfig.WithCipher | EZ-OpenVPN-Toolkit/openvpn_config.py:41-42 | after the guard the cipher is in the list; a present cipher leaves it unchanged, a missing one is inserted at index 0 |
| OpenvpnConfig.WithCipherIdempotent | EZ-OpenVPN-Toolkit/openvpn_config.py:148-149 | applying the guard twice is applying it once; it adds only the cipher and keeps the list free of repetitions |
| OpenvpnConfig.CipherList.EnsureCipher | EZ-OpenVPN-Toolkit/openvpn_config.py:41-42 | `data_ciphers.insert(0, cipher)` under its guard, in place: the list becomes the guarded list |
| OpenvpnConfig.DataCiphersRoundTrip | EZ-OpenVPN-Toolkit/openvpn_config.py:62 | splitting the `data-ciphers` value on `:` gives the list back |
| OpenvpnConfig.InlineFileLines | EZ-OpenVPN-Toolkit/openvpn_config.py:72-76 | the inline block is the start tag line, the lines of the content, the end tag line and an empty line |
| OpenvpnConfig.InlineFileSplits | EZ-OpenVPN-Toolkit/openvpn_config.py:72-76 | the inline block of whole lines splits into exactly those lines |
| OpenvpnConfig.InlineFileRoundTrip | EZ-OpenVPN-Toolkit/openvpn_config.py:72-76 | extracting the section from an inline block gives its content back |
| OpenvpnConfig.NormalizePathMeaning | EZ-OpenVPN-Toolkit/openvpn_config.py:155-158 | no backslash remains, each becomes `/`, every other character is kept, and normalising is idempotent |
| OpenvpnConfig.UpdateTimestamp | EZ-OpenVPN-Toolkit/openvpn_config.py:211-233 | the written lines are the restamped lines of the file |
| OpenvpnConfig.NoStartMarkerKeepsLines | EZ-OpenVPN-Toolkit/openvpn_config.py:217-233 | without a start marker the output equals the input |
| OpenvpnConfig.UnmarkedLines | EZ-OpenVPN-Toolkit/openvpn_config.py:226-233 | unmarked lines are kept outside the block and dropped inside it |
| OpenvpnConfig.BlockIsRestamped | EZ-OpenVPN-Toolkit/openvpn_config.py:219-233 | a timestamp block becomes its start marker, the new timestamp line and its end marker |
| OpenvpnConfig.LinesAroundBlockKept | EZ-OpenVPN-Toolkit/openvpn_config.py:217-233 | the lines before the block are kept in order and the block is restamped |
| OpenvpnConfig.RestampedAppend | EZ-OpenVPN-Toolkit/openvpn_config.py:219-233 | rewriting two pieces in turn: the second is read in the state the first leaves |
| OpenvpnConfig.RestampIdempotent | EZ-OpenVPN-Toolkit/openvpn_config.py:211-233 | restamping twice with the same timestamp gives the lines of restamping once |
| OpenvpnConfig.TimestampLineIsNotMarker | EZ-OpenVPN-Toolkit/openvpn_config.py:223-225 | the generated timestamp line is never taken for a marker |
| SetupSteps.FixedLinesAreFixed | main.py:742-757 | each of the four rewritten lines is left alone by the rewrite |
| SetupSteps.FlexEdgeLineMeaning | main.py:750-759 | a line starting with `status `, `log-append `, `client-config-dir ` or `ifconfig-pool-persist ` becomes that directive's fixed `/media/sdcard` line; any other line is unchanged; rewriting is idempotent |
| SetupSteps.FlexEdgeLinesMeaning | main.py:748-759 | the rewrite keeps the number of lines and rewrites each line on its own |
| SetupSteps.FlexEdgeIdempotent | main.py:748-759 | rewriting twice is rewriting once |
| SetupSteps.ModifyServerConfForFlexEdge | main.py:748-759 | the loop writes the rewritten lines |
| SetupSteps.PackageClientEwon | main.py:845-855 | the output is the kept lines followed by exactly `tls-auth /usr/ta.key` |
| SetupSteps.KeptAppend | main.py:846-853 | reading two pieces in turn: the second is read in the state the first leaves |
| SetupSteps.KeptPlain | main.py:852-853 | non-tag lines are kept outside a block and dropped inside it |
| SetupSteps.KeptDropsBlock | main.py:847-853 | a `<tls-auth>` block, both tags included, is dropped |
| SetupSteps.BlockIsStripped | main.py:845-853 | lines around a block are kept in order; the block is removed |
| SetupSteps.KeptAndCopiedPartition | main.py:846-853 | every input line is kept, is inside a block, or is a tag line, exactly one of these |
| SetupSteps.CipherOrderingIsDistinct | main.py:339-353 | the ordering has 13 ciphers and no repetition |
| SetupSteps.RemoveFirst | main.py:391 | `list.remove` removes one occurrence: one shorter, same elements otherwise |
| SetupSteps.RemoveFirstAt | main.py:388-391 | on a list without repetitions, removing `valid[k]` removes index k |
| SetupSteps.ChooseMeaning | main.py:385-396 | a number in range moves that cipher to the end of the selected list; anything else changes nothing; the two lists stay a partition of the ciphers |
| SetupSteps.SelectMeaning | main.py:362-396 | over the loop: the partition holds, the selected list only grows at its end, finishing needs a selected cipher, running out means every cipher was selected |
| SetupSteps.SelectCiphers | main.py:362-396 | the loop ends with the lists and the ending of the selection rules |
| SetupSteps.SelectionKeepsCiphers | main.py:339-396 | from the full list: disjoint, repetition-free lists that together are the ciphers; a finished selection is non-empty |
| SetupSteps.IndexOf | main.py:415 | `list.index`: the first position of the element |
| SetupSteps.WeakestAtMeaning | main.py:415 | `min` with a key: the element found has the least key, and it is the first of those |
| SetupSteps.WeakestCipher | main.py:414-417 | `None` iff nothing was selected; otherwise a selected cipher whose index in the ordering is no greater than any other selected cipher's |
| SetupSteps.SelectedAreKnown | main.py:388-389 | every selected cipher comes from the list |
| SetupSteps.CandidateAt | main.py:303 | the k-th candidate is the one for the k-th answer |
| SetupSteps.CandidateMeaning | main.py:303-306 | a stripped answer is a candidate iff it is non-empty, and it is its own strip; unstripped answers are always candidates |
| SetupSteps.AdmittedMeaning | main.py:300-313 | at most the wanted number of names; each offered by an answer, none taken before, none twice, so the full list stays free of repetitions |
| SetupSteps.StrippedNamesAdmitted | main.py:303-306 | every name accepted by `prompt_for_clients` is non-empty and stripped |
| SetupSteps.ReadClientName | main.py:302-313 | the inner loop skips empty and taken names and returns the next accepted one, or none when the answers run out |
| SetupSteps.PromptForClientNames | main.py:299-313 | the new names are the admitted stripped answers, and the full list is the old list followed by them |
| SetupSteps.PromptForClientNamesExistingServer | main.py:444-459 | the new names are the admitted unstripped answers, at most as many as asked for (none when negative, fewer when the answers run out), and the saved list is the existing names followed by them |
| SetupSteps.AcceptedSubnetMeaning | main.py:90-100 | an accepted subnet is what some answer parses to, and it is compatible with every existing subnet |
| SetupSteps.PromptSubnet | main.py:90-100 | the prompt loop returns the subnet of the first valid answer |
| SetupSteps.SecondAllocationAvoidsFirst | main.py:107-117 | a LAN subnet validated against a list that includes the tunnel subnet never overlaps it |
| SetupSteps.AcceptedAvoidsRows | main.py:95-97 | an accepted subnet is compatible with every row and every extra subnet it was checked against |
| SetupSteps.InitializeKeepsDisjoint | main.py:89-127 | the two allocations keep a pairwise non-overlapping registry non-overlapping |
| SetupSteps.InitializeServerSubnets | main.py:63-127 | a `KeyError` from loading the subnets aborts before any prompt and leaves the file unchanged, and never happens on a file this module wrote; otherwise the tunnel subnet is validated and saved first, the LAN subnet is validated against the file plus the tunnel subnet and saved second; they do not overlap; the registry stays non-overlapping |
| SetupSteps.AllocateServerSubnets | main.py:90-127 | the two prompt loops and saves: the tunnel subnet is the first answer valid against the loaded subnets and is saved first; the LAN subnet the first answer valid against those plus the tunnel subnet, saved second; nothing is saved when the answers run out |
| ClientMonitor.ParseStatus | ovpn_client_monitor.py:52-86 | the loop collects the clients and routes each line yields, in input order |
| ClientMonitor.ParseAppend | ovpn_client_monitor.py:52-86 | each line is read on its own: parsing a concatenation concatenates the results |
| ClientMonitor.HeaderAndStatsYieldNothing | ovpn_client_monitor.py:54-86 | `HEADER` and `GLOBAL_STATS` lines yield no client and no route |
| ClientMonitor.ClientLine | ovpn_client_monitor.py:58-70 | a `CLIENT_LIST` line with at least 8 fields yields one client from fields 1, 2, 3, 5, 6 and 7; with fewer it yields nothing |
| ClientMonitor.RouteLine | ovpn_client_monitor.py:72-82 | a `ROUTING_TABLE` line with at least 5 fields yields one route from fields 1 to 4; with fewer it yields nothing |
| ClientMonitor.ParsedClients | ovpn_client_monitor.py:52-86 | at most one client and one route per line; no parsed client has a `last_ref` |
| ClientMonitor.LastMatch | ovpn_client_monitor.py:90-91 | the last route with the client's common name, or none |
| ClientMonitor.AppliedMeaning | ovpn_client_monitor.py:89-93 | a client takes the virtual address and last reference of the last matching route, and is unchanged without one |
| ClientMonitor.Merged | ovpn_client_monitor.py:88-93 | one merged client per client, in place |
| ClientMonitor.MergedMeaning | ovpn_client_monitor.py:88-95 | the merge keeps the number and order of clients and every field but the two it overwrites; the last matching route wins |
| ClientMonitor.UnroutedClientShown | ovpn_client_monitor.py:115-119 | a client without a route keeps its own virtual address and shows `N/A` as its last reference |
| ClientMonitor.MergeRoutes | ovpn_client_monitor.py:88-93 | the nested loop leaves the array holding the merged clients |
| ClientMonitor.GetClientsStatus | ovpn_client_monitor.py:44-95 | the returned clients are the parsed clients merged with the parsed routes |

## Left out

- IPv6: `ip_network` falls back to IPv6 on text that is not IPv4; the model refuses such text.
- `ipaddress` details beyond four decimal octets (0-255, no leading zeros), an integer prefix 0-32 and a contiguous netmask or hostmask after the slash are not modelled.
- Unicode: `strip` and `split()` use Python's whitespace characters, but `lower` folds only ASCII letters and `int()` accepts only an optional sign and ASCII digits, without `_` separators or other Unicode digits.
- CSV quoting, escaping and encodings: a record is a `(Name, Subnet)` pair, and the text of the file is not modelled.
- SubnetManagement.Registry.SaveSubnet: the data records after a save are stated only when the file already had the header record. On an existing empty file no header is written, so `csv.DictReader` takes the first saved record as the header; the readers then raise `KeyError`, as their own contracts state.
- A record with fewer or more fields than the header (`restval` and `restkey` of `csv.DictReader`) is not modelled: every record has two fields.
- File I/O: files are the `Registry` state or sequences of lines, with no atomicity and no OS errors.
- `os.path.exists` and `os.path.isfile` are treated alike.
- `readlines` and `splitlines`: lines are split at `\n` only, with no universal newlines.
- `input()`: answers are a sequence parameter. Running out of answers, which in the toolkit would raise `EOFError` or wait, is an ending of its own.
- The number-of-clients prompt in `prompt_for_clients` (main.py:288-297) is not modelled: the count is a parameter. The same goes for the server address, port and protocol prompts (main.py:319-336).
- `datetime.now()`: the timestamp line is a parameter.
- `current_section` in `get_clients_status` is set but never read, so it is not modelled.
- Every `print` and `logging` call is left out.
- SetupSteps.WeakestCipher: it requires every selected cipher to come from the ordering. That is always true of the selection loop (`SelectedAreKnown`); on other input `list.index` would raise.
- The socket layer of `ovpn_client_monitor.py` is not modelled: connect, receive, `END` detection, timeouts and UTF-8 decoding (lines 9-42 and 97-105). The model starts from the received lines.
- Certificate work, packaging, JSON persistence and the menus of `main.py` are not modelled. Neither are the `validate_*` and `check_openssl` functions of `ovpn_config_check.py`: they run external binaries.
- The written text of the server and client configuration files is modelled only in the parts listed above: the cipher guard, `data-ciphers`, `inline_file` and the paths.
