# photon: the Ping tool and the structure helpers, in Dafny

This project models two parts of the photon administration helpers.

- **The `Ping` tool** (`photon/tools/ping.py`). It is set up with the ping variant (`ping` or `ping6`), an optional network interface, an echo count and a maximum worker count. Both counts are clamped to at least 1. Its `probe` setter normalises the hosts with `to_list`, sizes a worker pool, runs `<pingc> -c <num> <net_if> <host>` for every host and writes each host's entry into a result table that lives as long as the tool. A host whose command returns 0 is `up`, and its entry also gets the per-packet times (`ms`), the packet loss (`loss`) and the round-trip summary (`rtt`) parsed from the output. `status` summarises the table as host count, up count, down count and up ratio.
- **The structure helpers** (`util/structures.py`). `dict_merge` deep-merges one dictionary into another. `to_list` coerces a value to a list and flattens dictionaries depth first.

Modules:

- `Wrappers` (`wrappers.dfy`): `Option` and `Result`.
- `Structures` (`structures.dfy`): Python values as a `Value` datatype. A dictionary is an association sequence with distinct keys in insertion order, because `to_list` depends on that order. `dict_merge` and `to_list` are given as recursive specification functions (`Merge`, `AsList`). They are also given as methods with the source's loops (`DictMerge`, `ToList`), proved equal to those functions.
- `PingOutput` (`ping_output.dfy`): the three regular expressions of `probe`, written as scanners over `seq<char>`. Each pattern also has a declarative "the text at position i reads ..." predicate, and each scanner is proved to find exactly the matches of that predicate. `re.search` is a leftmost search and `re.findall` is a scan that resumes after each match. The latter is proved to equal the list of the captures at every matching position.
- `Ping` (`ping.dfy`): the configuration functions, the command line, one host's outcome, a probe round as a specification function (`ProbeRound`), the status summary, and the class `Ping`. Its fields are `pingc`, `netIf`, `num`, `maxPoolSize` and the table `p`. Its methods `SingleProbe` and `Probe` update `p` in place and are proved against `ProbeRound`.

Modelling decisions:

- The external command runner is a parameter `run` that maps a command line to a return code and an output. Logging is dropped.
- The worker pool becomes a sequential loop over the hosts. Each host writes only its own key.
- Captured values stay strings. The source never converts them to numbers.
- A missing round-trip line makes the source fail (`rtt.groupdict()` on `None`). The model keeps that failure: the host's entry stays `{'up': True}`, the other hosts are still probed, and `Probe` returns `Err(NoSummary(host))` for the first failing host in list order. It does not leave the statistics unset instead.
- An empty host list makes the source fail when it creates a pool of size 0. `Probe` returns `Err(EmptyPool)` for that case.
- `status` on an empty table is the source's division by zero. `Summarise` returns `Err(ZeroDivision)` for it.
- The command line is formatted exactly as the source formats it. With no interface, the empty interface slot stays between its two spaces.
- `dict_merge(o, v)` with a non-dict `o` and a non-empty dict `v` fails in the source, because `res.get` does not exist. `Merge` returns `Err(NoGetMethod)`. With an empty dict `v`, the source returns a copy of `o`, and so does the model.

## Model

| member | source | states |
|---|---|---|
| `Structures.LookupKeys` | util/structures.py:27 | `d.get(k)` finds a value exactly when `k` is one of the dictionary's keys |
| `Structures.LookupMember` | util/structures.py:27 | the value found under `k` is stored in the dictionary under `k` |
| `Structures.Put` | util/structures.py:28-30 | `res[key] = x` stores `x` under `key`; an existing key keeps its place, a new key goes at the end |
| `Structures.PutOther` | util/structures.py:28-30 | storing under a key changes no other key's value |
| `Structures.PutUnique` | util/structures.py:28-30 | storing under a key keeps the dictionary's keys distinct |
| `Structures.EntriesExt` | util/structures.py:25-31 | two dictionaries with distinct keys, the same key order and the same value under each key are equal |
| `Structures.Merge` | util/structures.py:19-31 | a non-dict `v` is returned as it is; the merge fails exactly when `v` is a non-empty dict and `o` is not a dict; an empty dict `v` gives `o` back; two dicts merge into a dict |
| `Structures.MergeKeys` | util/structures.py:25-30 | the merged keys are `o`'s keys in their order, then the keys of `v` that `o` lacks in `v`'s order; as a set, the union of both key sets |
| `Structures.MergeLookup` | util/structures.py:25-30 | a key missing from `v` keeps `o`'s value; a key of `v` holds `Combine` of `o`'s value (if any) and `v`'s value |
| `Structures.CombineCases` | util/structures.py:27-30 | (about `Structures.Combine`) a missing, non-dict or empty-dict value in `o` is replaced by `v`'s value; a non-empty dict is merged recursively, and a non-dict `v` value still replaces it |
| `Structures.MergeUnique` | util/structures.py:25-31 | merging into a dictionary with distinct keys gives a dictionary with distinct keys |
| `Structures.MergeIntoEmpty` | util/structures.py:25-31 | merging a dictionary into an empty one gives that dictionary, in the same order |
| `Structures.MergeSelf` | util/structures.py:19-31 | merging a well-formed value with itself gives it back unchanged |
| `Structures.DictMerge` | util/structures.py:19-31 | the loop over `v`'s keys, with its recursion into non-empty nested dictionaries, computes exactly `Merge(o, v)` |
| `Structures.AsList` | util/structures.py:33-45 | a list is returned as it is; a string becomes a one-element list; only a non-str, non-list, non-dict value gives `None` |
| `Structures.FlattenNoDict` | util/structures.py:38-43 | no element of a flattened dictionary is a dictionary |
| `Structures.FlattenKeys` | util/structures.py:38-43 | with `use_keys`, a dictionary becomes the list of its top-level keys, in order |
| `Structures.FlattenFlat` | util/structures.py:38-43 | a dictionary without nested dictionaries becomes the list of its values, in order |
| `Structures.FlattenAppend` | util/structures.py:38-43 | flattening the concatenation of two dictionaries' entries concatenates their flattened lists |
| `Structures.ToList` | util/structures.py:33-45 | the append loop, with its recursive splicing of nested dictionaries, computes exactly `AsList(i, use_keys)` |
| `PingOutput.RunLen` | photon/tools/ping.py:71-73 | a `[\d.]` group captures the longest run of digits and dots at its position |
| `PingOutput.RunLenExact` | photon/tools/ping.py:71-73 | a run of digits and dots followed by a character outside the class is that longest run, so backtracking never shortens a capture |
| `PingOutput.Field` | photon/tools/ping.py:71-73 | the group scanner succeeds exactly for the one capture that is followed by the literal after the group |
| `PingOutput.Leftmost` | photon/tools/ping.py:71-73 | a position `re.search` returns is within the text and the pattern matches there with the reported capture |
| `PingOutput.LeftmostFirst` | photon/tools/ping.py:71-73 | no position before the one `re.search` returns matches, and when it returns nothing no position matches |
| `PingOutput.LossAt` | photon/tools/ping.py:71 | the loss scanner at a position returns exactly the match of `(?P<loss>[\d.]+)[%] packet loss\n` there |
| `PingOutput.SearchLossSpec` | photon/tools/ping.py:71-75 | (about `PingOutput.SearchLoss`) `loss` is `None` exactly when no position matches; otherwise it is a non-empty digits-and-dots string from the leftmost match |
| `PingOutput.TimeAt` | photon/tools/ping.py:72 | the time scanner at a position returns exactly the match of `time=([\d.]*) ms\n` there |
| `PingOutput.TimeMatchesDisjoint` | photon/tools/ping.py:72 | no `time=` match starts inside another one |
| `PingOutput.FindTimes` | photon/tools/ping.py:72 | every capture `findall` returns consists of digits and dots |
| `PingOutput.FindTimesIsAll` | photon/tools/ping.py:72 | `findall` returns the capture of every matching position, in order of appearance |
| `PingOutput.PlusFieldExact` | photon/tools/ping.py:73 | a non-empty group followed by its separator is found and its end position reported |
| `PingOutput.RttAtSound` | photon/tools/ping.py:73 | the summary scanner returns only matches of `<min>/<avg>/<max>/<stddev> ms` |
| `PingOutput.RttAtComplete` | photon/tools/ping.py:73 | the summary scanner finds every match, and the match at a position is unique |
| `PingOutput.SearchRttSpec` | photon/tools/ping.py:73-76 | (about `PingOutput.SearchRtt`) `rtt` is found exactly when some position matches, and then it is the leftmost match; each of its four fields is a non-empty digits-and-dots string |
| `PingOutput.ParseOutputSpec` | photon/tools/ping.py:71-76 | (about `PingOutput.ParseOutput`) parsing succeeds exactly when the output has a round-trip summary; `ms` is every `time=` capture in order, `loss` the first loss capture or none, `rtt` the leftmost summary |
| `Ping.Variant` | photon/tools/ping.py:18 | `pingc` is `ping6` exactly when `six` is set, otherwise `ping` |
| `Ping.InterfaceArg` | photon/tools/ping.py:19 | the interface option is `-I <if>` for a non-empty interface name, and empty for none or an empty name |
| `Ping.AtLeastOne` | photon/tools/ping.py:20-23 | a clamped count is at least 1 and at least the input; it is either the input or 1 |
| `Ping.Decimal` | photon/tools/ping.py:60 | `%d` of the count is a non-empty string of decimal digits |
| `Ping.DecimalRoundTrip` | photon/tools/ping.py:60 | those digits read back as the count, with no leading zero |
| `Ping.CommandFields` | photon/tools/ping.py:60 | (about `Ping.Config.Command`) the command line starts with `<pingc> -c `, holds the count as a digit field followed by a space, and ends with a space and the host |
| `Ping.PoolSize` | photon/tools/ping.py:79 | the pool size is at most the number of hosts and at most the maximum, and equals one of them |
| `Ping.HostNames` | photon/tools/ping.py:78 | the hosts `probe` works on are the strings of `to_list(hosts)`, in order; there are none only for a value `to_list` does not cover |
| `Ping.OutcomeSpec` | photon/tools/ping.py:65-76 | (about `Ping.Outcome`) a host is up exactly when its command returned 0; a down entry is exactly `{'up': False}`; an up host's probe succeeds exactly when the output has a summary, and then carries `ms`, `loss` and `rtt` as parsed; otherwise its entry stays `{'up': True}` |
| `Ping.ProbeRoundWrites` | photon/tools/ping.py:65-84 | (about `Ping.ProbeRound`) a round fails exactly when some host's probe fails; failing or not, every host holds its own probe's entry, no other key is added and every other entry is unchanged |
| `Ping.ProbeRoundFailed` | photon/tools/ping.py:65-84 | a failed round names the first failing host in list order: every host before it was probed without failure, and its entry is `{'up': True}`; the hosts after it are probed too |
| `Ping.ProbeRoundOrderFree` | photon/tools/ping.py:81-84 | the order of the hosts changes neither the table nor whether the round fails; neither do repetitions among them, because `run` gives the same reply to the same command line |
| `Ping.ProbeRoundAgain` | photon/tools/ping.py:66-76 | probing the same hosts again, with replies that may differ, leaves every host with the second probe's entry, keeps the table's keys and leaves other hosts' entries alone |
| `Ping.ProbeRoundRepeat` | photon/tools/ping.py:66-76 | with the same replies a second time, a round leaves the table unchanged and reports the same failure; the table has one key per old key or host |
| `Ping.Summarise` | photon/tools/ping.py:104-108 | `status` fails exactly on an empty table |
| `Ping.SummariseSpec` | photon/tools/ping.py:104-108 | `num` is the table size, `up` the number of up hosts and `down` the number of down hosts, so `0 <= up <= num` and `down = num - up`; the ratio lies in [0, 1], and it is 1 exactly when no host is down and 0 exactly when no host is up |
| `Ping.Ping.constructor` | photon/tools/ping.py:12-24 | the variant, the interface option and the clamped counts are set, and the table starts empty |
| `Ping.Ping.SingleProbe` | photon/tools/ping.py:56-76 | only the host's own entry changes, to what its command's outcome writes |
| `Ping.Ping.Probe` | photon/tools/ping.py:47-84 | `None` from `to_list` and an empty host list fail with the table unchanged; otherwise the new table and the failure are those of `ProbeRound` over the hosts |
| `Ping.Ping.Status` | photon/tools/ping.py:86-108 | `status` of the tool's table fails exactly when the table is empty |

## Left out

- Worker-pool concurrency (photon/tools/ping.py:81-84) is modelled as a sequential loop in host order. A host listed twice is probed twice in the source, by threads that may interleave: one thread's `update` at line 76 can land on the `{'up': False}` dictionary the other stored at line 66, giving a down entry with `ms`, `loss` and `rtt`. The model has no such interleaving, and `run` gives both probes of a host the same reply. After a failure the source skips `pool.close()` and `pool.join()` (lines 83-84); the model has no pool.
- Ping.ProbeRoundFailed: `pool.map` at photon/tools/ping.py:82 splits the hosts into chunks of ceil(n / (4 * pool size)) hosts. A failure at line 76 skips only the rest of its own chunk, and the workers run every other chunk. With chunks of one host, which is the case whenever there are at most four hosts per worker, every host is written, as in the model. With larger chunks, the hosts after a failing host in the same chunk are not probed in the source, but they are probed in the model. The source raises the failure that completes first; the model reports the first failure in list order.
- Ping.Ping.Probe: accepts only arguments whose `to_list` result holds strings (or that `to_list` does not cover). A list holding numbers, lists or dictionaries is excluded by its precondition. The source would format such hosts with `%s` or fail on unhashable keys.
- The command runner and logging (`check_m`, `self.m`, photon/tools/ping.py:15-17, 26, 57-63) are outside the model. `run` is a function of the command line, so the same command gets the same reply within a round.
- `\d` in the source's patterns also matches non-ASCII decimal digits. The model's class is ASCII `0-9` and `.` only.
- Ping.Summarise: `ratio` is an exact `real` rather than a binary floating-point value.
- Dictionary keys are strings. Python allows any hashable key.
- Aliasing is not modelled: values are immutable. `to_list` returning the very list object it was given, and the deep copies in `dict_merge`, cannot be told apart from copies. `dict_merge` never changes its arguments, and the model holds that by construction.
- The `probe` getter returns the live table. The model exposes it as the field `p`.
- `yaml_str_join` and `yaml_loc_join` (util/structures.py:2-17) are not modelled. They depend on the YAML loader, on `get_locations` and on `os.path.join`.
- The `warn_me` side effect of `to_list` (util/structures.py:45) is not modelled. Only its `None` result is.
- photon/tools/mail.py and photon/util/files.py are not part of this model. They wrap SMTP, filesystem, YAML and JSON libraries.
