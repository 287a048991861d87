# blacklist-checker in Dafny

A model of the deterministic core of `blacklist-checker`. The tool checks whether one
IPv4 address, or every address of a /24 subnet, is listed on DNS-based blackhole lists
(DNSBLs). For each address it asks one DNS query per configured list. The query name is
the address's octets in reverse order, a dot, and the list's domain. This is the IPv4
query convention of section 2.1 of RFC 5782. Any successful answer counts as "listed".

The model covers five parts:

- **Address expansion** (`Addresses`, `Utils.ParseInput`, `BlacklistChecker.ParseInput`).
  `parseInput` in main.go and `ParseInput` in pkg/utils/ip.go use the same logic and differ
  only in the capitalisation of their error texts. Both are modelled by one function,
  `Addresses.Expand`, plus one message table per file. Go's `net.ParseIP` and
  `net.ParseCIDR` are oracle parameters. `ip.String()`, `ipNet.String()` and `%d` are
  computed from the octets.
- **Query name** (`Dnsbl.ReverseIP`, `Dnsbl.QueryName`). main.go and pkg/dnsbl/checker.go
  hold identical copies of `reverseIP`. One definition models both. `strings.Split` is
  modelled exactly, including `Split("", ".") == [""]`.
- **Per-address probe** (`Dnsbl.CheckIP`, `BlacklistChecker.CheckBlacklist`). DNS is the
  oracle `resolves: string -> bool`. It is true when `LookupHost` of that name returns no
  error. Both loops become ordered filters of the blacklist list, with `Dnsbl.Listed` as
  the reference definition.
- **Aggregation** (`BlacklistChecker.Aggregate`). This is the consumer goroutine that folds
  events into `map[ip][]blacklist`. The concurrent producers are modelled as an arbitrary
  interleaving of the per-address event streams. A schedule `owner` says which stream each
  arriving event came from. The end of the run is modelled too: "No blacklisted IPs found."
  or the output file name.
- **Report formatting** (`Utils.FormatResults`, `Utils.FormatText`, `Utils.FormatJSON`).
  Go visits map entries in an unspecified order. That order is a parameter, and the model
  requires it to list each key exactly once.

Files: `results.dfy` (Option/Result), `models.dfy` (pkg/models/types.go records),
`strings.dfy` (the Go `strings`/`fmt` behaviour the code relies on), `addresses.dfy`,
`dnsbl.dfy` (pkg/dnsbl/checker.go), `utils.dfy` (pkg/utils/ip.go), and `checker_main.dfy`
(main.go).

Two details of the code shape the model:

- main.go's `checkBlacklist` does not reject a malformed address. It would query `"." + bl`.
  Only `CheckIP` in pkg/dnsbl emits the "Invalid IP address format" event.
  `CheckBlacklistAgreesWithCheckIP` shows that the two agree on every well-formed address.
  `ExpandedAddressesWellFormed` shows that expansion only produces well-formed addresses.
- The code only tests `LookupHost`'s `err == nil`. A timeout, a transport failure and a
  missing name all read as "not listed", so the oracle is a plain boolean.

## Model

| member | source | states |
|---|---|---|
| Addresses.Expand | main.go:61-86 | Input without `/`: succeeds exactly when it parses as IPv4. It gives a one-element list equal to the label, and otherwise fails with InvalidAddress. Input with `/`: an unparsable CIDR fails with InvalidSubnet. Any mask other than 24 ones out of 32 bits fails with UnsupportedPrefix. A /24 gives 256 addresses, entry i being `b0.b1.b2.i`, labelled `b0.b1.b2.0/24`. |
| Addresses.SubnetAddresses | pkg/utils/ip.go:30-35 | Exactly 256 addresses. Entry i is the dotted text of the base's first three octets followed by i. |
| Addresses.DottedParts | pkg/utils/ip.go:33 | The `%d.%d.%d.%d` text of an address splits on `.` into exactly its four octet texts. Each is canonical decimal below 256, and the last reads back as the fourth octet. |
| Addresses.ExpandedAddressesWellFormed | pkg/utils/ip.go:30-35 | Every expanded address has four dot-separated canonical decimal parts in [0,255], so `reverseIP` accepts it. The addresses are pairwise distinct. In a /24 expansion, part 4 of entry n reads back as n (ascending), and all entries share the first three parts. |
| Utils.ParseInput | pkg/utils/ip.go:11-36 | Same outcomes as the expander. Its errors are "invalid IP address: <arg>", "invalid subnet format: <arg>" and "only /24 subnet is supported". |
| BlacklistChecker.ParseInput | main.go:61-86 | Same outcomes as the expander. Its errors are "Invalid IP address: <arg>", "Invalid subnet format: <arg>" and "Only /24 subnet is supported". |
| Strings.Split | pkg/dnsbl/checker.go:30 | `strings.Split`: the result is never empty, no part contains the separator, and joining the parts with the separator gives back the input. |
| Strings.SplitJoin | main.go:89-93 | Splitting a join of separator-free parts gives back exactly those parts. |
| Strings.Decimal | pkg/utils/ip.go:33 | `%d` of a natural number: non-empty digits whose decimal value is the number, with no leading zero. |
| Strings.ReplaceChar | main.go:164 | Same length. Every `/` becomes `-` and every other character is kept, so no `/` remains. |
| Dnsbl.ReverseIP | pkg/dnsbl/checker.go:29-35 | Returns `""` exactly when the input does not split into four parts. Otherwise the result splits into the four parts in reverse order. |
| Dnsbl.ReverseIPInvolution | main.go:88-94 | Reversing twice gives back any input with four dot-separated parts. |
| BlacklistChecker.QueryNameOfAddress | pkg/dnsbl/checker.go:63 | The query name of an expanded address is its octets reversed, then `.`, then the blacklist domain. |
| BlacklistChecker.QueryNameExample | main.go:104 | 203.0.113.5 against bl.spamcop.net is queried as 5.113.0.203.bl.spamcop.net. |
| Dnsbl.EffectiveBlacklists | pkg/dnsbl/checker.go:61 | The configured list followed by the custom list, position by position, duplicates kept. |
| Dnsbl.Listed | pkg/dnsbl/checker.go:62-76 | At most as many hits as entries. A domain is a hit exactly when it is in the list and its query name resolves. |
| Dnsbl.ListedConcat | pkg/dnsbl/checker.go:62-76 | Listing a concatenation is the concatenation of the listings. A failed lookup never stops or reorders later entries. |
| Dnsbl.ListedMultiplicity | pkg/dnsbl/checker.go:61-76 | A resolving domain keeps every occurrence it has in the list, so duplicates are probed and reported twice. A non-resolving domain keeps none. |
| Dnsbl.ListedUnderConstantOracle | pkg/dnsbl/checker.go:69-75 | An always-answering resolver lists every entry. A never-answering one lists nothing. |
| Dnsbl.ProbeBlacklists | pkg/dnsbl/checker.go:62-76 | Exactly one query per effective entry, in order, each `reversed.bl`. The events are one match per resolving entry, in list order. |
| Dnsbl.CheckIP | pkg/dnsbl/checker.go:38-77 | Malformed address: exactly one event, with error "Invalid IP address format" and empty blacklist, and no query. Otherwise: one query per effective entry and one event per resolving entry, in order, each carrying the address and no error. |
| BlacklistChecker.CheckBlacklist | main.go:96-117 | One event per resolving built-in blacklist, in list order, each carrying the address. |
| BlacklistChecker.CheckBlacklistAgreesWithCheckIP | main.go:101-114 | For a four-part address, main.go's probe reports the same blacklists, in the same order, as `CheckIP` with that list and no custom list. |
| BlacklistChecker.AggregateSpec | main.go:138-142 | After folding any event sequence, an address is a key exactly when it has a match. Its list is its blacklists in arrival order. |
| BlacklistChecker.MatchesNonEmpty | main.go:138-142 | An address is a key of the folded map exactly when some event carries it. |
| BlacklistChecker.AggregateInterleavingFree | main.go:138-147 | Two arrival orders that agree on each address's own events give the same map. |
| BlacklistChecker.AggregateOfInterleavedProbes | main.go:144-150 | For any interleaving of the probes of distinct addresses, the keys are exactly the addresses listed somewhere. Each maps to its resolving blacklists in list order. |
| BlacklistChecker.NothingListedWritesNothing | main.go:152-155 | With a never-answering resolver the map is empty, so the run prints the no-match message and writes no file. |
| BlacklistChecker.EverythingListed | main.go:111-113 | With an always-answering resolver every address maps to the whole blacklist list. |
| BlacklistChecker.OutputFilename | main.go:163-164 | The label with `/` turned into `-`, then `_`, the timestamp and `.json`. No `/` is left in the part that came from the label. |
| BlacklistChecker.OutputFilenameOfPrefix | main.go:164 | A label `net/prefix` becomes `net-prefix_<timestamp>.json`. |
| BlacklistChecker.SubnetFilename | main.go:164 | A /24 run writes `<a>.<b>.<c>.0-24_<timestamp>.json`. |
| BlacklistChecker.Finish | main.go:152-172 | No file exactly when the map is empty. Otherwise the whole map goes to the file named from the label and timestamp. |
| BlacklistChecker.AggregateEmpty | main.go:152 | The folded map is empty exactly when no event was absorbed. |
| BlacklistChecker.FinishAsWritten | main.go:149-155 | Reading the map before the consumer has drained everything: "nothing found" exactly when nothing was absorbed yet, whatever was sent. |
| BlacklistChecker.EarlyReadLosesMatch | main.go:149-155 | One sent but unabsorbed match leads to "No blacklisted IPs found." although the drained map would list the address. |
| BlacklistChecker.DrainedRunReportsEveryMatch | main.go:138-155 | With the consumer drained, "nothing found" exactly when no event was sent. Otherwise the file's keys are exactly the events' addresses. |
| Utils.FormatResults | pkg/utils/ip.go:38-48 | "text" gives the text report. "json" gives the JSON report. Every other format, and only those, fails with "unsupported output format: <format>". |
| Utils.FormatJSON | pkg/utils/ip.go:50-56 | Succeeds exactly when the serialiser does, with its text. A failure is wrapped as "error formatting JSON: <err>". |
| Utils.FormatText | pkg/utils/ip.go:58-69 | Never fails. An empty map gives the empty text. |
| Utils.FormatTextEntries | pkg/utils/ip.go:60-67 | Each entry is one contiguous block: `IP: <ip>`, `Blacklisted in:`, one `  - <bl>` per blacklist in list order, then an empty line, placed between the blocks of the entries visited before and after it. |
| Utils.FormatTextLineCount | pkg/utils/ip.go:58-69 | The report has exactly the sum over entries of 3 + list length lines, and the count is the same for every visiting order. |
| Utils.LineTotalOrderFree | pkg/utils/ip.go:58-69 | Any two duplicate-free orders of the same keys give the same line total. |
| Utils.FormatTextSplitsIntoLines | pkg/utils/ip.go:58-69 | When no name contains a newline, splitting the text on newlines gives exactly the report lines followed by one empty string. This holds for every map, the empty one included (`""` splits to `[""]`). |

## Findings

| source | as written | input that shows it | evidently intended | confidence | as-written member | corrected member |
|---|---|---|---|---|---|---|
| main.go:149-155 | After `wg.Wait()` and `close(resultChan)`, `main` reads `len(grouped)` without waiting for the consumer goroutine to finish draining. That is a data race: events still in the channel are lost, and when `len(grouped) > 0`, `json.MarshalIndent` (main.go:157) walks the map while the consumer may still write to it, which Go can stop with the fatal error "concurrent map iteration and map write". The model covers only the stale read. | One address listed on one blacklist, whose event is still buffered when `main` reads the map: the run prints "No blacklisted IPs found." | Wait for the consumer to drain the channel (for example with a done channel) before reading `grouped`. | high; not executed | BlacklistChecker.EarlyReadLosesMatch | BlacklistChecker.DrainedRunReportsEveryMatch |

The rest of the model (`AggregateOfInterleavedProbes`, `NothingListedWritesNothing`) uses the
fully drained map.

## Left out

- Goroutines, `sync.WaitGroup`, the semaphore channel and the result channel: this is
  concurrency. Each address is probed sequentially, and arrival at the consumer is an
  arbitrary interleaving of the per-address streams. The `Concurrency` admission bound is
  not modelled.
- DNS resolution, the resolver's `Dial`, and the per-lookup context timeouts: these are
  network I/O. They are replaced by the `resolves` oracle. The `Timeout` configuration
  value is carried but not used. The oracle gives one fixed answer per query name for the
  whole run. A real resolver can answer the two probes of a duplicated list entry
  differently, for example when one of them times out. `ListedMultiplicity`'s claim that a
  resolving duplicate is reported every time relies on that fixed answer.
- `net.ParseIP`, `net.ParseCIDR` and `Mask.Size()`: Go standard library parsers. Their
  verdicts are oracle parameters (`parseIP`, `parseCIDR`).
- `json.MarshalIndent`: library serialisation. It is the `marshal` parameter of
  `Utils.FormatJSON`. In main.go its error branch ("JSON error") is not modelled, because
  a `map[string][]string` always marshals.
- `time.Now` and timestamp formatting: these are clocks. A timestamp string is a parameter.
- Dnsbl.CheckIP: every event of one call carries the same `now` string. In the code each
  event reads the clock separately.
- `fmt.Println` progress output, `os.Exit`, `os.WriteFile` and the final messages: these
  are I/O. `Finish` returns what would be written instead of writing it.
- pkg/config/config.go (configuration file loading and defaults) is not part of this
  model. The hard-coded DNSBL domain lists are data; the model takes any `seq<string>`.
- `models.CheckResult`: a record shape that no modelled code uses.
- Go's slice aliasing in `append(c.config.Blacklists, ...)`: modelled as pure
  concatenation.
