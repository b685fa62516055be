# xdp_faild_agent, modelled in Dafny

The agent is a small gRPC service that runs on a load-balancer host next to
the `faild` failover daemon. `faild.Server` holds the interface the daemon
runs on (`Iface`) and the virtual IP it was initialised with (`VIP`). It
answers four calls:

- `Init` binds the VIP to the loopback device.
- `Start` and `Stop` run `faild -p` / `faild -u` on the interface.
- `GetStatistics` counts the established TCP sessions on the VIP. It then
  adds the `key: value` lines that `faild -s` prints, parsed by
  `ParseFaildStats`.

The controller keeps the latest statistics of each agent in `GlobalStats`.
This is a map from agent ID to a snapshot, which may be nil. It has three
operations: `Get`, `Set` and `Dump`.

The project models these pieces:

- `wrappers.dfy` (module `Wrappers`): `Option` and `Result`.
- `gostrings.dfy` (module `GoStrings`): the parts of Go's `strings` package
  that the agent uses: `Split` with a one-rune separator, `TrimSpace`,
  `Fields` and `Contains`. White space is Go's `unicode.IsSpace`.
- `strconv.dfy` (module `StrConv`): `strconv.ParseInt(s, 10, 64)`,
  including which of its two errors it reports. It also has
  `strconv.FormatInt`, whose output it parses back.
- `faild.dfy` (module `Faild`): the `Server` class with the fields `Iface`
  and `VIP`, and its methods `Init`, `Start`, `Stop`, `GetStatistics` and
  `ParseFaildStats`. `cmdOutput` becomes `CmdOutput`. The `Stats` class
  holds the map that `GetStatistics` and `ParseFaildStats` fill in place.
  Each method is proved against a specification function:
  - `FaildStats` for the parser;
  - `Counter32` and `EstablishedCount` for the session count;
  - `FaildArgv` for the commands run.
  Lemmas then state what those functions promise.
- `controller.dfy` (module `Controller`): the `GlobalStats` class, with its
  map field `m` and the methods `Get`, `Set` and `Dump`. A ghost log records
  every `Set` and ties the store to `Replay`, a functional replay of that
  log.

The host primitives are parameters:

- `Init` takes three inputs in place of netlink:
  - whether `netlink.LinkByName("lo")` found the device;
  - `netlink.ParseAddr` as a predicate on the VIP string;
  - whether `netlink.AddrReplace` succeeded.
- `GetStatistics` takes the TCP connection table from `GOnetstat.Tcp()` as
  a sequence of `Session(State, Ip)` records.
- Running a command is an `Exec` function. It maps the argument vector to
  the command's standard output, or to `None` when the command fails.

## Model

| member | source | states |
|---|---|---|
| Faild.Stats.constructor | faild/faild.go:84-85 | A new statistics message holds an empty map. |
| Faild.Server.constructor | main.go:28-30 | The server is built from the interface name alone, with an empty `VIP` until `Init` succeeds; `GetStatistics` before `Init` matches sessions against that empty string. |
| Faild.Server.Init | faild/faild.go:21-50 | The first failing step decides the result. A missing loopback device gives code 5 "unable to find loopback device". An unparsable VIP gives code 3 "unable to parse VIP address". A failed replace gives code 3 "unable to assign VIP address". Otherwise the result is code 0 "Success" with no error. The error is nil exactly when the code is 0. `VIP` becomes the requested address only on success, and `Iface` never changes. |
| Faild.Server.Start | faild/faild.go:52-65 | The argument vector run is "faild", "-p", then the fields of `Iface`. If it runs, the result is code 0 "Success" with no error. If it fails, the result is code 5 "unable to start faild" with the exec error. |
| Faild.Server.Stop | faild/faild.go:67-80 | As Start, with "-u" and "unable to stop faild". |
| Faild.Server.GetStatistics | faild/faild.go:82-98 | Returns a fresh `Stats` and never an error. Its map is the int32 session counter stored under `established_tcp_sessions`, then updated by what `faild -s` prints, exactly as `FaildStats` specifies. A parse failure keeps the entries written before it. |
| Faild.Server.ParseFaildStats | faild/faild.go:100-120 | The new map and the returned error are `FaildStats` of the old map and the output of `faild -s <Iface>`. The loop invariant is that what remains to be applied, applied to the current map, gives that result. |
| Faild.CmdOutput | faild/faild.go:123-134 | The command is tokenised by `strings.Fields` and the first field is the program. The result succeeds exactly when the run succeeds. On success it carries the run's output; on failure it carries ExecFailed. |
| Faild.CommandFields | faild/faild.go:57 | Tokenising "faild <flag> <iface>" gives "faild", the flag, then the white-space-separated fields of the interface name (also the commands at lines 72 and 101). |
| Faild.ParseLine | faild/faild.go:107-117 | One output line: no colon means skip; otherwise either an entry whose value lies in the int64 range, or a failure that carries the bad value's text and error kind. ParseLineSpec below states which. |
| Faild.FaildStats | faild/faild.go:100-120 | ParseFaildStats as a function of the caller's map and the output of `faild -s`. A failed run gives the map unchanged with the exec error. Otherwise the lines are applied in order, and the first line whose value does not parse stops the parse with that value's error. No key is ever removed, and every error is the exec error or a bad value. |
| Faild.ParseLineSpec | faild/faild.go:107-117 | A line is skipped exactly when it has no colon. Otherwise the key is the trimmed text before the first colon. The value is the trimmed text between the first and the second colon, parsed as an int64. A value that does not parse gives that text's error. |
| Faild.ParseLineRender | faild/faild.go:107-117 | A line printed as `key: value`, for a key without colons, newlines or outer white space, parses back to exactly that entry. |
| Faild.ApplyLinesFirstError | faild/faild.go:112-115 | The first bad line decides the error. The entries written by earlier lines stay, and no later line is processed. |
| Faild.ApplyLinesLastWins | faild/faild.go:117 | With no bad line the parse succeeds. The last line that writes a key decides its value, overwriting earlier lines and the value in the caller's map. |
| Faild.ApplyLinesKeys | faild/faild.go:106-118 | The parse never removes a key. It adds only keys that some line writes, and it leaves the value of every key that no line writes. |
| Faild.FaildStatsKeeps | faild/faild.go:101-104 | When `faild -s` fails, the result is that error with the map untouched. Otherwise every key that no output line writes keeps its value. |
| Faild.ApplyLinesAppend | faild/faild.go:106-118 | Parsing `a` then `b` equals parsing `a`, then, unless that failed, parsing `b` from where it stopped. |
| Faild.ParseRenderedOutput | faild/faild.go:105-119 | Output printed as `key: value` lines, each ending in a newline, parses to those entries applied in order. There is no error, and the empty last piece is skipped. |
| Faild.ParseOutputSkipsNoise | faild/faild.go:105-110 | A line without a colon anywhere among the printed lines (between two printed runs, either of which may be empty), and the empty piece after the final newline, change nothing: the result is both runs applied in order, with no error. |
| Faild.ParseOutputStopsAtBadValue | faild/faild.go:112-115 | A value that does not parse, after printed entries, stops the parse. The result keeps those entries and carries that value's error, whatever follows. |
| Faild.ParseOutputLines | faild/faild.go:105-106 | Output made of newline-free lines is parsed one line at a time, in order. |
| Faild.Inc32 | faild/faild.go:90 | `++` on an int32 stays in the int32 range and adds one modulo 2^32, so the largest value wraps to the smallest. |
| Faild.Counter32 | faild/faild.go:83-92 | The counter after the scan of the session table is always an int32 value. |
| Faild.Counter32Wraps | faild/faild.go:83-92 | For any number of sessions, the int32 counter equals the number of sessions that count, modulo 2^32. |
| Faild.Counter32Exact | faild/faild.go:83-92 | While fewer than 2^31 sessions count, the int32 counter equals the number of sessions that count. |
| Faild.StatisticsSessionCount | faild/faild.go:87-93 | The recorded session count is at most the number of sessions. It stays in the statistics unless a line of the daemon's output writes the same key. |
| Faild.CountMatching | faild/faild.go:88-92 | The count is the size of the set of sessions that are ESTABLISHED and whose address occurs in the VIP string. |
| Faild.Counts | faild/faild.go:89 | A session counts only when it is ESTABLISHED and its address fits within the VIP string, and an established session whose address is the whole VIP string counts. |
| Faild.VipAddressCounts | faild/faild.go:89 | An established session whose address begins the VIP string counts, e.g. for a VIP written with a prefix length. |
| Faild.SubstringCountsOthers | faild/faild.go:89 | The substring test also counts 10.0.0.1 for the VIP "10.0.0.10/32", and an established session with an empty address for any VIP. A TIME_WAIT session does not count even when its address equals the VIP's. |
| GoStrings.SplitJoin | faild/faild.go:105 | Joining the pieces of a split with the separator gives back the text. |
| GoStrings.Split | faild/faild.go:105-107 | `strings.Split` with a one-rune separator: always at least one piece, and a text without the separator is its own single piece. SplitJoin, JoinSplit, SplitPieces and SplitAtFirst state the rest. |
| GoStrings.JoinSplit | faild/faild.go:105 | Splitting joined separator-free pieces gives back the pieces. |
| GoStrings.SplitPieces | faild/faild.go:107 | No piece of a split contains the separator. |
| GoStrings.SplitCount | faild/faild.go:107-108 | A split has at least two pieces exactly when the separator occurs. |
| GoStrings.SplitAtFirst | faild/faild.go:107-112 | The first piece is the text before the first separator, and the remaining pieces split what follows it. |
| GoStrings.IndexOf | faild/faild.go:107 | The position of the first occurrence, or the length when the character does not occur. |
| GoStrings.TrimSpace | faild/faild.go:111-112 | `strings.TrimSpace`: the result is no longer than the input and neither starts nor ends with white space. |
| GoStrings.TrimSpaceSpec | faild/faild.go:111-112 | TrimSpace cuts only white space, and only from the two ends. What is left neither starts nor ends with white space. |
| GoStrings.TrimPadded | faild/faild.go:111-112 | Trimming recovers any core that does not start or end with white space, whatever white space pads it. |
| GoStrings.TrimSpaceIdempotent | faild/faild.go:111-112 | Trimming twice is trimming once. |
| GoStrings.Fields | faild/faild.go:124 | Every field is non-empty and free of white space. |
| GoStrings.FieldsConcat | faild/faild.go:124 | Concatenated, the fields are exactly the non-space runes of the command, in order. |
| GoStrings.FieldsSpace | faild/faild.go:124 | A white-space rune in front of the text adds no field, so leading white space is dropped. |
| GoStrings.FieldsOfWord | faild/faild.go:124 | A non-empty run without white space is exactly one field, so fields are never cut inside a word. |
| GoStrings.FieldsWord | faild/faild.go:124 | A non-empty word followed by white space is the first field. |
| GoStrings.Contains | faild/faild.go:89 | `strings.Contains`: true only when the substring fits, always true for the empty substring, and for equal lengths true exactly when the two are equal. |
| GoStrings.ContainsIff | faild/faild.go:89 | Contains holds exactly when the substring occurs at some position, so the empty substring always matches. |
| StrConv.ParseInt | faild/faild.go:112 | A successful parse lies in the signed 64-bit range. The lemmas below state the value of every success and the error kind of every input: no digit where the magnitude starts (ParseNoDigits), digits then junk with or without a sign (ParseDigitsThenJunk, ParseSignedDigitsThenJunk), and out-of-range digits (ParseDigitsOutOfRange). |
| StrConv.ParseFormat | faild/faild.go:112 | Every int64 value, formatted in decimal, parses back to itself. |
| StrConv.ParseIntShape | faild/faild.go:112 | Whatever parses is non-empty: a sign may stand only at the front and must be followed by at least one digit, and every other rune is a digit. |
| StrConv.MagnitudeOfDigits | faild/faild.go:112 | The digits after the sign read as their value, negated under '-', when that lies in the int64 range, and as a range error otherwise. |
| StrConv.ParseDigits | faild/faild.go:112 | Any string of digits whose value is at most 2^63 - 1 parses to that value, leading zeros allowed, with or without a leading '+'. |
| StrConv.ParseNegativeDigits | faild/faild.go:112 | '-' followed by digits whose value is at most 2^63 parses to the negated value (so "-0" gives 0). |
| StrConv.ParseDigitsOutOfRange | faild/faild.go:112 | Digits whose value lies outside the int64 range give a range error, with either sign or none. |
| StrConv.ParseDigitsThenJunk | faild/faild.go:112 | Digits followed by a non-digit give a range error when the digits already exceed 2^64 - 1, and a syntax error otherwise. |
| StrConv.ParseSignedDigitsThenJunk | faild/faild.go:112 | After a '+' or '-', digits followed by a non-digit give a range error when the digits already exceed 2^64 - 1, and a syntax error otherwise, as without a sign. |
| StrConv.ParseNoDigits | faild/faild.go:112 | The empty string, a lone sign, a sign followed by a non-digit, and a first rune that is neither a sign nor a digit (such as an empty value after `key:`) give a syntax error. |
| StrConv.ParseIntRejectsSpace | faild/faild.go:111-112 | A blank anywhere makes the parse fail, so the value must be trimmed first. |
| Controller.GlobalStats.constructor | controller-demo/main.go:111 | The store starts as an empty map with no `Set` recorded, so it is the replay of the empty log. |
| Controller.ReplayKeys | controller-demo/main.go:44-73 | No operation removes a key: the keys of the store are exactly the agents ever passed to `Set`. |
| Controller.ReplayLastWins | controller-demo/main.go:68-73 | The last `Set` for an agent decides its entry. |
| Controller.GlobalStats.Get | controller-demo/main.go:49-55 | `found` holds exactly when the agent has an entry. The result is that entry, which may be nil, and nil when there is none. The store does not change. |
| Controller.GlobalStats.Set | controller-demo/main.go:68-73 | The agent's entry becomes the given snapshot, which may be nil. Every other entry is unchanged, and the store stays the replay of all `Set` calls. |
| Controller.GlobalStats.Dump | controller-demo/main.go:57-66 | The result has exactly the keys and values of the store, copied entry by entry. The store does not change. |
| Controller.SetThenGet | controller-demo/main.go:49-55 | After `Set(a, s)`, `Get(a)` returns `(s, true)`, and `Get` of any other agent returns the same snapshot and the same `found` flag as before. |
| Controller.GetNeverSet | controller-demo/main.go:49-55 | `Get` of an agent never set returns `(nil, false)`. |
| Controller.DumpThenSet | controller-demo/main.go:57-73 | A dump is a snapshot, so a later `Set` leaves it as it was. Its keys plus the new agent are the store's keys, which are the agents ever set. Because Dafny maps are values, the snapshot property holds by construction. |

## Left out

- Logging (`log.Printf`) is left out; it has no effect on results.
- The gRPC plumbing is left out: the context argument, request messages and
  server registration. Apart from building the `Server` value, `main.go`
  (argument check, listener, server start) is not part of this model.
- The netlink calls, `GOnetstat.Tcp` and `exec.Command(...).Run` are
  parameters. CIDR parsing, address assignment, reading `/proc/net/tcp` and
  process execution are not reimplemented. What an exec error says is not
  modelled: it is `ExecFailed`.
- Strings are sequences of Unicode code points rather than UTF-8 bytes.
  Splitting on ':' and '\n' and the white-space test agree with Go on valid
  UTF-8. Invalid UTF-8 is not modelled.
- Faild.Server.GetStatistics: the netstat table is a plain sequence. How
  GOnetstat renders the `Ip` field, and the kernel state it reads, are not
  modelled.
- Faild.CmdOutput: Go indexes the first field of the command and panics
  when the command is blank. The model requires at least one field instead.
  Every call site passes a command that starts with "faild", so no reachable
  behaviour is lost, but the panic itself is not modelled.
- The controller's `sync.Mutex` is left out: each `GlobalStats` method is
  one atomic step.
- The polling goroutines `startAgents` and `startAgent` are left out. They
  use channels, `time.Sleep` and `grpc.Dial`, and they are the reason a
  stored snapshot may be nil.
- The HTTP handlers and the Prometheus collector are left out; they are
  concurrency and network plumbing.
- Controller.GlobalStats.Dump: Go copies the pointers, so a dump shares its
  snapshots with the store. The model treats `Faild.Stats?` values as
  references without following them. It does not state what later changes
  to a snapshot would show through a dump; nothing in the controller makes
  such changes. The dump map itself is a Dafny map, which is a value, so it
  is independent of the store by construction. The model therefore does not
  show that Go's loop makes a new map rather than returning `s.m` itself.
