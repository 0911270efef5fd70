# Group ride server: a Dafny model of its core

The group ride server (grs) is a small, single-threaded TCP server. Riders connect, register for a named ride and receive a bib number. At the start time they all get a "go" message, and afterwards they send progress updates. This project models the logic behind that shell and proves its properties:

- **The rider registry and session state machine of grs.c:**
  - the fd → Rider table `fdMapTbl`;
  - the per-gender, per-age-group rider lists;
  - the bib counter and the two flags;
  - the poll array and its rebuild;
  - the connect, disconnect, registration and progress handlers;
  - the `procData` / `procFdEvents` dispatch;
  - the recipient order of `sendGoMsg`;
  - the timer step of `grsMain`.
- **The message scanner of json.c:** `jsonFindObject`, `jsonFindTag`, `jsonGetTagValue` and `stringify`.
- **The Timespec helpers `tvCmp` / `tvSub` of defs.h,** its enumerations and its records.
- **The argument validator `parseCmdArgs` of main.c,** together with `main`'s use of it.

## Layout

- **`options.dfy`:** `Option`.
- **`defs.dfy`:** module `Defs`.
  - The enumerations, `Rider`, `CmdArgs` and `Timespec`.
  - `tvCmp` / `tvSub`.
- **`clib.dfy`:** module `CLib`. The C library behaviour the code relies on:
  - `strchr` over NUL-terminated memory;
  - `isspace`;
  - `sscanf "%d"` and `printf "%d"`.
- **`json.dfy`:** module `Json`, the scanner.
  - Pointers are indices into `mem`: the memory from the start of the receive buffer on.
  - `FindObject`, `FindTag`, `CopyQuoted` / `GetTagValue` and `Stringify` are methods with the C loops, each proved against a pure function (`ObjectSpan`, `TagPos`, `TagValue`).
- **`registry.dfy`:** module `Registry`, the registry as a value.
  - One transition function per operation: `Connect`, `Disconnect`, `RegReq`, `ProgUpd`, `Serve`, `SweepFrom`, `FdEvents`.
  - The invariant `Inv`.
- **`registry_lemmas.dfy`:** module `RegistryLemmas`. Each transition keeps `Inv`, and its exact effect is proved.
- **`pollset.dfy`:** module `PollSet`. The fd set `buildPollFds` produces, and the array-filling loop.
- **`golist.dfy`:** module `GoList`. The order in which `sendGoMsg` tries the riders, and the sends it attempts.
- **`server.dfy`:** module `Server`.
  - The class `Grs` with the fields of the C `Grs` plus the fd table.
  - Its `Proc*` methods update those fields in place. Each is proved to equal the matching registry transition, so every lemma about a transition holds of the object.
  - The `sendGoMsg` loops and the `grsMain` timer step are also here.
- **`cmdline.dfy`:** module `CmdLine`. The `parseCmdArgs` loop as a method, proved against the recursive function `ParseFrom`, with lemmas about the options.

## Behaviour of the code worth knowing

- `grs.c` uses names that `defs.h` lacks:
  - the gender `nonBinary`;
  - the rider fields `age` (grs.c:396-397) and `power`;
  - the argument fields `controlFile` / `videoFile`.

  They come from `grs.h`, which is not part of this model. The model has the fields and gender values `grs.c` uses, with `nonBinary` after `male` and `GenderMax` = 4.
- `main` zero-fills the arguments (main.c:150), and `parseCmdArgs` rejects a port outside 49152..65535 (main.c:129-131). So a run without `--tcp-port` always fails. The help text in main.c mentions port 54321, and `defs.h` defines `DEF_TCP_PORT`, but no code uses either.
- `main.c` never sets `rideName` and never calls `grsMain`. The registration and dispatch methods take the ride name as a precondition.
- `procProgUpdMsg` acts only on riders in state registered (grs.c:464). No code in `grs.c` ever assigns the state active.
- A failed read makes `procData` return -1, but the rider stays connected.
- `procFdEvents` accepts at most one connection per pass. `procConnect` accepts it whatever the number of riders; `maxRiders` only sizes the poll array.
- The status `procFdEvents` returns is that of the last entry it serviced, and a nonzero status ends `grsMain`.
- The `ppoll` timeout is always the report period, because `deltaT` is zeroed at the top of every pass.
- The comment in `defs.h` gives u19 as "0-18", but `ageToAgeGrp` maps 0 to undef. The model follows `ageToAgeGrp`.
- `tvSub` borrows 1000000 ns instead of 10^9. It is modelled as written, and `TvSubBorrowNotNormalised` shows the result.
- **Unsafe behaviour of the code becomes preconditions:**
  - `jsonFindObject`'s unbounded `strchr` needs memory that ends in a NUL, and a `{` inside the received bytes (`Readable`, `SearchDefined`).
  - `fdMapTbl[sd]` needs the accepted fd below `MAX_FD_VAL`.
  - `buildPollFds` needs the poll array to have room for every connection.

## Model

| member | source | states |
|---|---|---|
| Defs.ZeroArgs | main.c:150 | the zeroed argument record has port 0, address family 0 and no ride name |
| Defs.TvCmp | defs.h:104-118 | the result is -1, 0 or 1: 0 exactly when both fields are equal, -1 / 1 exactly when x is lexicographically below / above y |
| Defs.TvCmpAntisymmetric | defs.h:107-118 | tvCmp(x, y) = -tvCmp(y, x) |
| Defs.TvCmpTransitive | defs.h:107-118 | tvCmp is transitive, for both the non-strict and the strict order |
| Defs.TvSub | defs.h:120-132 | without a borrow the result is the exact difference, with sec ≥ 0 when x ≥ y; with a borrow it is 999000000 ns short |
| Defs.TvSubZero | defs.h:123-127 | subtracting the zero time gives back the operand |
| Defs.TvSubBorrowNotNormalised | defs.h:128-131 | 2.0 s - 1.5 s gives (0, -499000000), which compares below 0.5 s |
| CLib.StrChr | json.c:107-109 | strchr reports an index holding c with a NUL still after it |
| CLib.StrChrFirst | json.c:107-109 | no c and no NUL precede the reported index; None means a NUL comes before any c |
| CLib.StrChrAt | json.c:107-109 | conversely, the first c with no NUL before it is what strchr reports |
| CLib.StrChrSpan | json.c:107-111 | the skipped characters contain neither c nor NUL |
| CLib.SkipSpace | grs.c:230 | the first non-space index at or after i, with only spaces skipped (the white space "%d" skips) |
| CLib.SkipSpaceOver | grs.c:230 | white space followed by a non-space is skipped exactly |
| CLib.DigitRun | grs.c:230 | the end of the digit run starting at i, with every character in the run a digit |
| CLib.Digits | grs.c:307 | the decimal digits of n, with no leading zero, whose value is n |
| CLib.ScanIntItoa | grs.c:230 | "%d" reads back what "%d" printed, whatever non-digit text follows |
| CLib.Itoa | grs.c:307 | "%d" output is non-empty and starts with a digit or '-' |
| CLib.ScanIntValue | grs.c:230 | white space, an optional '+' or '-', and at least one digit followed by a non-digit or the end read as the signed value of the digits (" 42", "+42", "042" read 42) |
| CLib.ScanIntAt | grs.c:230 | the same, with the parts given by their positions in the text |
| CLib.SignAt | grs.c:230 | "%d" skips the leading white space and takes the sign before the first digit |
| CLib.ScanIntNoNumber | grs.c:230 | white space and an optional sign followed by no digit (nor, without a sign, by more white space or a sign) read nothing ("", "  ", "-x", " x") |
| CLib.ScanIntShape | grs.c:230 | every text splits into skipped white space, sign, digits and rest; "%d" reads a value exactly when there is a digit, and then the signed value of the digits |
| Json.CloseFrom | json.c:42-52 | the first index whose depth returns to 0 within dataLen, with the depth positive before it; None means it stays positive up to dataLen |
| Json.ObjectSpan | json.c:33-56 | no '{' gives None; otherwise start is the first '{', end is the first close to depth 0 (a '}' before dataLen), and the depth is positive strictly between them; None with a '{' means an unterminated object |
| Json.FindObject | json.c:33-56 | the scanning loop returns 0 and ObjectSpan's object when there is one, -1 otherwise |
| Json.Label | json.c:81-85 | the quoted tag, truncated to the 256-byte buffer |
| Json.LabelShort | json.c:84-85 | a tag of up to 253 characters is quoted whole; a longer one loses its tail |
| Json.FirstLabel | json.c:86-87 | an index in [p, end) where the label occurs |
| Json.FirstLabelFirst | json.c:86-87 | no occurrence precedes the one reported; None means there is none |
| Json.FirstLabelAt | json.c:86-87 | conversely, the first occurrence is the one reported |
| Json.SkipSeparators | json.c:88-93 | an index before end holding neither white space nor ':' |
| Json.SkipSeparatorsFirst | json.c:88-93 | only separators precede it; None means only separators up to end |
| Json.SkipSeparatorsAt | json.c:88-93 | conversely, the first non-separator is the one reported |
| Json.TagPos | json.c:79-98 | a value position strictly inside the object, holding a non-separator |
| Json.FindTag | json.c:79-98 | the nested search loops return TagPos: after the first occurrence only |
| Json.QuotedAfter | json.c:107-111 | the text between the two quotes contains no '"' and no NUL |
| Json.TagValue | json.c:102-117 | None without the tag; otherwise the text contains no '"' and no NUL |
| Json.TagValueVia | json.c:102-117 | the value is QuotedAfter at the tag's value position, and None without one |
| Json.Stringify | json.c:16-27 | a fresh array of end-start+2 characters: mem[start..end] inclusive, then NUL (empty for end = start-1) |
| Json.CopyQuoted | json.c:107-113 | the two strchr calls and the copy compute QuotedAfter |
| Json.GetTagValue | json.c:102-117 | jsonGetTagValue computes TagValue |
| Json.QuotedAfterAt | json.c:107-111 | `"v"` at the first quote yields exactly v |
| Json.TagPosAt | json.c:79-98 | the first label occurrence followed by separators puts the value at the first non-separator |
| Json.TagValueRoundTrip | json.c:100-117 | the first `"tag"` followed by separators and `"v"`, with v free of quotes, yields exactly v |
| Registry.GenderFromTagVal | grs.c:210-223 | "male", "female" and "nonBinary" map to their genders, each if and only if; anything else, absent included, maps to unspec |
| Registry.GenderNameRoundTrip | grs.c:210-223 | every gender survives the trip through its name |
| Registry.AgeFromTagVal | grs.c:225-234 | an absent tag gives age 0 |
| Registry.AgeFromTagValRoundTrip | grs.c:225-234 | a printed age followed by non-digit text reads back as that age |
| Registry.AgeFromTagValValue | grs.c:225-234 | a value of white space, an optional sign and digits, then a non-digit or the end, gives the signed value of the digits |
| Registry.AgeFromTagValNoNumber | grs.c:227-233 | a value with no digit after its leading white space and sign gives 0 |
| Registry.ScanIntOr | grs.c:466-480 | an absent tag, or one with no number, keeps the current value |
| Registry.AgeToAgeGrp | grs.c:236-273 | undef exactly for ages ≤ 0 or > 99; u19 for 1..18; u35 for 19..34; for 35..99 the group whose five-year band holds the age |
| Registry.Remove | grs.c:195 | removal never lengthens a list |
| Registry.RemoveAt | grs.c:195 | removing the element at i leaves the others in order |
| Registry.RemoveAbsent | grs.c:195 | removing an absent element changes nothing |
| Registry.SpliceMembers | grs.c:195 | cutting out element i keeps exactly the other members |
| Registry.SpliceNoDups | grs.c:195 | cutting out an element keeps a list free of duplicates |
| Registry.RemoveMembers | grs.c:195 | after removal x is gone, every other member stays, and there are no duplicates |
| Registry.EmptyLists | grs.c:610-614 | GenderMax × AgeGrpMax empty lists |
| Registry.LinkHead | grs.c:413 | insertion keeps the table's shape |
| Registry.Unlink | grs.c:195 | removal keeps the table's shape |
| Registry.Initial | grs.c:605-633 | the start state satisfies the invariant, with no riders, bib counter 0, and the ride active exactly when the start time is 0 |
| Registry.OnOneList | defs.h:92-93 | a listed fd belongs to a registered or active rider of that list's gender and age group, and appears once |
| Registry.ConnectedUnlisted | grs.c:380-381 | a connected rider is on no list |
| Registry.Connect | grs.c:137-181 | 0 exactly when accept and TCP_NODELAY succeed, and then the table gains exactly the accepted fd as a connected rider, the lists are unchanged and a rebuild is flagged; otherwise -1 with nothing changed |
| Registry.NewRider | grs.c:163-172 | the zeroed rider has the accepted fd, state connected and bib 0 |
| Registry.Disconnect | grs.c:183-208 | the rider lists keep their shape |
| Registry.Registering | grs.c:394-400 | the rider takes the message's name, gender and age, the age group of that age, and the given bib; sd and state are kept |
| Registry.RegReq | grs.c:375-430 | the rider lists keep their shape |
| Registry.ProgUpd | grs.c:452-494 | 0 exactly while the ride is active and the rider is registered, otherwise -1 with nothing changed; the fd table's keys and the lists never change |
| Registry.Classify | grs.c:503-530 | a read of ≤ 0 bytes, and only such a read, is a failed read; a message to hand on carries a well-formed object |
| Registry.RequestOf | grs.c:504-517 | the read is rejected exactly when it is not a "regReq" or "progUpd" message |
| Registry.Serve | grs.c:496-533 | 0 exactly when the message went to a handler, whatever the handler returned; otherwise -1 with nothing changed |
| Registry.EntryAction | grs.c:549-558 | a hangup exactly when POLLRDHUP or POLLHUP is set; input exactly when POLLIN is set without them; idle exactly when revents is 0 |
| Registry.SweepFrom | grs.c:548-559 | the shape of the lists is kept, and a stopped sweep returns -1 |
| Registry.FdEvents | grs.c:535-559 | the shape of the lists is kept |
| RegistryLemmas.LinkHeadLists | grs.c:413 | the fd goes to the head of list [g][a], and no other list changes |
| RegistryLemmas.UnlinkLists | grs.c:195 | only list [g][a] changes, and it loses the fd |
| RegistryLemmas.UnlistedUpdate | grs.c:394-406 | replacing an unlisted rider with an unlisted one keeps the table and the lists consistent |
| RegistryLemmas.ConnectInv | grs.c:137-181 | procConnect keeps the invariant |
| RegistryLemmas.ConnectEffect | grs.c:137-181 | 0 exactly when accept and TCP_NODELAY succeed; then the new fd maps to a connected rider on no list, the others are unchanged and a rebuild is flagged; otherwise -1 with nothing changed |
| RegistryLemmas.DisconnectInv | grs.c:183-208 | procDisconnect keeps the invariant |
| RegistryLemmas.DisconnectEffect | grs.c:183-208 | an unmapped fd gives -1 and no change; a mapped one loses its entry, is cut from its own list only when registered or active (the others keep their order), other lists are untouched, and a rebuild is flagged |
| RegistryLemmas.DisconnectTwice | grs.c:188-207 | a repeated disconnect returns -1 and changes nothing |
| RegistryLemmas.RegReqBibs | grs.c:399-400 | bibs stay bounded by the counter and distinct |
| RegistryLemmas.RegReqLists | grs.c:409-413 | inserting the newly registered rider keeps the lists consistent and free of duplicates |
| RegistryLemmas.RegReqInv | grs.c:375-430 | procRegReqMsg keeps the invariant |
| RegistryLemmas.RegReqFrame | grs.c:375-430 | procRegReqMsg adds and drops no connection and leaves both flags alone |
| RegistryLemmas.RegReqEffect | grs.c:375-430 | the handler acts only on a connected rider whose "ride" names the ride (otherwise -1 and no change); it consumes the next bib, larger than every bib in use; on a failed reply the rider stays connected and on no list (-1), otherwise it is registered at the head of its gender/age list (0) |
| RegistryLemmas.ProgUpdInv | grs.c:452-494 | procProgUpdMsg keeps the invariant |
| RegistryLemmas.ProgUpdEffect | grs.c:452-494 | 0 exactly while the ride is active and the rider registered, otherwise -1 and no change; distance and power take their tags' "%d" values when present, and nothing else changes |
| RegistryLemmas.ProgUpdFrame | grs.c:452-494 | no connection is added or dropped, and both flags are left alone |
| RegistryLemmas.ServeInv | grs.c:496-533 | procData keeps the invariant |
| RegistryLemmas.ServeFrame | grs.c:496-533 | procData adds and drops no connection and leaves both flags alone |
| RegistryLemmas.SweepInv | grs.c:548-559 | the sweep over the connected sockets keeps the invariant |
| RegistryLemmas.SweepKeys | grs.c:548-559 | a completed sweep drops exactly the hung-up fds; the rebuild flag is raised exactly when it was already raised or the table changed; rideActive is untouched |
| RegistryLemmas.SweepIdle | grs.c:548-559 | entries without events change nothing and keep the status |
| RegistryLemmas.Service | grs.c:550-553 | servicing one entry (procDisconnect on a hangup, procData on input) returns 0 or -1 |
| RegistryLemmas.SweepSplit | grs.c:548-559 | the sweep over all entries is the sweep over the first k, continued from entry k unless it stopped early |
| RegistryLemmas.SweepStatus | grs.c:548-559 | a sweep that runs to the end ends in the registry and status of servicing the last entry with events, applied to the registry reached there; that entry is a hangup or input |
| RegistryLemmas.SweepRc | grs.c:548-559 | a sweep started with status 0 or -1 returns 0 or -1 |
| RegistryLemmas.FdEventsRc | grs.c:535-568 | procFdEvents returns 0 or -1 |
| RegistryLemmas.FdEventsLastServed | grs.c:535-568 | a completed pass whose last entry with events delivered a register or progress request returns 0, whatever earlier entries returned; a completed pass with no events on the connected entries returns 0 |
| RegistryLemmas.FdEventsInv | grs.c:535-568 | procFdEvents keeps the invariant |
| RegistryLemmas.FdEventsKeys | grs.c:535-568 | a failed connect gives -1 at once with no change; a completed pass adds the accepted fd and drops the hung-up ones |
| RegistryLemmas.FdEventsQuiet | grs.c:651-657 | with no events, procFdEvents would change nothing and return 0 |
| PollSet.MappedFdsAscending | grs.c:75-81 | the scan lists exactly the mapped fds below hi, in strictly ascending order |
| PollSet.MappedFdsCount | grs.c:75-81 | the scan has one entry per mapped fd below hi |
| PollSet.ScanCount | grs.c:75-81 | the full scan has one entry per mapped fd |
| PollSet.AllMapped | grs.c:75-81 | the full scan finds every mapped fd exactly once |
| PollSet.MappedFdsStep | grs.c:75-81 | one step of the scan appends the fd exactly when it is mapped |
| PollSet.MappedFdsPrefix | grs.c:75-81 | an earlier scan is a prefix of a later one |
| PollSet.Watched | grs.c:64-83 | entry 0 is the listening socket |
| PollSet.ScanRoom | grs.c:75-81 | while the scan is running, one more mapped fd still fits the count |
| PollSet.FilledExtend | grs.c:77-79 | writing one more entry extends the filled prefix |
| PollSet.FillPollFds | grs.c:64-83 | the loop leaves n = 1 + the number of mapped fds; entry 0 is the listening socket with POLLIN; then every mapped fd in ascending order with POLLIN \| POLLRDHUP; all revents are 0 |
| GoList.RegisteredOfMembers | grs.c:337-338 | a list's recipients are exactly its registered riders |
| GoList.RegisteredOfNoDups | grs.c:337-338 | no list yields a recipient twice |
| GoList.GoFromMembers | grs.c:333-348 | a rider is a recipient from list [g][a] on exactly when it is registered and its list comes at or after [g][a] |
| GoList.GoOrderMembers | grs.c:325-351 | every registered rider is a recipient, and only they are |
| GoList.GoFromNoDups | grs.c:333-348 | nobody is a recipient twice |
| GoList.GoOrderNoDups | grs.c:325-351 | nobody gets the go message twice |
| GoList.Attempts | grs.c:337-346 | no more attempts than recipients |
| GoList.AttemptsPrefix | grs.c:337-346 | the attempts are a prefix of the order, and all but the last succeed |
| GoList.AttemptsFail | grs.c:341-344 | the last attempt fails exactly when some send fails; without a failure everyone is sent to |
| GoList.AttemptsCons | grs.c:337-346 | sending to one more recipient first |
| GoList.AnyFailsConcat | grs.c:333-348 | a failure over a + b is a failure over a or over b |
| GoList.AttemptsConcat | grs.c:333-348 | sending over a + b is sending over a, then over b unless a failure in a stopped it |
| GoList.GoStep | grs.c:334-347 | the sends from list [g][a] on: those of that list, then, without a failure, those from the next list on |
| Server.PollTimeout | grs.c:638-643 | the ppoll timeout is exactly the report period |
| Server.ReportDueElapsed | grs.c:659-662 | with normalised times and no borrow, the report test means "at least reportPeriod seconds have passed" |
| Server.Ready | grs.c:644 | ppoll's count is at most the number of entries, and 0 exactly when no entry has events |
| Server.SendList | grs.c:337-346 | the list loop attempts the list's registered riders up to the first failure, and reports the failure |
| Server.SendGender | grs.c:334-347 | the age-group loop performs the sends of its gender's part of the go order, continuing to the next gender only without a failure |
| Server.SendGo | grs.c:325-351 | sendGoMsg attempts the go order up to the first failure; -1 exactly when a send fails, otherwise 0 |
| Server.ReadMessage | grs.c:503-526 | the scanning half of procData computes Classify |
| Server.Grs.constructor | grs.c:605-633 | the start state: empty lists, no riders, a maxRiders-entry poll array holding only the listening socket, and the ride active exactly when the start time is 0 |
| Server.Grs.BuildPollFds | grs.c:64-97 | the poll array mirrors the listening socket and the mapped fds in ascending order, and only the rebuild flag changes (it is cleared) |
| Server.Grs.ProcConnect | grs.c:137-181 | the new object state and return code are Connect's, and the invariant is kept |
| Server.Grs.ProcDisconnect | grs.c:183-208 | the new object state and return code are Disconnect's, and the invariant is kept |
| Server.Grs.ProcRegReqMsg | grs.c:375-430 | the new object state and return code are RegReq's on the message's tag values; no connection is added or dropped |
| Server.Grs.Enrol | grs.c:394-422 | the registration proper computes RegReq for a connected rider with a matching ride |
| Server.Grs.ProcProgUpdMsg | grs.c:452-494 | the new object state and return code are ProgUpd's on the message's tag values |
| Server.Grs.ProcData | grs.c:496-533 | the new object state and return code are Serve's on what was read, and the invariant is kept |
| Server.Grs.SweepEntries | grs.c:548-559 | the loop over entries 1..numFds-1 computes SweepFrom |
| Server.Grs.ProcFdEvents | grs.c:535-568 | return code and state are FdEvents' on the entries as they were; after a completed pass the poll array is rebuilt and mirrors the table; the invariant is kept |
| Server.Grs.SendGoMsg | grs.c:325-351 | on the object's riders: the attempts and the -1 exactly on a failed send |
| Server.Grs.TimerStep | grs.c:659-682 | while active, only lastReport moves, and only when the period has passed; before the start time nothing changes; at the start time the go message goes out and the ride becomes active exactly when no send failed |
| Server.Grs.PollEvents | grs.c:651-657 | the event half of a pass has FdEvents' status and state on the entries as they were (no events: no change and 0), and keeps the invariant, lastReport and rideActive |
| Server.Grs.Iteration | grs.c:635-686 | with w the FdEvents pass on the entries as they were (w is no change and 0 when nothing has events): a nonzero status returns -1 with w's state; otherwise the timer step runs on w's state with the rebuild done: while active only lastReport moves, when the period has passed; before the start time nothing changes; at the start time -1 exactly when a go send fails, the ride becoming active otherwise; 0 or -1 always, the invariant kept, a current poll array on 0 |
| CmdLine.Apply | main.c:66-117 | an option's value is rejected exactly when its conversion fails (Accepts), which depends on the value alone; an accepted value changes only that option's fields |
| CmdLine.Finish | main.c:127-145 | 0 exactly when the port is in 49152..65535, and then the address gets the port and, when unset, the IPv4 family, and nothing else changes; otherwise -1 with the record unchanged |
| CmdLine.ParseFrom | main.c:57-145 | every return code is 0 or -1 |
| CmdLine.ParseCmdArgs | main.c:53-146 | the loop with its in-body index advance computes ParseFrom from the first argument |
| CmdLine.ParseFromOk | main.c:127-143 | a successful parse has a port in 49152..65535, stored in the address, with an IPv4 or IPv6 family |
| CmdLine.UnknownOption | main.c:121-124 | an unrecognised argument returns -1 with the record unchanged |
| CmdLine.MissingValue | main.c:66-69 | a value-taking option given last returns -1 |
| CmdLine.IntOption | main.c:85-104 | --max-riders / --report-period / --tcp-port fail exactly when "%d" finds no integer; otherwise they store that integer in their own field only |
| CmdLine.IpAddrOption | main.c:66-83 | --ip-addr takes IPv4 first, then IPv6, and fails when neither parses |
| CmdLine.ApplySame | main.c:66-117 | an option applied to records differing only in its own fields gives the same record |
| CmdLine.ApplyOther | main.c:66-117 | another option keeps two records differing only in an option's fields so |
| CmdLine.SkipPairs | main.c:57-125 | records differing only in option o's fields parse alike when o is set again after accepted settings of other options |
| CmdLine.RepeatedOption | main.c:57-125 | of two accepted settings of the same option, with any number of accepted settings of other options between them, the later one wins: the parse equals the parse with the earlier pair left out |
| CmdLine.NoPortFails | main.c:127-131 | without --tcp-port a port outside the range stays outside it, and the parse never succeeds |
| CmdLine.MainStatus | main.c:148-162 | main returns 0 or -1 |
| CmdLine.NoPortNoStart | main.c:148-162 | from main's zeroed record, with no --tcp-port (and no --help / --version), main returns -1 |
| CmdLine.DefaultFamily | main.c:133-136 | without --ip-addr, a successful parse uses IPv4 |
| CmdLine.ExitsOnlyOnRequest | main.c:62-120 | parseCmdArgs exits only where --help or --version occurs |

## Left out

- **Sockets.** These are left out: `configGrsSock`, `accept`, `setsockopt`, `read`, `send` and `close`. What the handlers see is given to them instead:
  - the accepted fd and whether TCP_NODELAY succeeded;
  - the bytes read (`Inbound`);
  - whether the regResp send succeeded;
  - the set of fds whose go send fails.
- **Clocks and the event loop.** `ppoll`, `clock_gettime`, `time()` and the endless loop of `grsMain` are left out. One pass of the loop is modelled (`Iteration`), with the clock values and ppoll's revents as inputs.
- **The revents ppoll writes into the array.** `ProcFdEvents` takes the entries' revents as part of its specification, over `old(pollFds[..numFds])`, instead of reading them after a modelled ppoll.
- **`sendReportMsg`.** It only records the time, which is given to `TimerStep` as `reportClock`. There is no payload.
- **The regResp message text.** `snprintf` into the 1024-byte buffer is left out, and so is its round trip through `jsonGetTagValue`. Only whether the send succeeded is modelled.
- **Output.** Logging (log.c), `ssFmt`, `jsonDumpObject` / `dumpText` and every `printf` are output only and are left out.
- **Memory management.** `calloc` / `malloc` failure, `free`, and the strings leaked by `procRegReqMsg` are left out. Riders are values in the fd table, and the lists hold fds instead of node pointers, so aliasing between list nodes and table entries is not modelled.
- **Library parsers.** `inet_pton`, `strptime` and `mktime` are parameters (`Parsers`). `htons` is left out, so the port is kept in host order.
- **The socket address.** Writing an IPv4 address over an IPv6 one leaves stale bytes in the C union. The model just replaces the address.
- **Help and version output.** The text printed by `--help` / `--version` is left out. Only their `exit(0)` is modelled (`Exited`).
- **Rider and argument fields.** The following are not modelled, because none of the modelled code reads them:
  - `regTime`;
  - the remote `sockAddr` of a rider;
  - `shizFile` / `controlFile` / `videoFile` contents beyond presence.
- **Integer width.** `int` overflow of the bib counter, of `%d` conversions and of Timespec arithmetic is not modelled. Integers are unbounded.
- **Server.Grs.ProcFdEvents:** it is specified from a poll array that mirrors the table (`Mirrors()`) with no rebuild pending. That is the state `grsMain` reaches after its set-up and after every successful pass. It also requires `|fdMap| + 2 <= maxRiders`, the room the unchecked rebuild needs.
- **Server.Grs.PollEvents and Server.Grs.Iteration:** they require the same room, so a run that would overflow the poll array is outside the model.
- **Json.FindObject and Server.Grs.ProcData:** they require the read memory to end in a NUL, and any `{` strchr finds to lie within the received bytes. Without these, the C code reads past its buffer, which has no defined result to model.
