# dns-proxy upstream core, in Dafny

dns-proxy is a small forwarding DNS resolver. It reads a comma-separated
list of upstream resolvers, normalises each address to `host:port`, ranks
the upstreams by a probe round trip (at start-up and then periodically),
and keeps one global list `upstreamList` with one cursor `currentIndex`.
Each query goes to the preferred upstream. When that upstream fails, the
others are tried in turn, and a backup that answers becomes the preferred
one. AAAA records are stripped from every response. An AAAA query left with
no answer becomes NXDOMAIN, and a query no upstream answers gets SERVFAIL.

The model has four modules:

- `Address` (`address.dfy`): Go's `strings.LastIndex`, `Count`, `Split`
  and `TrimSpace`, and `ensurePortForDNSServer` as functions.
  `parseUpstreamServers` is a loop method proved against the function
  `ParsePieces`.
- `Ranking` (`ranking.dfy`): the probe result record and the ranking
  comparator. The `sort.Slice` call is an in-place sort of an array. The
  reachable servers are what a ranking pass installs, and `CursorFor` is
  the cursor the periodic pass computes.
- `DnsMessage` (`message.dfy`): a DNS message cut down to question,
  answer, authority and additional sections and response code. It holds
  `filterIPv6Records` and the reply `handleDNSRequest` writes.
- `Upstream` (`registry.dfy`): the class `Registry`, with fields `list`
  (`upstreamList`) and `cur` (`currentIndex`) and the invariant
  `list != [] ==> cur < |list|`. Its methods are the start-up
  configuration, the periodic re-ranking, `getNextUpstreamServer`,
  `forwardToUpstream` and `handleDNSRequest`.

The network is an input. A ranking pass is given its probe results as a
sequence, in any order. A forwarding call is given a sequence with one
`Exchange` per list position, either `Replied(msg)` or `Failed(err)`, and
reads only the positions it tries.

Where the intended behaviour and the code differ, the model follows the code:

- A bare IPv6 literal such as `2001:db8::1` is returned unchanged: its
  last `:` comes after its last `]`, because `LastIndex` of an absent `]`
  is -1 (`IPv6Examples`). The bracketing branch is reached only by
  strings that contain `]` and more than one `:` and are not of the form
  `[...]` (`BracketingNeedsCloseBracket`); `a:b:]` becomes `[a:b:]]:53`.
- When every upstream fails, the error carries the preferred upstream's
  error, not the last one. The loop's `err` is a fresh variable that
  shadows the outer one.
- The sort is not stable, and it also orders unreachable results by
  speed. No stability is claimed.
- `forwardToUpstream` indexes `upstreamList[currentIndex]` before
  anything else, so it panics on an empty list. `Forward` therefore
  requires a non-empty list. Start-up stops with a fatal error before the
  list can be empty.
- `filterIPv6Records` reads `Question[0]` of the query, so it requires a
  question.

## Model

| member | source | states |
|---|---|---|
| Address.LastIndex | main.go:300 | the result is -1 or a position holding `c`, and no later position holds `c` (Go's `strings.LastIndex`) |
| Address.Count | main.go:311 | the count is 0 exactly when `c` does not occur, and never exceeds the length |
| Address.CountOccurrences | main.go:311 | `Count(s, c)` is the number of occurrences of `c` in `s` (its multiplicity), the number `strings.Count` returns and the bracketing test compares with 1 |
| Address.TrimSpace | main.go:284 | definition: Go's `strings.TrimSpace`, characterised by `TrimSpaceSlice` |
| Address.TrimSpaceSlice | main.go:284 | `TrimSpace` returns a contiguous slice of its input that neither starts nor ends with white space, and it is empty exactly when the input is all white space |
| Address.Split | main.go:280 | one more piece than there are commas, and no piece contains a comma |
| Address.JoinSplit | main.go:280 | joining the pieces of `Split` with ',' gives back the input, so splitting loses nothing |
| Address.SplitJoin | main.go:280 | splitting comma-free pieces joined with ',' gives back the pieces |
| Address.EnsurePortForDNSServer | main.go:298-318 | the result always has a port (last ':' after last ']'), is one of `s`, `s+":53"` or `"["+s+"]:53"`, and equals `s` exactly when `s` already has a port |
| Address.EnsurePortIdempotent | main.go:298-318 | normalising twice is normalising once |
| Address.ColonFreeGetsPort | main.go:316-317 | an address without ':' gets ":53" appended |
| Address.BracketedGetsPort | main.go:305-309 | `[x]` becomes `[x]:53` |
| Address.ColonWithoutBracketUnchanged | main.go:300-303 | an address with a ':' and no ']' is returned unchanged, bare IPv6 literals included |
| Address.BracketingNeedsCloseBracket | main.go:300-314 | the bracketing branch is taken only for addresses that contain ']' and more than one ':' |
| Address.BracketingExample | main.go:300-314 | `a:b:]` (a `]` last, two `:`, not of the form `[...]`) is bracketed to `[a:b:]]:53` |
| Address.IPv4Examples | main.go:298-318 | `8.8.8.8` becomes `8.8.8.8:53`, and `8.8.8.8:53` is unchanged |
| Address.IPv6Examples | main.go:298-318 | `2001:db8::1` is unchanged, and `[2001:db8::1]` becomes `[2001:db8::1]:53` |
| Address.ParsePieces | main.go:283-291 | never more servers than pieces |
| Address.ParsePiecesEmpty | main.go:283-291 | no server is parsed exactly when every piece trims to blank, which covers empty, blank and all-comma input |
| Address.NonBlankEmpty | main.go:284-285 | no piece is kept exactly when every piece trims to blank |
| Address.ParsePiecesElements | main.go:283-291 | every parsed server is the normalised, trimmed form of some non-blank piece, whose position it returns |
| Address.ParsePiecesNonBlank | main.go:283-291 | parsing yields exactly one server per non-blank piece, in input order, each the normalised trimmed piece |
| Address.NonBlank | main.go:285-286 | every kept piece is non-blank after trimming |
| Address.NonBlankMembers | main.go:285-286 | a piece is kept exactly when it is one of the pieces and does not trim to blank |
| Address.NonBlankAppend | main.go:283-291 | selection works piece by piece, so the kept pieces are in input order |
| Address.NonBlankKeepsAll | main.go:285-286 | pieces that are all non-blank are all kept, unchanged and in order |
| Address.ParseUpstreamServers | main.go:278-295 | the loop computes `ParsePieces` of the split input, gives at most one server per comma-separated piece, and every server has a port |
| Ranking.LessIsStrictWeakOrder | main.go:109-119 | the comparator is irreflexive and transitive, and incomparability is transitive, as `sort.Slice` requires |
| Ranking.RankedMeaning | main.go:109-119 | sorted by the comparator means reachable before unreachable, and non-decreasing speed within each group |
| Ranking.SortResults | main.go:109-119 | the array is sorted by the comparator and is a permutation of its old contents |
| Ranking.RankProbes | main.go:106-119 | the ranked results are sorted and are a permutation of the probe results |
| Ranking.Less | main.go:109-119 | definition: the comparator handed to `sort.Slice`, characterised by `LessIsStrictWeakOrder` and `RankedMeaning` |
| Ranking.ReachableServers | main.go:152-156 | definition: the servers of the reachable results in order, the list both ranking passes build (also main.go:202-206) |
| Ranking.CountReachable | main.go:152-153 | the number of reachable results, which is the length of the installed list, and at most the number of results |
| Ranking.ReachableServersAppend | main.go:152-156 | the installed list is built result by result, in order |
| Ranking.ReachableServersPermutation | main.go:150-156 | permuting the results permutes the installed servers, so the installed set does not depend on the sort's tie-breaking |
| Ranking.ReachablePrefix | main.go:109-119 | after sorting, the first `CountReachable` results are reachable and the rest are not |
| Ranking.AllReachableServers | main.go:152-156 | results that are all reachable install every server, in order |
| Ranking.NoneReachableServers | main.go:152-156 | results that are all unreachable install nothing |
| Ranking.RankedReachablePrefix | main.go:150-156 | after sorting, the reachable results are a prefix, and the installed list is exactly their servers in that order, fastest first |
| Ranking.CursorFor | main.go:151-158 | the new cursor is within the new list; it is the last position of the old current server when that server is listed, and 0 otherwise |
| Upstream.Advance | main.go:326 | the cursor moves one step and wraps from the last position to 0 |
| Upstream.Pos | main.go:349 | `(currentIndex + i) % len` is a position in the list, equal to `cur + i` or `cur + i - len` |
| Upstream.Visit | main.go:320-328 | definition: the servers `k` successive round-robin calls return; there are `k` of them |
| Upstream.VisitAt | main.go:320-328 | the `j`-th of successive round-robin calls returns the server `j` positions after the start |
| Upstream.RoundRobinVisitsAll | main.go:320-328 | one full cycle of round-robin calls returns every listed server as often as it is listed |
| Upstream.Candidates | main.go:336-358 | the positions tried, the cursor first and then the following positions wrapping around, are `m` pairwise distinct positions: no upstream is tried twice |
| Upstream.CandidatesCover | main.go:348-349 | every position is among the first `len` candidates |
| Upstream.FirstAnswer | main.go:338-359 | the first candidate offset that replies, with every earlier candidate failed; none exactly when every candidate fails |
| Upstream.FirstAnswerExists | main.go:338-359 | some candidate replies exactly when some list position replies |
| Upstream.Registry.constructor | main.go:23-24 | the globals start as an empty list with cursor 0 |
| Upstream.Registry.Start | main.go:186-213 | fails exactly when no valid upstream is parsed; the cursor is 0; with more than one upstream the list becomes the reachable servers in ranked order, or stays as parsed when none is reachable |
| Upstream.Registry.PeriodicRank | main.go:146-169 | the list becomes the reachable servers in ranked order and the cursor follows the old current server (else 0); with nothing reachable, list and cursor are unchanged |
| Upstream.Registry.Next | main.go:320-328 | returns the current server and advances the cursor with wrap-around, or returns "" with nothing changed on an empty list |
| Upstream.Registry.Forward | main.go:330-365 | tries distinct candidates in order, at most `len` of them, all but the last failed; on the first reply it returns it and moves the cursor to that position, which is unchanged when the preferred server replies; on total failure the cursor is unchanged and the error is the preferred server's |
| Upstream.Registry.HandleDNSRequest | main.go:250-276 | when every upstream fails the reply is SERVFAIL with no answers and the query's question, and the cursor is unchanged; otherwise the cursor moves to the first candidate that replied (unchanged when the preferred upstream replied) and the reply is that upstream's filtered response |
| DnsMessage.WithoutAAAA | main.go:621-629 | definition: the non-AAAA answers in order, characterised by the `WithoutAAAA` lemmas below |
| DnsMessage.WithoutAAAAMembers | main.go:621-629 | a record survives the filter exactly when it is a non-AAAA answer |
| DnsMessage.WithoutAAAAAppend | main.go:621-629 | the filter works record by record and keeps the answers' order |
| DnsMessage.WithoutAAAAKeepsClean | main.go:621-629 | answers without AAAA records pass through unchanged |
| DnsMessage.WithoutAAAAIdempotent | main.go:621-629 | filtering twice is filtering once |
| DnsMessage.FilterAnswers | main.go:619-631 | the loop keeps exactly the non-AAAA answers in order, and its count of skipped AAAA records is the number of dropped answers, which is 0 exactly when there is no AAAA answer |
| DnsMessage.FilterIPv6Records | main.go:608-658 | the question is the query's; authority and additional sections are copied; the answers are the non-AAAA answers in order; the code is NXDOMAIN exactly when an AAAA query has no answers left or the upstream said NXDOMAIN, and otherwise it is the upstream's |
| DnsMessage.FilterIPv6RecordsIdempotent | main.go:608-658 | filtering an already filtered response changes nothing |
| DnsMessage.FilterScenarios | main.go:633-651 | an A query answered with A and AAAA records keeps the A record and the code; an AAAA query with only AAAA answers becomes NXDOMAIN |
| DnsMessage.Respond | main.go:263-275 | when all upstreams fail, the reply is a server failure with no answers and the query's question; otherwise it is the filtered upstream response |

## Left out

- Service install, uninstall, start and stop, systemd unit writing and `exec.Command` (main.go:368-606): these are OS side effects.
- Flag parsing, `debugLog`/`log.Printf` output, and signal handling and shutdown: these are I/O.
- The UDP exchanges of `testDNSServerSpeed` and `forwardToUpstream`, and `ListenAndServe`: these are network I/O. Probe results and per-position exchange outcomes are inputs instead, and the 3 s and 5 s timeouts are not modelled.
- Ranking passes take their probe results as given: the model does not tie them to the servers in the current list.
- The goroutines, mutex and WaitGroup of the probe phase, the ticker loop, and the interval gating (`test-interval`, `speedTestDone`): these are concurrency and timing. A periodic pass is one call of `PeriodicRank`.
- Data races between request handlers and the periodic pass on the unsynchronised globals: the model is sequential.
- Go's pattern-defeating quicksort: an insertion sort with the same postconditions (sorted by the comparator, a permutation) stands in for it. Which of two equivalent results comes first is not modelled.
- `time.Duration` is a natural number of ticks. A negative duration cannot arise from `time.Since`.
- DNS wire details: `SetReply`, `Compress`, message IDs and header flags are dropped. A reply is the query's question with the remaining sections.
- The text of the all-failed error: `AllFailed` carries the underlying error of the preferred server, not the wrapping message.
- `IsSpace` covers the code points Go's `unicode.IsSpace` accepts. Strings are sequences of characters, not UTF-8 bytes.
- Upstream.Registry.PeriodicRank: requires a non-empty list. The code only reads `upstreamList[currentIndex]` when some result is reachable, and the periodic pass runs only after start-up has left more than one upstream.
