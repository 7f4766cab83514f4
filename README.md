# whois-go in Dafny

A model of the whois-go command-line client: for each domain named on the
command line it opens a TCP connection to a WHOIS server (port 43 of
`whois.iana.org` unless told otherwise), sends the domain followed by CRLF,
reads the answer line by line and, when a line of the form
`whois server: <host>` names another server, starts the same query over
against that server. Reading stops at the end of the stream, on a read error,
or once the complete lines read hold 32 KiB. The results are kept in a map keyed by
domain. The process exits with status 1 when no domain is given or when
every query failed.

The project has six modules:

- `Wrappers` (wrappers.dfy): the `Option` type.
- `AsciiText` (text.dfy): `strings.ToLower` and `strings.TrimSpace` on ASCII.
- `Redirect` (redirect.dfy): the redirect test applied to every line.
- `Wire` (wire.dfy): the network as an oracle, and the line reader (`bufio.Reader.ReadString('\n')`).
- `Whois` (query.dfy): one query with its redirect chain. The declarative reading `Query` and `HopOf` is the specification. The imperative `PerformSingleWhoIsQuery` and `ReadResponse` are proved equal to it.
- `Batch` (batch.dfy): the loop over the domains, the map of results, and the exit status.

The network is a function value `Network = (server, port, bytes written) -> Conn`.
A `Conn` says that the dial fails, that the write fails, or that the server
serves a finite stream which ends cleanly or with a read error. The
redirect chain in the program is unbounded. Here it is bounded by `fuel`, the
number of connections a query may open. A query that would need more ends
`Unfinished`, which is not an error the program knows. The redirect test is
a parameter `rule` of the declarative layer, so that the properties of the
reading loop hold for any test. The program's own test is `Redirect.FollowTarget`.

Two consequences of the code are worth stating:

- The target is cut 13 characters into the original, untrimmed line, so white space before the prefix shifts the cut (see `HintAfterIndent` and `IndentedBlankHintRedirects`).
- Only a redirect to the server being queried is refused, so two servers naming each other recurse without bound, holding one open connection per hop (see `RedirectCycleNeverFinishes`).

## Model

| member | source | states |
|---|---|---|
| AsciiText.ToLowerAt | main.go:74 | lower-casing works character by character: each letter A-Z is folded to a-z and every other character is kept |
| AsciiText.ToLowerAppend | main.go:74 | lower-casing distributes over concatenation |
| AsciiText.TrimSpace | main.go:74 | the trimmed string is no longer than the input; it is empty, or it starts and ends with a non-space character |
| AsciiText.TrimSpaceKeepsNonSpace | main.go:74 | a string with any non-space character does not trim to the empty string |
| AsciiText.TrimSpacePadded | main.go:76 | a core that starts and ends with a non-space, padded with white space on both sides, trims to exactly that core |
| Redirect.RedirectTarget | main.go:76 | the target is at least 13 characters shorter than the line it comes from (where the cut falls is stated by `HintAtLineStart` and `HintAfterIndent`) |
| Redirect.FollowTarget | main.go:74-80 | a followed target comes from a hint line, is that line's target, and is neither empty nor the current server; a hint that is not followed names the empty string or the current server |
| Redirect.HintIgnoresCase | main.go:74-75 | a line and its lower-cased form are hints alike |
| Redirect.PrefixSpelling | main.go:75 | every letter-case spelling of `whois server:` has 13 characters and ends in a non-space followed by ':' |
| Redirect.IndentedLineIsHint | main.go:74-75 | white space, then the prefix in any letter case, then anything, is a hint |
| Redirect.HintAfterIndent | main.go:74-76 | for such a line with at most 13 leading white-space characters, the target keeps the last characters of the prefix, one for each leading space; with any indentation the target is never empty |
| Redirect.HintAtLineStart | main.go:74-79 | a hint at the very start of the line names its trimmed remainder, and it is followed exactly when that remainder is neither empty nor the current server |
| Redirect.BlankHintIgnored | main.go:76-77 | a hint at the start of the line with a blank value is not followed |
| Redirect.TwoBlankIndentTarget | main.go:76 | the same hint indented by two blanks has as its target the last two characters of the prefix (`r:` in its case) |
| Redirect.IndentedBlankHintRedirects | main.go:74-78 | that indented blank hint is followed, to the server `r:`, unless the current server has that name |
| Wire.QueryLine | main.go:57 | the bytes written are the domain followed by CR LF |
| Wire.NewlineFrom | main.go:66 | the scan from position i stops at a '\n' or at the end of the stream, never before i |
| Wire.BeforeNewline | main.go:66 | no '\n' lies before the index the scan returns |
| Wire.NewlineIndexIs | main.go:66 | the scan returns the first '\n', or the length of the stream when there is none |
| Wire.LinesAreLines | main.go:66 | every piece the reader returns without error ends in '\n' and holds no other '\n' |
| Wire.LinesCover | main.go:65-69 | a stream is its complete lines joined, followed by the fragment after the last '\n' |
| Wire.FragmentHasNoNewline | main.go:66-68 | that fragment holds no '\n' |
| Wire.LinesIgnoreFragment | main.go:66-68 | text without '\n' at the end of the stream adds no line: the partial last line is never appended |
| Wire.CompleteStreamHasNoFragment | main.go:66-68 | a stream that is empty or ends in '\n' leaves no fragment |
| Wire.CompleteStreamIsItsLines | main.go:65-71 | such a stream is exactly its lines joined |
| Wire.LinesCons | main.go:66 | a complete line in front of a stream is its first line |
| Wire.LinesOfJoined | main.go:65-71 | complete lines joined in front of a stream are read back as those lines, then the stream's own lines |
| Wire.JoinedLinesEnd | main.go:71 | complete lines joined are empty or end in '\n' |
| Wire.ReadString | main.go:66-69 | one `ReadString('\n')` from a position: it succeeds exactly when a '\n' follows; on success it returns the next line as `Lines` cuts it and advances past it; otherwise the position moves to the end and no line is left |
| Wire.LineFound | main.go:66 | when the scan stops at a '\n', the text up to and including it is a complete line and is the first of the stream's remaining lines |
| Wire.NoLineLeft | main.go:66-68 | when the scan reaches the end, no '\n' and no line remain |
| Whois.ReadLimit | main.go:82-84 | the number of lines read, redirects aside: at least one line when there is one; every shorter prefix stays under 32 KiB; when lines remain unread, the lines read reach 32 KiB |
| Whois.FirstHint | main.go:73-80 | the index of the first line the redirect test follows, or the number of lines |
| Whois.BeforeFirstHintFrom | main.go:73-80 | no line before that index is followed |
| Whois.FirstHintIs | main.go:73-80 | a line that is followed, with no followed line before it, is the first hint |
| Whois.HopOf | main.go:65-87 | a finished response is a prefix of the lines joined; a redirect goes to a target the test gave for one of the lines |
| Whois.ScanMeaning | main.go:65-85 | the step-by-step loop (append, test the hint, test the ceiling) ends where the declarative reading says |
| Whois.Query | main.go:45-88 | a query that ends in an error has an empty response; without fuel no query finishes |
| Whois.ReadResponse | main.go:62-87 | the reading loop returns exactly the hop the declarative reading gives for the served lines |
| Whois.PerformSingleWhoIsQuery | main.go:45-88 | the recursive method returns exactly the outcome of `Query` under the program's redirect test |
| Whois.ConnectionFailures | main.go:46-60 | a failed dial or a failed write ends the query with an empty response and that error, whatever is served elsewhere |
| Whois.QueryFinishes | main.go:62-87 | lines that finish the response give a result with that response and no error |
| Whois.QueryFollows | main.go:78 | lines that redirect give the target's outcome, with one connection fewer |
| Whois.HopTargetIsNew | main.go:77-78 | under the program's test a followed redirect never targets the empty name or the server that named it |
| Whois.RedirectCycleNeverFinishes | main.go:77-78 | two servers that redirect to each other never finish, whatever the fuel: the program recurses without bound, holding one open connection per hop |
| Whois.FuelMonotone | main.go:78 | more fuel never changes a finished outcome |
| Whois.ReadsPast | main.go:82-84 | while the lines read stay under 32 KiB, the next line is read |
| Whois.HopAtHint | main.go:71-79 | the first followed hint read under the ceiling decides the hop |
| Whois.HopAtCeiling | main.go:71-84 | the line that brings the response to 32 KiB is the last one read, and the response ends with it |
| Whois.RedirectReplacesResponse | main.go:71-79 | a followed redirect replaces the whole result, response and error, with the target's: the lines read before the hint are dropped |
| Whois.RedirectToDeadServer | main.go:46-48 | a redirect to a server that cannot be dialled ends the query with an empty response and the connect error |
| Whois.CeilingOvershoot | main.go:71-84 | the ceiling is tested after the append: the line that crosses 32 KiB is kept whole, so the response may exceed the ceiling, and nothing after it is read |
| Whois.LongResponseIsCut | main.go:82-87 | lines without a redirect that reach 32 KiB give a successful response of at least 32 KiB, taken from the start of the stream |
| Whois.NoHintResponse | main.go:65-87 | with complete lines under the ceiling and without a redirect, the response is every complete line served, with no error, however the stream ended; only the partial last line is lost, and a stream ending in '\n' comes back whole |
| Whois.ResponseIsLines | main.go:65-87 | a successful response is empty or ends in '\n' |
| Whois.EndingWith | main.go:66-69 | changing how each stream ends changes nothing about whether a server serves |
| Whois.ReadErrorIsEndOfStream | main.go:66-69 | along the whole redirect chain, a stream cut by a read error gives the same outcome as one that ended cleanly |
| Batch.LastIndex | main.go:36-38 | the position of the last occurrence of a domain in the list |
| Batch.Record | main.go:37-38 | storing a result adds its domain to the keys, replaces any earlier result for it and keeps the other entries |
| Batch.BatchSnoc | main.go:36-39 | one more domain extends the batch by its query |
| Batch.PrefixFinishes | main.go:36-39 | the batch over the first k domains finishes exactly when each of their queries finishes |
| Batch.BatchFinishes | main.go:33-42 | the batch finishes exactly when every query finishes |
| Batch.BatchContents | main.go:33-42 | the keys of the map are exactly the domains given, and each domain's entry is the result of its last query |
| Batch.RecursiveWhoIsQuery | main.go:33-42 | the loop returns exactly the batch the declarative definition gives |
| Batch.Errored | main.go:132-136 | the errored domains are among the keys |
| Batch.CountStep | main.go:132-136 | visiting one more entry adds one to the errored count exactly when its result carries an error |
| Batch.AllErrored | main.go:141 | the errored count equals the number of results exactly when every result carries an error |
| Batch.PrintResults | main.go:130-144 | the exit code is 0 or 1, and it is 1 exactly when the errored count equals the number of results, which holds exactly when every result errored (the empty map included) |
| Batch.Run | main.go:90-107 | the program's exit status: 1 without any domain, else the status `printResults` gives for the batch |
| Batch.ExitOneIffEveryDomainFailed | main.go:130-143 | a finished run over at least one domain exits with 1 exactly when the last query of every domain ended in an error |

## Left out

- Network I/O is an oracle. The dial, the write and the stream a server serves are answers of a function given as a parameter. Time-outs, partial writes and concurrency are not modelled.
- The error texts built with `fmt.Errorf` are not modelled: an error is one of `ConnectFailed` or `WriteFailed`, and the underlying cause is not kept.
- Closing the connection, and the log line when the close fails, are left out. The close is deferred, so it runs only after a redirect's recursive call returns.
- The unbounded redirect recursion is bounded by `fuel`. `Unfinished` stands for a chain longer than the fuel allows, including an endless one. The program has no such outcome: it recurses without bound.
- Unicode is left out. `ToLower` folds only ASCII letters, and `TrimSpace` trims only ASCII white space. Go's full Unicode case mapping and white-space set are not modelled.
- Text is modelled as characters, not bytes. The 32 KiB ceiling counts characters, which equals the byte count only for ASCII.
- The port is passed to the oracle as a number. The `host:port` address string is not built.
- Printing each response, and the logging with `slog`, are not modelled. `PrintResults` visits the map in an arbitrary order, as Go's map iteration does, and keeps only the count.
- `parseOptions` is left out: the flags `-i`, `-h` and `-p` and their defaults. `Options` comes in as a value. `showRedirects` is carried but, as in the program, never read.
- `os.Exit` is left out: the exit status is returned as a value.
- Query and RedirectCycleNeverFinishes: open connections are not modelled. Every hop of a redirect chain keeps its connection open until the chain returns, so a long or endless chain can exhaust sockets (a later dial then fails) or the stack. The oracle is a pure function of server, port and query line and cannot express this.
- Served streams are finite. A server that sends an endless line without '\n' makes `ReadString` buffer without bound, and the 32 KiB test after each line is never reached; the model does not capture that.
- Between queries the network is a sequence with one oracle per query, so a server may answer differently for a repeated domain. Within one redirect chain a single oracle is used.
