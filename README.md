# hostsdns resolution engine in Dafny

hostsdns is a small DNS responder. It reads a hosts file, keeps a table from
host name to address record and answers each query from that table. A
background step re-reads the file once a second when its modification time
has moved forward. This project models the engine and proves its contracts.
That engine has three parts:

- **the hosts-file parser**: `ReadHostsFile` in `pkg/config/config.go`, with a
  copy `readHostsFile` in `main.go`;
- **the server state**: `DNSServer` with `InitServer`, `LoadHostsFile` and
  `IsHostsFileModified` in `pkg/server/server.go`, with copies `init`,
  `loadHostsFile` and `isHostsFileModified` in `main.go`. The once-a-second
  reload step is in the goroutine of `main` (`main.go:30-50`);
- **the query responder**: `handleDNSQuery` in `pkg/server/server.go`, with a
  copy `serverDns` in `main.go`.

`main.go` repeats the engine of `pkg/` statement for statement. It differs
only in identifier names. One model covers both copies, and the table below
cites the `pkg/` lines:

| pkg/ | main.go copy |
|---|---|
| `pkg/config/config.go:16-65` | `main.go:196-246` |
| `pkg/server/server.go:32-39` | `main.go:79-86` |
| `pkg/server/server.go:41-59` | `main.go:88-107` |
| `pkg/server/server.go:61-70` | `main.go:109-118` |
| `pkg/server/server.go:96-135` | `main.go:143-183` |

Modules, in dependency order:

- `Wrappers`: `Option` and `Result`.
- `Strings`: string functions.
  - `TrimSpace`, `HasPrefix` and `Fields` are the Go `strings` functions the parser calls, with white space as in `unicode.IsSpace`. Lemmas state what each returns.
  - The `Fields` lemmas cover any layout: words separated by runs of any white space, with any white space before and after, come back as the words.
  - `Split` and `Join` describe the address syntax (fields between dots and colons). The parser itself does not call them.
- `Address`: `net.ParseIP`, `To4` and `To16`.
  - The rules are those of the `net/netip` parser.
  - Dotted quads: four decimal fields, no leading zeros, each at most 255.
  - Colon form: groups of one to four hex digits, one `::`, and an optional dotted-quad tail.
  - Zones are refused.
  - The result is 16 bytes, or the empty sequence for Go's nil.
- `AddressProperties`:
  - dotted quads round-trip;
  - `::ffff:a.b.c.d` reads as the IPv4 address;
  - `::1` and the full eight-group colon form read as their sixteen bytes;
  - accepted literals use only hex digits, dots and colons.
- `Record`: `DNSRecord(ip, ipType)` with `DNSType = A | AAAA`.
- `Config`: the parser.
  - `ParseLines` is the table a sequence of lines builds.
  - `ReadHostsFile` is the imperative double loop, proved equal to it.
  - The file system is an input, `HostsFile = Unopenable | Scanned(lines, scanFailed)`.
- `ConfigProperties`: which keys the table holds, where each record comes from, last write wins, skipped lines, and one-line round trips for an address and names laid out with any white space.
- `Dns`: the DNS message fields the responder touches, and `Reply`, the reply as a function of the request and the table.
- `Server`: the server.
  - `ServerState` with `Load`, `Modified` and `Tick` as functions.
  - The class `DNSServer` holds fields `hosts` and `lastModifiedTime`. Its methods update those fields and are proved against the functions.
  - `ReloadTick` is the body of the reload loop.
  - `stat` results are `Option<int>`, with `None` for a failure. Times are integers, and Go's zero time is 0.
- `ServerProperties`: the load is all-or-nothing, the reload step, and answering after a load.

On a miss, the source keeps the request's QR bit, although section 4.1.1
of RFC 1035 has QR set to 1 in every response. The model follows the code:
a miss reply keeps QR, AA, ANCOUNT and OPCODE as they were in the request.

## Model

| member | source | states |
|---|---|---|
| Strings.TrimSpaceSpec | pkg/config/config.go:27 | TrimSpace is empty iff the line is all white space; otherwise it starts and ends with non-space and is an infix of the line with only white space around it |
| Strings.TrimLeftSpec | pkg/config/config.go:27 | the leading trim removes a white-space prefix and stops at a non-space character |
| Strings.TrimRightSpec | pkg/config/config.go:27 | the trailing trim removes a white-space suffix and stops at a non-space character |
| Strings.SpanNonSpaceSpec | pkg/config/config.go:34 | a field runs to the next white space or to the end of the line and holds no white space |
| Strings.FieldsAreWords | pkg/config/config.go:34 | every field of strings.Fields is non-empty and free of white space |
| Strings.FieldsOfJoin | pkg/config/config.go:34 | Fields gives back the non-empty space-free words that a blank joins |
| Strings.FieldsOfInterleave | pkg/config/config.go:34 | Fields gives back the non-empty space-free words separated by non-empty runs of any white space, with any white space (or none) before and after |
| Strings.FieldsAfterSpace | pkg/config/config.go:34 | leading white space adds no field |
| Strings.FieldsBeforeSpace | pkg/config/config.go:34 | trailing white space adds no field |
| Strings.FieldsOfTrimSpace | pkg/config/config.go:27-34 | trimming a line before splitting it does not change its fields |
| Strings.FieldsHead | pkg/config/config.go:30-34 | a string starting with a non-space character has a first field starting with that character |
| Strings.TrimSpaceKeeps | pkg/config/config.go:27 | a line with non-space ends is unchanged by TrimSpace |
| Strings.TrimSpace | pkg/config/config.go:27 | strings.TrimSpace; its contract is stated by TrimSpaceSpec (white space removed at both ends, empty iff the line is all white space) |
| Strings.HasPrefix | pkg/config/config.go:30 | strings.HasPrefix; HasPrefixHash states that a line has the comment prefix iff its first character is '#' |
| Strings.HasPrefixHash | pkg/config/config.go:30 | a line starts with "#" iff it is non-empty and its first character is '#' |
| Strings.Fields | pkg/config/config.go:34 | strings.Fields; its contract is stated by FieldsAreWords (non-empty, space-free fields), FieldsOfInterleave (words separated by any white-space runs are those words) and FieldsOfTrimSpace |
| Address.ParseIP | pkg/config/config.go:45 | net.ParseIP gives nil or a 16-byte address |
| Address.To4 | pkg/config/config.go:47 | net.IP.To4; ViewsOf16 states that for a 16-byte address it is non-nil iff the first 12 bytes are the IPv4-in-IPv6 prefix, and then it is the last four bytes |
| Address.To16 | pkg/config/config.go:50 | net.IP.To16; ViewsOf16 states that a 16-byte address is its own To16 |
| AddressProperties.ViewsOf16 | pkg/config/config.go:45-50 | for a 16-byte address To16 is the address and To4 is non-nil iff it starts with the IPv4-in-IPv6 prefix, when it is the last four bytes |
| AddressProperties.ParseFormatIPv4 | pkg/config/config.go:45-47 | the dotted-quad spelling of any four bytes parses back to those bytes |
| AddressProperties.FormatParseIPv4 | pkg/config/config.go:45-47 | every accepted dotted quad is the canonical spelling of the bytes it parses to |
| AddressProperties.DottedQuadIsIPv4 | pkg/config/config.go:45-47 | ParseIP of a dotted quad is the IPv4-in-IPv6 form and To4 returns the four bytes |
| AddressProperties.MappedIPv4IsIPv4 | pkg/config/config.go:45-47 | ::ffff:a.b.c.d parses to the same 16 bytes as a.b.c.d and To4 returns the four bytes |
| AddressProperties.LoopbackIsIPv6 | pkg/config/config.go:45 | ::1 parses to fifteen zero bytes followed by a one |
| AddressProperties.ParseFormatIPv6 | pkg/config/config.go:45 | any eight 16-bit groups written as four hex digits each and joined with ':' parse back to their sixteen big-endian bytes |
| AddressProperties.AcceptedAddressChars | pkg/config/config.go:45 | every literal net.ParseIP accepts consists of hex digits, dots and colons |
| AddressProperties.ZoneRefused | pkg/config/config.go:45 | a literal with a '%' zone is refused (nil) |
| Config.InsertNames | pkg/config/config.go:42-52 | writing h+"." then h for each name: exactly the names' two keys are added or overwritten with the record, every other key keeps its value, and well-formedness is kept |
| Config.Classify | pkg/config/config.go:45-56 | the switch on net.ParseIP; ClassifyIPv4 and ClassifyIPv6 state A iff To4 is non-nil and AAAA iff the address parses and is not IPv4, and MappedIPv4IsA that the IPv4 test comes first |
| Config.LineEntry | pkg/config/config.go:27-41 | what one line contributes; EntryOfFields, EntryOfLine and SkippedHasNoEntry state its contract |
| Config.Parse | pkg/config/config.go:19-64 | the file's table or its error; ReadHostsFile is proved equal to it (OpenError, ScanError, or the table of the lines) |
| Config.ParseLines | pkg/config/config.go:26-58 | every record in the parsed table holds an address whose classification is the record's type |
| Config.EntryOfFields | pkg/config/config.go:27-41 | a trimmed, non-comment line with at least two fields and a classifiable first field contributes that field, its type and the remaining fields |
| Config.LineOfFields | pkg/config/config.go:27-56 | one line acts on the table in the source's order of tests: blank, comment and short lines leave it unchanged, otherwise its names are inserted with the classified address or nothing for an unclassifiable one |
| Config.ReadHostsFile | pkg/config/config.go:16-65 | the double loop returns OpenError when the file cannot be opened, ScanError after a scan failure, and otherwise exactly the table ParseLines builds from the lines |
| ConfigProperties.ParseLinesKeys | pkg/config/config.go:41-52 | a key is in the table iff some line has a classifiable address and defines it as a name or a name followed by "." |
| ConfigProperties.LastWriteWins | pkg/config/config.go:26-52 | a key's record is the one of the last line defining it |
| ConfigProperties.KeyProvenance | pkg/config/config.go:41-52 | every key comes from a line that defines it with no later line defining it, and holds that line's first field verbatim and its type |
| ConfigProperties.EntryOfLine | pkg/config/config.go:34-52 | a contributing line has at least two fields; its address is the first field verbatim, its names the rest, its type the field's classification |
| ConfigProperties.SkippedHasNoEntry | pkg/config/config.go:27-39 | blank, comment, short and unclassifiable lines contribute nothing |
| ConfigProperties.SkippedLineIgnored | pkg/config/config.go:27-56 | inserting a skipped line anywhere in a file changes neither the table nor the success of the parse |
| ConfigProperties.NameResolvesBothForms | pkg/config/config.go:42-52 | a name of a line resolves, bare and with a trailing dot, to that line's record unless a later line redefines it |
| ConfigProperties.AddressIsOneField | pkg/config/config.go:41-45 | an address that classifies is non-empty, holds no white space and does not start with '#' |
| ConfigProperties.AddressAndNamesLine | pkg/config/config.go:27-52 | a line of an accepted address and one or more space-free names, separated by runs of any white space and with any white space around, contributes that address, its type and exactly those names |
| ConfigProperties.HostsLineRoundTrip | pkg/config/config.go:26-52 | parsing a one-line file of an address and names laid out with any white space maps every name h, as h and as h+".", to (ip, its type) |
| ConfigProperties.ClassifyIPv4 | pkg/config/config.go:45-49 | a line's address is type A iff ParseIP accepts it and its first 12 bytes are the IPv4-in-IPv6 prefix |
| ConfigProperties.ClassifyIPv6 | pkg/config/config.go:45-52 | a line's address is type AAAA iff ParseIP accepts it and it is not an IPv4 address |
| ConfigProperties.DottedQuadIsA | pkg/config/config.go:45-49 | every dotted quad is classified A |
| ConfigProperties.MappedIPv4IsA | pkg/config/config.go:45-52 | the IPv4 test comes first: ::ffff:a.b.c.d is classified A, not AAAA |
| ConfigProperties.LoopbackIsAAAA | pkg/config/config.go:50-52 | the address ::1 is classified AAAA |
| ConfigProperties.FullColonFormClass | pkg/config/config.go:46-52 | a full eight-group colon form is classified A exactly when its bytes start with the IPv4-in-IPv6 prefix, and AAAA otherwise |
| Dns.TypeCode | pkg/server/server.go:117 | the answer type is TYPE 1 exactly for A records and 28 exactly for AAAA records |
| Dns.HitAnswer | pkg/server/server.go:116-121 | the answer for a found name; HitAnswerFits and HitReplyFits state its name and address, and that its type is A exactly when the address has an IPv4 form and AAAA otherwise |
| Dns.MissAnswer | pkg/server/server.go:102-106 | the placeholder answer of a miss, type A, class IN, TTL 0; Dns.Reply states that a miss answers with exactly it |
| Dns.Reply | pkg/server/server.go:96-135 | the questions are kept; on a hit QR and AA are set, ANCOUNT is 1, OPCODE is Notify, RCODE is NoError and one answer is appended; on a miss RCODE is NXDomain, the answers are exactly the placeholder A/IN/TTL 0 record and QR, AA, ANCOUNT and OPCODE are unchanged |
| Dns.ReplyCodeIff | pkg/server/server.go:99-131 | the reply says NoError iff the question's name is in the table and NXDomain iff it is not |
| Dns.ReplyDependsOnlyOnName | pkg/server/server.go:99 | the reply depends on the table only through the entry of the first question's name, looked up verbatim |
| Dns.HitAnswerFits | pkg/server/server.go:116-121 | for a record the parser accepted, the answer's address is not nil and fits its type (16 bytes, A exactly when it has an IPv4 form, AAAA otherwise) |
| Dns.HitReplyFits | pkg/server/server.go:115-131 | from a parsed table, a hit adds exactly one answer, named as the question, carrying ParseIP of the stored address, whose type fits its bytes |
| Server.Load | pkg/server/server.go:41-59 | loading succeeds iff reading and stat succeed, and then both the table and the stat time are replaced together; on any error the state is unchanged and the first error is returned |
| Server.Modified | pkg/server/server.go:61-70 | a stat failure is an error; otherwise the result is a success whose value is whether the stat time is strictly after the stored one |
| Server.Tick | main.go:31-48 | one reload step; TickReloadsIff states that it reloads iff the file is newer and both the read and the stat succeed, and keeps the state otherwise |
| Server.DNSServer.constructor | pkg/server/server.go:17-22 | a new server has the given path and port, an empty table and the zero time |
| Server.DNSServer.LoadHostsFile | pkg/server/server.go:41-59 | the new fields and the error are those of Load on the old fields; a well-formed table stays well-formed |
| Server.DNSServer.InitServer | pkg/server/server.go:32-39 | the same state change and error as LoadHostsFile |
| Server.DNSServer.IsHostsFileModified | pkg/server/server.go:61-70 | (false, the stat error) on a stat failure, otherwise Modified's answer; the state is not changed |
| Server.DNSServer.HandleDNSQuery | pkg/server/server.go:96-135 | rewriting the request field by field gives exactly Reply of the request and the current table |
| Server.ReloadTick | main.go:30-50 | one tick of the reload loop changes the server exactly as Tick does: a reload only after a successful check that reports a change |
| ServerProperties.NotModifiedAfterLoad | pkg/server/server.go:50-69 | right after a successful load, the same stat time does not count as modified |
| ServerProperties.ModifiedAfterLoad | pkg/server/server.go:50-69 | after a successful load at time t, a later stat time counts as modified iff it is greater than t |
| ServerProperties.TickReloadsIff | main.go:31-48 | the tick replaces the state by (parsed table, second stat time) iff the first stat is newer, the read succeeds and the second stat succeeds; otherwise the state is unchanged |
| ServerProperties.TickKeepsStateOnError | main.go:33-45 | a stat failure, an unchanged file or a failed reload leaves the state as it was |
| ServerProperties.TickIdempotent | main.go:31-48 | with the file unchanged, a second tick changes nothing |
| ServerProperties.LoadKeepsValid | pkg/server/server.go:41-59 | loading keeps the table well-formed |
| ServerProperties.TickKeepsValid | main.go:30-50 | the reload step keeps the table well-formed |
| ServerProperties.AnsweredAfterLoad | pkg/server/server.go:96-133 | after loading a file, a query for a name of a line, bare or with a trailing dot, that no later line redefines is answered NoError with that line's address and type appended |

## Left out

- The UDP listener and receive loop (`Start`, `pkg/server/server.go:72-93`) are not modelled: they are network I/O, and the source discards their errors.
- The gopacket decoding and encoding and the panicking `response` (`pkg/server/server.go:137-147`) are not modelled: they are foreign codec calls. A message is a datatype with the fields the responder touches.
- The header field widths are not modelled. ANCOUNT, OPCODE and RCODE are naturals, with the constants of RFC 1035 and RFC 1996.
- The `time.Tick` goroutine and the `sync.RWMutex` are not modelled. The model has one sequential tick step, so it does not capture that `handleDNSQuery` reads the table without the read lock.
- Log output is not modelled. That includes the warnings for short lines and unknown address types, which affect nothing else.
- `os.Open`, `bufio.Scanner` and `os.Stat` are inputs. The file is unopenable, or a list of lines with or without a trailing scan error. A line longer than the scanner's buffer is one such scan error.
- `ModTime` is an integer, and Go's zero time is 0.
- Strings are sequences of code points. Go's byte strings with invalid UTF-8 are not modelled.
- `net.ParseIP` is modelled on the `net/netip` parser (`netip.ParseAddr`), which `net.ParseIP` delegates to in current Go releases. The older parser of `net.ParseIP` read hex groups of any length, so it accepted `00001::1`. The model refuses groups longer than four digits.
- Go releases before 1.17 accepted dotted quads with leading zeros. The model refuses them.
- Server.DNSServer.HandleDNSQuery: the model requires at least one question. The source indexes the first question unchecked and would panic on an empty list.
- Server.DNSServer.HandleDNSQuery: the reply is a new value. The source rewrites the request in place through an alias, and the request is not used afterwards.
- `cmd/hostdns/root.go` is not part of this model. It is flag wiring and file creation, and its reload loop repeats `main.go:30-50`.
- `pkg/server/interface.go` is not part of this model. It only declares an interface.
