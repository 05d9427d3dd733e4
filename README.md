# radsnmp: a verified model of FreeRADIUS's net-snmp pass_persist bridge

`radsnmp` sits between net-snmp's `pass_persist` protocol and a RADIUS
server. It reads `get`, `getnext`, `set` and `PING` commands from standard
input and turns each OID into RADIUS attribute pairs. SNMP table indexes
become index pairs. It sends the request with retries, then writes the reply
pairs back as varbinds (OID, type and value lines). This project models that
core in Dafny and proves what it does. It covers:

- `radsnmp_alloc`, with the request-id counter that wraps at 256.
- `radsnmp_pair_from_oid`, as a function over the attribute dictionary and
  as the in-place loop that inserts pairs into a request.
- `radsnmp_get_response` and `radsnmp_set_response`.
- The command table and its case-insensitive lookup.
- The command loop of `radsnmp_send_recv`, its `NEXT_LINE` reads and its
  retry loop.
- The loop in `main` that trims the shared secret read from a file.

Modules, one per concern:

- `Dict`: the read-only attribute tree.
- `Text`: decimal numbers and dotted OID text.
- `Pairs`: values and their text forms.
- `Packet`: the configuration and `radsnmp_alloc`.
- `OidParse`: `radsnmp_pair_from_oid`.
- `Response`: the get and set responses.
- `RoundTrip`: how the two directions fit together.
- `LineInput`: `NEXT_LINE`.
- `Session`: `radsnmp_send_recv` as written.
- `Retry`: the retry loop.
- `Intended`: the session as evidently intended.
- `Secret`: the secret file.

Imperative parts stay imperative and are proved against the functions that
specify them:

- `Packet.Conf` is a class whose `Alloc` updates the counter.
- `LineInput.Stdin` is a class whose `NextLine` consumes input.
- `OidParse.IndexLoop` inserts into a `Request`'s pair list.
- `Response.GetResponse`, `Retry.RetryLoop` and `Session.SendRecv` are the
  source's loops.
- `Secret.TrimInPlace` trims a `char` array in place.

Behaviour that belongs to library code, but on which radsnmp's results
depend, is modelled with the contract the code relies on:

- `fr_dict_attr_by_oid` and `fr_dict_oid_component`
- `fr_dict_attr_child_by_num` and `fr_dict_parent_common`
- `dict_print_attr_oid`
- `fr_pair_value_snprint` and `fr_pair_value_from_str`
- `fr_str2int` and `fgets`

Where the code and the written design disagree, the model follows the code:

- A server that never answers is fatal, not recoverable (lines 764-767).
- A get response that cannot be converted is fatal (lines 784-786).
- The id counter moves on once per pass of the loop, including PING and
  unknown commands (line 597), not once per request sent.
- `stop` is only read at the top of the loop and in `NEXT_LINE`, never
  between retries.

## Model

| member | source | states |
|---|---|---|
| Packet.NextId | src/main/radsnmp.c:148 | the masked increment stays below 256 and always changes the id |
| Packet.Conf.Alloc | src/main/radsnmp.c:139-155 | the new request is empty and carries the configured code and the old counter; the counter becomes its successor modulo 256 |
| Packet.IdAfterIsSum | src/main/radsnmp.c:147-148 | after n allocations the counter is the start plus n, modulo 256 |
| Packet.IdWrapsAfter256 | src/main/radsnmp.c:148 | the counter returns to its start after exactly 256 allocations and after no fewer |
| Text.Component | src/main/radsnmp.c:215 | a component is a non-empty digit run, ending the text or followed by '.', whose value fits an unsigned int |
| Text.ComponentOfNumber | src/main/radsnmp.c:215 | a printed number followed by '.' or by nothing reads back as that number and its length |
| Text.ParseOidText | src/main/radsnmp.c:211 | dotted text printed from numbers below 2^32 splits back into those numbers |
| Text.Int32TextIsNatText | src/main/radsnmp.c:429 | "%i" prints an index exactly as "%u" does when, and only when, it is below 2^31 |
| Dict.ChildByNum | src/main/radsnmp.c:222-240 | a child found has that number and that parent; when none is found, no child of the parent has the number |
| Dict.ParentCommon | src/main/radsnmp.c:389-395 | gives the first node exactly when it is a proper ancestor of the second |
| Dict.OidPath | src/main/radsnmp.c:410 | the numbers printed between an ancestor and a node: as many as the depth difference, ending with the node's own number |
| Dict.DescendOidPath | src/main/radsnmp.c:441 | following a printed path down from the ancestor reaches the node again |
| Pairs.ParseValue | src/main/radsnmp.c:316 | a parsed value always has the form the attribute's type holds |
| Pairs.ParseValueText | src/main/radsnmp.c:316 | a well-typed value, printed and parsed back, is the same value |
| Pairs.FindByDa | src/main/radsnmp.c:533 | the pair found is the first one with the attribute; none is found only when no pair has it |
| OidParse.AttrByOid | src/main/radsnmp.c:211-213 | a positive result is the whole text's length; otherwise minus the result is an offset within the text |
| OidParse.AttrByOidFails | src/main/radsnmp.c:213-216 | on failure the offset is a malformed component, or a number that names no child, and `attr` holds that number (the claim of the assert at line 216) |
| OidParse.AttrByOidResolves | src/main/radsnmp.c:211-212 | succeeds exactly when the text is a dotted list whose leading components lead down the tree; it then reports the node reached and the last number |
| OidParse.AttrByOidPrefix | src/main/radsnmp.c:211 | a prefix that leads down the tree is consumed, and the rest resolves from where it leads, offsets shifted by the prefix length |
| OidParse.AttrByOidUnknown | src/main/radsnmp.c:211 | a number that names no child, followed by more text, stops resolution at offset 0 |
| OidParse.TrimDot | src/main/radsnmp.c:200 | exactly one leading '.' is dropped, and only when present |
| OidParse.StopComponent | src/main/radsnmp.c:213-217 | where resolution stops inside the text, a well-formed component there is the reported number and is followed by '.' |
| OidParse.WalkStep | src/main/radsnmp.c:208-258 | one pass stops with success exactly when the rest of the text resolved, or with one of the five loop errors; otherwise it steps past the index to a `tlv` entry numbered 1 with an `integer` index pair |
| OidParse.IndexEntry | src/main/radsnmp.c:219-257 | a stop keeps the result, position, node and number and sets one of the loop errors; a step over the index gives a `tlv` entry numbered 1 and an `integer` index pair holding the index |
| OidParse.IndexEntryErrors | src/main/radsnmp.c:222-257 | no child 0 gives NoIndexAttr, a child 0 not `integer` IndexNotInteger, no child 1 NoEntryAttr, a child 1 not `tlv` EntryNotTlv, each exactly; when all hold, the pass enters child 1 with an index pair of child 0 holding the index |
| OidParse.WalkStepCases | src/main/radsnmp.c:211-257 | text resolved to its end stops with success; otherwise BadComponent exactly when the component where resolution stopped is malformed, and a well-formed one is the number reported and is handled as a table index |
| OidParse.IndexWalk | src/main/radsnmp.c:208-258 | the loop's result is success exactly when the last resolution was positive; it keeps the pairs it was given and appends only index pairs |
| OidParse.FromOidCases | src/main/radsnmp.c:259-320 | after the loop: a loop error is returned as is; UnknownLeaf exactly when the final number names no node, LeafIsTlv exactly when it names a `tlv`, both returning minus the loop's result with the index pairs kept; BadValue exactly when the value does not parse; on success the index pairs and a pair of the node named are appended |
| OidParse.Pass | src/main/radsnmp.c:208-258 | one pass in place: it says whether the loop breaks; on an index it appends exactly the index pair to the request, and otherwise nothing |
| OidParse.IndexLoop | src/main/radsnmp.c:208-258 | the in-place loop ends in the state IndexWalk gives, with exactly its index pairs appended to the request |
| OidParse.LeafOf | src/main/radsnmp.c:275-283 | a final 0 names the node reached; any other number names that node's child |
| OidParse.FromOid | src/main/radsnmp.c:184-321 | a NULL oid returns 0; loop errors and a bad value leave the list as it was; a leaf error keeps the index pairs and returns a negative length; on success the index pairs and then one leaf pair of a non-`tlv` attribute are appended |
| OidParse.PairFromOid | src/main/radsnmp.c:184-321 | the in-place translation leaves the request's pairs, the return value and the error that FromOid gives |
| OidParse.PathWalk | src/main/radsnmp.c:208-212 | the printed OID of a leaf below the root resolves in one pass to the leaf's parent and number |
| OidParse.FromOidPath | src/main/radsnmp.c:275-318 | the printed OID of a non-`tlv` leaf numbered other than 0 inserts just that leaf: with its placeholder, or with a value given as its printed text |
| OidParse.FromOidScalar | src/main/radsnmp.c:271-283 | a final ".0" inserts the node reached with its placeholder |
| OidParse.WalkStepIndex | src/main/radsnmp.c:213-257 | a pass that stops at a number under a table with an `integer` child 0 and a `tlv` child 1 steps over it with an index pair holding the number |
| OidParse.WalkStepLast | src/main/radsnmp.c:211-212 | a pass over a single number resolves it |
| OidParse.TableTextStops | src/main/radsnmp.c:211-213 | "<path to table>.<index>.<rest>" stops resolution exactly at the index |
| OidParse.IndexWalkTable | src/main/radsnmp.c:208-258 | text that stops at an index and ends with one number walks to the entry, with one index pair |
| OidParse.IndexedWalk | src/main/radsnmp.c:202-258 | the loop over "<path to table>.<index>.<leaf>" inserts one index pair and stops at the entry on the leaf number |
| OidParse.FromOidIndexed | src/main/radsnmp.c:202-320 | "<table>.<index>.<leaf>" inserts the index pair holding the index and then the leaf of the entry: with its placeholder, or with a value given as its printed text |
| OidParse.IndexedOidMisread | src/main/radsnmp.c:208-257 | "<table>.<index>.1.<leaf>", where the entry has no child 0 or 1, stops at the "1" for want of an index attribute: result 0, nothing inserted |
| OidParse.MisreadWalk | src/main/radsnmp.c:208-257 | the loop over that text steps over the index to the entry and then fails on "1" with the index pair collected |
| OidParse.IndexPass | src/main/radsnmp.c:211-257 | the first pass over "<table>.<index>.<rest>" steps over the index to the entry, leaving exactly "<rest>" to read |

| OidParse.FromOidFixed | src/main/radsnmp.c:316 | as intended, a positive result means success and nothing else; a bad value is reported negative with nothing inserted |
| OidParse.BadValueReportsSuccess | src/main/radsnmp.c:316 | as written, "1" with value "x" for an `integer` returns 1 with nothing inserted; as intended it returns -1 |
| Response.StoreType | src/main/radsnmp.c:382 | a type text that fits is stored in type_buff followed by NUL; the buffer keeps its 32 bytes |
| Response.VarbindIsNotNone | src/main/radsnmp.c:454-491 | a varbind written is never the "NONE" line |
| Response.LeafValue | src/main/radsnmp.c:463-483 | string and octets values are written raw; others are printed, and fail exactly when the text does not fit value_buff |
| Response.Step | src/main/radsnmp.c:374-503 | one pass keeps the OID pointer inside oid_buff and adds at most one varbind; on failure nothing more is written |
| Response.StepFixed | src/main/radsnmp.c:433-502 | as intended, after a varbind no type is held any longer; the buffer invariant holds and at most one varbind is added |
| Response.EntryOf | src/main/radsnmp.c:234-246 | a table's entry is its `tlv` child numbered 1; there is none exactly when the table has no such child |
| Response.StepOutsideRoot | src/main/radsnmp.c:386-389 | a pair that is not the type and not beneath the root leaves the whole state unchanged |
| Response.FormatSkipsOutside | src/main/radsnmp.c:386-389 | the loop over the pairs goes on as if such a pair were absent |
| Response.StepValueTooLong | src/main/radsnmp.c:463-483 | a leaf whose printed value does not fit the 128-byte value_buff fails the reply with nothing more written |
| Response.ValueTooLongFails | src/main/radsnmp.c:463-483 | a type pair and such a leaf: the response returns -1 with nothing written |
| Response.StepOutOfOrder | src/main/radsnmp.c:395-400 | a pair beneath the root but not beneath the cursor fails the reply with nothing more written |
| Response.StepIndexNotInteger | src/main/radsnmp.c:405-415 | an index attribute that is not an `integer` fails the reply |
| Response.StepIndexPair | src/main/radsnmp.c:405-434 | as written, an `integer` index pair appends the path to its table and ".<index>.", moves the cursor to the table and changes nothing else |
| Response.StepIndexOverflow | src/main/radsnmp.c:417-429 | an index pair whose text does not fit oid_buff fails the reply |
| Response.StepFixedIndexPair | src/main/radsnmp.c:433 | as intended, the index pair moves the cursor to the table's entry, and fails the reply when there is none |
| Response.UnrelatedAfterIndex | src/main/radsnmp.c:395-400 | after an index pair of one table, a pair beneath the root but not beneath that table fails the whole reply with nothing written |
| Response.IndexedLeaf | src/main/radsnmp.c:405-491 | a type pair, an index pair and a leaf below the cursor give exactly one varbind whose OID is the path to the table, the index and the path from the cursor to the leaf |

| Response.Format | src/main/radsnmp.c:373-503 | the loop keeps the buffer invariant and never decreases the count |
| Response.Pass | src/main/radsnmp.c:374-503 | the loop body over separate variables fails exactly when Step fails, and otherwise leaves the state Step gives |
| Response.GetResponse | src/main/radsnmp.c:343-511 | the loop returns and writes exactly what GetResult gives |
| Response.StepEffect | src/main/radsnmp.c:374-503 | a pass writes one varbind exactly for a pair that gives one; any other pair leaves the count and the output alone |
| Response.FormatCount | src/main/radsnmp.c:373-503 | on success the count grows by the number of pairs that give varbinds; either way only varbinds are appended |
| Response.GetResultCount | src/main/radsnmp.c:339-341 | returns -1 or the number of leaf pairs below the root; writes "NONE" exactly when that number is 0, and otherwise one varbind per leaf |
| Response.LeafBeforeType | src/main/radsnmp.c:444-447 | a leaf before any type pair fails the reply with nothing written |
| Response.StepTypePair | src/main/radsnmp.c:381-384 | a type pair stores its printed value and length and nothing else |
| Response.StepLeafPair | src/main/radsnmp.c:441-502 | a leaf with a type held writes its varbind (OID, type, value), returns to the root and clears type_buff[0] |
| Response.FormatTypeFirst | src/main/radsnmp.c:381-384 | a leading type pair is held for the pairs after it |
| Response.FormatLeafAtRoot | src/main/radsnmp.c:441-502 | a leaf met at the root is written with its whole OID below the root |
| Response.SingleLeaf | src/main/radsnmp.c:343-511 | a type pair and one leaf give exactly one varbind with that OID, type and value |
| Response.StaleTypeReused | src/main/radsnmp.c:501 | as written, a second leaf is written with the first type less its first character |
| Response.StaleTypeRefused | src/main/radsnmp.c:496-502 | as intended, the second leaf fails for want of a type after the first varbind |
| Response.StaleTypeExample | src/main/radsnmp.c:501 | type "INTEGER", leaves 5 and 6: as written the second type line is "\0NTEGER"; as intended the reply fails after one varbind |
| Response.SetResponse | src/main/radsnmp.c:525-561 | with no error pair "DONE" is written; otherwise the result is 0, or -1 with nothing written |
| Response.SetResponseReadsBack | src/main/radsnmp.c:533-551 | the set response succeeds exactly when the first error pair's text fits 64 bytes, and the line written parses back as that value |
| Response.FindByDaFirst | src/main/radsnmp.c:533 | the first pair of the attribute is the one found |
| RoundTrip.VarbindReadsBack | src/main/radsnmp.c:184-511 | a varbind written for a lone leaf met at the root, given back as the OID and value of a set, inserts that same leaf with that same value |
| RoundTrip.TableLeafFacts | src/main/radsnmp.c:234-246 | a leaf of a table's entry lies beneath the root, its index attribute is an index attribute of the root, and its paths from the entry and from the table are "<n>" and "1.<n>" |
| RoundTrip.IndexedVarbindReadsBack | src/main/radsnmp.c:184-511 | as intended, the varbind for an index pair and a leaf of the entry has OID "<table>.<index>.<n>", and that OID and value read back as the same index pair and leaf |
| RoundTrip.IndexedVarbindMisread | src/main/radsnmp.c:208-257 | as written, the same varbind has OID "<table>.<index>.1.<n>", which radsnmp_pair_from_oid rejects with nothing inserted and result 0 |
| RoundTrip.IndexedExample | src/main/radsnmp.c:429-441 | on a one-table dictionary, index 5 and column 7: "1.5.1.2" as written, which does not parse back; "1.5.2" as intended, which does |

| LineInput.ChunkFrom | src/main/radsnmp.c:572 | fgets takes no more than the buffer allows and no more than the input holds |
| LineInput.FgetsSplits | src/main/radsnmp.c:567-578 | a read is NULL only at end of input; otherwise the input is the line, possibly a newline, and the rest; the line holds no newline and fits the buffer |
| LineInput.FgetsLine | src/main/radsnmp.c:572-575 | a line that fits, ended by a newline, is read whole and the newline is dropped |
| LineInput.Stdin.NextLine | src/main/radsnmp.c:567-578 | the scanning loop returns the line Fgets gives and leaves the rest of the input |
| Session.LookupFound | src/main/radsnmp.c:609 | a command found comes from an entry whose name equals the line up to case; nothing is found exactly when no entry's name does |
| Session.CommandOfName | src/main/radsnmp.c:66-73 | each command is named by its own name in any case, and a line names a command only by that name; the empty line alone is EXIT |
| Session.NamesDiffer | src/main/radsnmp.c:66-73 | no line matches two entries, so table order does not matter |
| Session.ServePass | src/main/radsnmp.c:582-661 | every pass moves the id counter on by one |
| Session.ServeStep | src/main/radsnmp.c:582-661 | a running session is its first pass followed by the rest, or ends with that pass |
| Session.ServeDone | src/main/radsnmp.c:582 | a stopped session ends at once with status 0 |
| Session.OnePass | src/main/radsnmp.c:593-661 | allocating, reading and parsing leave the input, the counter and the outcome that ServePass gives |
| Session.ServeOne | src/main/radsnmp.c:593-661 | one pass is one step of the whole session: it adds its answer, or ends the session with the pairs built |
| Session.SendRecv | src/main/radsnmp.c:582-661 | the loop ends with the status, output, input, counter and unsent pairs of the Serve run |
| Session.ServeIds | src/main/radsnmp.c:597 | a run makes at most `fuel` passes, moves the counter on by one per pass modulo 256, and sends no request |
| Session.EndOfInputSpins | src/main/radsnmp.c:636-640 | at end of input every pass answers "NONE" and the loop never ends by itself |
| Session.ServeCommandLine | src/main/radsnmp.c:609-617 | the empty command leaves the loop, PING answers "PONG" and an unknown command answers "NONE", reading one line each |
| Session.ServeParsedPass | src/main/radsnmp.c:619-660 | get, getnext and set read their lines and then act on the parse result alone |
| Session.ServeGetLines | src/main/radsnmp.c:630-634 | get reads the OID line; a positive parse leaves the loop with the pairs unsent, and anything else answers "NONE" |
| Session.ServeSetLines | src/main/radsnmp.c:619-628 | set reads the OID and value lines, the value into its 254-byte buffer, and decides as get does |
| Session.LeafOidLine | src/main/radsnmp.c:632-633 | a leaf's printed OID is one line, and parsing it inserts the leaf |
| Session.GetOfLeafEndsSession | src/main/radsnmp.c:646-661 | as written, a get of any leaf ends the session with status 0, nothing answered and the request unsent |
| Retry.Retried | src/main/radsnmp.c:717-767 | at most `retries` writes; a freed reply is reached only after a failed decode; a reply is taken only while the fd_set filled before the loop still holds the socket, or was taken before |
| Retry.RetryLoop | src/main/radsnmp.c:725-767 | the retry loop gives exactly the exchange Retried gives |
| Retry.Exchanged | src/main/radsnmp.c:725-767 | as intended, the answer is the single "NONE" exactly when the reply was bad; a reply taken was received |
| Retry.TimeoutsAreFatal | src/main/radsnmp.c:738-767 | when every attempt times out, the exchange is fatal after exactly `retries` writes, whether or not the fd_set is still filled, as written and as intended |
| Retry.FirstReplyTaken | src/main/radsnmp.c:717-755 | a decoded reply on the first pass is taken after one write; as written, one after timeouts is lost and the exchange is fatal with nothing written; as intended it is taken after one write per pass |
| Retry.ExchangedFirst | src/main/radsnmp.c:743-754 | as intended, the first bad reply ends the exchange with one "NONE" |
| Retry.NoRetriesFatal | src/main/radsnmp.c:725 | with no retries nothing is written and the exchange fails |
| Retry.BadReplyKeepsRetrying | src/main/radsnmp.c:744-749 | as written, after a failed receive the request is sent again and a second answer follows the "NONE" |
| Retry.LastDecodeFailsDangles | src/main/radsnmp.c:744-764 | as written, when every pass gets a reply that is not received or not decoded, and the last is not decoded, each pass answers "NONE" and `reply` is left pointing at freed memory |
| Retry.Seen | src/main/radsnmp.c:717-740 | while the fd_set still holds the socket a pass sees what the network did; once a timeout has emptied it, a pass sees a timeout unless the write or the select fails |
| Retry.DisarmedNoReply | src/main/radsnmp.c:732-767 | once the fd_set is empty nothing more is written to stdout and no reply is taken; with no reply left before, the exchange is fatal |
| Retry.DisarmedSends | src/main/radsnmp.c:725-740 | once the fd_set is empty and nothing fails, every remaining pass writes the request once more and the exchange is fatal |
| Retry.TimeoutThenReplyLost | src/main/radsnmp.c:717-740 | as written, a timeout and then a reply ends fatally after all `retries` writes; as intended the reply is taken after two |
| Intended.Outgoing | src/main/radsnmp.c:667-685 | the request sent is the parsed pairs, then the operation and a one-byte Message-Authenticator |
| Intended.ServeTurn | src/main/radsnmp.c:582-812 | every pass moves the counter on by one and sends at most one request |
| Intended.ServeIntended | src/main/radsnmp.c:582-813 | as intended, a run leaves no request unsent and sends at most one per pass |
| Intended.Continue | src/main/radsnmp.c:582-813 | a session that goes on after a pass makes at least that pass and at most `fuel` |
| Intended.ParsedTurn | src/main/radsnmp.c:619-812 | a parsed command is sent and answered from the exchange's outcome; a parse failure answers "NONE" without sending |
| Intended.GetOfLeafAnswered | src/main/radsnmp.c:663-812 | as intended, a get of a leaf sends the leaf, GET and the Message-Authenticator, and answers with the reply's varbinds |
| Intended.GetOfLeafGoesOn | src/main/radsnmp.c:661 | as intended, after a get that converts, the session goes on with the rest of the input |
| Secret.TrimEnd | src/main/radsnmp.c:919-925 | the result is a prefix; everything cut is below ' '; the last character kept is not |
| Secret.FgetsRaw | src/main/radsnmp.c:913 | fgets stores a non-empty prefix shorter than 256 bytes, and NULL only for an empty file |
| Secret.Chunk | src/main/radsnmp.c:913 | fgets reads within the buffer and the file, and reads something from a non-empty file |
| Secret.ReadSecret | src/main/radsnmp.c:927-930 | a secret that loads has at least two characters |
| Secret.TrimInPlace | src/main/radsnmp.c:919-925 | the buffer holds the trimmed text, NULs where characters were cut, and nothing else changes |
| Secret.LoadSecret | src/main/radsnmp.c:905-931 | reading, trimming in place and the length check give ReadSecret's verdict |
| Secret.SecretLine | src/main/radsnmp.c:913-931 | a secret line ended by "\n" or "\r\n" loads as the line itself |
| Secret.TrimSuffix | src/main/radsnmp.c:921-925 | trailing characters below ' ' are cut back to the last one that is not |
| Secret.ChunkTo | src/main/radsnmp.c:913 | fgets stops right after the first newline |
| Secret.HighByteTrimmed | src/main/radsnmp.c:922 | where `char` is signed, a last byte from 0x80 up is trimmed as if below ' '; where unsigned it is kept |

## Left out

- Socket I/O, encoding, signing and decoding (`rad_encode`, `rad_sign`, `rad_recv`, `rad_decode`, `select`) are not modelled. What the network does on each pass of the retry loop is given as an `Attempt`; passes beyond the list time out. The one effect of `select` that the code depends on, emptying the fd_set on a timeout, is modelled (`Retry.Seen`).
- Allocation failures are not modelled: `rad_alloc`, `fr_pair_afrom_da`, `fr_pair_afrom_num` and `talloc` always succeed.
- Failed writes to standard output are not modelled (`write`/`writev` returning -1 at lines 491, 505, 535 and 555). Output is the list of chunks written.
- Diagnostics are not modelled: `ERROR`/`DEBUG`, `fr_strerror_printf` texts beyond the error kind, and `fr_canonicalize_error`.
- Signals are not modelled: `stop` is an input that holds for the whole session.
- Session.SendRecv: the loop is bounded by a `fuel` count of passes (status None when it runs out). The source loop is unbounded.
- Response.Step: a `type_len` above 32 makes the source read past `type_buff` (undefined behaviour). The model fails the reply there instead.
- Response.InitTypeBuf: only the first byte of `type_buff` is initialised in the source. The others are taken as NUL.
- Response.Format: `written` is a natural number. The 32-bit `unsigned int` wrap after 2^32 varbinds is not modelled.
- RoundTrip.IndexedVarbindReadsBack: indexes from 2^31 up are excluded. "%i" prints them negative (line 429), so they do not read back. An index that is also the number of a child of the table is excluded too: radsnmp_pair_from_oid reads it as that child.
- RoundTrip.IndexedVarbindReadsBack, RoundTrip.IndexedVarbindMisread: only one index pair before the leaf is covered. Nested tables are not.
- RoundTrip.VarbindReadsBack: octets values are excluded. They are written raw but parse as hex when they begin with "0x", so they do not read back in general.
- LineInput.Fgets: input is taken to hold no NUL character, which would end the C string early.
- Intended.Outgoing: the Message-Authenticator is modelled only as a pair holding one zero byte. Its computation is part of signing.
- Retry.LastDecodeFailsDangles: the use after free at line 764 is modelled only as the `Dangling` outcome. The request written again after `talloc_free` at line 748 is not modelled as memory.
- OidParse.FromOid: `fr_cursor_free` is taken to drop exactly the pairs this call inserted. After a leaf error (lines 279 and 287) the index pairs stay, as in the source.
- Secret.LoadSecret: opening and closing the file (lines 908-912, 917) are not modelled. Whether `char` is signed is a parameter.
- The option parsing, the socket setup and the dictionary loading of `main` are not modelled, apart from the secret file.

## Findings

| source | as written | input that shows it | evidently intended | confidence | as-written member | corrected member |
|---|---|---|---|---|---|---|
| src/main/radsnmp.c:661 | after a successful parse, `break` leaves the `while` loop; the request is never sent and the function returns EXIT_SUCCESS | "get\n<OID of any leaf>\n" | add the operation pair, send the request, answer from the reply and read the next command | high; not executed | Session.GetOfLeafEndsSession | Intended.GetOfLeafAnswered |
| src/main/radsnmp.c:316 | a value that does not parse jumps to `error`, which frees the pairs but returns the positive `slen` | OID "1" naming an `integer` attribute, value "x" | return a non-positive length, so that the caller answers "NONE" | high; not executed | OidParse.BadValueReportsSuccess | OidParse.FromOidFixed |
| src/main/radsnmp.c:501 | after a varbind only `type_buff[0]` is cleared; `type_len` keeps its value, so a later leaf without its own type pair is written with the old type less its first byte | reply: type "INTEGER", then leaves 1 = 5 and 2 = 6 | reset `type_len` too, so that the second leaf fails with "No type found" | high; not executed | Response.StaleTypeReused | Response.StaleTypeRefused |
| src/main/radsnmp.c:749 | after a failed receive or decode, "NONE" is answered and `continue` restarts the `for` loop; the request, freed at line 748, is written again and a later reply is answered too | attempts: receive fails, then a reply arrives (retries >= 2) | end the exchange after the single "NONE" and read the next command | medium; not executed | Retry.BadReplyKeepsRetrying | Retry.Exchanged |
| src/main/radsnmp.c:717-732 | the fd_set is filled once, before the retry loop; a `select` that times out empties it, so every later pass times out too | attempts: a timeout, then a decoded reply (retries >= 2) | fill the fd_set again before each `select`, so that a reply after a timeout is taken | medium; not executed | Retry.TimeoutThenReplyLost | Retry.Exchanged |
| src/main/radsnmp.c:433 | after an index pair the cursor moves to the index's table, so the leaf that follows is printed with the entry's number "1" after the index; radsnmp_pair_from_oid (lines 234-246) expects the leaf number right after the index | one table, index 5, entry column 2: OID "1.5.1.2" | move the cursor to the table's entry, so that the OID is "1.5.2" and reads back | medium; not executed | RoundTrip.IndexedVarbindMisread | RoundTrip.IndexedVarbindReadsBack |
