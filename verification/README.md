# Verified cores of the mail server

Models, in Dafny, of the algorithms and protocols of the mail server that are hard to get right, with proofs of what
they are for. One module (or a few) stands for each source file:

- `Topological`: Kahn's topological sort as an iterator over in-degree counts.
- `Receiver`, `ReceiverProofs`, `ReceiverWire`, `ReceiverRoundTrip`, `ReceiverSession`: the incremental IMAP and
  ManageSieve tokenizer, what holds over all its runs, what each byte means to a client, the round trip with a client's
  encoder (section 4.3 of RFC 9051), and what the sessions' own loop loses.
- `Glob`: compiler and matcher of glob patterns, and the sets and maps with a hash-table shortcut for literals.
- `MessageMetadata`: the breadth-first flattening of a tree of nested messages into a numbered table.
- `Template`, `TemplateTree`, `TemplateEval`, `TemplateText`, `TemplateEscape`: the template engine, whose flat
  instructions with jumps mean the same as the tree of blocks, and whose escaped values bring no markup.
- `Utf7`, `Utf7Written`, `Utf7Canonical`: modified UTF-7 (section 5.1.3 of RFC 3501), in both directions, and against the
  section's text. `UtcDate`: civil dates and timestamps. `JmapId`: base-32 ids with a stop bit. `Snowflake`:
  time-ordered ids. They share the arithmetic of `Modular`.
- `MigrationLock`, `MigrationProgress`: the cluster migration protocol as interleaved steps of any number of nodes, with
  the two-step `try_lock`, leases, purges of expired locks, and nodes that fail anywhere.
- `DeadProperties`, `DeadPropertyPatch`: WebDAV dead properties as a flat tag stream, and the update requests on them.
  `ChangeLog`: truncation of change logs.
- `Wrappers`, `Sequences`, `Utf8`: optional values, concatenations, and texts in bytes.

Objects that the source updates in place are classes here, its loops are loops, and each method is proved against a
function of its inputs or old state; the lemmas then say what that function means. Verify with
`dafny verify --resource-limit 2000000 dfyconfig.toml`.

What callers supply is a parameter: the command grammar, the UTF-8 check on tags, variable names and white space of
templates, hash order, clocks, the lists of principals. Integer widths are explicit wherever a cast, a wrap-around or a
shift can show (u8, u16, u32 and u64 in dates, message numbers, flags, accumulators, ids and counters).

Where the code and what is expected of it part, the code is followed:

- Two adjacent backslashes make the literal shortcut of globs differ from the compiled pattern (`Glob.ShortcutAgrees`).
- More than 65536 nested messages wrap the message number (`MessageMetadata.NumbersRunOut`).
- Timestamps before 1970 that are not at midnight give hours, minutes or seconds out of range
  (`UtcDate.TimestampRoundTrip`).
- The sessions drop the rest of a frame at a prompt or an error. `ReceiverSession.IngestExact` says exactly when that
  loses nothing, and `ReceiverSession.RequestLost` shows a request that is lost.
- A template's block end outside any block is skipped without an error (`Stray` in `Template`).
- An accepted literal of size 0 counts one byte and fails the size check if the request has already reached the limit,
  and only then (`ReceiverProofs.LiteralExactness`, `ReceiverRoundTrip.FullLineFails`).
- Characters from U+10000 on are cut to 16 bits by the UTF-7 decoder (`Utf7Canonical.PlainDecodesToItself`).
- The comments in `utils/src/snowflake.rs` date the first id to 2022; the constant is in 2021 (`Snowflake.EpochDay`).
- A cloned id generator repeats ids of its original (`Snowflake.CloneRepeats`).
- A node that waits for as long as its lease between finding a lock free and writing it writes a lock that is over
  already, and goes on without a lease, unless somebody else has taken the lock meanwhile. `MigrationProgress.Progress`
  says exactly when all nodes can still finish with their leases kept.
- A purge reads which locks are over, and deletes them later: a lock that is taken in between is deleted with them
  (`MigrationLock.PurgeKeepsInvariant`, `MigrationLock.PurgeRace`).

## Model

| member | source | states |
|---|---|---|
| Topological.TopologicalSort.Insert | mail-server/crates/utils/src/topological.rs:24-28 | one edge more, repeated edges and self-loops included: `edges` lists the targets of every source in order and `count` holds every node with its number of incoming edge occurrences |
| Topological.TopologicalSort.IntoIterator | mail-server/crates/utils/src/topological.rs:30-46 | for any hash order, the nodes without incoming edges enter the queue, all others stay counted: the state satisfies the Kahn invariant with nothing emitted |
| Topological.TopologicalSortIterator.Next | mail-server/crates/utils/src/topological.rs:59-75 | keeps the invariant of every iteration (`count[n]` = pending edge occurrences into n > 0; emitted, queued and counted nodes partition the graph; no node twice; predecessors first); emits the back of the queue, ends exactly when the queue is empty |
| Topological.TopologicalSortIterator.ReleaseNeighbors | mail-server/crates/utils/src/topological.rs:62-72 | taking a node's edges off the counts re-establishes the invariant with that node emitted |
| Topological.TopologicalSortIterator.LowerCounts | mail-server/crates/utils/src/topological.rs:63-71 | the walk over the neighbours never underflows or misses a count, and queues exactly the nodes that lose their last pending edge |
| Topological.PendingAfterEmit | mail-server/crates/utils/src/topological.rs:62-72 | emitting a node lowers the pending edges of every node by exactly the number of edges between the two |
| Topological.PendingZero | mail-server/crates/utils/src/topological.rs:63-71 | a node has no pending edge exactly when all its predecessors are emitted |
| Topological.NeighborCounted | mail-server/crates/utils/src/topological.rs:63-66 | every neighbour the walk meets is still counted, so no decrement is skipped |
| Topological.EmittedIsOffCycle | mail-server/crates/utils/src/topological.rs:59-75 | no emitted node can be reached from a cycle |
| Topological.CycleBehind | mail-server/crates/utils/src/topological.rs:78-81 | in a finite set in which every node has a predecessor every node is reachable from a cycle |
| Topological.DrainedLeavesCycles | mail-server/crates/utils/src/topological.rs:59-81 | when the queue is empty, the nodes left in `count` are exactly those reachable from a cycle |
| Topological.DrainedIsValid | mail-server/crates/utils/src/topological.rs:78-81 | on a drained iterator `is_valid` holds if and only if the inserted edges have no cycle |
| Topological.Drain | mail-server/crates/utils/src/topological.rs:56-81 | the caller's loop ends; it visits, each once and after its predecessors, exactly the nodes that no cycle reaches |
| Receiver.Receiver.ErrorReset | mail-server/crates/imap-proto/src/receiver.rs:101-115 | the error carries the tag if there is one, and the receiver is as good as new |
| Receiver.Receiver.DoPushArgument | mail-server/crates/imap-proto/src/receiver.rs:117-131 | stores the buffer as an argument and counts its bytes, or fails past the limit; an empty quoted string becomes Nil |
| Receiver.Receiver.DoPushToken | mail-server/crates/imap-proto/src/receiver.rs:133-143 | stores a token and counts one byte, or fails past the limit |
| Receiver.Receiver.OnTag | mail-server/crates/imap-proto/src/receiver.rs:156-178 | the tag state, byte by byte |
| Receiver.Receiver.OnCommand | mail-server/crates/imap-proto/src/receiver.rs:179-216 | the command state, with its UID prefix and the command parser |
| Receiver.Receiver.OnArgument | mail-server/crates/imap-proto/src/receiver.rs:217-276 | the argument state, in the order of the match arms |
| Receiver.Receiver.OnQuoted | mail-server/crates/imap-proto/src/receiver.rs:277-310 | the quoted state with its escapes |
| Receiver.Receiver.OnLiteral | mail-server/crates/imap-proto/src/receiver.rs:311-356 | the literal header: digits, `+`, `}`, and the announced size against the limit |
| Receiver.Receiver.OnLiteralSeek | mail-server/crates/imap-proto/src/receiver.rs:357-373 | the end of the header line: the prompt, and Nil for an empty literal |
| Receiver.Receiver.OnLiteralData | mail-server/crates/imap-proto/src/receiver.rs:374-386 | literal bytes, counted down to the end of the argument |
| Receiver.Receiver.Parse | mail-server/crates/imap-proto/src/receiver.rs:145-391 | one call takes bytes until it has something to return; fields, event and unread bytes are those of the byte-by-byte specification |
| ReceiverProofs.ChunkingIndependence | mail-server/crates/imap-proto/src/receiver.rs:145-391 | however a stream is cut, the driver gives the same requests, prompts and errors in order and ends in the same state as on the whole stream |
| ReceiverProofs.StepKeepsInvariant | mail-server/crates/imap-proto/src/receiver.rs:145-391 | every byte keeps the size accounting and the buffer limit of each state; after a request or an error the receiver equals a new one; a prompt leaves it waiting for the announced bytes |
| ReceiverProofs.InvariantOverRuns | mail-server/crates/imap-proto/src/receiver.rs:117-143 | over every run: stored argument bytes and delimiters <= `current_request_size` <= `max_request_size` |
| ReceiverProofs.LiteralTaken | mail-server/crates/imap-proto/src/receiver.rs:374-386 | behind every prefix of the announced bytes the buffer has taken them and the rest remains, so buffer plus remaining stay the announced size; the completing push cannot fail |
| ReceiverProofs.LiteralExactness | mail-server/crates/imap-proto/src/receiver.rs:311-386 | an accepted literal of any size takes exactly the announced bytes, verbatim, as one argument (Nil for none), with a prompt exactly if it is synchronizing; it fails exactly when it is empty and the request has already reached the limit |
| ReceiverProofs.EmptyLiteralRefused | mail-server/crates/imap-proto/src/receiver.rs:357-373 | such an empty literal is accepted at its closing brace and refused at the end of the line |
| ReceiverRoundTrip.FullLineFails | mail-server/crates/imap-proto/src/receiver.rs:145-391 | a whole line, from a new receiver, in which that happens |
| ReceiverRoundTrip.QuotedFed | mail-server/crates/imap-proto/src/receiver.rs:277-310 | an escaped quoted string is read back as its content |
| ReceiverRoundTrip.LitFed | mail-server/crates/imap-proto/src/receiver.rs:311-386 | a non-synchronizing literal, plain or binary, is read back as its content |
| ReceiverRoundTrip.PiecesFed | mail-server/crates/imap-proto/src/receiver.rs:217-386 | any laid-out sequence of atoms, quoted strings, literals and delimiters is read back as its tokens and weighs what they weigh |
| ReceiverRoundTrip.RequestFed | mail-server/crates/imap-proto/src/receiver.rs:145-391 | one encoded request is read back as its tag, command and tokens, and leaves a new receiver |
| ReceiverRoundTrip.PipelineRoundTrip | mail-server/crates/imap-proto/src/receiver.rs:145-391 | any list of pipelined requests within the limits comes back as exactly those tags, commands and token lists (section 4.3 of RFC 9051), the tokens being those that the client wrote |
| ReceiverWire.TagByte | mail-server/crates/imap-proto/src/receiver.rs:157-180 | a tag takes up to 128 bytes; tabs and carriage returns are dropped, a line feed is an error |
| ReceiverWire.CommandByte | mail-server/crates/imap-proto/src/receiver.rs:181-216 | a command name takes up to 15 ASCII letters and digits, as capitals; of the bytes that are not white space any other is an error |
| ReceiverWire.SignRead | mail-server/crates/imap-proto/src/receiver.rs:232-263 | each of the seven signs stands for its own token: the parentheses always, the other five for commands that tokenize brackets |
| ReceiverWire.ByteInWord | mail-server/crates/imap-proto/src/receiver.rs:217-276 | inside a word every byte is data, up to 4096 of them, but for the five white ones and those signs |
| ReceiverWire.ByteInQuotes | mail-server/crates/imap-proto/src/receiver.rs:277-310 | in quotes every byte is data, up to 4096 of them, but for the quote, the backslash and the line feed |
| ReceiverWire.ByteInNumber | mail-server/crates/imap-proto/src/receiver.rs:311-356 | a literal size takes up to 15 decimal digits, none behind a plus |
| ReceiverWire.NumberEnds | mail-server/crates/imap-proto/src/receiver.rs:311-356 | the size is accepted exactly if it is below 2^32 and the request has room for it |
| ReceiverWire.ByteBehindNumber | mail-server/crates/imap-proto/src/receiver.rs:357-373 | behind the size there is only white space up to the line feed |
| ReceiverSession.IngestSplits | mail-server/crates/imap/src/core/client.rs:34-89 | for every frame: the whole stream gives what the session's loop gives, and then what the bytes it drops would have given |
| ReceiverSession.FreshKept | mail-server/crates/imap-proto/src/receiver.rs:145-156 | between requests bytes change nothing and give nothing exactly if all of them are white space, for both start states |
| ReceiverSession.DataKept | mail-server/crates/imap-proto/src/receiver.rs:374-386 | inside a literal no byte goes unnoticed |
| ReceiverSession.GapKept | mail-server/crates/imap-proto/src/receiver.rs:217-276 | behind the prompt of an empty literal bytes leave no trace exactly if they are white space without LF that ends in a space |
| ReceiverSession.IngestExact | mail-server/crates/imap/src/core/client.rs:34-89 | a frame gives what the whole stream gives if and only if the bytes dropped at its first prompt or error are none, white space behind an error, or such spaces behind the prompt of an empty literal |
| ReceiverSession.IngestFramesIsDrive | mail-server/crates/imap/src/core/client.rs:34-89 | over any list of frames: what they give is, after each of them, what the whole stream so far gives if and only if no frame drops anything but such bytes |
| ReceiverSession.RequestLost | mail-server/crates/imap/src/core/client.rs:34-89 | any good request in the same frame behind a bad line is lost |
| Glob.Matches | mail-server/crates/utils/src/glob.rs:100-144 | true exactly when the value is in the declarative language of the pattern, although the loop goes back to the last star only; it ends under a lexicographic measure |
| Glob.LastStarSuffices | mail-server/crates/utils/src/glob.rs:128-140 | a match through an older star that reaches a newer one can always be completed from the newer one |
| Glob.NewStar | mail-server/crates/utils/src/glob.rs:128-133 | forgetting the older resumption point at a new star loses no match |
| Glob.RigidStretch | mail-server/crates/utils/src/glob.rs:114-127 | a star-free stretch takes exactly its own length |
| Glob.Compile | mail-server/crates/utils/src/glob.rs:26-67 | the loop computes the escape automaton |
| Glob.CompileOfWritten | mail-server/crates/utils/src/glob.rs:26-67 | every pattern, written out with backslashes before special characters, is compiled back to itself |
| Glob.TryCompile | mail-server/crates/utils/src/glob.rs:69-97 | the loop computes the glob detection, and otherwise the text without backslashes |
| Glob.SafeShortcutAgrees | mail-server/crates/utils/src/glob.rs:69-97 | for a detected glob or a text without adjacent backslashes, the shortcut accepts what the compiled pattern matches |
| Glob.ShortcutAgrees | mail-server/crates/utils/src/glob.rs:69-97 | the shortcut agrees with the compiled pattern on all keys if and only if the text is a detected glob or has no two adjacent backslashes |
| Glob.LiteralCompiles | mail-server/crates/utils/src/glob.rs:44-59 | a text whose wildcards are all escaped compiles to the characters it has without backslashes |
| Glob.BackslashSurvives | mail-server/crates/utils/src/glob.rs:44-59 | two adjacent backslashes leave a backslash to be matched, which the shortcut has removed |
| Glob.GlobSet.Insert | mail-server/crates/utils/src/glob.rs:164-173 | one more text in the set |
| Glob.GlobSet.Contains | mail-server/crates/utils/src/glob.rs:175-177 | true exactly when some inserted text accepts the key; for texts safe for the shortcut, when some compiled pattern matches |
| Glob.GlobMap.Insert | mail-server/crates/utils/src/glob.rs:188-197 | one more entry in the map |
| Glob.GlobMap.Get | mail-server/crates/utils/src/glob.rs:199-205 | found exactly when some entry accepts the key; a literal beats every pattern, a later literal an earlier one, an earlier pattern a later one |
| MessageMetadata.ConvertMessage | mail-server/crates/migration/src/email_v1.rs:370-441 | one message: its parts converted in order, nested messages queued behind the others and numbered on in u16 |
| MessageMetadata.ConvertAll | mail-server/crates/migration/src/email_v1.rs:366-447 | the queue loop ends (each turn leaves one message less) and converts all messages of the tree in breadth-first order |
| MessageMetadata.PopCounts | mail-server/crates/migration/src/email_v1.rs:366-378 | taking a message off the queue and its children on leaves exactly one message less to come |
| MessageMetadata.NumberIsPlace | mail-server/crates/migration/src/email_v1.rs:376-380 | a part's number is the place of its nested message in the table, behind its own |
| MessageMetadata.TableIsTree | mail-server/crates/migration/src/email_v1.rs:360-449 | up to 65536 messages, rebuilding from entry 0 gives the original tree, each number cut to its new width |
| MessageMetadata.NumbersRunOut | mail-server/crates/migration/src/email_v1.rs:376-380 | with more messages the u16 wraps and some part refers back: the table is no tree |
| MessageMetadata.NarrowIsIdentity | mail-server/crates/migration/src/email_v1.rs:381-444 | cutting the numbers changes nothing exactly when all of them fit |
| MessageMetadata.FlagsRead | mail-server/crates/migration/src/email_v1.rs:386-394 | encoding, problem flag and size are each read back from the packed flags |
| MessageMetadata.RoundTrip | mail-server/crates/migration/src/email_v1.rs:360-449 | nothing is lost if and only if every number fits its new width |
| MessageMetadata.FromLegacy | mail-server/crates/migration/src/email_v1.rs:360-453 | fails only for a root without parts; one table entry per message; the table is a tree if and only if there are at most 65536 messages, and then it rebuilds the original |
| Template.Apply | mail-server/crates/utils/src/template.rs:47-117 | one directive on the instruction list and the block stack: block ends are patched in place, mismatched ones refused |
| Template.Parse | mail-server/crates/utils/src/template.rs:36-126 | accepts exactly the texts whose directives assemble, with their instructions and static size |
| TemplateTree.AssembledIsTree | mail-server/crates/utils/src/template.rs:57-117 | whatever assembles is a properly nested tree, and its instructions are that tree laid out flat |
| TemplateTree.TreeIsAssembled | mail-server/crates/utils/src/template.rs:57-117 | every properly nested tree assembles, at any place of the list and under any open blocks |
| TemplateTree.Closing | mail-server/crates/utils/src/template.rs:86-111 | closing the innermost block patches its start to point behind its body |
| TemplateTree.OnlyMatching | mail-server/crates/utils/src/template.rs:86-111 | no other block end is taken while a block is open |
| TemplateTree.ParsedIsTree | mail-server/crates/utils/src/template.rs:36-126 | a text is accepted if and only if its directives are those of a properly nested tree, whose flat layout is the result |
| TemplateEval.FlatIsNested | mail-server/crates/utils/src/template.rs:57-117 | the `block_end` values of a parsed template lie behind their starts, inside the list, and do not overlap |
| TemplateEval.EvalEntry | mail-server/crates/utils/src/template.rs:165-188 | the loop over one entry of an `each`, whose slice is reassigned, stays in bounds |
| TemplateEval.Eval | mail-server/crates/utils/src/template.rs:128-198 | the jumping loop stays in bounds and prints the run of the instructions |
| TemplateEval.RunIsTree | mail-server/crates/utils/src/template.rs:136-197 | running the flat instructions of a tree prints what evaluating the tree prints |
| TemplateEval.RunEntryIsTree | mail-server/crates/utils/src/template.rs:166-187 | the same inside an `each`: variables come from the entry alone and a nested `each` is transparent |
| TemplateEval.FlatMeansTree | mail-server/crates/utils/src/template.rs:128-198 | a parsed template never slices out of bounds and its output is that of the block tree |
| TemplateEval.Render | mail-server/crates/utils/src/template.rs:36-198 | parse, then evaluate: succeeds exactly for the texts of properly nested trees and prints the recursive evaluation of the tree |
| TemplateText.ContentRead | mail-server/crates/utils/src/template.rs:45-117 | what stands between the braces is classified as what its author meant |
| TemplateText.LexPrint | mail-server/crates/utils/src/template.rs:42-123 | a printed sequence of texts, variables, block starts and block ends is read back as exactly that sequence |
| TemplateText.RenderWritten | mail-server/crates/utils/src/template.rs:36-198 | every properly nested tree that is written out is accepted, and the output is its recursive evaluation |
| TemplateEscape.EscapedReads | mail-server/crates/utils/src/template.rs:201-212 | an escaped text has no markup, each of its ampersands begins one of the five entities, and a reader of HTML gets the text back from it |
| TemplateEscape.RenderValue | mail-server/crates/utils/src/template.rs:140-148 | `{{name}}` prints such a text for its value, `{{!name}}` the value unchanged, and both nothing without a single value |
| TemplateEscape.NothingInjected | mail-server/crates/utils/src/template.rs:128-212 | a tree whose variables are all escaped and whose own text has no markup prints none, whatever the values are |
| Utf7.EncodeText | mail-server/crates/imap-proto/src/utf7.rs:72-118 | the loop, with its u32 accumulator that is never cleared, computes the specified text |
| Utf7.DecodeText | mail-server/crates/imap-proto/src/utf7.rs:21-70 | the loop computes the specified units, refused where a symbol has no rank or surrogates do not pair |
| Utf7.UnitRead | mail-server/crates/imap-proto/src/utf7.rs:94-107 | through every bit offset (0, 2 or 4 bits pending) one more unit keeps encoder and decoder in step, stale high bits notwithstanding |
| Utf7.ReadBack | mail-server/crates/imap-proto/src/utf7.rs:21-118 | from any pair of states in step, decoding the rest gives what is owed and then the rest of the text |
| Utf7.RoundTrip | mail-server/crates/imap-proto/src/utf7.rs:21-118 | decoding an encoded text gives back its units (section 5.1.3 of RFC 3501) |
| Utf7.OutputIsPrintable | mail-server/crates/imap-proto/src/utf7.rs:72-118 | the output is printable ASCII |
| Utf7.EncodeDecode | mail-server/crates/imap-proto/src/utf7.rs:21-118 | `utf7_decode(utf7_encode(s))` is `s` for every valid UTF-16 sequence; unpaired surrogates are refused |
| Utf7Written.SymbolIsCharacter | mail-server/crates/imap-proto/src/utf7.rs:10-19 | the symbol of each rank is the character at that place of the alphabet, and the rank table inverts it |
| Utf7Written.StretchWritten | mail-server/crates/imap-proto/src/utf7.rs:92-107 | a stretch is written as the BASE64 of its 16-bit units, padded with zeros, and closed with a dash |
| Utf7Written.WrittenAsSpecified | mail-server/crates/imap-proto/src/utf7.rs:72-118 | for every text the output is that of section 5.1.3 of RFC 3501, stated apart from the encoder |
| Utf7Written.Example | mail-server/crates/imap-proto/src/utf7.rs:21-118 | the example name of that section is encoded to its literal bytes and decoded back |
| Utf7Canonical.PlainDecodesToItself | mail-server/crates/imap-proto/src/utf7.rs:63-69 | a text without ampersands is decoded to itself if and only if all its characters are below U+10000 |
| Utf7Canonical.WideIsCut | mail-server/crates/imap-proto/src/utf7.rs:63-69 | U+1F600 is decoded to U+F600 |
| Utf7Canonical.EncodedIsCanonical | mail-server/crates/imap-proto/src/utf7.rs:72-118 | what the encoder writes is canonical: printable ASCII, `&-`, and stretches that are not empty, padded with zeros, closed, not adjacent, and hold no printable ASCII |
| Utf7Canonical.UnitsTell | mail-server/crates/imap-proto/src/utf7.rs:29-50 | inside a stretch the units to come tell whether it ends, and otherwise the bits that wait |
| Utf7Canonical.SameText | mail-server/crates/imap-proto/src/utf7.rs:21-70 | two canonical texts that are decoded to the same units are the same |
| Utf7Canonical.WrittenOfRead | mail-server/crates/imap-proto/src/utf7.rs:21-118 | encoding what was decoded gives the text if and only if the text is canonical |
| UtcDate.YearFound | mail-server/crates/migration/src/object.rs:612-615 | the corrections by 1460, 36524 and 146096 find the year of the era from any of its days |
| UtcDate.CivilIs | mail-server/crates/migration/src/object.rs:610-618 | the era arithmetic finds year, month and day of any day of any year, before the epoch too |
| UtcDate.MonthFormulas | mail-server/crates/migration/src/object.rs:642-642 | the 62719/2048 formula and the 153/5 formula agree on every month |
| UtcDate.DayNumberIs | mail-server/crates/migration/src/object.rs:636-644 | `timestamp` counts days by the calendar, wrapping month arithmetic included |
| UtcDate.CivilOfDay | mail-server/crates/migration/src/object.rs:608-650 | a valid day's number leads back to the day |
| UtcDate.DayOfCivil | mail-server/crates/migration/src/object.rs:608-650 | every day number is that of a valid day, which has that number |
| UtcDate.YearFits | mail-server/crates/migration/src/object.rs:622-622 | the year fits 16 bits exactly between 0000-01-01 and 65535-12-31 |
| UtcDate.TimestampRoundTrip | mail-server/crates/migration/src/object.rs:608-650 | `timestamp(from_timestamp(t)) == t` if and only if t lies in years 0 to 65535 and is non-negative or at midnight; every field is then a valid calendar value |
| UtcDate.DateRoundTrip | mail-server/crates/migration/src/object.rs:608-650 | `from_timestamp(timestamp(d)) == d` for a valid UTC date if and only if it is from 1970 on or at midnight |
| UtcDate.SameInstant | mail-server/crates/migration/src/object.rs:634-650 | a local time ahead of Greenwich or behind it, by any hours and minutes, has the timestamp of the same instant in Greenwich |
| JmapId.AsString | mail-server/crates/types/src/id.rs:52-101 | the stop-bit loop ends and writes the base-32 digits of the id, most significant first |
| JmapId.StopBitLast | mail-server/crates/types/src/id.rs:93-96 | the word never equals STOP_BIT while digits remain |
| JmapId.NextDigit | mail-server/crates/types/src/id.rs:93-96 | the top five bits are the next digit, and shifting them out leaves the rest |
| JmapId.TrimmedWord | mail-server/crates/types/src/id.rs:74-81 | eating leading zeros in steps of five leaves exactly the digits of the id in the word |
| JmapId.FullWord | mail-server/crates/types/src/id.rs:84-88 | with the top four bits set, they are the first of thirteen digits |
| JmapId.FromStr | mail-server/crates/types/src/id.rs:25-38 | reads base-32 digits, the upper-case aliases K to Z included, modulo 2^64, and refuses any other character |
| JmapId.WrittenIsCanonical | mail-server/crates/types/src/id.rs:52-101 | the text has 1 to 13 symbols, none upper case, and starts with `a` for id 0 only |
| JmapId.ReadOfWritten | mail-server/crates/types/src/id.rs:25-101 | reading what was written gives the id |
| JmapId.WrittenOfRead | mail-server/crates/types/src/id.rs:25-101 | writing what was read gives the text if and only if the text is canonical |
| JmapId.SymbolIsCharacter | mail-server/crates/utils/src/codec/base32_custom.rs:11-11 | the symbol of each rank is the character at that place of the alphabet |
| JmapId.CapitalsRead | mail-server/crates/utils/src/codec/base32_custom.rs:12-27 | an id in capitals is read as the same id if it has none of the letters A to J, and refused otherwise |
| JmapId.Reread | mail-server/crates/types/src/id.rs:25-101 | `from_str(as_string(id))` is `id` for every u64 |
| Snowflake.MakeId | mail-server/crates/utils/src/snowflake.rs:106-109 | milliseconds, sequence and node can be read back from an id, modulo 2^43, 4096 and 512 |
| Snowflake.SnowflakeIdGenerator.Generate | mail-server/crates/utils/src/snowflake.rs:99-110 | the id has the clock's millisecond (0 if the clock is before the epoch), the old counter and the node; the counter wraps at 2^64 |
| Snowflake.SnowflakeIdGenerator.Clone | mail-server/crates/utils/src/snowflake.rs:119-127 | a clone keeps the node and restarts its counter |
| Snowflake.SameId | mail-server/crates/utils/src/snowflake.rs:106-109 | two ids are equal exactly when all three fields agree |
| Snowflake.RunCounts | mail-server/crates/utils/src/snowflake.rs:99-110 | over every interleaving of clock reads, counter increments and clones: each id carries its reading, its place among its generator's ids and its node |
| Snowflake.OneIdEach | mail-server/crates/utils/src/snowflake.rs:99-110 | over every interleaving each reading of the clock leads to one id at most |
| Snowflake.IdsOverRuns | mail-server/crates/utils/src/snowflake.rs:99-110 | two ids are equal if and only if milliseconds agree modulo 2^43, places modulo 4096 and nodes modulo 512; one generator repeats itself only after 4096 ids |
| Snowflake.Collisions | mail-server/crates/utils/src/snowflake.rs:99-110 | before 2^43 ms: nodes that differ modulo 512 never collide, and one generator's ids collide exactly if their milliseconds agree and their places agree modulo 4096 |
| Snowflake.CloneRepeats | mail-server/crates/utils/src/snowflake.rs:119-127 | a generator and its clone give out the same id in the same millisecond |
| Snowflake.PastIdBoundary | mail-server/crates/utils/src/snowflake.rs:86-92 | `id >= past_id` exactly when the id's millisecond is at or past the cut-off |
| Snowflake.GeneratedAndPast | mail-server/crates/utils/src/snowflake.rs:86-110 | before 2^43 ms an id generated at one time is at or past the cut-off taken at another exactly if its millisecond is that of the cut-off or later |
| Snowflake.EpochDay | mail-server/crates/utils/src/snowflake.rs:24-25 | the day from which ids count is 22 September 2021 |
| Snowflake.TimestampTrip | mail-server/crates/utils/src/snowflake.rs:43-75 | `to_timestamp(from_timestamp(t))` is t plus the seconds by which the two clock readings differ; refused exactly for the future and for what precedes the epoch |
| MigrationLock.ActKeepsInvariant | mail-server/crates/migration/src/v011.rs:28-173 | every step of every node keeps: one holder per key, its own lock, migrations accounted for, nothing forgotten |
| MigrationLock.RunKeepsInvariant | mail-server/crates/migration/src/v011.rs:28-173 | the same over every run in time (no lease and no done key is outlived, and no purge deletes a lock taken between its two halves), failures included |
| MigrationLock.LockIsTaken | mail-server/crates/store/src/dispatch/lookup.rs:317-369 | the two-step `try_lock` (read, then compare and set) cannot take a lock whose holder is in time |
| MigrationLock.NoTwoAtOnce | mail-server/crates/migration/src/v011.rs:28-173 | in every run in time no two nodes work on the same key at once, and the core data is migrated before any principal |
| MigrationLock.AtMostOnce | mail-server/crates/migration/src/v011.rs:39-173 | a key is migrated at most once, and exactly once more for each node that failed between migrating and marking it |
| MigrationLock.FinishedMeansDone | mail-server/crates/migration/src/v011.rs:94-173 | a node leaves the account loop only when the core data and every principal of its list are done |
| MigrationLock.OutlivedLease | mail-server/crates/migration/src/v011.rs:28-83 | without the assumption on leases two nodes can migrate the core data at once |
| MigrationLock.LeaseLasts | mail-server/crates/migration/src/v011.rs:17-53 | the lock of a failed node can be taken from exactly 300 seconds on for the core data, and 180 for a principal |
| MigrationLock.DoneLasts | mail-server/crates/migration/src/v011.rs:66-77 | a key that was marked done is migrated again from exactly a day on |
| MigrationLock.PurgeKeepsInvariant | mail-server/crates/store/src/dispatch/lookup.rs:398-449 | deleting the locks that a purge has found expired keeps all this if and only if nobody has taken one of them in between |
| MigrationLock.PurgeAtOnce | mail-server/crates/store/src/dispatch/lookup.rs:398-449 | if nothing happens between its halves, a purge deletes no lock that is held |
| MigrationLock.PurgeRace | mail-server/crates/store/src/dispatch/lookup.rs:398-449 | a run, in time, in which a purge deletes a lock taken between its two halves, so that two nodes migrate one key |
| MigrationProgress.WorkFalls | mail-server/crates/migration/src/v011.rs:28-173 | no step of a node adds to its work; taking a key and every step of its holder take from it, and any other step brings the node nearer to its lock if that is free |
| MigrationProgress.Progress | mail-server/crates/migration/src/v011.rs:28-173 | from every world reached in time and without failures: all nodes can finish in time if and only if no nodes are blocked, that is, about to write locks that are over already, free, and of keys to which no other node may come |
| MigrationProgress.BlockedStays | mail-server/crates/store/src/dispatch/lookup.rs:350-363 | in every run in time, failures and purges included, blocked nodes stay so, however many other nodes there are |
| MigrationProgress.BlockedReached | mail-server/crates/store/src/dispatch/lookup.rs:350-363 | a run in time leads there |
| MigrationProgress.FairRunEnds | mail-server/crates/migration/src/v011.rs:28-173 | every run in time and without failures, in any order of steps, with any principals, purges and passing time, has finished once all nodes have acted in as many rounds as a stated bound |
| MigrationProgress.QuickRunEnds | mail-server/crates/migration/src/v011.rs:28-173 | where no bid has outlived its lease, every such run in which no more time passes is in time |
| DeadProperties.StreamIsForest | mail-server/crates/types/src/dead_property.rs:9-13 | the balanced tag streams are exactly the flattened forests, each standing for one forest only |
| DeadProperties.DeadProperty.RemoveElement | mail-server/crates/types/src/dead_property.rs:101-124 | deletes from a balanced stream exactly the top-level elements of that name, keeping balance and everything else |
| DeadProperties.DeadProperty.AddElement | mail-server/crates/types/src/dead_property.rs:126-130 | appends an element; balance is kept if the content is balanced |
| DeadProperties.DeadProperty.FindTag | mail-server/crates/types/src/dead_property.rs:58-97 | on a balanced stream, the content of the first top-level element of that name |
| DeadProperties.RetainedIsWithout | mail-server/crates/types/src/dead_property.rs:101-124 | the depth-counting filter is removal in the forest |
| DeadProperties.SoughtIsContent | mail-server/crates/types/src/dead_property.rs:58-97 | the depth-counting search is search in the forest |
| DeadProperties.CollectedExactly | mail-server/crates/types/src/dead_property.rs:74-89 | added content is collected whole if and only if it is balanced |
| DeadProperties.ReplaceInForest | mail-server/crates/types/src/dead_property.rs:101-130 | remove, then add: the name has the new content, every other name what it had |
| DeadProperties.Measure | mail-server/crates/types/src/dead_property.rs:132-148 | the loop adds up the bytes of names, attributes and text, and one for each end |
| DeadProperties.SizeIsWeight | mail-server/crates/types/src/dead_property.rs:132-184 | the size of a stream is the weight of its forest |
| DeadProperties.FitsExactly | mail-server/crates/dav/src/file/proppatch.rs:239-242 | there is room exactly if the stream has at most the allowed bytes with the new element in it |
| DeadProperties.StrayEnd | mail-server/crates/types/src/dead_property.rs:74-89 | an end without a start does not hide the elements behind it |
| DeadProperties.DeadProperty.Apply | mail-server/crates/dav/src/file/proppatch.rs:232-254 | one change of a dead property on the working copy: accepted exactly if dead properties are enabled and there is room; an update takes the old element out in both cases |
| DeadProperties.DeadProperty.Update | mail-server/crates/dav/src/file/proppatch.rs:232-254 | in the working copy the updated element has exactly the new content if and only if that content is balanced, and then no other name changes |
| DeadPropertyPatch.SetAll | mail-server/crates/dav/src/file/proppatch.rs:173-268 | accepted exactly if every change finds room in its turn, and then the copy holds all of them |
| DeadPropertyPatch.FileNode.PropPatch | mail-server/crates/dav/src/file/proppatch.rs:124-157 | the stored tags are the patched ones if every change in the request is accepted, and the old ones otherwise |
| DeadPropertyPatch.PatchedFinds | mail-server/crates/dav/src/file/proppatch.rs:124-157 | with balanced contents, afterwards every name finds the content of its last change, nothing if it was removed, and what it had otherwise, removals first unless the request begins with a change |
| ChangeLog.Store.Newest | mail-server/crates/store/src/backend/rocksdb/read.rs:37-68 | one step of the descending iteration with inclusive bounds |
| ChangeLog.Store.Scan | mail-server/crates/common/src/core.rs:767-785 | the iteration stops at one entry too many: it finds the id that has exactly `max_entries` newer ones, or counts all |
| ChangeLog.Store.Cut | mail-server/crates/common/src/core.rs:755-839 | one collection: log and vanished log cut, the marker written, all else unchanged |
| ChangeLog.Store.DeleteChanges | mail-server/crates/common/src/core.rs:737-864 | the whole store afterwards, for both limits |
| ChangeLog.NewestStay | mail-server/crates/common/src/core.rs:785-839 | with more than `max_entries` changes, the newest `max_entries` stay unchanged, the next older one becomes an empty marker, and everything older goes, vanished items included |
| ChangeLog.RestStays | mail-server/crates/common/src/core.rs:743-843 | a collection within its limit, other accounts and all other logs stay as they are |
| ChangeLog.CodesCorrespond | mail-server/crates/types/src/collection.rs:47-76 | collections and bytes correspond, and the four logs of vanished items have bytes of their own, 251 to 254 |
| ChangeLog.AllAreCut | mail-server/crates/common/src/core.rs:744-754 | the logs that are cut are those of all collections but the share notifications |
| ChangeLog.KeptTwice | mail-server/crates/common/src/core.rs:737-864 | two runs are one run at the smaller limit and the later cut-off; a second run changes nothing |
| ChangeLog.SharesExpire | mail-server/crates/common/src/core.rs:845-862 | share notifications stay exactly if their millisecond is at or past the cut-off |

## Left out

- The webmail, the command line, HTTP, DAV and POP3 dispatch, TLS, DNS and configuration parsing: I/O, user interface and
  dispatch tables.
- All other migration code, and the deserializers beside the two date functions: database reads and codecs.
- Small tables and data structures (collections, keywords, ACLs, versions, bit maps): only easy members.
- `Receiver`: error texts, the contents of trace events, and the allocation of buffers; overflow of `usize` in the size
  sum, which the limit on requests keeps away.
- `Glob`: lower-casing, which the sets and maps do not use, and the unused `match_pos` fields.
- MessageMetadata.FromLegacy: header names and values are carried along unread, because their conversion casts offsets
  lossily; the metadata fields outside the table are not part of this model.
- `Template`: error texts; variable names and white space are parameters.
- `UtcDate`: time zones other than UTC on the way back from a date.
- `MigrationLock`: forced locks, which bypass `try_lock`; runs in which a lease or a done key is outlived, except for the
  one that shows why that matters. Nodes are steps of a state machine and not loops, so that any interleaving is a run.
  The migrations themselves are single steps. Of a purge only the deletion is a step; which keys it deletes is free.
- MigrationLock.LockIsTaken: does not model the Redis and sharded branches of `try_lock`, which count increments of the
  lock key instead of comparing and setting it.
- `DeadPropertyPatch`: the other properties of a request, whose outcome is a parameter; calendars and contacts, which
  commit in the same way.
- `DeadProperties`: `depth` is unbounded.
- ChangeLog.Store.DeleteChanges: does not model writers that add changes while a log is being cut.
- `Snowflake`: the random node id, which is a parameter.
