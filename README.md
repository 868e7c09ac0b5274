# tree-sitter-blade external scanner, modelled in Dafny

This project models the external scanner of tree-sitter-blade (`src/scanner.cc`).
The scanner is one `Scanner` object whose only state is a stack of open tags.
A set of sub-scanners, driven by the host lexer, read and change that stack:

- the tag-name reader;
- the comment, raw-text and raw-echo scanners;
- the implicit-end-tag resolver;
- the start-tag, end-tag and self-closing-delimiter scanners;
- the echo-delimiter probe;
- the text scanner;
- the `scan` dispatcher.

`serialize` and `deserialize` save the stack to a bounded buffer and restore it from one.

Layout:

- `Tags.dfy`: tags, token kinds and the tag classifier of `tag.h`. The classifier is given as a record of function values (`TagTable`).
- `Lexing.dfy`: the host lexer. `Cursor` is its state as a value. The class `Lexer` has the operations the scanner's macros expand to (`PEEK`, `S_ADVANCE`, `S_SKIP`, `S_MARK_END`, `S_RESULT`).
- `TagScanning.dfy`: the sub-scanners that touch the stack, each as a function from (stack, cursor) to a `Step`, with lemmas about them.
- `TextScanning.dfy`: the sub-scanners that only move the cursor, each as a function from the cursor to an `Outcome`, with lemmas about them.
- `Codec.dfy`: the snapshot format. It has the bytes `serialize` writes (`Snapshot`) and the stack `deserialize` rebuilds (`Restore`), with the round trip.
- `Dispatch.dfy`: the dispatcher `scan` as a function, with lemmas about its choices.
- `Blade.dfy`: the class `Blade.Scanner`. Its field `tags` is pushed and popped in place. Its methods are the source's member functions, with the same loops over the `Lexer` object and over the buffer `array<Byte>`.

Each scanning method is proved to compute a specification function: the `ensures` says that the new stack, the lexer's new state and the returned flag equal that function applied to the old state. The pairs are:

- `ScanComment` with `TextScanning.CommentSpec`;
- `ScanRawText` with `TextScanning.RawTextSpec`, and `ScanRawPhp` with `TextScanning.RawEchoSpec`;
- `CheckOpenEchoDelimiter` with `TextScanning.EchoProbe`, and `ScanOpenEchoDelimiter` with `TextScanning.OpenEchoSpec`;
- `ProbeDelimiters` with `TextScanning.DelimiterProbes`, and `ScanText` with `TextScanning.TextSpec`;
- `ScanImplicitEndTag`, `ScanStartTagName`, `ScanEndTagName` and `ScanSelfClosingTagDelimiter` with `TagScanning.ImplicitEndTagSpec`, `StartTagSpec`, `EndTagSpec` and `SelfClosingSpec`;
- `ScanTagName` with `TagScanning.TagName`, and `Scan` with `Dispatch.ScanSpec`;
- `Serialize` with `Codec.Snapshot`, and `Deserialize` with `Codec.Restore`.

The buffer writers `CopyName`, `PutCustom` and `PutEntry` state the bytes they write directly. The lemmas state what the source promises about the specification functions.

The model follows the code as written, including these behaviours that a reader might not expect:

- The source resizes the restored stack to the recorded size, not to the number of entries read. So a truncated snapshot gives back default tags in the missing slots, not a shorter stack (`Codec.Restore`, `Codec.RestoreSnapshot`).
- The raw-text matcher does not re-test the character that breaks a partial match: it drops the whole failed attempt and starts afresh after it. A terminator that starts inside a failed attempt is therefore missed (`TextScanning.RawTextMissesOverlappingTerminator`, `TextScanning.RawTextStopsBeforeTerminator`).
- The raw-echo loop takes `!!` as a pair, so a `!!}` that follows an odd run of '!' is not seen: in `!!!}` the `!!}` that starts at the second '!' is missed (`TextScanning.RawEchoExcludesTerminator`).
- The text scanner also declines at `{@{{` and `{!@{{`: the failed regular probe stops on the '@', and the verbatim probe matches there. `scan` never reaches this, because it sends '{' and '@' to the echo-delimiter scanner (`TextScanning.TextAcceptsExactly`, `Dispatch.TextIsFallback`).
- In `scan_text`, a failed `{` or `@` probe followed by the unconditional advance can step over a `<`, a `>`, a NUL character or the start of an echo delimiter (in `{!{{` the `{{` is missed). `TextScanning.TextTokenShape` states this: every such character or delimiter inside a text token comes right after a `{`, `!` or `@`.
- In `scan_text`, the code after the loop (src/scanner.cc:485-526) is reached only at end of input or with `<` or `>` in the lookahead, so its probes on lines 501-521 are never run. Both ways out mark the end where the loop stopped, and `TextScanning.TextSpec` models it that way.
- `/>` on an empty stack succeeds and emits no token (`TagScanning.SelfClosingPops`).
- At end of input, the implicit-end-tag resolver declines unless the top tag is void, because the name it reads there is empty (`TagScanning.ImplicitEndTagAtEnd`).

## Model

| member | source | states |
|---|---|---|
| Lexing.Lexer.Advance | src/scanner.cc:14 | advancing moves the position by one, and does nothing at end of input; nothing else of the lexer changes |
| Lexing.Lexer.Skip | src/scanner.cc:15 | skipping advances and moves the token start along with the position |
| Lexing.Lexer.MarkEnd | src/scanner.cc:16 | marking records the current position as the token end |
| Lexing.Lexer.Emit | src/scanner.cc:17 | setting the result symbol changes only the result |
| TagScanning.NameEnd | src/scanner.cc:135-139 | the name run ends at the first character that is not alphanumeric, '-' or ':', and every character before it is one |
| TagScanning.TagNameEmpty | src/scanner.cc:131-141 | the tag name is empty exactly when the lookahead is not a name character, and it has one byte per character read |
| TagScanning.ImplicitEndTagCases | src/scanner.cc:250-300 | the resolver commits in exactly three situations: not a closing tag with a void top; a closing tag whose tag is open but not on top; not a closing tag whose tag the top cannot contain. Then it pops exactly the top and emits IMPLICIT_END_TAG. Otherwise it declines with the stack and result unchanged. The marked end and token start never change |
| TagScanning.ImplicitEndTagAtEnd | src/scanner.cc:253-273 | at end of input the resolver commits if and only if the stack is non-empty with a void top, and does not move |
| TagScanning.UnwindStep | src/scanner.cc:277-290 | re-running the resolver at a closing tag whose tag is open stops when that tag is on top, and otherwise pops one tag and goes on |
| TagScanning.UnwindPopsTo | src/scanner.cc:277-290 | re-running the resolver at a closing tag whose tag is open pops the stack down to that tag |
| TagScanning.ClosingTagUnwindsToMatch | src/scanner.cc:283-290 | for a closing tag x with stack pre + [x] + post, x not in post, the repeated resolver leaves exactly pre + [x] |
| TagScanning.StartTagPushes | src/scanner.cc:302-323 | the start-tag scanner declines exactly on an empty name, leaving stack and result. Otherwise it pushes exactly the tag classified from the upper-cased name and emits SCRIPT_, STYLE_ or START_TAG_NAME by its type |
| TagScanning.EndTagPopsOnMatch | src/scanner.cc:325-342 | the end-tag scanner declines exactly on an empty name. It pops one tag and emits END_TAG_NAME if and only if the stack is non-empty and its top is the named tag. Otherwise it emits ERRONEOUS_END_TAG_NAME and leaves the stack |
| TagScanning.EndTagUndoesStartTag | src/scanner.cc:302-342 | an end tag naming the tag a start tag pushed brings the stack back to what it was |
| TagScanning.SelfClosingPops | src/scanner.cc:344-359 | after '/', success exactly when '>' follows. It then pops one tag when the stack is non-empty, void or not, and emits nothing on an empty stack. A decline leaves the stack |
| TagScanning.SelfClosingUndoesStartTag | src/scanner.cc:344-359 | a start tag closed by `/>` leaves the stack as it was before the tag |
| TextScanning.CommentLoop | src/scanner.cc:153-173 | the comment loop only moves forward and stays within the input |
| TextScanning.CommentLoopFindsFirstClose | src/scanner.cc:153-174 | the comment loop stops just past the first '>' preceded by two dashes of the body, or declines at end of input with no such '>' before it |
| TextScanning.CommentEndsAtFirstClose | src/scanner.cc:143-175 | a comment needs "--". It ends and marks its end just past the first '>' preceded by two dashes counted after that "--". Reaching end of input first is a decline that leaves the mark and result |
| TextScanning.RawTextLoop | src/scanner.cc:188-204 | the marked end never passes the position, and both stay within the input |
| TextScanning.RawTextLoopHolds | src/scanner.cc:188-204 | the loop stops on the last character of a case-insensitive match of the terminator starting at the marked end, or at end of input behind a held-back partial match |
| TextScanning.RawTextStopsBeforeTerminator | src/scanner.cc:177-208 | raw text declines on an empty stack and otherwise succeeds with RAW_TEXT. The token ends right before `</SCRIPT` (top is SCRIPT) or `</STYLE` (otherwise), matched ignoring case, or before a held-back proper prefix of it that runs up to a NUL or end of input. The token itself splits into failed attempts: each a proper prefix of the terminator followed by a non-NUL character that does not continue it |
| TextScanning.RawTextAttempts | src/scanner.cc:188-204 | from any point of the matcher's loop, the text from the current attempt's start to the final marked end splits into failed attempts |
| TextScanning.SplittingIsUnique | src/scanner.cc:188-204 | a split of the input into failed attempts followed by a whole or held-back terminator is unique: it fixes both the token end and the stop position |
| TextScanning.RawTextLoopIsDetermined | src/scanner.cc:188-204 | any token end and stop position with failed attempts before and a terminator tail after are the ones the matcher's loop returns |
| TextScanning.RawTextOutcomeIsDetermined | src/scanner.cc:177-208 | the contract of `RawTextStopsBeforeTerminator` pins raw text's outcome: any token end and position meeting it are the scan's |
| TextScanning.RawTextMissesOverlappingTerminator | src/scanner.cc:191-202 | in `<</STYLE` the terminator that starts at the second '<' is never seen, and the raw text runs to the end |
| TextScanning.RawEchoLoop | src/scanner.cc:215-244 | the marked end never passes the position, and both stay within the input |
| TextScanning.RawEchoLoopHolds | src/scanner.cc:215-244 | the raw-echo loop stops after a `}}` or `!!}` with only '}' and '!' behind the marked end, or at end of input |
| TextScanning.RawEchoAfterBrace | src/scanner.cc:217-225 | the same, for a round that starts at '}' |
| TextScanning.RawEchoAfterBang | src/scanner.cc:226-238 | the same, for a round that starts at '!' |
| TextScanning.RawEchoExcludesTerminator | src/scanner.cc:210-248 | raw echo always succeeds with RAW_ECHO_PHP. It stops at the first NUL or end of input, or right after the first terminator it tests: every `}}`, and a `!!}` after an even run of '!'. The token ends right after the last ordinary character before that stop, so only '}' and '!' are held back |
| TextScanning.RawEchoStops | src/scanner.cc:215-244 | from any point of the raw-echo loop with nothing tested and no NUL passed, the loop stops at the first NUL or first tested terminator, and the marked end follows an ordinary character |
| TextScanning.RawEchoStopsAfterBang | src/scanner.cc:226-238 | the same, for a round that starts at a '!' after an even run of '!' |
| TextScanning.EchoStopIsFirst | src/scanner.cc:215-244 | of two positions where raw echo may stop, neither comes before the other |
| TextScanning.EchoTokenEndIsLast | src/scanner.cc:215-244 | for a given stop, the token end after the last ordinary character is unique |
| TextScanning.RawEchoOutcomeIsDetermined | src/scanner.cc:210-248 | the contract of `RawEchoExcludesTerminator` pins raw echo's outcome: any stop and token end meeting it are the scan's |
| TextScanning.EchoProbe | src/scanner.cc:361-399 | the probe moves only forward and within the input |
| TextScanning.EchoProbeMatches | src/scanner.cc:361-399 | the regular probe accepts exactly `{{` and `{!!`, and the verbatim probe exactly `@{{`. A match leaves the cursor just past the delimiter. A probe steps only over '{', '!' and '@' |
| TextScanning.DelimiterProbes | src/scanner.cc:463-481 | a round of probes moves only forward and within the input |
| TextScanning.DelimiterProbesFind | src/scanner.cc:463-481 | a round of probes finds a delimiter exactly where one starts, finds the one at the position whenever there is one, and steps only over probe characters |
| TextScanning.DelimiterProbesExactly | src/scanner.cc:463-481 | a round of probes finds a delimiter if and only if one starts at the position, or a `{` there hides a verbatim delimiter (`{@{{`, `{!@{{`) |
| TextScanning.TextLoop | src/scanner.cc:456-483 | the text loop moves only forward and within the input |
| TextScanning.TextLoopStops | src/scanner.cc:456-483 | the text loop stops at a found delimiter or at '<', '>' or end of input. Every stop character and every delimiter it passed comes right after a '{', '!' or '@' |
| TextScanning.TextTokenShape | src/scanner.cc:413-527 | text declines at end of input, at a leading '<', '>' or space, and at a leading delimiter. A text token is non-empty and ends at '<', '>', end of input or a delimiter. Every '<', '>', NUL or delimiter inside it comes right after a '{', '!' or '@' |
| TextScanning.TextAcceptsExactly | src/scanner.cc:413-448 | text succeeds if and only if the lookahead is not end of input, NUL, '<', '>' or a space, no delimiter starts there, and no `{` there hides a verbatim delimiter |
| Codec.Fit | src/scanner.cc:71-92 | serialize's loop writes no more entries than there are tags left |
| Codec.FitBound | src/scanner.cc:79-89 | the written entries leave the used length below the buffer size, and the first tag left out would not have fitted |
| Codec.FitAll | src/scanner.cc:71-92 | entries that fit together below the buffer size are all written |
| Codec.WrittenBound | src/scanner.cc:71-96 | no more entries are written than the capped stack size; the used length stays below the buffer size; the loop stops early only at an entry that would not fit |
| Codec.SnapshotShape | src/scanner.cc:61-97 | bytes 0-1 hold the number of entries written, bytes 2-3 the stack size capped at 65535, then the entries. The length returned is below the buffer size, and the loop stops early only at an entry that would not fit |
| Codec.SmallStackFits | src/scanner.cc:71-92 | a stack of at most 65535 tags whose entries take fewer than BUF - 4 bytes is written whole |
| Codec.EntryAt | src/scanner.cc:118-126 | a successful read of one entry ends after its start and within the buffer |
| Codec.DecodeEntry | src/scanner.cc:118-126 | reading back the bytes of one entry gives its tag, with a CUSTOM name cut to 255 bytes, and ends where the entry ends |
| Codec.DecodedLength | src/scanner.cc:116-127 | a successful read of n entries gives n tags |
| Codec.Blanks | src/scanner.cc:115 | the resized stack holds the requested number of default tags |
| Codec.SpelledEncodes | src/scanner.cc:116-127 | bytes holding the entries of a stack read back, entry by entry, as its tags with names cut |
| Codec.EncodesDecodes | src/scanner.cc:116-127 | entries that read back one by one decode together to the cut tags, ending after the last entry |
| Codec.DecodeEntriesOf | src/scanner.cc:116-127 | the entries of a stack, found at an offset, decode to its tags with names cut and end where they end |
| Codec.RestoreSnapshot | src/scanner.cc:61-129 | every snapshot is readable. Restoring it gives the written entries, names cut to 255 bytes, then default tags up to the recorded size |
| Codec.CutAllIdentity | src/scanner.cc:76-78 | cutting leaves a stack alone when no CUSTOM name is longer than 255 bytes |
| Codec.RoundTrip | src/scanner.cc:61-129 | a stack of at most 65535 tags, whose CUSTOM names have at most 255 bytes and whose entries all fit, is restored exactly |
| Dispatch.SkipSpaces | src/scanner.cc:532-535 | the whitespace loop stays within the input |
| Dispatch.SkipSpacesStops | src/scanner.cc:532-535 | the whitespace loop steps only over whitespace and stops at the first other character. The token start moves to where it stopped, and nothing else changes |
| Dispatch.ScanStackEffect | src/scanner.cc:529-605 | a decline leaves the stack. A change to the stack is one pop, which comes with IMPLICIT_END_TAG, END_TAG_NAME or SELF_CLOSING_TAG_DELIMITER, or one push, which comes with the start-tag token of the pushed tag |
| Dispatch.ImplicitEndTagZeroWidth | src/scanner.cc:549-570 | on a fresh cursor an IMPLICIT_END_TAG token ends where it starts, at the '<' or at end of input |
| Dispatch.BangAlwaysComment | src/scanner.cc:549-557 | after the raw-text and raw-echo gates, `<!` goes to the comment scanner, whichever flags are set |
| Dispatch.AtSignNeverVerbatim | src/scanner.cc:579-589 | at '@' with the regular delimiter valid, only the regular form is tried, and the scan declines |
| Dispatch.TagNamePrecedence | src/scanner.cc:591-601 | the start-tag scanner runs whenever START_TAG_NAME is valid, and the end-tag scanner only when END_TAG_NAME is valid and RAW_TEXT is not. Otherwise the scan declines |
| Dispatch.TextIsFallback | src/scanner.cc:591-595 | when TEXT is valid and neither raw scanner takes over, any first character other than '<', '>', '/', '{', '@' or end of input gives a TEXT token, and the stack is left alone |
| Blade.Scanner.constructor | src/scanner.cc:59 | a new scanner has an empty stack |
| Blade.Scanner.CopyName | src/scanner.cc:83 | copies the first n name bytes into the buffer at the offset, and changes no other byte |
| Blade.Scanner.PutCustom | src/scanner.cc:81-84 | writes the CUSTOM code, the cut name length and the cut name at the offset, and changes no other byte |
| Blade.Scanner.PutEntry | src/scanner.cc:73-91 | writes the entry of a tag exactly when it leaves the used length below the buffer size, then returns the offset after it. Otherwise it writes nothing. The header bytes and every byte from the returned offset on are never touched |
| Blade.Scanner.WriteEntries | src/scanner.cc:71-92 | the loop writes the entries of the first Fit tags from byte 4, leaving the header and every byte after the last entry |
| Blade.Scanner.Serialize | src/scanner.cc:61-97 | the buffer starts with the snapshot of the stack, and the length returned is that snapshot's, below the buffer size. Bytes from that length on are unchanged |
| Blade.Scanner.ReadEntry | src/scanner.cc:118-126 | reads the entry at the offset as the decoder does |
| Blade.Scanner.ReadEntries | src/scanner.cc:115-127 | the loop overwrites the first recorded-count default tags with the entries read, in order |
| Blade.Scanner.Deserialize | src/scanner.cc:99-129 | an empty buffer gives an empty stack. Otherwise the stack becomes the entries read, then default tags up to the recorded size |
| Blade.Scanner.ScanTagName | src/scanner.cc:131-141 | returns the upper-cased maximal run of name characters and advances past it, with nothing else changed |
| Blade.Scanner.ScanComment | src/scanner.cc:143-175 | computes the comment scanner's outcome |
| Blade.Scanner.ScanRawText | src/scanner.cc:177-208 | computes the raw-text scanner's outcome, leaving the stack |
| Blade.Scanner.ScanRawPhp | src/scanner.cc:210-248 | computes the raw-echo scanner's outcome |
| Blade.Scanner.ScanImplicitEndTag | src/scanner.cc:250-300 | computes the resolver's outcome and new stack |
| Blade.Scanner.ScanStartTagName | src/scanner.cc:302-323 | computes the start-tag scanner's outcome and new stack |
| Blade.Scanner.ScanEndTagName | src/scanner.cc:325-342 | computes the end-tag scanner's outcome and new stack |
| Blade.Scanner.ScanSelfClosingTagDelimiter | src/scanner.cc:344-359 | computes the self-closing scanner's outcome and new stack |
| Blade.Scanner.CheckOpenEchoDelimiter | src/scanner.cc:361-399 | computes the probe's verdict and where it leaves the cursor, with nothing else changed |
| Blade.Scanner.ScanOpenEchoDelimiter | src/scanner.cc:401-411 | emits the regular or verbatim delimiter exactly when the probe matches |
| Blade.Scanner.ProbeDelimiters | src/scanner.cc:463-481 | computes one round of the text scanner's two probes and the end marks they set |
| Blade.Scanner.ScanText | src/scanner.cc:413-527 | computes the text scanner's outcome |
| Blade.Scanner.Scan | src/scanner.cc:529-605 | computes the dispatcher's outcome and new stack from the valid-symbol flags |

## Left out

- `tag.h` is not part of this model. `Tag::for_name`, `is_void`, `can_contain` and the default `Tag()` are fields of `Tags.TagTable`, a record of function values the scanner gets at construction. `==` on tags is structural equality of `Tags.Tag`.
- The type codes of `tag.h` are not part of this model either. CUSTOM, SCRIPT and STYLE are distinct placeholder bytes: 127, 90 and 100. The source stores a type code through `char`. The model reads it back as the same byte, which holds for every code below 128, the placeholders included. A byte of 128 or more in a buffer handed to `deserialize` is read as that byte, not as a negative `char`.
- `iswalnum`, `towupper` and `iswspace` are restricted to ASCII.
- `memcpy` byte order: both 16-bit counts are stored low byte first.
- `TREE_SITTER_SERIALIZATION_BUFFER_SIZE` comes from the host and is taken as 1024 (`Codec.BUF`).
- TextScanning.TextLoopStops: the same exemption as for `TextTokenShape` below. From 1 in `a!{{`, the contract admits running to end of input at 4, but the loop finds the `{{` at 2, which no probe steps over.
- TextScanning.TextTokenShape: a stop or delimiter right after a '{', '!' or '@' is allowed inside the token whether or not a failed probe actually stepped over it, so for `!{{` the contract admits an end at 3 where the scan ends at 1. Which positions the loop tests is stated only by `TextScanning.TextLoop` itself.
- Blade.Scanner.Deserialize: requires `Codec.Readable`, i.e. an empty buffer, or a header whose written count is at most the recorded size, followed by that many entries inside the buffer. On any other input the source reads out of bounds or writes past the resized stack, which is undefined behaviour.
- Blade.Scanner.Scan: the valid-symbol flags are a set of token kinds rather than a `bool` array.
- TagScanning.UnwindPopsTo: the host re-running the scanner after each committed implicit end tag is modelled as `Unwind` with a bound on the number of runs.
- `unsigned dashes` in `scan_comment` is an unbounded natural. It cannot wrap below 2^32 input characters.
- `print_valid_syms` (src/scanner.cc:45-55) writes debug output to stderr.
- The `extern "C"` create, destroy, scan, serialize and deserialize glue (src/scanner.cc:612-651) is host ABI and heap allocation.
- grammar.js holds grammar rule configuration with no scanner logic.
