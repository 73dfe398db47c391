# Verified models of three stateful parts of comm-central

**The UTF-7 codec** (`mailnews/intl`). The encoder and the decoder are classes with the fields and
loops of the original. Both are instances of one kind of machine (`Transducer`): a step that handles
one item with some room left, and the same step with no bound on the room. The class methods are
proved to do what the machine does, and the laws are proved about the machine. The machine is
parametric in the 64th base64 character, the escape character, the set of directly encodable units
and the signedness of `char`; `ModifiedUtf7` and `PlainUtf7` are the two instances, which
`Utf7Instances` tells apart by what they do to text. Base64 mode is tied to a reference that has no
state machine: the digits and the units of a run spell the same number (`Numerals`, `Utf7BitStrings`). `Utf7Canonical` describes the canonical byte strings of
section 5.1.3 of RFC 3501 by a recogniser that mentions neither converter, and `Utf7Parsing` says
what the decoder makes of all others. `MailboxNames` is the code that uses the codec for IMAP mailbox
names.

**The toolbar reconciliation** (`common/bindings/customizable-toolbar.js`). The `currentSet` setter
edits the list of children in place; `ToolbarModel` says what each step does, `ToolbarConservation`
and `ToolbarSetGet` prove what the whole setter keeps and what the getter prints afterwards,
`ToolbarRequests` what items a request stands for and which of its ids count, and `ToolbarLeftovers`
what becomes of the children it does not take. Elements have an identity apart from their ids, so any
number of them may have no id, as the placeholder at the end of the main menu bar has none.
`ToolbarOthers` proves what a setter takes from the other toolbars of the toolbox, and
`ToolbarRestore` that setting all of them to their default sets works.

**The chunked message queue** (`chat/content/conversation-browser.js`). The class keeps the array,
the index and the displayed count; it is proved to behave as a plain queue driven by events, and the
order and progress properties hold over every run of events. `ConversationRuns` states what runs do
from the list of events alone, without the counters of the model.

Shifts and masks are written as division, remainder and multiplication by powers of two. A buffer is
an array with a start and a room; the room may become negative, as in the original once the end has
been passed. `requires` clauses on the converter methods ask only that the bytes the call
writes lie in memory that exists.

Two places where the code does not do what its buffer arguments suggest are stated as they are: the
encoder asks for one byte before it writes the two of an escape pair, and so may pass the end of its
buffer by one byte (`Utf7EncoderLaws.OverrunIffPairAtEnd` says exactly when); and the decoder writes the
literal escape without asking, and so may pass the end by any number of units
(`Utf7DecoderLaws.OverrunIffEscapesPastEnd` says exactly when and how far, `EscapesNeverStop` that there
is no bound). What the first means for mailbox names is in `MailboxNames`: a name that is 99 plain
characters and an ampersand loses the byte behind the copying buffer.

## Model

| member | source | states |
|---|---|---|
| Utf7Scheme.CharOfValue | mailnews/intl/nsUnicodeToUTF7.cpp:173-186 | the decoder's table undoes the encoder's on every 6-bit value, and no digit is `-` or above 127 |
| Utf7Scheme.ValueOfChar | mailnews/intl/nsUTF7ToUnicode.cpp:132-145 | every character with a value has one below 64 and is the character of it |
| Utf7Scheme.TableIsBase64 | mailnews/intl/nsUnicodeToUTF7.cpp:173-186 | the digits are the base64 alphabet in its order, ended by the character of the scheme |
| Utf7Scheme.ModifiedUtf7 | mailnews/intl/nsUnicodeToMUTF7.cpp:11 | an instance to which all the general laws apply, with exactly printable ASCII direct; PrintableStays, NameUsesModifiedBase64 and KnownName below say which |
| Utf7Scheme.PlainUtf7 | mailnews/intl/nsUnicodeToUTF7.cpp:259-302 | an instance to which all the general laws apply, with the direct units of the override; PlainTextStays and KnownText below say which |
| Utf7Encoding.DigitValues | mailnews/intl/nsUnicodeToUTF7.cpp:122-160 | in reachable states every value given to ValueToChar is below 64, and the sums put pending and new bits side by side |
| Utf7Encoding.ShiftResumes | mailnews/intl/nsUnicodeToUTF7.cpp:24-60 | a mode change cut short has flushed at most the pending bits and comes out whole when tried again |
| Utf7Encoding.EncoderLawful | mailnews/intl/nsUnicodeToUTF7.cpp:199-242 | every bounded encoder step, from every reachable state and with any room, refines the unbounded step: done entirely, or stopped with the rest still to come |
| Utf7Encoder.BasicUTF7Encoder.constructor | mailnews/intl/nsUnicodeToUTF7.cpp:18-22 | a new encoder is in the reset state |
| Utf7Encoder.BasicUTF7Encoder.Reset | mailnews/intl/nsUnicodeToUTF7.cpp:249-254 | back to direct mode with nothing pending |
| Utf7Encoder.BasicUTF7Encoder.ShiftEncoding | mailnews/intl/nsUnicodeToUTF7.cpp:24-60 | state, bytes, count and result of a mode change, nothing else in the buffer touched |
| Utf7Encoder.BasicUTF7Encoder.EncodeDirect | mailnews/intl/nsUnicodeToUTF7.cpp:62-103 | does with the leading direct units what the unit-at-a-time machine does, for any room |
| Utf7Encoder.BasicUTF7Encoder.UnitDigits | mailnews/intl/nsUnicodeToUTF7.cpp:122-160 | the switch over the phases yields the machine's digits and pending bits, or asks for more room and changes nothing |
| Utf7Encoder.BasicUTF7Encoder.EncodeBase64 | mailnews/intl/nsUnicodeToUTF7.cpp:105-171 | does with the leading other units what the machine does, for any room, and keeps the reachable states |
| Utf7Encoder.BasicUTF7Encoder.EncodeStretch | mailnews/intl/nsUnicodeToUTF7.cpp:212-237 | shifting and then encoding one stretch is the machine on that stretch |
| Utf7Encoder.BasicUTF7Encoder.ConvertNoBuffNoErr | mailnews/intl/nsUnicodeToUTF7.cpp:199-242 | the bulk run-by-run conversion equals the unit-at-a-time machine: state, input taken, bytes, result, for every input and room |
| Utf7Encoder.BasicUTF7Encoder.FinishNoBuff | mailnews/intl/nsUnicodeToUTF7.cpp:244-247 | finishing is the change to direct mode |
| Utf7EncoderLaws.CallsJoin | mailnews/intl/nsUnicodeToUTF7.cpp:199-242 | input in pieces: if a first call gets through its part, then whatever the room and the result of the second, the two are one call on the whole with the room they had |
| Utf7EncoderLaws.FinishResets | mailnews/intl/nsUnicodeToUTF7.cpp:244-254 | with two bytes of room finishing closes the run and leaves the reset state |
| Utf7EncoderLaws.FinishResumes | mailnews/intl/nsUnicodeToUTF7.cpp:35-59 | an interrupted finish has written as much as fits and is completed by the next one; when it succeeds and where it then stands |
| Utf7EncoderLaws.OverrunIffPairAtEnd | mailnews/intl/nsUnicodeToUTF7.cpp:78-88 | a call passes the end of its buffer if and only if an escape pair falls on the end, and then by exactly one byte, the `-` |
| Utf7EncoderLaws.CompletesIffFits | mailnews/intl/nsUnicodeToUTF7.cpp:199-242 | a call completes in bounds if and only if the one-shot output fits, and then it is the one-shot result |
| Utf7EncoderLaws.CallTakes | mailnews/intl/nsUnicodeToUTF7.cpp:212-237 | the exact room without which a call takes no unit, never above three bytes; a unit taken is a byte written |
| Utf7EncoderLaws.StopsWhenFull | mailnews/intl/nsUnicodeToUTF7.cpp:24-171 | where a call stops: it has written the units it took and as much of the next mode change as fits, and the next unit does not fit, but for the second byte of an escape pair |
| Utf7EncoderLaws.OutputResumes | mailnews/intl/nsUnicodeToUTF7.cpp:24-171 | output resumption: over any sequence of buffers the pieces are a beginning of the one-shot output with exactly the rest to come; with buffers of three bytes or more, one a unit is enough |
| Utf7EncoderLaws.FinishedSize | mailnews/intl/nsUnicodeToUTF7.cpp:35-54 | from any reachable state, twice the finished size is at most 7 a unit plus a charge of 2, 3 or 4 |
| Utf7EncoderLaws.EncodedSize | mailnews/intl/nsUnicodeToUTF7.cpp:122-160 | from reset n units cost at most (7n + 3) / 2 bytes including the finish, whatever the scheme; hence at most 5n |
| Utf7EncoderLaws.FiveBytesSuffice | mailnews/intl/nsUnicodeToUTF7.cpp:199-247 | with 5n bytes of room neither the conversion nor the finish asks for more, and both stay in bounds |
| Utf7EncoderLaws.SizeIsTight | mailnews/intl/nsUnicodeToUTF7.cpp:122-160 | for every positive n there are n units that reach (7n + 3) / 2 when the escape is direct, as in modified UTF-7 |
| Utf7EncoderLaws.PlainSize | mailnews/intl/nsUnicodeToUTF7.cpp:122-160 | when the escape is not direct, as in plain UTF-7, n units cost at most 3n + 2 bytes including the finish |
| Utf7EncoderLaws.PlainSizeIsTight | mailnews/intl/nsUnicodeToUTF7.cpp:122-160 | and for every positive n there are n units that do |
| Utf7EncoderLaws.KnownAnswer | mailnews/intl/test/unit/test_encode_utf-7_internal.js:3-7 | a unit cut off by a hyphen is written as the unit test expects, the hyphen that closes the run apart from the one encoded |
| Utf7EncoderLaws.KnownRun | mailnews/intl/test/unit/test_encode_utf-7_internal.js:3-7 | three units in one run are written as the unit test expects, which fixes all three phases |
| Utf7Decoding.DigitMerges | mailnews/intl/nsUTF7ToUnicode.cpp:76-119 | accumulator bounds: the digit is added below the bits in use, the sum stays below 2^16, and the phase's alignment is kept |
| Utf7Decoding.DecoderLawful | mailnews/intl/nsUTF7ToUnicode.cpp:150-204 | every bounded decoder step refines the unbounded step, from every reachable state |
| Utf7Decoder.BasicUTF7Decoder.constructor | mailnews/intl/nsUTF7ToUnicode.cpp:14-18 | a new decoder is in direct mode, its fresh flag whatever the memory held |
| Utf7Decoder.BasicUTF7Decoder.Reset | mailnews/intl/nsUTF7ToUnicode.cpp:206-211 | back to direct mode, the fresh flag left alone |
| Utf7Decoder.BasicUTF7Decoder.DecodeDirect | mailnews/intl/nsUTF7ToUnicode.cpp:20-53 | does with the bytes before the escape what the machine does, and reports illegal input exactly if it stopped at one |
| Utf7Decoder.BasicUTF7Decoder.TakeDigit | mailnews/intl/nsUTF7ToUnicode.cpp:76-119 | the switch over the phases is the machine's digit step, or asks for more room and changes nothing |
| Utf7Decoder.BasicUTF7Decoder.DecodeBase64 | mailnews/intl/nsUTF7ToUnicode.cpp:55-130 | does with the leading digits what the machine does, and reports illegal input exactly if a byte that is no digit follows |
| Utf7Decoder.RoundContinues | mailnews/intl/nsUTF7ToUnicode.cpp:161-199 | after each round of the loop the rest of the call is the call on the rest; in direct mode decoding stops at an escape only, so the `else break` is never taken |
| Utf7Decoder.BasicUTF7Decoder.DecodeInMode | mailnews/intl/nsUTF7ToUnicode.cpp:162-177 | the first half of a round, in all three cases |
| Utf7Decoder.BasicUTF7Decoder.ConvertNoBuff | mailnews/intl/nsUTF7ToUnicode.cpp:150-204 | the conversion equals the byte-at-a-time machine for every input and room; it ends by 2 × remaining bytes plus 1 in base64 mode |
| Utf7DecoderLaws.CompletesIffFits | mailnews/intl/nsUTF7ToUnicode.cpp:161-203 | a call completes in bounds if and only if the whole decoding fits |
| Utf7DecoderLaws.OverrunIffEscapesPastEnd | mailnews/intl/nsUTF7ToUnicode.cpp:161-171 | a call passes the end of its buffer if and only if literal escapes come once the room is gone, before anything that asks for room; and by as many units as there are such escapes |
| Utf7DecoderLaws.EscapesNeverStop | mailnews/intl/nsUTF7ToUnicode.cpp:167-171 | n literal escapes are decoded to n units and success whatever the room, none included |
| Utf7DecoderLaws.Total | mailnews/intl/nsUTF7ToUnicode.cpp:161-203 | from every reachable state, for every byte string, with a unit of room for each byte: everything taken, success, in bounds, at most one unit a byte |
| Utf7DecoderLaws.OutputResumes | mailnews/intl/nsUTF7ToUnicode.cpp:150-204 | over any sequence of buffers the pieces are a beginning of the whole output with exactly the rest to come; with buffers of one unit or more, one a byte is enough |
| Utf7DecoderLaws.ChunksJoin | mailnews/intl/nsUTF7ToUnicode.cpp:161-199 | chunk independence: wherever the input is cut, two calls yield the units and state of one |
| Utf7DecoderLaws.StaleStateIsReset | mailnews/intl/nsUTF7ToUnicode.cpp:181-196 | in direct mode stale bits, phase and flag change neither the units nor what follows |
| Utf7DecoderLaws.MessagesRoundTrip | mailnews/intl/nsUnicodeToUTF7.cpp:244-254 | message boundaries: the concatenation of finished encodings decodes to the concatenation of the messages, on a decoder that is never reset |
| Utf7DecoderLaws.EncodedInjective | mailnews/intl/nsUnicodeToUTF7.cpp:199-247 | different inputs never have the same finished encoding |
| Utf7RoundTrip.UnitDecodes | mailnews/intl/nsUTF7ToUnicode.cpp:76-119 | one base64 unit, at each of the three phases, completes the pending unit on the decoder's side and keeps the two machines aligned |
| Utf7RoundTrip.RunDecodes | mailnews/intl/nsUTF7ToUnicode.cpp:150-204 | the simulation over any units, from any aligned pair of states |
| Utf7RoundTrip.LockstepAfterPrefix | mailnews/intl/nsUTF7ToUnicode.cpp:76-119 | after any encoded prefix encoder phases 0, 1, 2 are decoder phases 0, 2, 5; exactly the last unit is missing when the phase is not 0, and the two accumulators are its two parts |
| Utf7RoundTrip.RoundTrip | mailnews/intl/nsUnicodeToUTF7.cpp:199-247 | encode, finish, decode gives back every sequence of units and ends in direct mode, for both instances and any decoder in direct mode |
| Utf7BitStrings.RunIsBitString | mailnews/intl/nsUnicodeToUTF7.cpp:116-166 | the encoder's closed run is the units' bit string, zero-padded to a multiple of six, cut into digits, and `-` |
| Utf7BitStrings.RunSize | mailnews/intl/nsUnicodeToUTF7.cpp:122-160 | a finished run of k units costs exactly 2 + ceil(8k/3) bytes |
| Utf7BitStrings.DecoderReadsBitString | mailnews/intl/nsUTF7ToUnicode.cpp:66-125 | whatever the digits, the decoder yields the complete 16-bit groups of their bit string, and its accumulator is zero exactly when the bits left over are |
| Utf7Canonical.EncodedIsReference | mailnews/intl/nsUnicodeToUTF7.cpp:199-247 | the encoder refines a reference that works run by run on bit strings |
| Utf7Canonical.EncodedIsCanonical | mailnews/intl/nsUnicodeToUTF7.cpp:62-242 | canonical output: escapes closed, no direct unit inside base64, zero padding, no run right after a run; and it means its units |
| Utf7Canonical.CanonicalIsReference | mailnews/intl/nsUTF7ToUnicode.cpp:150-204 | encoding the meaning of any canonical string gives back the string |
| Utf7Canonical.CanonicalInverse | mailnews/intl/nsUTF7ToUnicode.cpp:150-204 | a byte string survives decoding and encoding if and only if it is canonical, if and only if it is some finished encoding |
| Utf7Canonical.CanonicalIsPrintable | mailnews/intl/nsUnicodeToUTF7.cpp:188-194 | canonical modified UTF-7 has bytes 0x20 to 0x7e only |
| Utf7Canonical.MailboxName | mailnews/intl/nsUnicodeToMUTF7.cpp:11 | every finished modified UTF-7 encoding is canonical and printable |
| Utf7Instances.PrintableStays | mailnews/intl/nsUnicodeToUTF7.cpp:188-194 | modified UTF-7 leaves a name as it is if and only if it has the characters from space to `~` only, and no `&` |
| Utf7Instances.NameUsesModifiedBase64 | mailnews/intl/nsUnicodeToMUTF7.cpp:11 | in every encoded name, from each `&` up to the next `-` there are letters, digits, `+` and `,` only; a name that starts with a character that is not printable starts with `&` |
| Utf7Instances.KnownName | mailnews/intl/nsUnicodeToMUTF7.cpp:11 | the name of Taipei is `&U,BTFw-`, as in section 5.1.3 of RFC 3501, and `&` is `&-` |
| Utf7Instances.PlainTextStays | mailnews/intl/nsUnicodeToUTF7.cpp:261-302 | plain UTF-7 leaves text as it is if and only if it has the listed characters only, `+` not among them |
| Utf7Instances.KnownText | mailnews/intl/nsUnicodeToUTF7.cpp:259 | the unit 65535 is `+//8-` and `+` is `+ACs-` |
| Utf7Parsing.DecodedIsParsed | mailnews/intl/nsUTF7ToUnicode.cpp:150-204 | on any bytes whatever, canonical or not, the decoder does what a reference does that reads characters, pairs and runs with no state: whatever ends a run other than `-` is read as if there had been none |
| Utf7Parsing.WidenKeepsValue | mailnews/intl/nsUTF7ToUnicode.cpp:20-53 | a byte above 127 becomes the unit with the value it has as a `char` |
| MailboxNames.CopyUTF16toMUTF7 | mailnews/base/util/nsMsgI18N.cpp:118-138 | for every name, emptying the encoder through a hundred-byte buffer yields the one-shot encoding; the byte behind the buffer is overwritten, by `-`, if and only if escape pairs do not fit |
| MailboxNames.FitsCall | mailnews/base/util/nsMsgI18N.cpp:126-133 | counting through one call and then on from where it stopped |
| MailboxNames.CopyFitsIffPairsFit | mailnews/base/util/nsMsgI18N.cpp:126-133 | every call of the copy stays inside its buffer if and only if no escape pair falls on the end of one, found by counting units and room |
| MailboxNames.FitsWithoutEscape | mailnews/base/util/nsMsgI18N.cpp:126-133 | names without the escape always fit |
| MailboxNames.EscapeOnTheEnd | mailnews/base/util/nsMsgI18N.cpp:126-133 | n plain characters and then the escape fit if and only if n is not 99, 199, 299 and so on |
| MailboxNames.CopyMUTF7toUTF16 | mailnews/base/util/nsMsgI18N.cpp:140-152 | decodes any bytes as the reference parser does, in one call within as many units as there are bytes; a name made by the copy comes back as it was |
| CustomizableToolbar.CustomizableToolbar.GetCurrentSet | common/bindings/customizable-toolbar.js:178-190 | the shown ids of the children in order, joined, or `__empty`; ShownAs and SkippedNeverPrinted say what is shown |
| ToolbarConservation.InsertedOrder | common/bindings/customizable-toolbar.js:133-151 | the node is on the toolbar once, right before the given child and last if there is none; every other element keeps its place among the rest, on every toolbar and in the palette |
| CustomizableToolbar.CustomizableToolbar.GetToolbarItem | common/bindings/customizable-toolbar.js:217-259 | a new special item, `toolbar` and its name being what it is; or an element with the id that is on a toolbar of the toolbox, or in the palette if none there has it; or nothing, if no element has it or there is no toolbox |
| CustomizableToolbar.CustomizableToolbar.CachePalette | common/bindings/customizable-toolbar.js:106-114 | the palette items by id; of several with one id, or with none, the last |
| CustomizableToolbar.CustomizableToolbar.PlaceId | common/bindings/customizable-toolbar.js:122-155 | one requested id: state, next index and added ids |
| CustomizableToolbar.CustomizableToolbar.SweepLeftovers | common/bindings/customizable-toolbar.js:157-170 | the backward sweep as a function of the layout; KeptAre, SweptAre, SweptBackwards and FixedStay say what it keeps and sweeps |
| CustomizableToolbar.CustomizableToolbar.SetCurrentSet | common/bindings/customizable-toolbar.js:101-171 | the whole setter as a function of the layout and the string |
| ToolbarConservation.InsertedCount | common/bindings/customizable-toolbar.js:133-151 | inserting takes the node away from wherever it is and adds it once, and changes the number of nothing else |
| ToolbarConservation.PlaceKeeps | common/bindings/customizable-toolbar.js:122-155 | what every requested id keeps: all elements and the new ones, each once, ids unique where there are any, creations to come new, the children in place being the added ones |
| ToolbarConservation.Conservation | common/bindings/customizable-toolbar.js:106-170 | for any requested ids, toolbars and palette hold the same multiset as before plus the created items less what was dropped for want of a palette, and every element has one parent |
| ToolbarRequests.ShownAs | common/bindings/customizable-toolbar.js:199-209 | a separator, spring or spacer shows as its name, any other item as its id, a skipped one not at all |
| ToolbarRequests.SkippedNeverPrinted | common/bindings/customizable-toolbar.js:178-209 | the getter prints the same when all skipped items are left out |
| ToolbarLeftovers.KeptAre | common/bindings/customizable-toolbar.js:157-170 | of the children behind the placed ones those stay that are not removable or show no id, and no others |
| ToolbarLeftovers.SweptAre | common/bindings/customizable-toolbar.js:157-170 | those are swept that are removable and show an id, and no others |
| ToolbarLeftovers.SweptBackwards | common/bindings/customizable-toolbar.js:157-170 | they reach the palette last child first |
| ToolbarLeftovers.FixedStay | common/bindings/customizable-toolbar.js:157-170 | for any request, every child that is fixed or shows no id is still on the toolbar |
| ToolbarLeftovers.OthersWereAskedFor | common/bindings/customizable-toolbar.js:116-170 | for any request, every other child that is left was asked for |
| ToolbarLeftovers.PaletteGains | common/bindings/customizable-toolbar.js:157-170 | for any request, the palette gains only children that were removable and showed an id, at its end |
| ToolbarSetGet.SetThenGet | common/bindings/customizable-toolbar.js:101-190 | set then get: a requestable list is printed as requested, followed by the ids that the fixed items it does not take show, in their old order |
| ToolbarRequests.ItemsStandInOrder | common/bindings/customizable-toolbar.js:116-155 | the items of the request stand first, in its order: for a special name an item of that kind, for any other id the item with it |
| ToolbarRequests.SpecialsAlways | common/bindings/customizable-toolbar.js:217-232 | separators, springs and spacers can always be asked for, in any number, and each is one |
| ToolbarRequests.SetThenGetAny | common/bindings/customizable-toolbar.js:116-155 | set then get for any list of ordinary ids: ids that nothing has and ids asked for again are passed over, without a trace |
| ToolbarSetGet.GetsWhatWasSet | common/bindings/customizable-toolbar.js:101-190 | the getter prints exactly the request if and only if the list can be asked for and every child it does not take is removable or shows no id |
| ToolbarSetGet.NewcomersAreRemovable | common/bindings/customizable-toolbar.js:147-155 | whatever any request brings onto the toolbar is removable there; what was there keeps its mark |
| ToolbarSetGet.CurrentSetReadsBack | common/bindings/customizable-toolbar.js:95-105 | as strings: the property then reads as assigned, and assigning it again changes nothing |
| ToolbarSetGet.JoinSplit | common/bindings/customizable-toolbar.js:116-189 | joining what was split gives back the string |
| ToolbarOthers.OthersLose | common/bindings/customizable-toolbar.js:217-259 | the other toolbars lose exactly the items that are asked for by their own ids, and keep all else in order |
| ToolbarRestore.SplitJoin | common/bindings/customizable-toolbar.js:116-189 | splitting what was joined gives back the ids, if none has a comma |
| ToolbarRestore.DefaultSetsRestored | common/src/customizeToolbar.js:466-487 | setting the toolbars of one toolbox in turn: if each can get its default set and no two ask for the same item, each with a default set then reads as that set |
| ConversationBrowser.ConversationBrowser.AppendMessage | chat/content/conversation-browser.js:453-462 | behaves as the append event of the plain queue, of which AppendAsks and NewShowsNothing say what it asks for |
| ConversationBrowser.ConversationBrowser.SetIsActive | chat/content/conversation-browser.js:446-451 | behaves as the activation event, displaying at once if there is something to show |
| ConversationBrowser.ConversationBrowser.StartDelayed | chat/content/conversation-browser.js:464-471 | the flag is set, and a callback requested only if it was clear |
| ConversationBrowser.ConversationBrowser.StartNow | chat/content/conversation-browser.js:472-484 | a chunk is displayed unless a batch is already under way |
| ConversationBrowser.ConversationBrowser.GetNextPendingMessage | chat/content/conversation-browser.js:493-507 | takes the head of the queue, or nothing if it is empty, and empties the array with its last message |
| ConversationBrowser.ConversationBrowser.DisplayNext | chat/content/conversation-browser.js:519-531 | one round of the loop: displays the head of the queue, if there is one |
| ConversationBrowser.ConversationBrowser.DisplayChunk | chat/content/conversation-browser.js:518-531 | displays exactly as many messages as the budget allows, one at least, from the head of the queue, and only the last one queued may scroll |
| ConversationBrowser.ConversationBrowser.DisplayPendingMessages | chat/content/conversation-browser.js:513-560 | one chunk; another callback if anything is left, else the flag is cleared; displayed count and next index agree afterwards |
| ConversationBrowser.ConversationBrowser.IdleCallback | chat/content/conversation-browser.js:471-548 | a callback displays a chunk exactly if the flag is set when it comes |
| ConversationBrowser.ConversationBrowser.InitConversation | chat/content/conversation-browser.js:305-334 | clears the flag, restarts loading, leaves the queue |
| ConversationBrowser.ConversationBrowser.DestroyBrowser | chat/content/conversation-browser.js:397-403 | clears the flag once |
| ConversationBrowser.ConversationBrowser.OnStateChange | chat/content/conversation-browser.js:53-104 | behaves as the document event of the plain queue, of which DocumentLoads says when it resets and that it then stops listening |
| ConversationModel.StepSound | chat/content/conversation-browser.js:446-560 | what every event keeps: appended messages are those displayed followed by those queued; a set flag has a callback to come and something to show |
| ConversationModel.QueueOrder | chat/content/conversation-browser.js:493-560 | over every interleaving with any budgets the displayed messages are a prefix of the appended ones, in order and once, and the rest is queued |
| ConversationModel.QueueOrderFromNew | chat/content/conversation-browser.js:206-239 | the same from a new browser on, with the callback under way when the flag is set |
| ConversationModel.QueueProgress | chat/content/conversation-browser.js:446-560 | once the conversation document has loaded and until another `init` or `destroy`, an active browser with the flag clear between events has an empty queue |
| ConversationModel.StepSettles | chat/content/conversation-browser.js:316-484 | after each event that holds if and only if the event is an append while active, a change of activity or a reset, or it held before and no `init` or `destroy` interrupts a batch |
| ConversationModel.RunSettles | chat/content/conversation-browser.js:316-484 | over every run it holds at the end if and only if some such event, or the beginning, has had no interruption since |
| ConversationModel.ProgressFromSettled | chat/content/conversation-browser.js:446-560 | a run without `init` or `destroy` from a new browser on stays so |
| ConversationModel.CallbacksAddUp | chat/content/conversation-browser.js:464-548 | over every run the callbacks to come are one for the batch under way and one for each batch given up, less those that came and found nothing to do |
| ConversationModel.OneCallback | chat/content/conversation-browser.js:464-548 | if no batch is given up, there is one callback to come exactly while the flag is set, and never two |
| ConversationRuns.AppendAsks | chat/content/conversation-browser.js:453-471 | after a message the flag is set if and only if it was, or the browser is active; a callback is asked for exactly when it becomes set, and nothing is displayed yet |
| ConversationRuns.NewShowsNothing | chat/content/conversation-browser.js:446-462 | over every run without activation a new browser displays nothing, has the flag clear and asks for no callback |
| ConversationRuns.ActivationShows | chat/content/conversation-browser.js:446-484 | activation displays the head of the queue in the same step, unless a batch is under way or there is nothing; otherwise it displays nothing |
| ConversationRuns.FirstLoadIsFirst | chat/content/conversation-browser.js:53-75 | which event of a list that is: the first stop at the conversation page with another stop before it |
| ConversationRuns.DocumentLoads | chat/content/conversation-browser.js:53-104 | from `init` to the next one, from the event list alone: the listener is gone if and only if the conversation page has stopped loading, not as the first page to stop; displayed and queued together are the messages since then, or all if that has not happened |
| ConversationRuns.AfterReset | chat/content/conversation-browser.js:84-98 | after a reset and until the next `init`, displayed and queued together are exactly the messages of the append events in between |
| ConversationRuns.NothingLost | chat/content/conversation-browser.js:453-562 | a browser that is never initialised keeps every message |
| ConversationRuns.ResetsAreInits | chat/content/conversation-browser.js:84-334 | the resets of a new browser never outnumber its initialisations |
| ConversationRuns.DestroyedOnce | chat/content/conversation-browser.js:397-403 | a second `destroy` changes nothing, whatever came between |
| ConversationModel.Drains | chat/content/conversation-browser.js:513-560 | n queued messages are all displayed, in order, by at most n callbacks, however little time each is given |
| ConversationModel.SlowDrain | chat/content/conversation-browser.js:519-531 | with no time to spare each callback displays exactly one message |
| ConversationRuns.FastDrain | chat/content/conversation-browser.js:518-531 | with more than two milliseconds left at every question one callback displays everything |
| ConversationRuns.OnlyLastScrolls | chat/content/conversation-browser.js:518-529 | however a batch is cut into callbacks, its last message is the only one that may scroll |

## Left out

- The XPCOM interfaces, charset aliases and converter manager around the codec: tables and wrappers.
- Surrogate pairs: the codec works on 16-bit units, and so does the model.
- The static buffer that CopyUTF16toMUTF7 shares between calls is a local array of the same size.
- CopyUTF16toMUTF7: what lies behind the buffer in memory is one byte that nothing else uses during the copy; C++ itself promises nothing when it is written.
- UnitDigits: together with DecodeInMode, TakeDigit, EncodeStretch and DisplayNext this is a part of a loop body of the original made a method of its own.
- Writes of one to three bytes through the output pointer are one call of `Buffers.Write`.
- Toolbar elements are values told apart by a key; two references to one node are two values with one key.
- SetThenGet: like the results that build on it, supposes that no element has a special name for its id; an element that has is found in the palette in place of a new item.
- SetThenGetAny: leaves out lists with an empty id, or with the id of an item that is skipped or shows as a special name; FixedStay, OthersWereAskedFor and Conservation hold for those too.
- DefaultSetsRestored: supposes that there is a palette and that ids have no comma and are not `__empty`, which would be read as something else; custom toolbars, which the original empties and removes first, are not part of this model.
- Elements of the document outside the toolbox's toolbars and its palette: by the uniqueness of ids they are never picked.
- Ids that are names of properties every JavaScript object has, which the caches of the original would find.
- The id of a new special item is taken from a function of the creation count that is assumed to give new ids; the original joins the name, the time and the count.
- insertItem, hasCustomInteractiveItems, the initial set of connectedCallback, attributes other than the two used, and the flex of springs.
- HTML generation, the unread ruler, scrolling, the progress bar and the events sent after a chunk; displaying a message appends to a log and does not re-enter the queue.
- The log viewer's overrides of getNextPendingMessage and getPendingMessagesCount, and exceptions while displaying.
- The document load flags are taken as two booleans, whether a document or window stopped loading and whether it is the conversation page.
