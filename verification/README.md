# Verified model of the EasyMesh agent's protocol core

This project models, in Dafny, the parts of the EMOSA agent (the C sources under `c/src`) that
decide what goes on the wire and what is believed of what comes from it, and proves what they
keep over every input and every run:

- the IEEE 1905.1 CMDU envelope (`c/src/cmdu.c`): the greedy fragmenter and the bounded
  reassembler, its inverse under reordering, duplication, interleaving, conflict, timeout and
  memory limits;
- the canonical JSON printer (`c/src/canon.c`), against a parser for the grammar of sections 2 to
  7 of RFC 8259 and the encoding of section 3 of RFC 3629;
- the Backhaul Steering coordinator (`c/src/bhsteer.c`), whose pending move and answers outlive
  sessions;
- from the agent (`c/src/agent.c`): the ingress rate gate, the client notifications, the
  capability identity, the fitting of an M2 set's BSSes to a radio's slots with its credentials in
  the vault (`c/src/vault.c`), and the AP Radio Basic Capabilities decoder with its encoder in
  `c/src/autoconf.c`;
- the Early AP Capability Report's retransmission (`c/src/early.c`).

Each part has a specification on values (a step function or a recursive definition), theorems
about that specification, and, where the C code updates state or loops, classes and methods that
are proved to do exactly what the specification says. `dafny verify dfyconfig.toml` checks all of
it.

| files | what they hold |
|---|---|
| `Bytes`, `Tlvs` | octets, TLVs, the payload grammar and `parse_tlvs` |
| `Fragmenter` | `em_fragment`: greedy packing and its optimality, frames |
| `Reassembly`, `Accounting`, `Runs` | the reassembler as a state machine, its invariant, runs seen key by key |
| `Soundness`, `Wire`, `Blocking`, `RoundTrip`, `Sharing` | the theorems over runs, down to the octets of the frames |
| `Reassembler` | the reassembler as an object with a context array |
| `Utf8`, `KeyOrder`, `JsonText`, `JsonParser` | code points, key order, the printed text, the reference parser |
| `JsonRoundTrip`, `Canonical`, `JsonPrinter` | reading back, canonical form, the printer's loops |
| `TextReader`, `TextLayout` | a reader that checks the place of every character, and what the text is, style by style |
| `Steering`, `SteeringRuns`, `SteeringAnswers`, `Coordinator` | the steering protocol, its run theorems, its answers in octets, the objects |
| `RateGate`, `Clients`, `ClientTable` | the token bucket; client joins and leaves, and the table in place |
| `RadioCaps`, `CapsIdentity` | the capability codec; identity and moved radios |
| `SlotFitting`, `SlotFitter` | slot fitting and its credentials; the loops over the vault |
| `Early` | the Early Report's retry machine |

## Findings

- `TextRoundTripsIffSound`, `OverlongCollides`: `utf8_next` also accepts overlong forms, encoded
  surrogates and values above 0x10FFFF. Two different strings can then print to the same text. A
  printed value reads back as itself exactly when its strings are well-formed UTF-8.
- `FillsSlotsIff`, `EighthIsLost`: a further radio may use eight references by the code's own limit,
  but the vault's pattern stops at `-7`, so the eighth store always fails and ends the fitting. The
  slots are filled exactly when at most seven BSSes are wanted. Eight can only come from a profile
  with eight slots on one further radio. The profile schema allows seven extra slots
  (`schemas/pod-profile.schema.json:52`); `em_profile_load` does not check that schema and itself
  allows eight (`c/src/southbound.c:76-79`).
- `AllJoinIffFits`, `TableIsShownIffFits`, `FullTableMisses`: the client table equals what is shown
  exactly when the known and the shown clients together fit its 256 entries; a call on a fuller
  table misses joins although leaves in the same call make room, and a second call settles it
  (`TwoCallsSettle`).
- `ReannounceReplaysIff`, `ReannounceForgets`, `SessionInStepIff`: a re-announcement empties the
  table first and gives no leave. A listener stays in step with the table exactly when every known
  client is announced again; one that is gone by then it keeps.
- `RoundTripsOnceIff`, `SingleFrameRedelivered`, `FedTwiceDeliveredTwice`, `ExpiredNotRedelivered`:
  the reassembler frees a context on delivery, so late duplicates open a new one. A message is
  delivered once exactly when its frames do not all come again between the opening of such a
  context and its deadline; if they do come again but not in time, nothing is delivered again. A
  one-frame message is delivered again by every duplicate.
- `ResponseRepeated`, `RepeatedOldestIsLost`: a repeated answer is refreshed in its place, so it is
  not the youngest in the table. It is given again for 30 s while fewer than 16 answers stand behind
  it or are new since; the oldest of 16, just repeated, is lost to the next new one.

## Model

| member | source | states |
|---|---|---|
| Tlvs.ParseIffSpells | c/src/cmdu.c:222-268 | A payload is accepted with given TLVs if and only if it spells them by the grammar: reserved length bits masked, an end marker of length 0 only in a last fragment and required there, anything after it ignored, at most 256 TLVs, no empty non-last payload |
| Tlvs.PayloadEncoded | c/src/cmdu.c:222-268 | Parsing undoes encoding: the encoded TLVs, with the end marker in a last fragment, parse to those TLVs |
| Tlvs.PayloadBounds | c/src/cmdu.c:222-268 | What parses is encodable, at most 256 TLVs, and no larger than the payload |
| Tlvs.ParseTlvs | c/src/cmdu.c:222-268 | The parsing loop returns what the grammar's reading is, on every payload |
| Tlvs.LengthOctets | c/src/cmdu.c:222-268 | A TLV's length field is the low six bits of its first octet times 256 plus its second |
| Tlvs.EncodedOctets | c/src/cmdu.c:73-79 | What is sent of a list of TLVs, octet by octet: kind, the length by quotient and remainder of 256, value, each in turn, then three zero octets in a last fragment, and nothing more |
| Fragmenter.PackIsSplit | c/src/cmdu.c:52-84 | The greedy packing is an order-preserving split at TLV boundaries with end-marker room in every chunk |
| Fragmenter.NoEmptyFragment | c/src/cmdu.c:52-84 | No chunk is empty unless the message has no TLV, and then there is exactly one |
| Fragmenter.GreedyStaysAhead | c/src/cmdu.c:52-84 | Against any other split the greedy one has used no more chunks, and where it has used as many its open chunk holds no more |
| Fragmenter.GreedyIsOptimal | c/src/cmdu.c:52-84 | No split at TLV boundaries with end-marker room has fewer fragments |
| Fragmenter.AcceptedIffSplittable | c/src/cmdu.c:43-84 | A message is accepted if and only if the MTU is 14 to 1500, there are at most 256 TLVs, all encodable, and some split of them has at most 64 fragments |
| Fragmenter.PackChunks | c/src/cmdu.c:50-84 | The loop over byte buffers fails exactly when a TLV does not fit or more than 64 chunks are needed, and else holds the encodings of the packing's chunks |
| Fragmenter.PlaceChunk | c/src/cmdu.c:66-78 | One turn of that loop keeps the buffers the encoding of the packing so far, or there is no room for another chunk |
| Fragmenter.Fragment | c/src/cmdu.c:43-110 | Accepts exactly the acceptable messages of at most 64 chunks, then gives one frame per chunk in order, each within 14 plus the MTU; each frame octet by octet: addresses, 0x89 0x3A 0 0, type and MID, fragment id, the two flag bits and no other, and the octets of that chunk's TLVs |
| Fragmenter.EncodeFrames | c/src/cmdu.c:32-41 | One frame per chunk with fragment ids in order, the last one flagged, every header octet fixed |
| Fragmenter.FrameIffOctets | c/src/cmdu.c:32-41 | A frame is the encoding of a fragment if and only if each of its octets is the one stated for its position |
| Accounting.StepValid | c/src/cmdu.c:195-219 | Every step from a valid state gives a valid state: the byte total is the sum of the contexts, each context the bytes and TLVs it stores, all budgets hold, keys are distinct, a poisoned context stores nothing, nothing lies beyond a last fragment, no stored context is complete |
| Accounting.AbsorbOk | c/src/cmdu.c:338-374 | A fragment that does not complete its message keeps its context valid, with its key and its start, and the byte total within the budget |
| Accounting.AbsorbDelivers | c/src/cmdu.c:368-406 | A delivery happens only when a missing, well-formed part completes an unpoisoned context |
| Accounting.Initial | c/src/cmdu.c:148-172 | A new reassembler is valid and has every context free |
| Runs.ExpireView | c/src/cmdu.c:213-219 | Between frames a key loses its context exactly at its deadline |
| Runs.StepOther | c/src/cmdu.c:290-407 | A frame of another key, or refused, changes nothing of a key but its expiry: no mixing between keys |
| Runs.StepOwn | c/src/cmdu.c:290-407 | A frame of a key acts on that key's live context, or on one it opens, or is turned away busy |
| Soundness.DeliveriesAreSound | c/src/cmdu.c:290-407 | On every run of any frames, each delivered message is the fragment-order concatenation of fragments 0 to last received under its one key and relay flag since the event that opened the context, each within the timeout of that opening, exactly the last one flagged, none of them used for an earlier delivery |
| Soundness.ViewRooted | c/src/cmdu.c:324-337 | Every context there is was opened by a frame of its key that found none, and all it stores came since, before its deadline |
| Blocking.ConflictSilences | c/src/cmdu.c:281-366 | Once two different contents of one fragment id meet in a context, nothing is delivered for the key until that context expires |
| Blocking.MalformedSilences | c/src/cmdu.c:340-345 | A malformed fragment, or one with an id beyond the limit, is refused and silences its key until the context expires |
| Blocking.PoisonSticks | c/src/cmdu.c:281-288 | A poisoned context stays as it is through any frames until its deadline |
| Blocking.LockedRun | c/src/cmdu.c:346-350 | Short of a delivery or the deadline a stored part is never replaced, only poisoned |
| Blocking.DeadlineFixed | c/src/cmdu.c:213-219 | No frame extends a context's deadline |
| Blocking.BusyOnlyWhenFull | c/src/cmdu.c:324-326 | On every run, busy is returned only when as many distinct keys as there are contexts were opened within the last timeout |
| Wire.DecodedExactly | c/src/cmdu.c:295-308 | A frame is taken if and only if it has 22 to 1514 octets, octets 12 and 13 are 0x89 0x3A, octet 14 is 0 and its interface's name fits; then every field is the one its octets say; it is unsupported exactly for a nonzero octet 14 after the length and EtherType tests |
| Wire.TakenIsEncoded | c/src/cmdu.c:295-308 | The converse of decoding what was encoded: apart from octet 15 and the low six flag bits, a frame taken is the encoding of its fragment |
| Wire.AboutIffNames | c/src/cmdu.c:311-322 | An event is of a key if and only if its octets name it: addresses, type, MID and interface |
| Wire.OnlyNamedActs | c/src/cmdu.c:290-337 | From any valid state, a frame that is not taken does nothing, and one that is changes no context but the one its octets name, of which it is an encoded fragment |
| Wire.RunsActOnOctets | c/src/cmdu.c:290-407 | On every run, an event that opens or changes a context is an encoded fragment of that context's key, octet by octet |
| Wire.DeliveredUnderItsKey | c/src/cmdu.c:379-389 | A delivered message has the addresses, type, MID and relay bit of the octets of the frame that completed it |
| Wire.ReasonsExactly | c/src/cmdu.c:290-381 | Each reason exactly: unsupported for a nonzero version, busy when live contexts of other keys take every slot, invalid for a frame not enveloped, an interface name too long or a fragment that leaves its key poisoned, and else the frame is taken |
| Wire.PoisonsExactly | c/src/cmdu.c:338-368 | A fragment leaves its key poisoned if and only if its context was, or its id is beyond the limit, its relay bit another, its payload octets no list of TLVs, or those other than the ones kept under its id, against the known end of the message, or too many for a budget |
| Wire.DeliveredFromOctets | c/src/cmdu.c:290-407 | On every run of any frames, a delivered message is the concatenation of TLV lists spelt by the payload octets of frames received in time since its opening, one for each fragment id in order, each an encoded fragment of one key and relay bit, only the last with the last bit |
| RoundTrip.FrameDecodes | c/src/cmdu.c:32-41 | The receiver decodes from a frame's header exactly what was encoded into it |
| RoundTrip.PlanDelivered | c/src/cmdu.c:290-407 | Of fragments of one message in any order and at any time, repeated and interleaved, an event delivers the whole message exactly when it brings the last one missing of those held, and else nothing; what is held is told from the events alone and goes at each completion and at each deadline |
| RoundTrip.RoundTrips | c/src/cmdu.c:43-407 | For every message the fragmenter accepts within the receiver's limits, and every order, timing, duplication and interleaving of its frames from any valid state without a context for its key: each event of the key delivers the message, its TLVs in order, exactly when it brings the last frame missing of those held, as long as a slot and room are there |
| RoundTrip.RoundTripsOnceIff | c/src/cmdu.c:43-407 | If every frame comes in time after an opening, the first event that makes the message whole delivers it, and it is the only delivery of the key on the run if and only if the frames do not all come again after it between an opening and its deadline |
| RoundTrip.DeliveredInTime | c/src/cmdu.c:43-407 | If every frame comes before the deadline that the first one sets, the message has been delivered when the last of them has come |
| RoundTrip.ExpiredNotRedelivered | c/src/cmdu.c:213-219 | The input at which every frame comes again and nothing is delivered again: both frames of a two-frame message, the second past the deadline of the first |
| RoundTrip.CompletedIffAllCome | c/src/cmdu.c:375-406 | From any moment with nothing held, a message is completed later on the run if and only if every fragment of it comes between an opening and its deadline |
| Sharing.SharedRoundTrips | c/src/cmdu.c:43-407 | The round trip with nothing asked of the states in between: a receiver with a context and a whole message's bytes for each key in use delivers at exactly those events whatever the other keys send |
| Sharing.SingleFrameRedelivered | c/src/cmdu.c:403-406 | A one-frame message is delivered by every frame of its key, so every duplicate delivers it again, whenever it comes |
| Sharing.FedTwiceDeliveredTwice | c/src/cmdu.c:403-406 | The input that shows it: one frame fed twice to a new reassembler is delivered twice |
| Sharing.OthersLeaveRoom | c/src/cmdu.c:195-219 | In a valid state, the other keys can take no more contexts than their number and no more bytes than that many messages |
| ReassemblerObject.ScanParts | c/src/cmdu.c:351-358 | The scan finds whether a part lies beyond an id, and how many TLVs are stored |
| ReassemblerObject.EncodedSize | c/src/cmdu.c:359-361 | The loop's sum is the encoded size |
| ReassemblerObject.AllPresent | c/src/cmdu.c:375-379 | The completeness loop says exactly whether the context is complete |
| ReassemblerObject.Collect | c/src/cmdu.c:396-402 | The loop over the parts gives their TLVs joined in fragment order |
| ReassemblerObject.SameTlvs | c/src/cmdu.c:270-279 | The comparison loop says exactly whether the stored part is the same |
| ReassemblerObject.Poison | c/src/cmdu.c:281-288 | The clearing loop leaves the specified poisoned context |
| ReassemblerObject.JudgeNew | c/src/cmdu.c:351-379 | A part not yet there is refused for its place or the limits, or stored and the message finished, as specified |
| ReassemblerObject.ReadHeader | c/src/cmdu.c:295-308 | The header fields are read octet by octet, or the frame refused for exactly the stated reason |
| ReassemblerObject.Judge | c/src/cmdu.c:338-379 | The whole treatment of a fragment by its context is the specified verdict |
| ReassemblerObject.Reassembler.constructor | c/src/cmdu.c:148-172 | A new object is the initial state |
| ReassemblerObject.Reassembler.DropExpired | c/src/cmdu.c:195-219 | The in-place expiry is the specified one, and the total never goes below zero |
| ReassemblerObject.Reassembler.Lookup | c/src/cmdu.c:309-323 | One scan finds the key's context and the first free slot |
| ReassemblerObject.Reassembler.Feed | c/src/cmdu.c:290-407 | The in-place handling of a frame is the specified step: new state, reason and message, with the invariant kept; unsupported exactly for a nonzero version octet of an enveloped frame |
| ReassemblerObject.Reassembler.Write | c/src/cmdu.c:338-407 | The verdict written to its slot gives the specified outcome |
| ReassemblerObject.NewReassembler | c/src/cmdu.c:148-172 | An object is made if and only if every limit is in range |
| Utf8.Utf8Next | c/src/canon.c:19-46 | The decoding loop reads the specified code point and length, or refuses |
| Utf8.NextExactly | c/src/canon.c:19-46 | What any four octets decode to, well-formed or not, octet by octet: the code point, or a refusal |
| Utf8.NextWithin | c/src/canon.c:19-46 | Decoding a code point moves forward and never past the terminating NUL |
| Utf8.NextBounded | c/src/canon.c:19-46 | What is accepted has a code below 0x200000, more than Unicode's range |
| Utf8.NextEncoded | c/src/canon.c:19-46 | Every scalar value's UTF-8 encoding is decoded to it |
| Utf8.CodesEncoded | c/src/canon.c:19-46 | A well-formed string decodes to exactly the code points it encodes |
| KeyOrder.OctetOrderIsCodeOrder | c/src/canon.c:101-105 | The byte comparison of well-formed keys of any length is their code-point order |
| KeyOrder.LexExactly | c/src/canon.c:101-105 | For any octets, one key is before another if and only if it ends or has the smaller octet where they first differ |
| KeyOrder.LexTransitive | c/src/canon.c:101-105 | The comparison is transitive |
| KeyOrder.LexAntisymmetric | c/src/canon.c:101-105 | Two keys compare oppositely both ways, and equal only if they are equal |
| JsonRoundTrip.LongEscapeRead | c/src/canon.c:67-74 | Every \u escape, and every surrogate pair, reads back as its code point |
| JsonRoundTrip.StringRead | c/src/canon.c:49-81 | A printed well-formed string reads back as its own octets |
| JsonRoundTrip.NumberRead | c/src/canon.c:84-99 | A printed integer reads back as itself |
| JsonRoundTrip.PrintReads | c/src/canon.c:135-184 | Every printed value reads back as itself wherever it stands before punctuation, in all three layouts and at every depth |
| JsonRoundTrip.ParsePrinted | c/src/canon.c:186-194 | The parser undoes the printer |
| Canonical.SortSorts | c/src/canon.c:168-170 | The members sorted are in order and the same members |
| Canonical.StrictUnique | c/src/canon.c:168-170 | With distinct keys there is one sorted order, so any correct sort gives it |
| Canonical.SameNormal | c/src/canon.c:164-182 | Values equal up to member order at every depth have one sorted form |
| Canonical.NormalSame | c/src/canon.c:164-182 | Values with one sorted form are equal up to member order |
| Canonical.NormalInOrder | c/src/canon.c:164-182 | With sorting, every object's members are in key order at every depth |
| Canonical.SortedText | c/src/canon.c:135-194 | With sorting, the text of a value of well-formed strings reads back as that value with every object's members in key order and nothing else changed |
| Canonical.SameText | c/src/canon.c:135-194 | With sorting, two values without repeated names that are equal up to member order at every depth print to the same text, or neither prints, whatever their strings |
| Canonical.TextSame | c/src/canon.c:135-194 | With sorting, two printable values of well-formed strings with the same text are equal up to member order |
| Canonical.CanonicalText | c/src/canon.c:135-194 | With sorting, two values with distinct well-formed keys print to the same text if and only if they are equal up to member order at every depth |
| Canonical.TextRoundTripsIffSound | c/src/canon.c:19-194 | A printed value parses back to itself, its members sorted if asked, if and only if all its strings are well-formed UTF-8 |
| Canonical.TextDeterminesValue | c/src/canon.c:135-194 | Without sorting, equal text means equal value, members in order |
| Canonical.OverlongCollides | c/src/canon.c:19-46 | An overlong form prints like the character it spells |
| JsonPrinter.PutString | c/src/canon.c:49-81 | The loop appends the quoted string, or fails exactly when a code point is refused |
| JsonPrinter.PutItemStart | c/src/canon.c:108-120 | Appends the separator and indentation the layout has before an item |
| JsonPrinter.PutEnd | c/src/canon.c:123-133 | Appends what the layout has before a closing bracket, and the bracket |
| JsonPrinter.Dump | c/src/canon.c:135-184 | The recursion appends the value's text, or fails exactly when it cannot be printed |
| JsonPrinter.DumpItems | c/src/canon.c:150-163 | The loop over items appends their texts laid out |
| JsonPrinter.DumpMembers | c/src/canon.c:164-182 | The loop over the members, sorted first if asked, appends their keys and texts laid out |
| JsonPrinter.JsonDumps | c/src/canon.c:186-194 | The whole printer gives the specified text, or none exactly when the value cannot be printed; a reader that checks the place of every character follows the text to its end |
| TextReader.ValueReads | c/src/canon.c:49-184 | In every style and at every depth, a reader that checks each gap against the two characters around it, and each character of each string, gets through a value's text and keeps its Compact text |
| TextLayout.CompactText | c/src/canon.c:108-112 | In Compact text no white space stands outside strings |
| TextLayout.DefaultText | c/src/canon.c:108-137 | In Default text the white space outside strings is exactly one space after each comma and colon |
| TextLayout.IndentText | c/src/canon.c:108-137 | In Indent2 text each item, and each end of a container that is not empty, stands after one newline and two spaces to each level, a value one space after its colon, and nothing else has white space before it |
| TextLayout.NoOtherWhite | c/src/canon.c:108-137 | In every style, all white space outside strings belongs to such a gap |
| TextLayout.StrippedIsCompact | c/src/canon.c:108-184 | In every style, the text without its white space outside strings is the Compact text |
| TextLayout.StringText | c/src/canon.c:49-81 | Inside strings every character is one of space to tilde, and a backslash begins a two-character escape, or a \u with four lower-case digits for a unit that has no shorter text |
| TextLayout.EscapeText | c/src/canon.c:58-78 | The text of each code point utf8_next gives: seven two-character escapes, itself for the rest of space to tilde, and else one \u unit, or a pair beyond 0xFFFF, with the exact values |
| TextLayout.NumberText | c/src/canon.c:84-90 | An integer's text has a minus sign exactly when it is negative, and digits without a leading zero |
| JsonPrinter.SortCommutes | c/src/canon.c:164-182 | Sorting members and sorting within their values can be done in either order |
| SteeringRuns.RunValid | c/src/bhsteer.c:71-199 | On every run: at most 16 answers, no MID twice, the pending MID never among them |
| SteeringRuns.MovesEndOnce | c/src/bhsteer.c:104-244 | On every run across any session closes and starts, an observer of what each event sent finds it in order: no move starts while one is under way, each starts after exactly one executor call, for its MID and request, each ends by exactly one response with its MID or one "unanswered" outside of any handled message, every other response answers once the request just acknowledged, and the move under way is always the pending one |
| SteeringRuns.MoveEndsInTime | c/src/bhsteer.c:104-244 | Whatever happens after a request that started a move, across any sessions, by the first tick 150 s or more after it a response with its MID, or its end unanswered, has been given |
| SteeringRuns.RunKeepsMove | c/src/bhsteer.c:158-244 | Until it is ended, a move keeps its MID, request and deadline through every event and session |
| SteeringRuns.TickSettles | c/src/bhsteer.c:201-244 | A tick leaves a move alone or ends it with one response under its MID or, only with the source away 30 s past the deadline, unanswered; from then on none stays pending; the response names the station associated after an applied move, else the request's station with error code 0x06 |
| SteeringRuns.ExecutorNotWhilePending | c/src/bhsteer.c:158-181 | On every run, until a move is ended the executor is not called and no other move starts |
| SteeringRuns.AnswerKept | c/src/bhsteer.c:71-88 | On every run an answer is lost only by its expiry or after 16 later new-MID answers |
| SteeringRuns.RepeatedRequestSameAnswer | c/src/bhsteer.c:150-157 | A repeat of a kept MID gets the identical response content, and nothing else is called or started |
| SteeringRuns.ExecutorNotWhileKept | c/src/bhsteer.c:150-175 | On every run, while an answer is kept the executor is not called again for its MID |
| SteeringRuns.AlwaysOneFrame | c/src/bhsteer.c:59-70 | Every response fits one frame, so what is sent is what the effects say |
| SteeringAnswers.RequestIffAsked | c/src/bhsteer.c:136-147 | A message is a request for these 14 octets if and only if they are its one TLV of kind 0x9E and their station is an individual address |
| SteeringAnswers.SilentExactly | c/src/bhsteer.c:124-148 | Nothing is sent if and only if the message is not a request of the session's controller to this agent unrelayed, or asks for nothing; else it is acknowledged first |
| SteeringAnswers.RepeatExactly | c/src/bhsteer.c:150-157 | A MID with an answer that has not expired is given that answer again, whatever it asks for |
| SteeringAnswers.PendingExactly | c/src/bhsteer.c:158-159 | The pending MID is only acknowledged |
| SteeringAnswers.NewRequestExactly | c/src/bhsteer.c:160-198 | A new request meets an unknown station, a group target, a move under way or a closed session with Error Code 0x06 and no executor call; else one call, whose refusal is answered with 0x04 for its channel and 0x06 otherwise, and whose consent starts the move for 120 s; every response octet is stated |
| SteeringAnswers.StartsExactly | c/src/bhsteer.c:119-199 | An event starts a move if and only if it is a well-formed request of the session's controller with a new MID, for a known station and an individual target, with nothing pending, the session open and the executor willing |
| SteeringAnswers.TickExactly | c/src/bhsteer.c:201-244 | What a tick does with the pending move in every case, every response octet stated |
| SteeringAnswers.SentIsKept | c/src/bhsteer.c:59-89 | Whatever response a step sends, the table then has an answer that repeats it exactly, good until 30 s later, behind all others if it is new |
| SteeringAnswers.ResponseRepeated | c/src/bhsteer.c:59-199 | Once a response is sent, a request with its MID within 30 s gets exactly that response again, and the executor is not called for it meanwhile, as long as fewer than 16 answers stand behind it or are new since |
| SteeringAnswers.NewResponseRepeated | c/src/bhsteer.c:59-199 | For a response to a new MID: as long as fewer than 16 answers are new since |
| SteeringAnswers.LostExactly | c/src/bhsteer.c:71-82 | A new answer takes the place of another if and only if 16 are kept, and then of the oldest |
| SteeringAnswers.RepeatedOldestIsLost | c/src/bhsteer.c:71-88 | The input at which a repeat does not help: the oldest of 16 answers, just repeated, is lost to the next new one |
| SteeringAnswers.StartsAfresh | c/src/bhsteer.c:104-117 | A start opens a session over the answers and move there are, and a close shuts it |
| SteeringAnswers.ClosedStartsNothing | c/src/bhsteer.c:117-199 | On every run from a closed session without a new start, no executor is called and no move starts |
| CoordinatorObject.SharedRecord.Compact | c/src/bhsteer.c:131-135 | The in-place purge keeps exactly the unexpired answers in their order |
| CoordinatorObject.SharedRecord.PurgeExpired | c/src/bhsteer.c:131-135 | The purge keeps the record valid |
| CoordinatorObject.SharedRecord.KeepAnswer | c/src/bhsteer.c:71-88 | The answer goes to its MID's slot, a free one, or last with the oldest shifted out, and the record stays valid |
| CoordinatorObject.SharedRecord.ShiftDown | c/src/bhsteer.c:77-79 | The move of the last fifteen answers over the oldest |
| CoordinatorObject.SharedRecord.Lookup | c/src/bhsteer.c:150-151 | The scan finds the MID's slot |
| CoordinatorObject.ScanRequest | c/src/bhsteer.c:136-142 | The scan finds how many request TLVs there are, and the last |
| CoordinatorObject.Coordinator.Start | c/src/bhsteer.c:104-115 | A session starts over the record without touching it |
| CoordinatorObject.Coordinator.Close | c/src/bhsteer.c:117 | Only the session's closed mark changes |
| CoordinatorObject.Coordinator.HandleMessage | c/src/bhsteer.c:119-199 | The in-place handling is the specified one: record, what is sent and called, and verdict |
| CoordinatorObject.Coordinator.Reply | c/src/bhsteer.c:150-199 | An acknowledged request is answered as specified |
| CoordinatorObject.Coordinator.BeginMove | c/src/bhsteer.c:160-199 | A new request is refused or starts the move as specified |
| CoordinatorObject.Coordinator.DoTick | c/src/bhsteer.c:201-244 | The in-place tick is the specified one |
| RateGate.WindowBound | c/src/agent.c:2373-2387 | Over every run with a monotone clock, at most 32 + 16d frames are admitted in any window of length d |
| RateGate.LimitedExactly | c/src/agent.c:2373-2387 | A budgeted frame is limited if and only if admitting it would break that bound for some earlier window start |
| RateGate.ForeignFree | c/src/agent.c:2373-2377 | On every run, taking out all frames that are not, by their octets, the controller's to this agent in a session and no renewal leaves the same bucket, the same numbers admitted in every window and the same verdict on the next frame |
| RateGate.VerdictsExactly | c/src/agent.c:2357-2387 | Each verdict by the octets: admitted or limited if and only if there are 22 octets, 0 to 5 are this agent's address, 6 to 11 the controller's, a session is there and 16 to 17 are not 0x00 0x0A; too short, renewal, no session and foreign exactly as stated, all of them without touching the bucket |
| RateGate.Gate.constructor | c/src/agent.c:3469-3470 | The bucket starts full |
| RateGate.Gate.Offer | c/src/agent.c:2357-2387 | The in-place bookkeeping of a frame is the specified one, and the budget is for exactly the frames told by their octets |
| Clients.NotifyExact | c/src/agent.c:2439-2483 | One join per newly shown client there is room for, one leave per vanished one, and a table without duplicates that is the known and joined ones still shown |
| Clients.JoinsInOrder | c/src/agent.c:2444-2462 | The joins are the newly shown clients, each once, in the order they are first shown, exactly as many as there is room for |
| Clients.ShownExactly | c/src/agent.c:2444-2450 | A client is shown if and only if some radio has a BSS of its address with its station |
| Clients.AllJoinIffFits | c/src/agent.c:2444-2462 | Every newly shown client joins if and only if the known and shown ones fit the table |
| Clients.TableIsShownIffFits | c/src/agent.c:2439-2483 | The table becomes exactly the shown set if and only if the known and shown ones fit it |
| Clients.FullTableMisses | c/src/agent.c:2451 | From any full table, a call that shows only a new client gives leaves for all the known ones and misses the new one |
| Clients.ManyClientsMiss | c/src/agent.c:2451 | The input that shows it: 256 clients of one BSS, told apart by the last octet |
| Clients.TwoCallsSettle | c/src/agent.c:2439-2483 | Two calls on an unchanged shown set of at most 256 clients leave the table exactly that set |
| Clients.SessionReplays | c/src/agent.c:2439-2483 | Over any session of calls, replaying the notices gives the table and, besides it, exactly the clients a re-announcement forgot that have not joined since |
| Clients.SessionInStepIff | c/src/agent.c:2439-2483 | Replaying the notices reproduces the table after every call of a session if and only if at each re-announcement every known client is among those announced again |
| Clients.ReannounceReplaysIff | c/src/agent.c:2439-2442 | For every table: after a re-announcement the replayed notices give the new table if and only if every known client is among the first 256 shown, which is when all are still shown if the shown ones fit |
| Clients.ReannounceForgets | c/src/agent.c:2439-2442 | For every table: a known client no longer shown stays with the listener after a re-announcement and is not in the table |
| ClientTableObject.HasStation | c/src/agent.c:2468-2469 | The station loop says exactly whether the station is there |
| ClientTableObject.Present | c/src/agent.c:2464-2469 | The nested scan says exactly whether a client is shown |
| ClientTableObject.ClientTable.JoinOne | c/src/agent.c:2448-2460 | A shown client joins at the end of the table unless known or the table is full |
| ClientTableObject.ClientTable.JoinAll | c/src/agent.c:2444-2462 | The nested loops join the shown clients in order while there is room |
| ClientTableObject.ClientTable.RemoveAt | c/src/agent.c:2480 | The last client takes the place of the removed one, and no duplicate arises |
| ClientTableObject.ClientTable.SweepGone | c/src/agent.c:2463-2483 | The sweep with swap removal leaves exactly the specified table and gives the specified leaves |
| ClientTableObject.ClientTable.NotifyClients | c/src/agent.c:2439-2483 | The whole call is the specified one, on the table in place |
| RadioCaps.ClassesIffEncoded | c/src/agent.c:1697-1708 | The walk finds classes if and only if the value is their encoding |
| RadioCaps.DecodeEncoded | c/src/autoconf.c:185-194 | Decoding undoes encoding for every radio that fits |
| RadioCaps.RadioOctets | c/src/autoconf.c:185-194 | The encoded value octet by octet: RUID, maximum BSS, number of classes, and each class, its EIRP in two's complement, its number of channels and these |
| RadioCaps.DecodedExactly | c/src/agent.c:1694-1711 | What the decoder takes of any value with a header, well formed or not: RUID, maximum BSS, and at most 8 whole classes with at most 32 channels each |
| RadioCaps.EncodeDecodedIff | c/src/agent.c:1686-1711 | Re-encoding what was decoded gives back the value if and only if it is well formed with at most 8 classes of at most 32 channels |
| RadioCaps.PutBasicCaps | c/src/autoconf.c:185-194 | The encoder's loop gives the specified bytes |
| RadioCaps.TakeClasses | c/src/agent.c:1698-1708 | The decoder's loop gives the specified classes and never reads past the value |
| RadioCaps.TakeCaps | c/src/agent.c:1686-1711 | The decoder gives the specified radio |
| CapsIdentity.IdentityIffErased | c/src/agent.c:428-443 | Two well-formed values that fit the buffer have one identity if and only if they agree with their channel lists erased |
| CapsIdentity.IdentityIff | c/src/agent.c:428-443 | A value has an identity if and only if its octets are a header and as many classes as it says, and the identity fits the buffer |
| CapsIdentity.IdentityOctets | c/src/agent.c:428-443 | The identity octet by octet: the value's first eight, then each class and its EIRP |
| CapsIdentity.DifferIffChannels | c/src/agent.c:469-479 | Of two values of one identity, the bytes differ if and only if some channel list does |
| CapsIdentity.SameIdentityIffErased | c/src/agent.c:447-465 | Two reports have the same identity if and only if they agree with every channel list erased |
| CapsIdentity.SameIdentityEquivalence | c/src/agent.c:447-465 | On reports it can compare, it is reflexive, symmetric and transitive |
| CapsIdentity.MovedExactly | c/src/agent.c:469-479 | For reports of the same identity, exactly the radios whose channel lists differ are returned, in order and up to the cap |
| CapsIdentity.BasicIdentity | c/src/agent.c:428-443 | The index walk gives the specified identity, or none exactly when the value is malformed or too long for the buffer |
| CapsIdentity.CompareReports | c/src/agent.c:447-465 | The comparison loop is the specified predicate |
| CapsIdentity.OperableMoved | c/src/agent.c:469-479 | The loop returns the specified radios |
| SlotFitting.FitsInOrder | c/src/agent.c:1317-1332 | For each role the BSSes given slots are a prefix in received order of that role's, never more than its slots, all of them unless a store failed or the references ran out |
| SlotFitting.FittedStored | c/src/agent.c:1317-1332 | The k-th mapped BSS has the k-th reference, new to the vault, with its own passphrase, and nothing else in the vault changes |
| SlotFitting.RefsDiffer | c/src/agent.c:1324 | An exchange's references are pairwise distinct |
| SlotFitting.FillsSlotsIff | c/src/agent.c:1436-1460 | When the vault takes what it is given, each role gets exactly its first min(slots, received) BSSes if and only if at most seven are wanted in all |
| SlotFitting.EighthIsLost | c/src/agent.c:1447-1454 | The input at which the slots are not filled: eight fronthaul BSSes for eight slots of a further radio, seven mapped |
| SlotFitting.OperateOwnsItsSecrets | c/src/agent.c:1294-1395 | A refused exchange leaves the vault as it was, whatever was stored before the refusal; an accepted one adds its own new references and no more |
| SlotFitting.OperateAcceptedIff | c/src/agent.c:1290-1395 | The exchange is accepted if and only if it is bound and requested, the set has a fronthaul BSS, and the vault takes the passphrase of the first one under wsc- and the exchange's id |
| SlotFitting.OperateKeepsTheRightSecrets | c/src/agent.c:1294-1332 | An accepted exchange's primary is wsc- and its id, under which the vault holds the passphrase of the first fronthaul BSS; each further mapped BSS has its own reference with its own passphrase; role by role they are the first received within the slots, and fill them if and only if at most seven are wanted |
| SlotFitting.RadioOwnsItsSecrets | c/src/agent.c:1436-1515 | The same for a further radio's exchange |
| SlotFitting.RadioKeepsTheRightSecrets | c/src/agent.c:1424-1515 | A further radio's exchange is accepted if and only if it is bound and requested; it has no primary, each mapped BSS has its own reference with its own passphrase, and role by role they fill the slots if and only if at most seven are wanted |
| SlotFitter.ReceivedRef | c/src/vault.c:34-43 | The digit loop accepts exactly the references of the received pattern |
| SlotFitter.PrintableAscii | c/src/vault.c:153-159 | The loop accepts exactly printable ASCII |
| SlotFitter.CredentialVault.Persist | c/src/vault.c:202-208 | The checks in order store a passphrase if and only if its reference has the received pattern and is new, it is 8 to 63 printable characters and the backend takes it; else nothing changes |
| SlotFitter.CredentialVault.ForgetAll | c/src/agent.c:1389-1391 | The loop removes exactly the exchange's references |
| SlotFitter.CountSlots | c/src/agent.c:1309-1316 | The loop counts the slots of each role |
| SlotFitter.FindPrimary | c/src/agent.c:1294-1298 | The loop finds the first fronthaul BSS, or the set's end |
| SlotFitter.FitOne | c/src/agent.c:1318-1331 | One turn takes a slot, writes the reference and stores the passphrase as specified |
| SlotFitter.FitSet | c/src/agent.c:1317-1332 | The fitting loop, stopping early at a failed store or the last reference, maps what the specification maps and keeps the references in its array |
| SlotFitter.FitAndRequest | c/src/agent.c:1304-1395 | From the stored primary on, the vault ends as specified whether or not the engine takes the operation |
| SlotFitter.OperateExchange | c/src/agent.c:1290-1395 | The exchange on the pod's own radio ends as specified |
| SlotFitter.OperateRadio | c/src/agent.c:1432-1515 | The exchange on a further radio ends as specified |
| Early.SendsAreScheduled | c/src/early.c:22-54 | Over every run from one start at most three transmissions, each retry decided at least 0.25 s after the send before and before the 1 s deadline |
| Early.RetriesExactly | c/src/early.c:39-54 | A tick retransmits if and only if nothing has ended the report, the source is the same, 0.25 s have passed, the deadline has not and fewer than three were sent |
| Early.AcknowledgedExactly | c/src/early.c:56-72 | An Ack acknowledges if and only if nothing has ended the report, it is error-free, before the deadline and names a MID the report was sent with |
| Early.AckResultsExactly | c/src/early.c:56-72 | What an Ack is taken for: an error rejected exactly when it names a MID of the live report before the deadline, and unmatched when it does not |
| Early.EndedForGood | c/src/early.c:39-74 | After a source change, a close, the deadline seen or an acknowledgement nothing is sent and nothing acknowledges any more |
| Early.AcknowledgedOnce | c/src/early.c:56-72 | At most one Ack acknowledges a report |
| Early.EarlyReport.constructor | c/src/agent.c:1849 | A new record is cleared |
| Early.EarlyReport.Begin | c/src/early.c:22-28 | Starting sets the schedule as specified |
| Early.EarlyReport.NoteSent | c/src/early.c:30-37 | A transmission is noted with its MID while there is room |
| Early.EarlyReport.OnTick | c/src/early.c:39-54 | The in-place tick is the specified one and says whether a retransmission is due |
| Early.EarlyReport.OnAck | c/src/early.c:56-72 | The in-place handling of an Ack is the specified one |
| Early.EarlyReport.Shut | c/src/early.c:74 | Closing ends the report |
| Early.EarlyReport.TickAndSend | c/src/agent.c:1806-1811 | A due retransmission is sent and noted, as one specified step |
| Early.NewReport | c/src/agent.c:1849-1853 | A session's report starts cleared, pending and with its first transmission noted |

## Left out

- Times and token amounts are `real`: rounding of C doubles is not modelled.
- Allocation failure is not modelled; the buffer type `em_buf` is a sequence, and a context's parts, a part's TLVs and a stored answer are values in their arrays, so ownership and freeing are not captured.
- put_number: only integers below 1e16 in magnitude are modelled; fractions, exponents and negative zero depend on the C library's number text.
- qsort is modelled as a stable insertion sort; `Canonical.StrictUnique` shows that with distinct keys any correct sort gives the same order, and nothing is claimed about the order of equal keys.
- Strings are octet sequences without NUL; the parser is a reference definition for reading back, the repository's own parser (cJSON) is not modelled.
- SHA-256, HMAC, random identifiers and time stamps in `c/src/canon.c` are not modelled.
- The steering executor and outcome, the pod's stations, and whether the source is available are inputs of each event; `em_bh_status`, the last-move record, logs and counters are not modelled.
- Early: the counts of events and the sending itself are not modelled; the MID and the time noted for a transmission are inputs.
- SteeringAnswers.ResponseRepeated: the condition is sufficient; when answers behind it expire and are purged meanwhile, an answer can be kept longer than it says. `LostExactly` has the exact condition for one new answer.
- RateGate: the dispatch of an admitted frame is not modelled.
- Clients: the octets of a notification and the topology notification after a re-announcement are not modelled, only which clients are named.
- RadioCaps.TakeCaps: the C code reads the first eight octets of the value without a length check, trusting that the TLV is the agent's own; the model asks for those octets, so nothing is said of a shorter value. The choice of the k-th capability TLV among the agent's own, and the empty radio when there is none, is a plain scan and is not modelled.
- RadioCaps.EncodeDecodedIff: for the same reason about values of at least eight octets.
- SlotFitting: the operation engine, its plan, journal and receipt are one input, whether the operation was taken; a repeat of an exchange that already has an operation does not reach this code.
- The vault is a map; its files, keys and fingerprints are not modelled.
- Sockets, OVSDB, MQTT, SQLite, the poll loop, WSC cryptography, lifecycle and fleet scopes are not part of this model.
