# A verified model of RESTinio's core

This project models the parts of RESTinio, a C++ HTTP server library, that are hardest to get right,
and proves what they promise, for every input and every run. `dafny verify dfyconfig.toml` checks it.

## What is modelled

**The response pipeline** (`Buffers`, `ResponseContexts`, `Coordinator`, `WriteOutput`, `Pipeline`,
`Delivery`, `Guarantees`, `Timeliness`, `Notifications`, `Progress`, `Connection`). Handlers answer pipelined requests in any
order and in any number of pieces; the connection must send the answers in request order and call every after-write
callback exactly once. `ContextTable`, `ResponseCoordinator`, `OutputCtx` and `WriteSide` are classes
with the fields of the source, over a ring buffer and a 32-bit request counter. `Pipeline` is the same
behaviour as a transition system over the environment's steps: a new request, a submission of response
parts, a finished, failed or aborted socket operation, a close. `Guarantees` states safety over all runs,
`Progress` that everything that may be sent is sent when the socket finishes its operations.
Every entry of `WriteSide` is proved to be one such step that leads from a state of some run to a state of
some run (`Connection.WriteSide.Perform`), so order and conservation hold of the object itself
(`Connection.WriteSide.KeepsItsPromises`). A callback is named by the number of the submission that brought
it, and the history records when it was invoked.

**Chunked responses** (`Chunked`, `ResponseBuilder`, `ChunkedOutput`). The builder that emits chunks over
several flushes, and a reader of the chunked grammar (section 4.1 of RFC 7230) that recovers what was
appended. `Capstone` puts both layers together: a client reading the wire of any run gets, in request
order, exactly what each handler appended, and in the end gets all of it. `Serving` starts from the outside:
under every schedule of requests, handler calls in any order and finished operations, every call is taken.

**The parser combinators** (`ParserSemantics`, `OrderedChoice`, `ParserLaws`, `EasyParser`). `EasyParser`
is the code with its mutable position and target; `ParserSemantics` is what it computes as a function;
`OrderedChoice` is an independent recogniser with three verdicts, ok, fail and cut, that knows no targets;
`ParserEffects` is a second reference, which gives the updates of the target as a list.

**Text formats** (`Utf8`, `PercentEncoding`, `PercentEscaping`, `UriNormalization`, `EscapedText`,
`QueryString`, `QueryPrinting`, `Multipart`, `Base64`). Decoders that work inside the buffer they are still
reading, the UTF-8 automaton, and round trips. `EscapedText` is the reference for percent-encoded text,
without a decoder's state.

**SHA-1** (`Sha1`, `Sha1Transform`, `Sha1Builder`, `Sha1Answers`). `Sha1` is FIPS 180-4 with its 80-word schedule and 80
rounds; `Sha1Transform` is the unrolled code that rewrites sixteen words in place while five variables
rotate their roles; `Sha1Builder` collects pieces of a message and pads it; `Sha1Answers` computes one digest
word by word and round by round.

## Where the code does not do what it is for

These properties are false of the code as it is. The model keeps the code. For each there is a failing input,
and a condition that holds if and only if the code does meet the property.

- `Sha1Builder.FedIsPadded`: `finish` compares the length with 56 before it counts the 0x80 byte, so a
  message whose length is 56 modulo 64 is hashed without the mark (`MarkIsLost`).
- `Base64.ReadsStayInRange`: the validity automaton does not look at the length, so `try_decode` reads
  past the end of a valid string exactly when its length is not a multiple of four
  (`FiveCharactersPass`).
- `UriNormalization.NormalizationKeepsMeaning`: normalization unescapes `%7E`, which the
  x-www-form-urlencoded traits do not accept unescaped (`EscapedTildeIsSpoiled`).
- `PercentEscaping.UnescapeUndoesEscape`, `QueryPrinting.ParseUndoesPrint`: the relaxed traits leave
  `+`, `=` and `&` unescaped, and reading gives them another meaning (`RelaxedPlusBecomesSpace`,
  `RelaxedAmpersandIsLost`). Where `char` is signed, a character from 0x80 up is escaped with a minus sign
  and cannot be read back at all.
- `ResponseContexts.LookupAgreesUnlessIdsWrap`: the ring lookup compares numbers that wrap at 2^32
  (`TwoRequestsAcrossTheLimit`). While the outstanding ids cross that limit nothing is found
  (`LookupFailsWhenIdsCross`) and any submission closes the connection (`Guarantees.RefusedAcrossTheLimit`);
  afterwards the lookup works again.
- `ParserLaws.NestedAlternatives`: alternatives cannot be flattened when an inner one is forced and fails
  (`CutHidesTheOuterAlternative`). The exact condition speaks of the input; a grammar without such a forced
  part can always be flattened (`NestedAlternativesWithoutForced`).

## Modelling choices

Bytes are integers from 0 to 255, words of SHA-1 are 32-bit vectors, and shifts and masks of the other
modules are written as division, remainder and sums of disjoint bits. Text of the parsers and of
multipart bodies is a string of characters. Exceptions and error returns are values of a result type. A
write group is a value, because the source only moves groups. Handlers name a request by its 32-bit id; the
history names the request that this id stands for, counted without a limit. The iov limit of the platform is a
parameter, at least one. The relaxed traits also take the zero character, because the code searches
a C string with its terminator. An index that leaves its buffer is an outcome of its own. What the
formatting library writes for a `char` from 0x80 up is a parameter: two digits, or a sign first, and for
query strings no delimiter. The UTF-8 check is a parameter of the unescaping functions, so that what does
not depend on it is proved without it.

## Model

| member | source | states |
|---|---|---|
| Buffers.MergeConservesCallbacks | dev/restinio/buffers.hpp:871-888 | Merging joins the items in order, and keeps all callbacks if and only if the first group has none |
| Buffers.EnqueueConserves | dev/restinio/impl/response_coordinator.hpp:61-77 | Enqueueing, by merge or as a new group, adds exactly the group's bytes at the end and its callback once |
| Buffers.MergesExactlyWhen | dev/restinio/impl/response_coordinator.hpp:61-77 | A group joins the last one if and only if that one has no callback and the new one no status line; otherwise it stands behind |
| ResponseContexts.LookupAgreesUnlessIdsWrap | dev/restinio/impl/response_coordinator.hpp:195-206 | Ring lookup equals a linear search for all ids if and only if the outstanding ids do not cross a multiple of 2^32 |
| ResponseContexts.LookupFailsWhenIdsCross | dev/restinio/impl/response_coordinator.hpp:195-206 | While the outstanding ids cross a multiple of 2^32, no id is found |
| ResponseContexts.TwoRequestsAcrossTheLimit | dev/restinio/impl/response_coordinator.hpp:195-206 | Of two requests with the ids 2^32 - 1 and 0 neither is found, though both are there |
| ResponseContexts.IdsKept | dev/restinio/impl/response_coordinator.hpp:208-260 | Push with the next id and pop keep the ids in the ring consecutive modulo 2^32 |
| ResponseContexts.ContextTable.constructor | dev/restinio/impl/response_coordinator.hpp:156-164 | An empty ring of the given capacity |
| ResponseContexts.ContextTable.GetByReqId | dev/restinio/impl/response_coordinator.hpp:195-206 | The slot found is the ring slot of the context that the lookup over the queue finds, null otherwise |
| ResponseContexts.ContextTable.PushResponseContext | dev/restinio/impl/response_coordinator.hpp:208-227 | On a ring that is not full the context is appended to the queue with initial flags, across wrap-around; a full ring is left alone |
| ResponseContexts.ContextTable.PopResponseContext | dev/restinio/impl/response_coordinator.hpp:229-260 | The oldest context leaves the queue; an empty ring is refused |
| ResponseContexts.ContextTable.SlotIsRemainder | dev/restinio/impl/response_coordinator.hpp:262-270 | The slot of the k-th context is the first index plus k modulo the capacity |
| Coordinator.ResponseCoordinator.RegisterNewRequest | dev/restinio/impl/response_coordinator.hpp:313-320 | Registers the next id, wrapped to 32 bits, unless the table is full |
| Coordinator.ResponseCoordinator.LookupFindsTheContext | dev/restinio/impl/response_coordinator.hpp:195-206 | In every state, after any number of registrations, a 32-bit id is found exactly when it should be, and then with the context opened for the request it stands for |
| Coordinator.FoundUnlessIdsWrap | dev/restinio/impl/response_coordinator.hpp:195-206 | An id is found if and only if the request it stands for is outstanding, unless the outstanding ids cross a multiple of 2^32; then none is |
| Coordinator.OutstandingIsTaken | dev/restinio/impl/response_coordinator.hpp:322-361 | Parts for any outstanding request, the oldest or not, are appended unless the response is complete or the coordinator is closed; parts for no outstanding request are unknown; each with its own error |
| Coordinator.ResponseCoordinator.AppendResponse | dev/restinio/impl/response_coordinator.hpp:322-361 | After any number of registrations: the three error cases in their order, or flags and group stored in the context of the request the 32-bit id stands for and nowhere else |
| Coordinator.ResponseCoordinator.PopReadyBuffers | dev/restinio/impl/response_coordinator.hpp:363-406 | Gives out the oldest response's first group, drops a completed context and notes a closing one; nothing when nothing is ready |
| Coordinator.ResponseCoordinator.Reset | dev/restinio/impl/response_coordinator.hpp:408-444 | Drops all contexts and invokes each queued callback once, oldest first |
| Coordinator.PopShrinks | dev/restinio/impl/response_coordinator.hpp:370-406 | Every pop takes exactly one group from the queues: the measure that bounds chains of groups without I/O |
| WriteOutput.ExtractionCoversTheGroup | dev/restinio/impl/write_group_output_ctx.hpp:250-278 | The operations extracted until "none" concatenate to exactly the remaining items in order |
| WriteOutput.ExtractionIsWellCut | dev/restinio/impl/write_group_output_ctx.hpp:331-363 | Each gather operation is non-empty, within the limit, sized as the sum of its buffers and maximal; each file is one operation |
| WriteOutput.OutputCtx.StartNextWriteGroup | dev/restinio/impl/write_group_output_ctx.hpp:236-241 | The group becomes the current one; the item index is kept, whatever it is |
| WriteOutput.OutputCtx.ExtractNextWriteOperation | dev/restinio/impl/write_group_output_ctx.hpp:250-278 | Returns the next operation and moves the item index past exactly its items |
| WriteOutput.OutputCtx.PrepareTrivialBuffers | dev/restinio/impl/write_group_output_ctx.hpp:331-353 | The loop collects the maximal run of buffers and their total size |
| WriteOutput.OutputCtx.FinishWriteGroup | dev/restinio/impl/write_group_output_ctx.hpp:291-308 | Gives the group's callback out once and starts again at item 0 |
| WriteOutput.OutputCtx.FailWriteGroup | dev/restinio/impl/write_group_output_ctx.hpp:280-289 | Gives the group's callback out once; the item index stays |
| WriteOutput.HandleWholeGroup | dev/restinio/impl/write_group_output_ctx.hpp:236-308 | From start to finish, a group's operations are its items, well cut, and the context is ready for the next group |
| Delivery.HandleCurrentInv | dev/restinio/impl/connection.hpp:966-996 | Going on with a group, through all the groups it chains to, keeps the invariant and ends with an operation in transmission or nothing more to do |
| Delivery.InitWriteInv | dev/restinio/impl/connection.hpp:880-947 | The same for starting the next ready group |
| Delivery.StepInv | dev/restinio/impl/connection.hpp:736-1351 | Every step keeps the invariant: content and order, conservation of callbacks, truthful notifications, no stall |
| Delivery.RunInv | dev/restinio/impl/connection.hpp:736-1351 | The invariant holds after every run from a fresh connection |
| Guarantees.ResponsesInOrder | dev/restinio/impl/response_coordinator.hpp:322-406 | The wire is a prefix of the responses in request order; a byte after response k needs k final and completely sent; nothing follows a final closing response (section 6.3.2 of RFC 7230) |
| Guarantees.FinalResponseIsFrozen | dev/restinio/impl/response_coordinator.hpp:349-356 | A response marked final never changes in any continuation of the run |
| Guarantees.StepLog | dev/restinio/impl/connection.hpp:776-864 | Exactly the submissions enter the history, each for the request its 32-bit id stands for and with the coordinator's verdict, which `OpenResponseIsTaken` and `RefusalCloses` say |
| Guarantees.OpenResponseIsTaken | dev/restinio/impl/connection.hpp:776-864 | On an open connection that is not closing, parts for any request are taken, for that request, if and only if its response is not complete, whatever the order of answers |
| Guarantees.RefusalCloses | dev/restinio/impl/connection.hpp:822-864 | Parts that the coordinator refuses close the connection, and nothing of them is kept |
| Guarantees.RequestIsRegistered | dev/restinio/impl/response_coordinator.hpp:313-320 | A request gets the next id and an empty context while there is room; otherwise the connection is closed |
| Guarantees.RefusedAcrossTheLimit | dev/restinio/impl/connection.hpp:822-864 | While the outstanding ids cross a multiple of 2^32, any submission is refused as unknown and closes the connection |
| Guarantees.CallbacksConserved | dev/restinio/buffers.hpp:719-752 | At any time each submitted callback is in exactly one place: queued, in transmission, or invoked once |
| Guarantees.DestructionInvokesTheRest | dev/restinio/buffers.hpp:738-752 | When the connection goes away every submitted callback has been invoked exactly once |
| Guarantees.SuccessMeansExactlyWritten | dev/restinio/impl/write_group_output_ctx.hpp:291-329 | When a callback was told of success, all earlier responses and its own response up to its own submission were written, and no byte more; `Timeliness.LaterBytesMeanSuccess` and `Progress.AllSendableIsSent` are the converse |
| Guarantees.NeverStalls | dev/restinio/impl/connection.hpp:866-947 | On an open connection with nothing in transmission the wire holds everything that may be sent, and each outstanding final response still has a queued group |
| Timeliness.StepAhead | dev/restinio/impl/connection.hpp:736-1351 | Every step keeps: an error is reported only for parts whose end the wire never passes, also after a close |
| Timeliness.LaterBytesMeanSuccess | dev/restinio/impl/write_group_output_ctx.hpp:291-329 | In every reachable state, a callback has been told of success before any operation with bytes behind its submission's parts is started |
| Notifications.CallbacksAreToldWhy | dev/restinio/impl/connection.hpp:776-864 | Every callback that a step invokes is told success or the error that fits: write failed for the group whose operation failed, destroyed for refused parts, not executed for what was queued at a close or submitted afterwards |
| Notifications.FailuresAreTold | dev/restinio/buffers.hpp:738-752 | The group whose operation fails is told so, and refused parts are told of the refusal |
| Notifications.CloseTellsOldestFirst | dev/restinio/impl/response_coordinator.hpp:408-444 | A close tells exactly the queued callbacks, oldest first, that they were not executed |
| Notifications.TokensInOrder | dev/restinio/impl/response_coordinator.hpp:408-444 | The queued callbacks of older responses come first, and within a response those of older groups |
| Notifications.DestructionIsTold | dev/restinio/buffers.hpp:738-752 | What is left when the connection goes away is told of its destruction |
| Guarantees.IdleMeansNotified | dev/restinio/impl/connection.hpp:1141-1199 | On an idle connection every callback of the responses sent so far was told of success |
| Progress.OperationDoneWork | dev/restinio/impl/connection.hpp:966-996 | Every finished operation leaves fewer items queued, waiting or in flight |
| Progress.CompletionsDrain | dev/restinio/impl/connection.hpp:866-996 | From every reachable state, as many finished operations as there are items left lead to a state with nothing in transmission |
| Progress.OnlySendableIsSent | dev/restinio/impl/response_coordinator.hpp:322-406 | In every reachable state the wire is a prefix of what may be sent, which the submissions alone determine: the responses in request order up to the first that is not final or closes the connection |
| Progress.AllSendableIsSent | dev/restinio/impl/connection.hpp:866-1199 | From every reachable state of an open connection, that many finished operations bring the wire to exactly what may be sent, and every callback of these responses is told of success |
| Connection.WriteSide.constructor | dev/restinio/impl/connection.hpp:1371-1390 | A fresh connection is the initial state, with the limit cut to 64 |
| Connection.WriteSide.OnNewRequest | dev/restinio/impl/connection.hpp:554-558 | Registers a request, or closes the connection when the table is full; for any number of requests |
| Connection.WriteSide.WriteResponseParts | dev/restinio/impl/connection.hpp:735-864 | Rejected with a callback error, closed after an exception, or appended and, when idle, written |
| Connection.WriteSide.AppendParts | dev/restinio/impl/connection.hpp:822-837 | The coordinator's verdict, with the refused group destroyed and its callback told |
| Connection.WriteSide.InitWrite | dev/restinio/impl/connection.hpp:866-947 | Starts the next ready group |
| Connection.WriteSide.HandleCurrentWriteCtx | dev/restinio/impl/connection.hpp:966-996 | Starts the next operation or finishes the group and goes on |
| Connection.WriteSide.FinishHandlingCurrentWriteCtx | dev/restinio/impl/connection.hpp:1141-1199 | Tells the callback of success, then closes or starts the next group |
| Connection.WriteSide.AfterWriteSucceeded | dev/restinio/impl/connection.hpp:1247-1253 | Is the step of a finished operation: the bytes handed to the socket are on the wire and the group goes on |
| Connection.WriteSide.AfterWriteFailed | dev/restinio/impl/connection.hpp:1254-1282 | Is the step of a failed or aborted operation: part of the bytes handed to the socket may be on the wire; closes unless aborted, then fails the group |
| Connection.WriteSide.Close | dev/restinio/impl/connection.hpp:1287-1351 | Closes the socket and resets the coordinator |
| Connection.WriteSide.Perform | dev/restinio/impl/connection.hpp:735-1351 | Every entry from outside is exactly one step of the transition system, and the object stays in a state that a run reaches |
| Connection.WriteSide.KeepsItsPromises | dev/restinio/impl/connection.hpp:735-1351 | Of the object itself, in every state: its wire holds the responses in request order, nothing follows an unfinished or a closing one, and each of its callbacks is in exactly one place |
| Connection.WriteSide.TellsTheTruth | dev/restinio/impl/write_group_output_ctx.hpp:291-329 | Of the object itself: a callback told of success was told when exactly its bytes were on its wire |
| Connection.WriteSide.SendsAllItMay | dev/restinio/impl/connection.hpp:866-947 | Of the object itself: its wire holds only what may be sent, and all of it when nothing is in transmission |
| Connection.WriteSide.CompletionsSendAll | dev/restinio/impl/connection.hpp:866-1199 | Of the object itself, while open: finished operations lead to exactly what may be sent |
| Chunked.HexReadsBack | dev/restinio/message_builders.hpp:817-828 | The hexadecimal chunk size reads back as the size |
| Chunked.NoLeadingZero | dev/restinio/message_builders.hpp:817-828 | The size is written without leading zeros |
| Chunked.ReadBackChunks | dev/restinio/message_builders.hpp:817-855 | The reader of the chunked grammar recovers every list of non-empty chunks and leaves what follows |
| ResponseBuilder.BufsAreEncoding | dev/restinio/message_builders.hpp:791-860 | The buffers of one flush are the header if due, the chunks in the chunked format, and the last chunk if final |
| ResponseBuilder.ApplyAllInv | dev/restinio/message_builders.hpp:655-760 | After any calls, what was submitted is the header and the encoding of all chunks flushed so far |
| ResponseBuilder.ChunksAreAppended | dev/restinio/message_builders.hpp:655-720 | Flushed and waiting chunks together are the appended data up to the first done |
| ResponseBuilder.FlushSendsAll | dev/restinio/message_builders.hpp:674-690 | A flush leaves nothing waiting: all that was appended so far has been submitted behind the header |
| ResponseBuilder.CallbacksAreHandedOver | dev/restinio/message_builders.hpp:674-760 | As many submissions carry a callback as calls before the end asked for one |
| ResponseBuilder.StatusLineComesFirst | dev/restinio/message_builders.hpp:723-760 | The status line goes with the first submission only |
| ResponseBuilder.DecodesToAppendedData | dev/restinio/message_builders.hpp:655-860 | For any calls ended by done, what was submitted decodes to the appended data, with no empty chunk before the last (section 4.1 of RFC 7230) |
| ChunkedOutput.ChunkedBuilder.AppendChunk | dev/restinio/message_builders.hpp:655-665 | Keeps a non-empty chunk, ignores an empty one |
| ChunkedOutput.ChunkedBuilder.Flush | dev/restinio/message_builders.hpp:674-690 | Sends what is ready while the connection is held |
| ChunkedOutput.ChunkedBuilder.Done | dev/restinio/message_builders.hpp:699-720 | Sends the final parts once; a second call is an error |
| ChunkedOutput.ChunkedBuilder.SendReadyData | dev/restinio/message_builders.hpp:723-760 | One submission with the right flags, unless there is neither a buffer nor a callback |
| ChunkedOutput.ChunkedBuilder.CreateBufs | dev/restinio/message_builders.hpp:791-860 | The loop makes the buffers of one flush and clears the chunks |
| Capstone.ClientReadsWhatHandlersAppended | dev/restinio/message_builders.hpp:655-860 | In every reachable state a client reads from the wire, in request order, exactly what the first m handlers appended, whatever the interleaving |
| Capstone.IdleClientReadsEverything | dev/restinio/impl/connection.hpp:866-947 | On an idle connection with all requests answered the wire is exactly these responses |
| Capstone.ClientGetsEverything | dev/restinio/message_builders.hpp:655-860 | From every reachable state of an open connection with all requests answered, finished operations lead to a wire from which the client reads exactly what the handlers appended, in request order, up to the first that closes the connection |
| Capstone.OneHandlerIsAccepted | dev/restinio/message_builders.hpp:699-720 | The hypotheses of the theorems above are met by a handler that calls done on the first request |
| Serving.ScheduleIsServed | dev/restinio/impl/connection.hpp:735-1351 | Under every schedule of requests, handler calls in any order and finished operations, every call is taken and the connection stays open |
| Serving.EveryHandlerIsServed | dev/restinio/message_builders.hpp:655-860 | Under every such schedule, when all handlers have finished and the socket has completed its operations, the client reads what each handler appended, in request order, and nothing else |
| Serving.AnsweredInReverse | dev/restinio/impl/response_coordinator.hpp:338-360 | Two requests, the second one answered first, are such a schedule |
| OrderedChoice.ProcessIsOrderedChoice | dev/restinio/helpers/easy_parser.hpp:1304-1947 | For every clause, input and target, verdict and end position equal an ordered-choice semantics with ok, fail and cut |
| OrderedChoice.ParseIsOrderedChoice | dev/restinio/helpers/easy_parser.hpp:1840-1872 | The same for every producer |
| ParserEffects.ProcessIsEffect | dev/restinio/helpers/easy_parser.hpp:1304-1947 | For every clause, input and target: position, error and target are those of a semantics without targets that gives a list of updates, made in order |
| ParserEffects.ParseIsValue | dev/restinio/helpers/easy_parser.hpp:1840-1872 | For every producer and input: value, end and error are those of that semantics |
| ParserLaws.CutComesFromForced | dev/restinio/helpers/easy_parser.hpp:1792-1819 | Only a clause with a forced part outside alternatives and absorbing clauses can give a cut |
| ParserLaws.TargetDoesNotMatter | dev/restinio/helpers/easy_parser.hpp:1304-1947 | Acceptance, errors and positions do not depend on the target |
| ParserLaws.FailureKeepsTheTarget | dev/restinio/helpers/easy_parser.hpp:1467-1776 | A failed clause other than repetition leaves the target unchanged; not and and never move or change anything |
| ParserLaws.ProcessShift | dev/restinio/helpers/easy_parser.hpp:764-779 | Parsing depends only on the rest of the input: text before the position shifts positions and nothing else |
| ParserLaws.NestedSequence | dev/restinio/helpers/easy_parser.hpp:1740-1776 | A sequence at the head of a sequence can be flattened |
| ParserLaws.DoubleNotIsAnd | dev/restinio/helpers/easy_parser.hpp:1611-1712 | not of not is and |
| ParserLaws.MaybeIsChoice | dev/restinio/helpers/easy_parser.hpp:1548-1590 | maybe is a choice between its parts, with the value they store, and nothing |
| ParserLaws.TransformIsInTheConsumer | dev/restinio/helpers/easy_parser.hpp:1020-1052 | Transforming a value before it is consumed is consuming the transformed value |
| ParserLaws.RepeatUnrolls | dev/restinio/helpers/easy_parser.hpp:1892-1946 | A repetition is its parts once and then a shorter repetition on the same target |
| ParserLaws.NestedAlternatives | dev/restinio/helpers/easy_parser.hpp:1467-1517 | Alternatives at the head of alternatives can be flattened if and only if no cut hides a later success |
| ParserLaws.NestedAlternativesWithoutForced | dev/restinio/helpers/easy_parser.hpp:1467-1517 | For every input, alternatives at the head of alternatives can be flattened when none of the inner ones has a forced part that can cut |
| ParserLaws.CutHidesTheOuterAlternative | dev/restinio/helpers/easy_parser.hpp:1467-1517 | Of a forced a and then b, on the text b: nested accepts, flattened fails |
| ParserLaws.ForcedSparesTheGuard | dev/restinio/helpers/easy_parser.hpp:3383-3443 | force_only_this_alternative gives the result of guarding the next alternative with a negated prefix |
| ParserSemantics.AnyFailsPlainly | dev/restinio/helpers/easy_parser.hpp:1479-1516 | Alternatives fail at their start, with one reason, no cut and an unchanged target |
| EasyParser.Source.Getch | dev/restinio/helpers/easy_parser.hpp:744-754 | The next character, or the end without moving |
| EasyParser.Source.Putback | dev/restinio/helpers/easy_parser.hpp:756-762 | One character back, not before the start |
| EasyParser.Source.BackTo | dev/restinio/helpers/easy_parser.hpp:772-779 | Moves to a position in range |
| EasyParser.TryParseExactFragment | dev/restinio/helpers/easy_parser.hpp:3035-3068 | Matches the whole fragment or restores the position, with the right reason |
| EasyParser.TryParse | dev/restinio/helpers/easy_parser.hpp:1840-1872 | The mutable-position producer computes its meaning; on failure the position may have moved |
| EasyParser.AnyOf | dev/restinio/helpers/easy_parser.hpp:1479-1516 | The loop over alternatives with a saved position and a copied target |
| EasyParser.RepeatAll | dev/restinio/helpers/easy_parser.hpp:1911-1946 | The loop of repeat with the position given back after a failed round |
| EasyParser.TrySequence | dev/restinio/helpers/easy_parser.hpp:1750-1775 | All parts on a copy of the target, or position and target restored |
| EasyParser.TryProcess | dev/restinio/helpers/easy_parser.hpp:1304-1947 | Every clause computes its meaning; only a consuming clause may leave the position moved on failure |
| EasyParser.RemoveTrailingSpaces | dev/restinio/helpers/easy_parser.hpp:1424-1432 | The text without its trailing spaces |
| EasyParser.SpacesByName | dev/restinio/helpers/easy_parser.hpp:616-619 | The spaces are the space and the horizontal tab |
| EasyParser.EnsureNoRemainingContent | dev/restinio/helpers/easy_parser.hpp:1396-1414 | Passes exactly on spaces; otherwise reports the first other character |
| EasyParser.TryParseText | dev/restinio/helpers/easy_parser.hpp:4448-4473 | Success exactly when the producer takes the whole trimmed text up to spaces; otherwise the producer's error, or unconsumed input at the first character that is not a space |
| Multipart.SplitMultipartBody | dev/restinio/helpers/multipart_body.hpp:71-133 | The loop over the remaining body computes the pure splitting |
| Multipart.CheckBoundaryValue | dev/restinio/helpers/multipart_body.hpp:456-475 | Accepts exactly 1 to 70 boundary characters not ending with a space (section 5.1.1 of RFC 2046) |
| Multipart.BcharsByName | dev/restinio/helpers/multipart_body.hpp:403-426 | The characters of a boundary are those that section 5.1.1 of RFC 2046 lists |
| Multipart.BoundaryLengths | dev/restinio/helpers/multipart_body.hpp:456-475 | 70 characters pass, 71 and none do not; a space may stand within and not at the end |
| Multipart.SplitRendered | dev/restinio/helpers/multipart_body.hpp:71-133 | Splitting undoes rendering, whatever stands before and after |
| Multipart.SplitFindsMultipart | dev/restinio/helpers/multipart_body.hpp:71-133 | Whatever is split into parts is a multipart body with these parts |
| Multipart.SplitsExactlyMultipartBodies | dev/restinio/helpers/multipart_body.hpp:71-133 | A non-empty list is returned if and only if the body is a multipart body with exactly these parts |
| Utf8.Utf8Checker.ProcessByte | dev/restinio/utils/utf8_checker.hpp:39-113 | One byte of the automaton, branch by branch |
| Utf8.Utf8Checker.DoCheckOverlong | dev/restinio/utils/utf8_checker.hpp:148-192 | The overlong marks and their resolution |
| Utf8.Utf8Checker.ValidateCurrentSymbol | dev/restinio/utils/utf8_checker.hpp:138-146 | Surrogates and values above 0x10FFFF are refused |
| Utf8.Utf8Checker.DoReset | dev/restinio/utils/utf8_checker.hpp:125-130 | Forgets the symbol, keeps the state |
| Utf8.EncodedIsAccepted | dev/restinio/utils/utf8_checker.hpp:39-113 | The encoding of every scalar value is accepted, and the current symbol is that value |
| Utf8.ProcessPending | dev/restinio/utils/utf8_checker.hpp:39-113 | A symbol finished after several bytes is at least 0x80 |
| Utf8.ResetIsFresh | dev/restinio/utils/utf8_checker.hpp:115-130 | After a finished sequence, a reset checker is a fresh one |
| Utf8.AcceptsExactlyUtf8 | dev/restinio/utils/utf8_checker.hpp:34-192 | A fed checker is finalized if and only if the bytes are a concatenation of well-formed sequences, and the current symbol is the last decoded value (section 4 of RFC 3629) |
| PercentEncoding.UnescapeShrinks | dev/restinio/utils/percent_encoding.hpp:239-319 | The decoded text is never longer than its source |
| PercentEncoding.TryUnescape | dev/restinio/utils/percent_encoding.hpp:389-404 | The copying loop computes the pure decoding, with the same failures and positions |
| PercentEncoding.TryInplaceUnescape | dev/restinio/utils/percent_encoding.hpp:438-456 | Decoding inside the buffer gives what decoding of the original bytes gives; nothing outside the result is touched, also not after a failure |
| EscapedText.OrdinaryByName | dev/restinio/utils/percent_encoding.hpp:33-165 | The characters that may stand unescaped under each of the four traits, by name |
| EscapedText.DigitsByName | dev/restinio/utils/percent_encoding.hpp:189-215 | Hexadecimal digits are read in both cases and written in upper case |
| EscapedText.UnescapingIsExact | dev/restinio/utils/percent_encoding.hpp:239-319 | For every text and all traits: it is unescaped, to the bytes it stands for, if and only if every percent sign starts an escape, every run of escapes is well-formed UTF-8 and every other character may stand unescaped |
| PercentEscaping.EscapePercentEncoding | dev/restinio/utils/percent_encoding.hpp:324-358 | For all bytes, both branches compute the escaped text |
| PercentEscaping.UnescapeUndoesEscape | dev/restinio/utils/percent_encoding.hpp:324-404 | For all bytes, unescaping undoes escaping if and only if no plus sign is left by the relaxed traits and the text can be read back: where char is unsigned, it is well-formed UTF-8, where it is signed, it is below 0x80 |
| PercentEscaping.RelaxedPlusBecomesSpace | dev/restinio/utils/percent_encoding.hpp:324-404 | Under the relaxed traits a plus sign comes back as a space |
| UriNormalization.NormalizationKeepsMeaning | dev/restinio/utils/percent_encoding.hpp:499-587 | What unescaping accepts it reads the same after normalization, if and only if the form traits meet no escaped tilde (section 6.2.2.2 of RFC 3986) |
| UriNormalization.EscapedTildeIsSpoiled | dev/restinio/utils/percent_encoding.hpp:499-587 | An escaped tilde is accepted by the form traits before normalization and refused after it |
| UriNormalization.NormalizationIsIdempotent | dev/restinio/utils/percent_encoding.hpp:499-587 | Normalizing again changes nothing |
| EscapedText.NormalizationIsExact | dev/restinio/utils/percent_encoding.hpp:499-587 | For every text: it is normalized if and only if every percent sign starts an escape and every run of escapes is well-formed UTF-8; then the escapes of unreserved characters are written out and nothing else is changed |
| EscapedText.NothingIsLeftToNormalize | dev/restinio/utils/percent_encoding.hpp:499-587 | In a normal form no unreserved character is escaped (section 6.2.2.2 of RFC 3986) |
| EscapedText.FailuresAgree | dev/restinio/utils/percent_encoding.hpp:499-587 | Where no plain character is refused, normalizing fails where unescaping does, for the same reason |
| UriNormalization.EstimateRequiredCapacity | dev/restinio/utils/percent_encoding.hpp:603-619 | The estimate is the exact length of the normalized text, or its failure |
| UriNormalization.NormalizeTo | dev/restinio/utils/percent_encoding.hpp:621-654 | For any text, well-formed or not: writes exactly the pieces normalized before the end or the first error and nothing behind them, and reports the same failure |
| QueryString.TryParseQuery | dev/restinio/uri_helpers.hpp:395-496 | The parser that unescapes inside the buffer it scans shows, in the final buffer, exactly what splitting the original string and unescaping each piece alone gives, with the same failures and the same tag |
| QueryString.ParsePair | dev/restinio/uri_helpers.hpp:459-488 | One round keeps the views returned before and the bytes still to be scanned |
| QueryString.ParseLast | dev/restinio/uri_helpers.hpp:425-457 | Without an equals sign: a tag for the whole query, otherwise an error at that position |
| QueryPrinting.ParseUndoesPrint | dev/restinio/uri_helpers.hpp:395-496 | Parsing undoes printing for every list of byte strings and any choice of separators, if and only if each string can be read back after escaping and none holds a delimiter or plus sign left unescaped; so always for texts below 0x80 and all traits but the relaxed ones |
| QueryPrinting.RelaxedAmpersandIsLost | dev/restinio/uri_helpers.hpp:395-496 | Under the relaxed traits a pair whose value is an ampersand does not come back |
| QueryPrinting.SeparatorsAreThese | dev/restinio/uri_helpers.hpp:194-227 | The ampersand separates pairs, and for the default and the JavaScript traits also the semicolon |
| QueryPrinting.TagUndoesEscape | dev/restinio/uri_helpers.hpp:425-457 | A query of one escaped text is read as that tag, if and only if the text can be read back and the relaxed traits meet no equals and no plus sign in it |
| QueryPrinting.LateTextIsRefused | dev/restinio/uri_helpers.hpp:425-457 | A text without an equals sign behind any printed pairs is refused, at its own position |
| QueryPrinting.OnePair | dev/restinio/uri_helpers.hpp:459-488 | Of a bad pair the key's failure is reported first, then the value's |
| Sha1Transform.SlotsMove | dev/restinio/utils/sha1.hpp:82-86 | Updating one of sixteen words gives the next word of the schedule and keeps the window of the last sixteen |
| Sha1Transform.R0 | dev/restinio/utils/sha1.hpp:88-93 | One round, with the variables' roles moved on by one |
| Sha1Transform.R1 | dev/restinio/utils/sha1.hpp:96-102 | The same with the word computed in place |
| Sha1Transform.R2 | dev/restinio/utils/sha1.hpp:105-111 | The same with the parity function |
| Sha1Transform.R3 | dev/restinio/utils/sha1.hpp:113-119 | The same with the majority function in its other form |
| Sha1Transform.R4 | dev/restinio/utils/sha1.hpp:122-128 | The same with the parity function and the last constant |
| Sha1Transform.Rounds0To19 | dev/restinio/utils/sha1.hpp:150-169 | The first twenty calls bring the variables back to their roles after twenty rounds of the standard |
| Sha1Transform.LoadBlock | dev/restinio/utils/sha1.hpp:133-142 | The words are the bytes taken four by four, highest first |
| Sha1Transform.AllRounds | dev/restinio/utils/sha1.hpp:144-229 | The 80 calls with rotating roles compute the 80 rounds of the standard |
| Sha1Transform.Transform | dev/restinio/utils/sha1.hpp:130-236 | The unrolled transform is the digest update of section 6.1.2 of FIPS 180-4, for every block and digest |
| Sha1.HashNextBlock | dev/restinio/utils/sha1.hpp:130-236 | Every block is compressed into the digest of those before it (section 6.1.2 of FIPS 180-4) |
| Sha1Builder.Builder.Update | dev/restinio/utils/sha1.hpp:253-277 | The state after an update is that of pushing the bytes one by one |
| Sha1Builder.AnyCuttingIsTheSame | dev/restinio/utils/sha1.hpp:253-277 | However a message is cut into updates, the whole state equals that of one update |
| Sha1Builder.ContentOfMessage | dev/restinio/utils/sha1.hpp:253-277 | The complete blocks have been transformed, the rest is in front of the buffer, and the counters are right |
| Sha1Builder.Builder.Finish | dev/restinio/utils/sha1.hpp:279-314 | The transform is given exactly the final blocks, in the two cases of the code |
| Sha1Builder.LengthFieldIsBigEndian | dev/restinio/utils/sha1.hpp:299-309 | Two 32-bit halves of the bit count are its 64 bits, highest byte first |
| Sha1.BigEndianIsNumber | dev/restinio/utils/sha1.hpp:299-309 | The bytes of the length field, highest first, write the number of bits |
| Sha1Builder.FedIsPadded | dev/restinio/utils/sha1.hpp:279-314 | The blocks are the padded message of section 5.1.1 of FIPS 180-4 if and only if the length is not 56 modulo 64 |
| Sha1Builder.MarkIsLost | dev/restinio/utils/sha1.hpp:286-297 | For 56 zero bytes the 0x80 byte is missing from what is hashed |
| Sha1Builder.MakeDigest | dev/restinio/utils/sha1.hpp:416-420 | The digest is SHA-1 of the message unless its length is 56 modulo 64 |
| Sha1Answers.KnownAnswer | dev/test/encoders/main.cpp:190-193 | The digest of "sha" is d8f45903 20e1343a 915b6394 170650a8 f35d6926 |
| Base64.IsValidBase64String | dev/restinio/utils/base64.hpp:43-107 | The automaton accepts exactly four or more characters: at least two of the alphabet and then at most two paddings |
| Base64.ValidByName | dev/restinio/utils/base64.hpp:43-107 | Valid are four or more characters: two or more of the alphabet, and then nothing, = or == |
| Base64.EncodeString | dev/restinio/utils/base64.hpp:122-175 | The loop computes the encoding, with the right padding |
| Base64.TryDecode | dev/restinio/utils/base64.hpp:183-245 | The loop computes the decoding, refuses invalid strings, and shows when it would read past the end |
| Base64.DecodeUndoesEncode | dev/restinio/utils/base64.hpp:122-245 | Every non-empty string is encoded in 4 characters for each 3 bytes begun and decoded back; the empty one is refused (section 4 of RFC 4648) |
| Base64.EncodeUndoesDecode | dev/restinio/utils/base64.hpp:122-245 | Encoding what was decoded gives the same characters, for every valid string of a length divisible by four, if and only if the bits that the padding leaves unused are zero |
| Base64.AlphabetByName | dev/restinio/utils/base64.hpp:122-175 | The alphabet is Table 1 of RFC 4648, and the padding is the equals sign |
| Base64.KnownAnswers | dev/restinio/utils/base64.hpp:122-175 | The examples f, fo and foo of section 10 of RFC 4648 |
| Base64.ReadsStayInRange | dev/restinio/utils/base64.hpp:200-229 | On a valid string all reads are in range if and only if its length is a multiple of four |
| Base64.FiveCharactersPass | dev/restinio/utils/base64.hpp:43-107 | A string of five characters passes the automaton and is read past its end |

## Left out

- UriNormalization.NormalizeTo: requires room for the pieces, as the source does by demanding the estimated capacity; without it the source writes past the end.
- Sha1Builder.FedIsPadded: is about the blocks given to the transform; that the digest itself differs at length 56 modulo 64 is not claimed.
- Callbacks that call back into the connection, and callbacks or consumers that throw: a callback is an entry in the history.
- The read side of a connection, the upgrade stage and websockets: they depend on a foreign HTTP parser.
- Timers, TLS, acceptors, thread pools, settings, loggers and state listeners: plumbing.
- Sockets: a write operation ends in full, fails after some bytes, or is aborted after a close.
- Sending a file: a file item is its content; partial reads and the platform variants are not modelled.
- The response builders without chunked encoding: simpler than the chunked one.
- The text of headers: a header is given once per response and sent first.
- Number producers of the parser and their overflow check: a leaf producer here is a symbol or a fragment.
- The grammars built from the combinators, the routers and zlib: not needed by the properties above.
- Text of parse errors and of query failures: reason and position stand for it.
- Looking up parameters of a parsed query, and the throwing variants of the functions above: easy wrappers.
- Detecting the boundary in a Content-Type field and the fields of each part: they only use the parser.
- Wiping the SHA-1 state on destruction, and printing a digest: easy.
