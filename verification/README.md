# Inference driver: a verified model

This project models the parts of the inference driver whose guarantees span many calls, and proves
those guarantees for every input and every run. One module, sometimes a few, stands for each file
of the driver:

- `Thinking`, `ThinkingCase`, `ThinkingStream`, `ThinkingSeams`: hiding a model's reasoning. The batch stripper is two
  regular expressions over a finished answer; the streaming filter is a state machine over pieces.
- `Slots`, `SlotHistory`, `SlotRuns`, `SlotPinsObject`: conversations pinned to engine slots while any
  number of requests arrive, wait, run, finish and are cancelled. A step of the transition system is
  what the event loop runs between two awaits.
- `StopStrings`, `Strata`, `StrataStream`, `StrataOrder`, `StrataFrames`: the caller's stop strings enforced on text that
  arrives cut in any way, among reasoning, tool and closing frames.
- `Tokens`, `TokenRules`, `TokenAcceptance`, `TrustBundles`: minting and verifying tokens under a signed bundle of keys
  and grants, and replacing that bundle.
- `Signatures`, `Gemini`, `GeminiTurns`, `GeminiReplay`, `GeminiSays`: the bounded memory of thought signatures, the
  translation of a conversation into Gemini's turns, and the replay of calls that rests on both.
- `Config`, `ConfigRules`, `PrivateFiles`: configuration values, sealed and plain, written so that a crash leaves the
  old file or the new one.
- `Globs`, `Catalogue`: an account's model list, its index, its filter and its re-reading.
- `Machines`, `MachineRules`: the table of machines, the routing of plain requests onto TLS, and the pin check.
- `BodyLimit`: a request body bounded before it is parsed and handed on once.
- `Text`, `Options`: strings as Python has them, and the option and result types.

Objects whose methods update their fields are classes; their methods are proved against functions on
values, and the properties of whole histories are proved about those functions. Clocks, the network,
the state of the disk, random ids and the patterns read live are parameters.

## What holds, and what does not

Three statements the driver makes are not true as written. The model follows the code; a lemma gives an
input for each, and another says exactly when the statement holds.

- `ThinkingFilter` is documented to equal `strip_thinking_blocks` for any chunking of any input. Chunking
  never matters (`ThinkingSeams.FilterStream`), but the batch side runs its second expression over text
  already joined where blocks were removed. The two agree if and only if those seams are harmless, a walk
  over the input alone (`Thinking.BatchAgreesExactlyWhenSeamsHarmless`); two inputs show the two ways they
  are not (`ThinkingSeams.SeamCompletesATag`, `ThinkingSeams.SeamBreaksATag`).
- A job site's key is described as good for `sub: agent` tokens and nothing else. The code lets it mint a
  service token of any other subject to its own machine, and only there
  (`TokenRules.JobSiteReachesExactly`); a `backup` token is an input
  (`TokenRules.GrantsReachFurtherThanDescribed`).
- The standby grant is described as good for `sub: standby` tokens to the control root and nowhere else.
  The code also lets them go to the standby's own machine (`TokenRules.StandbyReachesExactly`), with such
  a token as the input.

Four limits the driver does not speak of:

- Where a stop string lies strictly inside another, what Strata's stream shows can depend on how the text
  was cut. `StopStrings.CuttingMattersExactlyWhenHidden` says for which lists of stops it cannot, and
  `StopStrings.HiddenStopShowsDifferently` is a list, and two cuttings, where it does. Which stop the answer
  names depends on the cut for more lists: `StopStrings.NameDependsOnCutExactly` says for which it cannot,
  and `StopStrings.LongerStopNamedOnlyWhole` is one where it does.
- Withheld text is flushed ahead of reasoning, tool and closing frames only. Progress, citation and audio
  frames, which are forwarded like any other (`routes/generate.py:180-181` and `:511-528`), overtake it:
  `StrataOrder.ProgressOvertakesText` is an input. `StrataOrder.NothingMoves` says by how much each frame
  gets ahead, and that the stream reads in order if and only if no text is withheld where one of them
  comes; `StrataOrder.StoppedStreamIsCutThere` says the same of a stream that a stop ends.
- What rides with a piece of text, the log probabilities of its tokens, is sent with the part of it that is shown
  and dropped where all of that text has to wait, even though the text itself is sent later
  (`StrataFrames.TextPasses`; `StrataFrames.RiderOfWithheldTextIsLost` is an input).
- The significant-digits reading of a declared body length is the limit only for limits below ten billion
  (`BodyLimit.TestIsTheLimitExactlyBelowTenBillion`).

## Model

| member | source | states |
|---|---|---|
| ThinkingSeams.FilterStream | src/eugene_plexus_inference_driver/engines/_thinking.py:183-280 | every chunking of a text shows the same thing, what one pass over the whole text shows, and a text that differs only in case is shown the same but for case; and that is what the batch stripper keeps exactly when the seams are harmless |
| ThinkingCase.CaseNeverMatters | src/eugene_plexus_inference_driver/engines/_thinking.py:44-64 | texts that differ only in case, the Kelvin sign being a k, are shown and stripped alike but for case |
| ThinkingCase.BlockIsHidden | src/eugene_plexus_inference_driver/engines/_thinking.py:40-51 | a block, its two tags in any case and any attributes in the first, is hidden whole by the stripper and the stream, up to the first close tag of its own name |
| ThinkingCase.UnclosedIsHidden | src/eugene_plexus_inference_driver/engines/_thinking.py:53-64 | where the close tag never comes, or the `>` of the opening one, all that follows is hidden |
| ThinkingCase.TagExactly | src/eugene_plexus_inference_driver/engines/_thinking.py:44-51 | a tag is `<` and the name in any case if and only if what comes next is no ASCII letter, digit or underscore, nor a non-ASCII character that counts as alphanumeric |
| Thinking.BatchAgreesExactlyWhenSeamsHarmless | src/eugene_plexus_inference_driver/engines/_thinking.py:136-148 | batch and one-pass reading agree if and only if, place by place over the input, removing the blocks further on makes no tag where there is none and leaves the tag that never closes a tag |
| Thinking.SeamFreeMeansAgreement | src/eugene_plexus_inference_driver/engines/_thinking.py:183-189 | a condition on the input alone that is enough: no removed block follows, in the text kept so far, a nonempty beginning of `<thinking` |
| ThinkingSeams.SeamCompletesATag | src/eugene_plexus_inference_driver/engines/_thinking.py:141-148 | an input on which the documented agreement fails: removing a block spells a tag, batch drops what follows, the stream has shown it |
| ThinkingSeams.SeamBreaksATag | src/eugene_plexus_inference_driver/engines/_thinking.py:141-148 | the other one: removing a block runs the open tag's name on, batch shows what the stream hides |
| Thinking.BlockEndIsShortestMatch | src/eugene_plexus_inference_driver/engines/_thinking.py:51 | the deterministic matcher finds a match of the block pattern if there is one, and the shortest, as the lazy quantifier does |
| Thinking.TagNameUnique | src/eugene_plexus_inference_driver/engines/_thinking.py:44-51 | the word boundary makes the name read at a tag the only one that matches there |
| Thinking.RemoveBlocksSplits | src/eugene_plexus_inference_driver/engines/_thinking.py:136-145 | block removal leaves the visible text followed by what it leaves of the first block that never closes |
| Thinking.CutTailOfJoin | src/eugene_plexus_inference_driver/engines/_thinking.py:53-64 | the tail cut keeps exactly the visible text if and only if no tag begins in it and one still begins where the open block was |
| ThinkingStream.ThinkingFilter.Feed | src/eugene_plexus_inference_driver/engines/_thinking.py:205-261 | what was owed on any text to come is what is emitted plus what is owed afterwards, and only undecided text stays withheld |
| ThinkingStream.ThinkingFilter.Flush | src/eugene_plexus_inference_driver/engines/_thinking.py:263-280 | the end of the stream shows exactly what was still owed, and the filter starts afresh |
| ThinkingStream.ThinkingFilter.ReadName | src/eugene_plexus_inference_driver/engines/_thinking.py:289-300 | the longest run of word characters after `<`, and whether it has ended |
| ThinkingStream.ThinkingFilter.ViablePrefixLen | src/eugene_plexus_inference_driver/engines/_thinking.py:302-315 | the longest tail that can still become an opening tag |
| ThinkingStream.EmitPlain | src/eugene_plexus_inference_driver/engines/_thinking.py:209-221 | emitting all but the viable tail never emits the beginning of a tag |
| ThinkingStream.FoundOpen | src/eugene_plexus_inference_driver/engines/_thinking.py:222-224 | no tag begins before the first `<think` |
| ThinkingStream.NameDecided | src/eugene_plexus_inference_driver/engines/_thinking.py:225-240 | a name that has ended decides the tag whatever text follows |
| ThinkingStream.BlockWaits | src/eugene_plexus_inference_driver/engines/_thinking.py:248-257 | inside a block all but one character less than a close tag may be dropped without moving the block's end |
| ThinkingStream.FlushOwes | src/eugene_plexus_inference_driver/engines/_thinking.py:263-280 | an open block owes nothing, a name owes itself unless it is a whole tag name, plain text owes itself |
| SlotRuns.RunKeepsInvariant | src/eugene_plexus_inference_driver/slots.py:48-89 | every interleaving of arrivals, tries, wake-ups, releases and cancellations keeps slots, owners, waiters and claim history consistent |
| SlotRuns.StaysWithItsConversation | src/eugene_plexus_inference_driver/slots.py:75-89 | in every run the requests there are those the steps say have come and not left, each still for the conversation it came with |
| SlotRuns.CameByArriving | src/eugene_plexus_inference_driver/slots.py:75-89 | and that is the conversation of one of its arrivals, since which it has not left |
| SlotRuns.StepsDo | src/eugene_plexus_inference_driver/slots.py:48-89 | a request that tries is in flight if its conversation's slot, or else any slot, is idle, and otherwise asleep; one that is woken can try again; no step touches another request |
| SlotRuns.NeverTwoInFlight | src/eugene_plexus_inference_driver/slots.py:48-89 | in every run no two requests in flight share a slot, or came for the same conversation |
| SlotRuns.HolderOwnsItsSlot | src/eugene_plexus_inference_driver/slots.py:48-89 | in every run a request in flight holds a slot in range, busy, and owned by the conversation it came with or by nobody |
| SlotRuns.NoLostWakeUp | src/eugene_plexus_inference_driver/slots.py:75-89 | a sleeper is woken already or waits for a slot some request holds and could not have one now; whichever holder leaves, every sleeper is woken |
| SlotRuns.WokenByALeave | src/eugene_plexus_inference_driver/slots.py:78-89 | nobody is woken for nothing: a sleeper that may wake has slept while a request in flight left |
| SlotRuns.NoDeadlock | src/eugene_plexus_inference_driver/slots.py:75-89 | while any request is left, some request can try, wake, or is being served |
| SlotRuns.ClaimsAreWhatWasTaken | src/eugene_plexus_inference_driver/slots.py:48-89 | the history of claims grows exactly when a request gets a slot, by the conversation it came with, that slot and the slots then in flight |
| SlotRuns.BusyAreInFlight | src/eugene_plexus_inference_driver/slots.py:83-89 | in every run the busy slots are those of the requests in flight |
| SlotRuns.RunIsLeastRecentlyUsed | src/eugene_plexus_inference_driver/slots.py:48-73 | every claim of every run is the one the least-recently-used rule names, the rule being said of the history of claims alone |
| SlotRuns.KeepsItsSlot | src/eugene_plexus_inference_driver/slots.py:50-57 | a request that comes for a conversation gets the slot that conversation had, unless a request of another conversation, or of none, was in flight on it in between |
| SlotRuns.ClaimsKeepTheirSlot | src/eugene_plexus_inference_driver/slots.py:50-57 | the same of the claims: a conversation is given its slot again unless another claim took it |
| SlotRuns.StillWaits | src/eugene_plexus_inference_driver/slots.py:48-60 | a request that must wait still must after another has taken a slot |
| SlotHistory.ChoiceFollowsRule | src/eugene_plexus_inference_driver/slots.py:48-73 | the slot chosen is the conversation's own, else the lowest idle one nobody owns, else the idle one claimed longest ago |
| SlotHistory.ChoiceAgrees | src/eugene_plexus_inference_driver/slots.py:39-73 | after a claim the ordered map still says who claimed each slot last, in the order of last claim |
| SlotHistory.OneSlotEach | src/eugene_plexus_inference_driver/slots.py:1-10 | under the rule a conversation never has two slots |
| Slots.WaitsExactlyWhen | src/eugene_plexus_inference_driver/slots.py:50-60 | a request waits if and only if its own slot is busy or, having none, every slot is |
| Slots.ChoiceKeepsOk | src/eugene_plexus_inference_driver/slots.py:58-73 | a claim names an idle slot in range, never evicts the owner of a busy one, and keeps conversations and slots paired one to one |
| SlotPinsObject.SlotPins.Create | src/eugene_plexus_inference_driver/slots.py:35-37 | a map for fewer than one slot is refused |
| SlotPinsObject.SlotPins.Choose | src/eugene_plexus_inference_driver/slots.py:48-73 | the method's map and answer are those of the choice the properties above are about |
| SlotPinsObject.SlotPins.LeastRecent | src/eugene_plexus_inference_driver/slots.py:66-70 | the minimum over idle slots by place in the map is the first entry of the map with an idle slot |
| SlotPinsObject.SlotPins.Attempt | src/eugene_plexus_inference_driver/slots.py:75-82 | one pass of the loop either holds a slot busy or hands back the one event of the moment |
| SlotPinsObject.SlotPins.Release | src/eugene_plexus_inference_driver/slots.py:83-89 | leaving frees the slot, sets the event slept on and forgets it |
| Strata.Stream | src/eugene_plexus_inference_driver/engines/strata_http.py:202-280 | the stream, which remembers only the withheld tail, sends what a filter that kept the whole run of text would; with no stop asked for but empty ones, just what came |
| StopStrings.RunStopsExactly | src/eugene_plexus_inference_driver/engines/strata_http.py:225-266 | in one run, however cut, a stop fires if and only if one occurs in what came; what was shown is followed by it; with none, nothing is lost but the longest tail that may become one |
| StopStrings.ShownHoldsNoStop | src/eugene_plexus_inference_driver/engines/strata_http.py:225-266 | no stop occurs in what a run has shown |
| StopStrings.CuttingMattersExactlyWhenHidden | src/eugene_plexus_inference_driver/engines/strata_http.py:227-236 | what is shown is the text before the first stop for every way of cutting if and only if no stop hides another: one strictly inside another is harmless only if by its end some stop has begun where the outer one does |
| StopStrings.HiddenStopShowsDifferently | src/eugene_plexus_inference_driver/engines/strata_http.py:227-236 | a list of stops and one text that, cut in two ways, is shown in two ways |
| StopStrings.NameDependsOnCutExactly | src/eugene_plexus_inference_driver/engines/strata_http.py:227-229 | the stop named is the one the whole text would name, for every way of cutting, if and only if no stop hides another and none is listed ahead of every stop that it begins like |
| StopStrings.LongerStopNamedOnlyWhole | src/eugene_plexus_inference_driver/engines/strata_http.py:227-229 | a list with no hidden stop, and one text that, cut in two ways, is ended by two names |
| StopStrings.FirstStopFromTail | src/eugene_plexus_inference_driver/engines/strata_http.py:226-229 | searching the withheld tail and the new text finds what searching all that was received would |
| StopStrings.HeldFromTail | src/eugene_plexus_inference_driver/engines/strata_http.py:252-262 | the tail to withhold next can be computed from the tail withheld now |
| StrataStream.EveryRunComesOut | src/eugene_plexus_inference_driver/engines/strata_http.py:225-266 | a run of text frames anywhere in the stream comes out as the run alone would, the closing frame of a stopped one naming the stop and all that was shown |
| StrataStream.NothingIsLost | src/eugene_plexus_inference_driver/engines/strata_http.py:267-280 | in a stream without a stop no text is lost or made up, and the other frames all pass, in order |
| StrataStream.WholeAnswerIsSent | src/eugene_plexus_inference_driver/engines/strata_http.py:267-280 | such a stream, once closed by its last frame, is sent with all its text and all its other frames |
| StrataOrder.NothingMoves | src/eugene_plexus_inference_driver/engines/strata_http.py:252-280 | in a stream without a stop what is sent and then withheld has the text that came and every other frame, each ahead of its place by exactly the text withheld when it came; it reads as what came if and only if wherever a frame comes that ends no run, no text is withheld |
| StrataOrder.OnlyAsidesOvertake | src/eugene_plexus_inference_driver/engines/strata_http.py:267-270 | reasoning, tool and closing frames overtake nothing |
| StrataOrder.WholeAnswerIsSentInOrder | src/eugene_plexus_inference_driver/engines/strata_http.py:267-280 | a stream without a stop that its last frame closes is sent with all its text and all its frames, and in order under the same condition, or if no stop was asked for |
| StrataOrder.StoppedStreamIsCutThere | src/eugene_plexus_inference_driver/engines/strata_http.py:218-250 | a stream that a stop ends is sent as the text before the stop, every frame that came, each ahead by what was withheld, and a frame of nothing but the answer: the stop, all the text that was shown, and all the reasoning and calls of every frame that came; it reads as what came up to the stop if and only if all text overtaken is text the stop has cut; what comes later changes nothing |
| StrataOrder.SomeFrameStops | src/eugene_plexus_inference_driver/engines/strata_http.py:225-230 | a stream is clear of stops or has a first frame that completes one, so these two cases are all |
| StrataFrames.FramePasses | src/eugene_plexus_inference_driver/engines/strata_http.py:267-280 | a frame without text is sent where it came, after all the text ahead of it if it ends the run, and as it came, except that an answer it closes says what was streamed if any text came |
| StrataFrames.TextPasses | src/eugene_plexus_inference_driver/engines/strata_http.py:252-266 | a text frame that completes no stop is sent as it came, all that rides with it included, but for its text; or not at all, where none of its text is to be shown |
| StrataFrames.StoppedTextPasses | src/eugene_plexus_inference_driver/engines/strata_http.py:225-250 | so is the one that completes a stop, and after it comes only the frame that closes the stream |
| StrataFrames.RiderOfWithheldTextIsLost | src/eugene_plexus_inference_driver/engines/strata_http.py:263-269 | an input on which what rides with a text is not sent because the text had to wait |
| StrataFrames.NamedIsFirstAsked | src/eugene_plexus_inference_driver/engines/strata_http.py:213-229 | of the stops asked for, empty ones left out, the one looked for is one that begins first, and of those the one first in the list; none if none occurs |
| StrataOrder.ProgressOvertakesText | src/eugene_plexus_inference_driver/engines/strata_http.py:267-280 | an input on which a progress frame is sent ahead of text that came before it |
| StrataStream.ContentIsWhatWasSent | src/eugene_plexus_inference_driver/engines/strata_http.py:237-250 | the whole answer a closing frame carries is the text streamed before it |
| Strata.FirstMatch | src/eugene_plexus_inference_driver/engines/strata_http.py:227-229 | the leftmost stop, and of those the first in the list |
| Strata.Keep | src/eugene_plexus_inference_driver/engines/strata_http.py:252-260 | the longest tail that begins a stop without being one |
| TokenRules.MintedIsAcceptedExactly | src/eugene_plexus_inference_driver/tokens.py:499-755 | a session, service or client token minted by the book is accepted if and only if its key, its grants recipient by recipient, its lifetime (14 days, 10 minutes exchanged, 400 days or an hour), its recipient, the clock within 300 s, its epoch, the sign-outs and the machines allow it, and then reads as it was minted |
| TokenAcceptance.VerifiesExactly | src/eugene_plexus_inference_driver/tokens.py:594-790 | any token at all, whatever its class and claims, is accepted if and only if its claims can be read, within 300 s of the clock, and its signer, grants, lifetime, epoch, sign-in tie, administration and session rules hold of them; and then it is taken to say what they say |
| TokenAcceptance.AdministrationIsAcceptedExactly | src/eugene_plexus_inference_driver/tokens.py:638-755 | an administration token is accepted if and only if the root signed it for itself alone, for at most an hour, for someone named other than the operator, at a version, neither exchanged nor signed out, with a tie of 64 hexadecimal digits or none |
| TokenRules.GrantsReachExactly | src/eugene_plexus_inference_driver/tokens.py:603-635 | a key may claim a token if and only if it is the authority's, or a service token whose recipients are each within reach, a standby's token going to one side only |
| TokenRules.JobSiteReachesExactly | src/eugene_plexus_inference_driver/tokens.py:603-620 | a job site's key may claim exactly its agent's service tokens to its own machine and control, and service tokens of any other subject to its own machine alone |
| TokenRules.StandbyReachesExactly | src/eugene_plexus_inference_driver/tokens.py:621-635 | a standby's key may claim exactly `standby` service tokens to control alone or to its own machine alone |
| TokenRules.GrantsReachFurtherThanDescribed | src/eugene_plexus_inference_driver/tokens.py:71-79 | two inputs against what is written of the grants: a job site's `backup` token and a standby's own, each to its own machine, pass every check |
| TokenRules.AcceptanceGrowsWithGrants | src/eugene_plexus_inference_driver/tokens.py:603-635 | widening a key's grants leaves every accepted token accepted with the same claims |
| TrustBundles.SignOutOutlivesItsEntry | src/eugene_plexus_inference_driver/tokens.py:305-309 | a session recorded as signed out with its own expiry is refused by a bundle from the moment it was built, whether its entry was kept or pruned |
| TrustBundles.BuiltBundleReadsBack | src/eugene_plexus_inference_driver/tokens.py:284-380 | a bundle can be built if and only if its keys are distinct, and reads back those keys and exactly the sign-outs whose token could still be accepted |
| TrustBundles.ParsesExactly | src/eugene_plexus_inference_driver/tokens.py:317-380 | a document is read as a bundle if and only if the authority itself has signed it, names itself in it, and it spells that bundle: each key under its own thumbprint and once, each sign-out listed |
| TrustBundles.AcceptsReplacement | src/eugene_plexus_inference_driver/tokens.py:383-400 | a bundle may replace the one held if and only if it is no older by epoch and then version, and the reason why not is the first of these |
| TrustBundles.BundleFile.Get | src/eugene_plexus_inference_driver/tokens.py:427-457 | the file is looked at if nothing is trusted yet or the interval has passed since it last was; a due look at a changed file takes a bundle the authority has signed if it is no older, and any other look keeps the one held; the error of the look is kept with it |
| TrustBundles.BundleFile.GetAll | src/eugene_plexus_inference_driver/tokens.py:403-457 | over any history of the file what is trusted never goes backwards and changes only to a bundle the authority has signed in the document looked at; and, the clock not running back, a look the interval or more after the one before it that finds a file not seen before, with such a bundle in it no older, is what is trusted from then |
| TrustBundles.ForgeriesChangeNothing | src/eugene_plexus_inference_driver/tokens.py:444-448 | so long as no document looked at verifies, unreadable and badly signed ones among them, what is trusted stays as it was |
| TrustBundles.SupersededForEver | src/eugene_plexus_inference_driver/tokens.py:766-790 | a root token refused as superseded is refused by every bundle trusted afterwards, whatever is asked of it |
| Signatures.RecallExactly | src/eugene_plexus_inference_driver/engines/_gemini_wire.py:272-286 | recall answers with the last call remembered under an id if and only if it has not expired and fewer than `entries` other ids have been remembered since |
| Signatures.RecallForgets | src/eugene_plexus_inference_driver/engines/_gemini_wire.py:278-286 | recalling forgets the call asked for if its time is up and nothing else, and what it does not answer is not there any more |
| Signatures.CacheIsBounded | src/eugene_plexus_inference_driver/engines/_gemini_wire.py:272-276 | over every history the memory holds at most `entries` items, one per id, oldest expiry first |
| Signatures.RunAgrees | src/eugene_plexus_inference_driver/engines/_gemini_wire.py:253-286 | the bounded memory is the tail of the unbounded one, but for expired items |
| Signatures.SignatureCache.Remember | src/eugene_plexus_inference_driver/engines/_gemini_wire.py:272-276 | the items afterwards are those of the remembering step the histories are made of |
| Signatures.SignatureCache.RecallCall | src/eugene_plexus_inference_driver/engines/_gemini_wire.py:278-286 | the answer and what is forgotten are those of the recalling step |
| Gemini.ContentsFrom | src/eugene_plexus_inference_driver/engines/_gemini_wire.py:373-453 | the translation, recalling from the cache as it goes and reading a forward-going clock at each recall, is that of the messages and of what the cache held; recalling changes no later answer |
| GeminiTurns.ContentsAreInOrder | src/eugene_plexus_inference_driver/engines/_gemini_wire.py:378-395 | speakers alternate, no turn is empty, and the parts are those the messages say, in order, with the system texts in front or as the instruction |
| GeminiTurns.TurnsAreDetermined | src/eugene_plexus_inference_driver/engines/_gemini_wire.py:389-395 | that determines the turns: adjacent turns of one speaker, tool results among them, can only be one |
| GeminiSays.SaysExactly | src/eugene_plexus_inference_driver/engines/_gemini_wire.py:321-453 | what each message says, by kind and content: system text, the model's words and then its calls as remembered, a result under the name its last call went by, or the user's words; and for just what it is refused |
| GeminiSays.FirstTroubleIsTold | src/eugene_plexus_inference_driver/engines/_gemini_wire.py:373-442 | a conversation that cannot be sent is refused for its first message that cannot |
| GeminiSays.JoinsBetween | src/eugene_plexus_inference_driver/engines/_gemini_wire.py:443-452 | system texts are joined in order with the separator between each two |
| GeminiReplay.CallsRoundTrip | src/eugene_plexus_inference_driver/engines/_gemini_wire.py:404-428 | calls read from an answer and echoed back go out with the same name, arguments, signature and Google-given id, and the request is known to be unsigned exactly when a call is |
| GeminiReplay.ResultRoundTrip | src/eugene_plexus_inference_driver/engines/_gemini_wire.py:429-442 | the result of such a call names the function it answers and carries Google's id where there is one |
| GeminiReplay.ReadIsRemembered | src/eugene_plexus_inference_driver/engines/_gemini_wire.py:613-645 | once read, an answer's calls are remembered until the first of them expires, if the cache has room for them |
| GeminiReplay.ReadingIsAStretch | src/eugene_plexus_inference_driver/engines/_gemini_wire.py:613-645 | reading an answer, the clock read at each call, is one stretch of the cache's history |
| GeminiReplay.HeldExactlyWhile | src/eugene_plexus_inference_driver/engines/_gemini_wire.py:253-289 | over any history of the cache, repeated ids and all, the calls of an answer are all held if and only if each id was last remembered with that call, its time is not up and fewer than `entries` other ids have been remembered since |
| GeminiReplay.RememberedIfNotRepeated | src/eugene_plexus_inference_driver/engines/_gemini_wire.py:253-289 | where none of the ids comes again that is so if and only if the first has not expired and fewer than `entries` ids have been remembered since |
| GeminiReplay.ReadThenReplayed | src/eugene_plexus_inference_driver/engines/_gemini_wire.py:404-428 | calls read into the cache and echoed back after any other use of it, repeated ids and all, go out as they came if each is still remembered so |
| GeminiReplay.ReadParts | src/eugene_plexus_inference_driver/engines/_gemini_wire.py:613-663 | reading the parts gives the text, reasoning, calls and media in order, and remembers each call at the time it is read |
| GeminiSays.ReadInPieces | src/eugene_plexus_inference_driver/engines/_gemini_wire.py:613-663 | an answer's text, reasoning, calls, images and audio are each those of its parts, in order |
| GeminiSays.ReadOne | src/eugene_plexus_inference_driver/engines/_gemini_wire.py:613-663 | a thought is reasoning and no text, other text and what was heard is text, media of a type `audio/...` is audio and any other an image, a call is a call under Google's id or a new one |
| GeminiSays.CallIsRemembered | src/eugene_plexus_inference_driver/engines/_gemini_wire.py:636-645 | of each call its name, its signature and whether Google gave its id are remembered, under the id it goes by |
| Config.ConfigStore.ApplyPatch | src/eugene_plexus_inference_driver/config.py:670-716 | what is applied, rejected and pending a restart, the new values, and that a crash anywhere leaves the next start the values the file held or the new ones; if the write raises, the old ones; with a master key the file written shows no secret |
| Config.ConfigStore.AsDocument | src/eugene_plexus_inference_driver/config.py:659-668 | what a caller is shown of a sensitive field is whether it is set, and of any other field its value |
| ConfigRules.SecretsAreNotShown | src/eugene_plexus_inference_driver/config.py:659-668 | stores that differ only in what their secrets are, and not in which are set, are shown alike |
| ConfigRules.EchoChangesNothingExactly | src/eugene_plexus_inference_driver/config.py:532-537 | a PATCH of what was shown changes nothing if and only if each secret it names has a field that refuses the text shown in its place, or is managed, or not set, or that very text |
| ConfigRules.SecretFieldsSurviveEchoes | src/eugene_plexus_inference_driver/config.py:532-537 | where every sensitive field is of the secret kind that is always so |
| Config.ConfigStore.ApplyAll | src/eugene_plexus_inference_driver/config.py:670-770 | over any sequence of PATCHes, whichever writes raise, every state of the disk recovers to what was saved just before or just after the PATCH in progress; and with a master key, on a disk that shows no secret, no state of it ever does, in the target, a temporary file or one left behind |
| Config.ConfigStore.CrashAndStart | src/eugene_plexus_inference_driver/config.py:611-770 | after PATCHes, a crash at any state they take the disk through and a start, the new process holds what was saved just before or just after the PATCH the crash interrupted, what memory held and what was saved after each being what the PATCHes make them |
| Config.ConfigStore.StartFrom | src/eugene_plexus_inference_driver/config.py:611-633 | a start on what a crash left succeeds if and only if the target is a document, and holds its values |
| Config.SavedIsHistory | src/eugene_plexus_inference_driver/config.py:670-716 | where no write raises, what a start would find is at every point what memory holds |
| Config.ConfigStore.Load | src/eugene_plexus_inference_driver/config.py:611-633 | a start finds what the file says, or the defaults, which are then written; a crash during it changes nothing the next start finds |
| ConfigRules.LoadsExactly | src/eugene_plexus_inference_driver/config.py:611-657 | a start holds for each known field what the file says of it, opened with its key, an envelope that cannot be opened as unset, and the default for an unset one and for one the file does not have |
| ConfigRules.StartsExactly | src/eugene_plexus_inference_driver/config.py:611-633 | after a crash a start finds the defaults where there is no file or an empty one, what a whole synced document says, and nothing it can use in any other |
| Config.WrittenLoadsBack | src/eugene_plexus_inference_driver/config.py:742-770 | what is written, sealed or plain, loads back as the same values |
| Config.SecretsAreSealed | src/eugene_plexus_inference_driver/config.py:742-760 | with a master key no document written holds a sensitive text plain, but for an empty one |
| ConfigRules.OnlyItsKeyOpens | src/eugene_plexus_inference_driver/config.py:635-657 | a start with another key, or none, finds a sealed secret unset |
| Config.PatchSetsExactly | src/eugene_plexus_inference_driver/config.py:678-699 | a PATCH sets what it may to what it says, an unset value to the default, and touches nothing else |
| ConfigRules.TakesExactly | src/eugene_plexus_inference_driver/config.py:506-586 | a value may be saved if and only if its field takes it, type by type, and what is said against any other is true of it |
| ConfigRules.PatchDoes | src/eugene_plexus_inference_driver/config.py:678-699 | each change of a PATCH is made, and its key applied, if and only if the key is known, its field takes the value and it is not managed; it then holds the value, or the default for a null or a blank secret |
| ConfigRules.AnsweredOnce | src/eugene_plexus_inference_driver/config.py:678-711 | each change is answered once, by its key or by its key and why |
| ConfigRules.AnsweredInOrder | src/eugene_plexus_inference_driver/config.py:678-711 | and the answers come in the order of the changes |
| PrivateFiles.Disk.WritePrivate | src/eugene_plexus_inference_driver/_private_files.py:55-74 | through every step and failure the target is the old file or the whole, synced new one; a temporary file stays behind only where the write failed and removing it failed too; nothing but the new text, or part of it, is ever on the disk beyond what was |
| Catalogue.Catalogue.Set | src/eugene_plexus_inference_driver/engines/_catalogue.py:631-640 | the list is in code-point order of the ids, once per id, and holds the first row of every id listed with its surfaces but `rerank`; the index agrees with it |
| Catalogue.ServedInOrder | src/eugene_plexus_inference_driver/engines/_catalogue.py:631-635 | the surfaces a model keeps are in the order listed |
| Catalogue.Catalogue.Find | src/eugene_plexus_inference_driver/engines/_catalogue.py:554-564 | finds a model if and only if it is listed, some pattern includes it and none excludes it |
| Catalogue.Catalogue.Summarise | src/eugene_plexus_inference_driver/engines/_catalogue.py:566-581 | the count is the number of models listed that some pattern includes and none excludes |
| Catalogue.Catalogue.Refresh | src/eugene_plexus_inference_driver/engines/_catalogue.py:583-614 | a failed reading changes no model |
| Catalogue.Catalogue.Run | src/eugene_plexus_inference_driver/engines/_catalogue.py:616-629 | after the n-th failure in a row the wait is the least of 30 s doubled n - 1 times and of every interval met in that row, each doubled as often as it has been since |
| Catalogue.FixedIntervalWait | src/eugene_plexus_inference_driver/engines/_catalogue.py:616-629 | at a fixed interval that is 30 s doubled n - 1 times, but no longer than the interval |
| Catalogue.ExposedMembers | src/eugene_plexus_inference_driver/engines/_catalogue.py:128-134 | exactly the listed models that some pattern includes and none excludes are exposed |
| Globs.MatchesIsGlob | src/eugene_plexus_inference_driver/engines/_catalogue.py:114-125 | the regular expression built from a pattern accepts exactly what the one-wildcard rule does |
| Machines.ParseTable | src/eugene_plexus_inference_driver/_http.py:349-396 | entries that do not hold together are dropped: each route is the last usable one for its origin, to an https machine the table pins or to nothing; each name and local origin is as listed |
| MachineRules.LastMachineExactly | src/eugene_plexus_inference_driver/_http.py:354-362 | the pins of a machine port are the nonempty ones of its last entry that has any |
| MachineRules.LastRouteExactly | src/eugene_plexus_inference_driver/_http.py:363-383 | the route for a plain origin is its last entry, default ports filled in |
| Machines.CarriedIsPinned | src/eugene_plexus_inference_driver/_http.py:317-338 | over any parsed table a request that is carried goes to a machine with a nonempty pin set and so takes the pinned pool |
| Machines.PlainUnderRequired | src/eugene_plexus_inference_driver/_http.py:651-674 | under `required` what still leaves in plain http is unrouted or loopback, and is tokenless, loopback or local |
| Machines.RefusedExactly | src/eugene_plexus_inference_driver/_http.py:651-674 | under `required` a request is refused if and only if it would cross to another machine in plain, and the refusal names a machine the table names |
| MachineRules.RoutesExactly | src/eugene_plexus_inference_driver/_http.py:317-338 | every request is carried to its machine where the table has one, its own path and query after the base's without that one's last slashes; refused, under `required`, exactly where it would cross to another machine in plain with no key to go by or with a token; else sent as it is |
| Machines.RoutingIsIdempotent | src/eugene_plexus_inference_driver/_http.py:651-674 | routing a routed request changes nothing |
| Machines.Route | src/eugene_plexus_inference_driver/_http.py:651-674 | the request rewritten in place, with its Host, or left as it was and refused |
| Machines.Send | src/eugene_plexus_inference_driver/_http.py:742-746 | what is sent over the pinned pool goes to a machine that has shown a key listed for it, a key not listed stops it, and a carried request never takes the plain pool |
| BodyLimit.TestIsTheLimitExactlyBelowTenBillion | src/eugene_plexus_inference_driver/body_limit.py:35-39 | the ten-significant-digits test is `declared length <= limit` for every length if and only if the limit is below ten billion |
| BodyLimit.FitsExactly | src/eugene_plexus_inference_driver/body_limit.py:36-39 | a declared length passes if and only if it is within the limit and below ten billion |
| BodyLimit.Handle | src/eugene_plexus_inference_driver/body_limit.py:34-62 | the app runs if and only if no declared length is over and all that is sent fits, and receives exactly that; the buffer never grows over the limit, to all that came or all before the chunk that would have taken it over |
| BodyLimit.Replay.Receive | src/eugene_plexus_inference_driver/body_limit.py:53-60 | the body is handed on once, whole; later reads are the client's own |

## Left out

- Unicode case mapping beyond one character to one: `İ`, whose lower case is two characters, and `ı`, which the regular expressions fold to `i` and `.lower()` does not; the Kelvin sign is modelled, and which non-ASCII characters are alphanumeric is a parameter.
- The outer `.strip()` of `strip_thinking_blocks`, which a stream cannot apply, and the prompt directives of `apply_thinking_mode`.
- Fairness between waiting requests: which of those woken runs first is left open, so no bound on how long one waits is claimed.
- Stop strings split across a reasoning, tool or closing frame: a run of text ends there. Assembling tool-call fragments, usage, model and timing fields of the final answer are carried as they come or not at all.
- Upstream's own stream (`openai_compat_http.py` is not part of this model): any sequence of frames.
- Cryptography and encodings: a signature verifies exactly under its signer's key, a thumbprint names one key, sealing opens only under its key, JSON and YAML read back what they write, and URLs arrive taken apart. Numeric strings as times, `since`/`epoch` marks of the wrong kind (a malformed payload) and the skew warning of `note_clock_skew` are not distinguished further.
- TokenRules.MintedIsAcceptedExactly: covers what a signer mints with no claims of its own but an exchange's; of administration tokens, which carry others, `TokenAcceptance` says when they are accepted and nothing is said of their minting.
- TrustBundles.SignOutOutlivesItsEntry: speaks of the session itself, not of one exchanged from it, whose parent's entry may be pruned first.
- TrustBundles.SupersededForEver: speaks of tokens that carry `ep`; a root token without one is judged by the bundle's mark alone.
- Signatures.RecallExactly: one reading of a clock that never goes back for each use.
- Gemini's listing, settings by model family, tool choice, usage, media wrapping and error words: tables and single branches.
- Gemini.ContentsFrom: the URL and kind checks of a media part are reduced to whether it can be sent; `CannotSend` does not say which part.
- PrivateFiles.Disk.WritePrivate: a crash keeps directory entries as they stand; losing a rename that was never flushed to the directory, symbolic links, permissions and Windows access lists are not modelled. Where removing the temporary file fails, which the code suppresses, it stays behind and the contract says so.
- Config.ConfigStore.ApplyPatch: when a write raises, memory is ahead of the disk, and the method says so rather than anything better. A field's pattern is the set of texts it matches; `managed_keys()` is fixed for the store's life.
- The saved copy of the catalogue's list and the view laid over a served model.
- Machines.ParseTable: the caching of the table file between readings; a base address carrying a query.
- BodyLimit.Handle: which paths are bounded and the wording of a refusal.
- Routes, schemas, subprocess engines, audio, images and video: no property beyond single branches.
