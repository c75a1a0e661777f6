# Verified models of the oh-my-grok-build core

This project models the parts of `oh-my-grok-build` and `ptyctl` that are hardest to get right
and proves what they are for: that edits applied in place one after the other amount to one
simultaneous edit, that concurrent handlers keep a group consistent and hand out every token
once, that a waiter misses no wake-up, that printed files parse back, and that stores neither
lose nor duplicate what they hold.

Code that changes state is a class or a method with loops, proved against a function of the old
state; the promises are lemmas about those functions, over all inputs or over all runs.
Concurrency is modelled as interleaved steps. `dafny verify dfyconfig.toml` checks everything.

| file | models |
|---|---|
| `Text.dfy`, `Sorting.dfy` | the library pieces the code uses: white space, trimming, lines, UTF-8 and UTF-16 lengths, substring search, stable sorting |
| `Splice.dfy` | what several edits mean when they are applied at once |
| `LspEdits.dfy`, `LspTies.dfy`, `LspOneStart.dfy`, `LspRename.dfy`, `LspFraming.dfy` | `lsp.rs`: positions, text edits, symbol search and the fallback rename, message framing |
| `Hashline.dfy`, `HashlineEndings.dfy`, `HashlinePatch.dfy` | `hashline.rs`: anchors and blocks, line endings, the patch format |
| `Group.dfy`, `GroupStore.dfy`, `GroupInvariants.dfy`, `GroupProtocol.dfy`, `GroupOutcomes.dfy` | `group.rs` and the join handlers of `server.rs`: values, mutable group, invariants, concurrent runs, and what each change answers |
| `MessageLog.dfy` | `group.rs`: the bounded message log |
| `RateLimiter.dfy` | `server.rs`: the sliding window per address |
| `WaitProtocol.dfy`, `WaitProgress.dfy`, `RawTail.dfy` | `ptyctl`: waiters, feeder and resize, what they guarantee and when they get on; the raw output tail |
| `EnvFile.dfy`, `EnvLines.dfy` | `providers.rs`: printing, parsing and updating the `.env` file; lines written by hand |
| `JsonScanner.dfy` | `lib.rs`: the brace scanner, against a JSON grammar |
| `NoteStore.dfy`, `OneShotStore.dfy` | `memory.rs`: compaction, one-shot notes |
| `Scheduler.dfy`, `SchedulerStarts.dfy` | `scheduler.rs`: the job list and the daemon; what becomes of due jobs |

Strings are sequences of Unicode scalar values. Hashing, Unicode lower-casing, `is_alphanumeric`,
relevance scores, condition tests on a screen, interval and cron parsing and UTF-8 decoding are
parameters about which nothing is assumed beyond what a lemma states. Generated ids and tokens
are arguments, assumed not to have been used before where a lemma says `Unused` or `FreshIds`.
Clocks are arguments.

## Where the code falls short

Each of these is a property one would expect, a lemma with an input that breaks it, and a lemma
that says when it holds, for all inputs and mostly as an if-and-only-if.

- Text edits that share a start are applied in reverse array order, although section `TextEdit[]`
  of the Language Server Protocol 3.17 asks for array order (`LspEdits.TiesCanDisagree`,
  `LspEdits.TiesAgreeExactly`). A replacement behind an insertion at its own start looks its end
  up in the text that already holds the insertion, and can fail or remove the wrong text
  (`LspOneStart.InsertThenReplaceFails`, `LspTies.LoopExactly`, `LspOneStart.InsertionsAgreeExactly`).
- The symbol search skips a rejected match as a whole. It can miss a name that overlaps itself
  behind a non-word character (`LspRename.UnsafeNameIsMissed`); for all other names, in
  particular all names made of word characters, it finds the first whole word
  (`LspRename.FindPositionFirst`).
- A patch of a file that holds a CRLF turns every lone line feed outside its anchors into a CRLF
  (`HashlineEndings.UntouchedLineChanges`, `HashlineEndings.MixedEndingsChange`,
  `HashlineEndings.KeptExactly`).
- `verify_patch` accepts a patch without blocks, and one whose blocks overlap; `apply_patch`
  refuses both (`Hashline.RepeatedBlockRefused`, `Hashline.VerifyPredictsApply`).
- An outcome flagged "ended" may show a screen that meets the condition
  (`WaitProtocol.SkippedBumpMisses`): exactly when, after that waiter's last check, a resize wrote
  that screen and then asked in vain for the generation sender (`WaitProtocol.EndedExactly`). That
  the grid change comes before the feeder's exit does not help: what counts is when the resize
  asks for the sender.
- `add_message`, taken alone, can let the log grow past the size that `load_messages` refuses.
  Two lines that do not fit the file together are enough (`MessageLog.TwoLinesExceed`), and for any
  bounds on the size of lines there is an exact condition (`MessageLog.FitsExactly`). The callers
  in the application cap the content of a message, and its bounds meet the condition
  (`MessageLog.ApplicationLimitsFit`).
- Compaction drops a whole class of notes when its first note is empty
  (`NoteStore.EmptyFirstLosesClass`, `NoteStore.ClassesKeptExactly`).
- The brace scanner sets out from the first opening brace of the text, whether or not an object
  begins there; it finds a given object exactly when no brace opens before it
  (`JsonScanner.FoundExactly`).
- An interval of 2^63 seconds or more becomes negative in the cast to `i64`, and the job runs again
  at the next poll, a minute later (`Scheduler.WrappedStartsAgain`, `Scheduler.SpacingExactly`).

## Model

| member | source | states |
|---|---|---|
| `Splice.SplicedIsSimultaneous` | crates/oh-my-grok-build/src/hashline.rs:92-109 | applying sorted, non-overlapping edits from left to right gives what every original offset contributes on its own |
| `Splice.SimultaneousPermutes` | crates/oh-my-grok-build/src/lsp.rs:708 | with pairwise distinct starts, the simultaneous edit does not depend on the order of the list |
| `LspEdits.PosAtMonotone` | crates/oh-my-grok-build/src/lsp.rs:641-663 | positions grow strictly with the offset |
| `LspEdits.PosAtExactly` | crates/oh-my-grok-build/src/lsp.rs:641-663 | the line of an offset is the number of line feeds before it, and its column the UTF-16 length of the text since the last one |
| `LspEdits.ResolveInverse` | crates/oh-my-grok-build/src/lsp.rs:641-663 | looking a position up is the exact inverse of the position of an offset |
| `LspEdits.PositionToByte` | crates/oh-my-grok-build/src/lsp.rs:641-663 | the loop succeeds exactly when some offset has the position, and returns the UTF-8 offset of that one |
| `LspEdits.ApplyOneExactly` | crates/oh-my-grok-build/src/lsp.rs:709-713 | one edit fails exactly when one of its positions is not in the text, panics when its range is reversed, and else replaces the range |
| `LspEdits.DenotesKept` | crates/oh-my-grok-build/src/lsp.rs:709-713 | replacing text leaves the meaning of every range before it unchanged |
| `LspEdits.ApplyTextEdits` | crates/oh-my-grok-build/src/lsp.rs:708-713 | the sort and the in-place loop, errors included |
| `LspEdits.LoopIsSimultaneous` | crates/oh-my-grok-build/src/lsp.rs:690-713 | for distinct starts, ordered, disjoint and resolvable ranges the loop never fails and yields the simultaneous edit of the original text |
| `LspEdits.LoopIsReversedSimultaneous` | crates/oh-my-grok-build/src/lsp.rs:708-713 | with several insertions at one start as well, the loop yields the simultaneous edit with their texts in reverse order |
| `LspEdits.TiesAgreeExactly` | crates/oh-my-grok-build/src/lsp.rs:708-713 | this is the array order exactly when at every offset the texts read the same in both orders |
| `LspEdits.TiesCanDisagree` | crates/oh-my-grok-build/src/lsp.rs:708-713 | two insertions at one offset come out swapped |
| `LspTies.ReplaceStep` | crates/oh-my-grok-build/src/lsp.rs:709-713 | an edit on a text changed from its start on: an error if its end is not found there or lies below the start, else it reaches to where it is found |
| `LspTies.LoopOutcome` | crates/oh-my-grok-build/src/lsp.rs:708-713 | what the loop returns for any array whose positions are in the text, whether its ranges are reversed, overlap or share their starts: below each start the text is original, and only the ends are looked up in the text as changed so far |
| `LspTies.LoopExactly` | crates/oh-my-grok-build/src/lsp.rs:708-713 | for disjoint ranges, any number of them behind insertions at their own starts, of which at most one has an end that moves: the loop agrees with the array order exactly when no end moves and at every offset what the loop puts there reads as the protocol asks |
| `LspTies.PutsAtInsertions` | crates/oh-my-grok-build/src/lsp.rs:708-713 | what the loop puts where only insertions start: their texts, the last one first |
| `LspTies.PutsAtReplacement` | crates/oh-my-grok-build/src/lsp.rs:708-713 | what the loop puts at the start of a replacement: the later insertions reversed, the new text, and what is left of the earlier insertions and the range once as many characters as the range is long are gone |
| `LspTies.LoopShifts` | crates/oh-my-grok-build/src/lsp.rs:708-713 | for disjoint ranges and any number of ends that move, the result is shorter than what the protocol asks for by as much as the ends moved in all, so the loop agrees only if they make up for each other |
| `LspTies.TwoMovesCanAgree` | crates/oh-my-grok-build/src/lsp.rs:708-713 | two ends that move can make up for each other |
| `LspOneStart.InsertionsThenReplacement` | crates/oh-my-grok-build/src/lsp.rs:708-713 | any run of insertions before a replacement at the same start: what the protocol asks for, and what the loop returns |
| `LspOneStart.InsertionsAgreeExactly` | crates/oh-my-grok-build/src/lsp.rs:708-713 | the two are equal exactly when the insertions and the replaced text reach the end of the range after as many characters as the range is long, and what remains of them behind the new text reads like the insertions in front of it |
| `LspOneStart.InsertionAgreesExactly` | crates/oh-my-grok-build/src/lsp.rs:708-713 | the same for a single insertion |
| `LspOneStart.InsertThenReplaceFails` | crates/oh-my-grok-build/src/lsp.rs:708-713 | in the text "a" an inserted "X" is lost and the "a" to be replaced stays |
| `LspRename.ScanLine` | crates/oh-my-grok-build/src/lsp.rs:608-618 | the inner loop of the search: the first match in a line with no word character on either side, a rejected match being skipped whole |
| `LspRename.FindPosition` | crates/oh-my-grok-build/src/lsp.rs:606-621 | the loop over the lines, with the UTF-16 column of the match |
| `LspRename.FindInLineFirst` | crates/oh-my-grok-build/src/lsp.rs:609-618 | skipping whole matches loses no whole word before the result |
| `LspRename.FindPositionFirst` | crates/oh-my-grok-build/src/lsp.rs:606-621 | the search succeeds exactly when a whole-word occurrence exists and returns the position of the first |
| `LspRename.WordsSkipSafely` | crates/oh-my-grok-build/src/lsp.rs:598-600 | names made of word characters are always safe to search for |
| `LspRename.UnsafeNameIsMissed` | crates/oh-my-grok-build/src/lsp.rs:617 | any other self-overlapping name is missed in some text |
| `LspRename.FallbackRenames` | crates/oh-my-grok-build/src/lsp.rs:398-409 | applying the fallback edit replaces exactly the first whole-word occurrence and nothing else |
| `LspFraming.ParsePrinted` | crates/oh-my-grok-build/src/lsp.rs:146-151 | a printed length parses back, for every `usize` |
| `LspFraming.JsonRpcReader.ReadMessage` | crates/oh-my-grok-build/src/lsp.rs:264-295 | the header loop and the body read, with every error, and exactly the bytes it consumes |
| `LspFraming.ReadEncoded` | crates/oh-my-grok-build/src/lsp.rs:146-151 | an encoded body is read back with the rest of the stream untouched if it is at most 8 MiB, and refused otherwise |
| `LspFraming.OtherHeadersIgnored` | crates/oh-my-grok-build/src/lsp.rs:277-283 | further header lines change nothing |
| `LspFraming.ReadExactly` | crates/oh-my-grok-build/src/lsp.rs:264-295 | with any headers the last length header decides: no number, a length over the limit or over the input is an error, and else exactly that many bytes are read |
| `LspFraming.ReadFails` | crates/oh-my-grok-build/src/lsp.rs:264-287 | without a length header, or when the input ends within the headers, reading fails |
| `LspFraming.ParseExactly` | crates/oh-my-grok-build/src/lsp.rs:282 | a plus sign and leading zeros are accepted, other characters and nothing are not |
| `LspFraming.ReadAllEncoded` | crates/oh-my-grok-build/src/lsp.rs:264-295 | any sequence of messages is read back in order, byte for byte |
| `Hashline.FindUniquePosition` | crates/oh-my-grok-build/src/hashline.rs:67-78 | the counting loop over non-overlapping matches |
| `Hashline.UniqueExactly` | crates/oh-my-grok-build/src/hashline.rs:67-78 | it succeeds exactly when the anchor occurs and no two occurrences are disjoint; the result is leftmost and all others overlap it |
| `Hashline.UniqueEmpty` | crates/oh-my-grok-build/src/hashline.rs:67-78 | an empty anchor is unique only in an empty text |
| `Hashline.LocateBlocks` | crates/oh-my-grok-build/src/hashline.rs:80-91 | the first loop, with its errors in order |
| `Hashline.SpliceSorted` | crates/oh-my-grok-build/src/hashline.rs:92-109 | the second loop: overlap is reported exactly when the sorted ranges are not ascending |
| `Hashline.ApplyAllBlocks` | crates/oh-my-grok-build/src/hashline.rs:80-110 | both loops and the sort between them |
| `Hashline.FirstFailure` | crates/oh-my-grok-build/src/hashline.rs:80-91 | the first block that does not match decides the error: its hash if that is wrong, and else its anchor |
| `Hashline.ApplyExactly` | crates/oh-my-grok-build/src/hashline.rs:80-110 | success exactly when all hashes match, all anchors are unique and the ranges are disjoint; the output is then the simultaneous replacement |
| `Hashline.ApplyPermutes` | crates/oh-my-grok-build/src/hashline.rs:80-110 | with non-empty anchors every permutation of the blocks gives the same |
| `Hashline.RestoredExactly` | crates/oh-my-grok-build/src/hashline.rs:112-122 | normalising and restoring gives the file back exactly when it does not mix line endings |
| `HashlineEndings.PlaceSlice` | crates/oh-my-grok-build/src/hashline.rs:112-114 | a stretch of the normalised text is the normalised form of the stretch of the file between the places of its ends |
| `HashlineEndings.RestoreLengthens` | crates/oh-my-grok-build/src/hashline.rs:112-122 | normalising and restoring never shortens a text, and lengthens it exactly when it has a lone line feed |
| `HashlineEndings.KeptExactly` | crates/oh-my-grok-build/src/hashline.rs:124-139 | on a file that holds a CRLF, a successful patch is the simultaneous edit of the file itself, with all text outside the anchors kept, exactly when every lone line feed lies inside an anchor |
| `HashlineEndings.CrlfPatch` | crates/oh-my-grok-build/src/hashline.rs:124-139 | so it is on a file without lone line feeds |
| `HashlineEndings.PlainPatch` | crates/oh-my-grok-build/src/hashline.rs:124-139 | a file without CRLF is patched as it is |
| `HashlineEndings.MixedEndingsChange` | crates/oh-my-grok-build/src/hashline.rs:124-139 | on a file that also has a lone line feed outside the anchors, a successful patch is never the simultaneous edit of the file |
| `HashlineEndings.UntouchedLineChanges` | crates/oh-my-grok-build/src/hashline.rs:124-139 | replacing the "a" of the second line by itself changes the ending of the first line |
| `Hashline.VerifyPredictsApply` | crates/oh-my-grok-build/src/hashline.rs:124-159 | what verification finds is what applying reports; if it finds nothing, the patch is applied exactly when it has a block and its ranges are pairwise disjoint, and the error says which of the two fails |
| `Hashline.RepeatedBlockRefused` | crates/oh-my-grok-build/src/hashline.rs:141-159 | a matching block given twice verifies and is refused |
| `HashlinePatch.CollectUntil` | crates/oh-my-grok-build/src/hashline.rs:38-54 | the loop that collects lines up to a marker |
| `HashlinePatch.ReadBlock` | crates/oh-my-grok-build/src/hashline.rs:30-63 | one block, with the errors for a bad hash and missing markers |
| `HashlinePatch.ParsePatch` | crates/oh-my-grok-build/src/hashline.rs:27-65 | the whole parser |
| `HashlinePatch.OthersSkipped` | crates/oh-my-grok-build/src/hashline.rs:27-33 | lines that open no block are skipped |
| `HashlinePatch.OpenedExactly` | crates/oh-my-grok-build/src/hashline.rs:34-63 | what a line that opens a block makes of the lines behind it: a bad hash, a missing separator, a missing terminator, or the block with the two texts between the first marker lines |
| `HashlinePatch.RoundTripExactly` | crates/oh-my-grok-build/src/hashline.rs:193-200 | parsing the printed blocks returns them exactly when every block is printable: hash of the right length, no line ending in a carriage return, no line that is the closing marker of its own text |
| `Group.IndexUnique` | crates/oh-my-grok-build/src/group.rs:235-240 | with distinct tokens the recomputed index does not depend on the iteration order of the map |
| `GroupOutcomes.OwnerExactly` | crates/oh-my-grok-build/src/group.rs:242-250 | in a consistent group a token is found exactly for the member who has it |
| `GroupStore.GroupRecord.RecomputeMemberTokenIndex` | crates/oh-my-grok-build/src/group.rs:235-240 | for any iteration order, an index of exactly the stored tokens |
| `GroupStore.GroupRecord.ValidateMemberToken` | crates/oh-my-grok-build/src/group.rs:242-250 | for any iteration order, the owner of the token or nothing |
| `GroupStore.GroupRecord.IssueMemberToken` | crates/oh-my-grok-build/src/group.rs:252-275 | the new group and the token, or the error |
| `GroupStore.GroupRecord.AddJoinRequest` | crates/oh-my-grok-build/src/group.rs:895-923 | the new group and the request id, or the error |
| `GroupStore.GroupRecord.ApproveJoinRequest` | crates/oh-my-grok-build/src/group.rs:925-949 | the new group, changed even where an error follows |
| `GroupStore.GroupRecord.CollectAgentNames` | crates/oh-my-grok-build/src/group.rs:2097-2105 | local agents and the remote agents not named like an earlier one |
| `GroupStore.GroupRecord.AddRemoteAgentLocked` | crates/oh-my-grok-build/src/group.rs:1093-1119 | the locked part of adding a remote agent |
| `GroupStore.GroupRecord.RemoveRemoteAgentLocked` | crates/oh-my-grok-build/src/group.rs:1152-1162 | the locked part of removing one |
| `GroupStore.GroupRecord.ApproveChecked` | crates/oh-my-grok-build/src/server.rs:1198-1217 | the approving closures of the server and the command line, with their token checks |
| `GroupStore.GroupRecord.JoinOrRequest` | crates/oh-my-grok-build/src/group.rs:1579-1590 | the joining closure of the command line |
| `GroupStore.GroupRecord.HeartbeatLocked` | crates/oh-my-grok-build/src/server.rs:1403-1414 | records a heartbeat if the agent exists and the token is its own |
| `GroupStore.GroupRecord.ConsumeLocked` | crates/oh-my-grok-build/src/server.rs:1313-1321 | taking an approval out, or the error that there is none |
| `GroupStore.GroupRecord.Run` | crates/oh-my-grok-build/src/group.rs:458 | every closure, as one function of the group it is given |
| `GroupStore.GroupFile.ModifyGroup` | crates/oh-my-grok-build/src/group.rs:443-465 | load, run a closure, save on success; a failing closure leaves the file as it was |
| `GroupInvariants.BuiltInv` | crates/oh-my-grok-build/src/group.rs:789-832 | a newly built group is consistent |
| `GroupOutcomes.BuiltExactly` | crates/oh-my-grok-build/src/group.rs:789-832 | a new group has the given agents, its host as the only member, and nothing pending |
| `GroupInvariants.AllAgentsCounted` | crates/oh-my-grok-build/src/group.rs:2097-2105 | in a consistent group the names counted against the limit are all the agents |
| `GroupInvariants.IssueExisting` | crates/oh-my-grok-build/src/group.rs:252-275 | issuing a token to a member returns the one there is and changes nothing |
| `GroupInvariants.LoadSaved` | crates/oh-my-grok-build/src/group.rs:480-494 | loading recovers the index that saving leaves out |
| `GroupInvariants.ApproveGrants` | crates/oh-my-grok-build/src/group.rs:925-949 | an approval turns its request, and no other, into a member with the generated token |
| `GroupOutcomes.ApproveByNameExactly` | crates/oh-my-grok-build/src/group.rs:1604-1632 | an approval from the command line succeeds exactly when some member has the token, that member is the named approver, the request is pending and its name has not become an agent's; an invalid token and a mismatched approver are told apart and change nothing |
| `GroupOutcomes.ApproveByTokenExactly` | crates/oh-my-grok-build/src/server.rs:1198-1217 | an approval on the server needs a token of any member; on success the request becomes a member and the new token is kept under its pre-auth token |
| `GroupOutcomes.RequestExactly` | crates/oh-my-grok-build/src/group.rs:895-923 | a request is accepted exactly when the name is proper, no agent's, no member's and not pending; it is then the last one pending |
| `GroupOutcomes.IssueExactly` | crates/oh-my-grok-build/src/group.rs:252-275 | a member gets its own token back and nothing changes; anybody else with an open name becomes a member |
| `GroupOutcomes.JoinLocalExactly` | crates/oh-my-grok-build/src/group.rs:1579-1590 | joining from the command line: the first one and members get a token, anybody else leaves a request |
| `GroupOutcomes.AddRemoteExactly` | crates/oh-my-grok-build/src/group.rs:1093-1119 | a remote agent is added exactly when there is room and the name is free |
| `GroupOutcomes.RemoveRemoteExactly` | crates/oh-my-grok-build/src/group.rs:1152-1162 | exactly the agent of that name is removed, if there is one |
| `GroupOutcomes.HeartbeatExactly` | crates/oh-my-grok-build/src/server.rs:1403-1414 | a heartbeat needs the token of the agent it is for, and touches that agent's time alone |
| `GroupOutcomes.ConsumeExactly` | crates/oh-my-grok-build/src/server.rs:1313-1321 | an approval is taken out if it is there, and the others stay |
| `GroupOutcomes.JoinCallExactly` | crates/oh-my-grok-build/src/server.rs:1065-1151 | what the server does with a request to join, by the snapshot it read: refusal, membership or a request |
| `GroupOutcomes.StatusExactly` | crates/oh-my-grok-build/src/server.rs:1299-1333 | what a poll answers: the approved token on its way out, still pending, not found, or refused |
| `GroupInvariants.ApplyInv` | crates/oh-my-grok-build/src/group.rs:443-465 | a closure that succeeds keeps the group consistent: names distinct ignoring ASCII case across members and agents, pending names distinct and no members, at most 20 agents, tokens exactly for members, index the exact inverse, approved tokens those of members; the only exception is the closure for a group without members, exactly when it admits somebody whose request is pending |
| `GroupProtocol.BegunOk` | crates/oh-my-grok-build/src/server.rs:1295-1311 | on a consistent group no call ends in "member token index inconsistent", and a promised token is the granted one |
| `GroupProtocol.MembershipInvariant` | crates/oh-my-grok-build/src/group.rs:860-949 | in every state reachable from a new group, by any interleaving, the stored group is consistent and that error cannot occur |
| `GroupProtocol.HandedOutOnce` | crates/oh-my-grok-build/src/server.rs:1299-1340 | in every run the status handler hands out at most one token for a pre-auth token, to the name that asked with it, and it is that member's token |
| `GroupProtocol.FailureChangesNothing` | crates/oh-my-grok-build/src/group.rs:457-464 | over any run: closures that fail on the file as it is, however many and however interleaved with reading, waiting and dying handlers, leave it so and hand out nothing |
| `GroupProtocol.Serializable` | crates/oh-my-grok-build/src/group.rs:443-465 | from any consistent state on and however handlers interleave or die, the stored group becomes what the successful closures make of it one after the other, each of which succeeds there too |
| `GroupProtocol.StoredIsSerial` | crates/oh-my-grok-build/src/group.rs:443-465 | the same for every run that starts from a new group |
| `GroupOutcomes.HandlerGetsThrough` | crates/oh-my-grok-build/src/group.rs:443-465 | with the lock free, a handler that wants a change gets it done in five steps of its own and leaves the lock free |
| `GroupOutcomes.LockDropped` | crates/oh-my-grok-build/src/group.rs:443-465 | whoever ends or dies holds no lock |
| `GroupProtocol.JoinReply` | crates/oh-my-grok-build/src/server.rs:1127-1147 | an accepted request is answered with its own id and pre-auth token |
| `GroupProtocol.ApproveExactly` | crates/oh-my-grok-build/src/server.rs:1198-1217 | an approval succeeds exactly when the token is a member's, the request is pending and its name has not become an agent's |
| `GroupProtocol.ApprovedIsPromised` | crates/oh-my-grok-build/src/server.rs:1299-1333 | after an approval a poll with the request's pre-auth token promises the new member's token |
| `GroupProtocol.JoinGoesThrough` | crates/oh-my-grok-build/src/server.rs:1065-1151 | request, approval and poll in a row end with the token promised to the name that asked |
| `MessageLog.ReadRing` | crates/oh-my-grok-build/src/group.rs:518-532 | the ring holds the last 1000 non-blank lines |
| `MessageLog.WriteLines` | crates/oh-my-grok-build/src/group.rs:577-579 | the loop that writes the kept lines back |
| `MessageLog.LogFile.AddMessage` | crates/oh-my-grok-build/src/group.rs:542-590 | append, after compaction to the younger half if the limit would be passed |
| `MessageLog.LogFile.LoadMessages` | crates/oh-my-grok-build/src/group.rs:503-533 | the last 1000 lines, or a refusal for size |
| `MessageLog.EntriesExactly` | crates/oh-my-grok-build/src/group.rs:518-532 | of the lines of any file, blank ones are skipped and the others read trimmed |
| `MessageLog.AnyFileExactly` | crates/oh-my-grok-build/src/group.rs:554-589 | whoever wrote the file: if the line does not fit any more, of the last thousand lines of the file the younger half stays, the larger one if the two differ |
| `MessageLog.FileIsLog` | crates/oh-my-grok-build/src/group.rs:542-590 | after any run the file is the print of the log's lines |
| `MessageLog.AddedExactly` | crates/oh-my-grok-build/src/group.rs:554-589 | the same for the log: of m = min(n, 1000) lines the last m - m/2 stay, and the new line follows |
| `MessageLog.StepExactly` | crates/oh-my-grok-build/src/group.rs:542-590 | so it is at every step of any run, for the log and for the file |
| `MessageLog.LogIsSuffix` | crates/oh-my-grok-build/src/group.rs:542-590 | the log is an in-order suffix of everything posted |
| `MessageLog.NewestIsKept` | crates/oh-my-grok-build/src/group.rs:583-589 | the newest message is always in it, last |
| `MessageLog.LoadReturnsLast` | crates/oh-my-grok-build/src/group.rs:503-533 | reading returns the last min(1000, n) messages of the log unless the file is too large |
| `MessageLog.NeverTooLarge` | crates/oh-my-grok-build/src/group.rs:542-590 | if line sizes lie between bounds that fit each other, the file never passes 10 MiB and reading is never refused |
| `MessageLog.FitsExactly` | crates/oh-my-grok-build/src/group.rs:542-590 | for all bounds on the size of a line: the file stays within 10 MiB whatever is posted within the bounds, exactly when the bounds fit |
| `MessageLog.ApplicationLimitsFit` | crates/oh-my-grok-build/src/group.rs:30-32 | the bounds of the application fit |
| `MessageLog.TwoLinesExceed` | crates/oh-my-grok-build/src/group.rs:555-589 | two lines leave the file too large exactly when they do not fit it together |
| `MessageLog.LongMessageBlocksReading` | crates/oh-my-grok-build/src/group.rs:503-515 | whatever the file held, one line that does not fit it makes it unreadable |
| `RateLimiter.RetainAll` | crates/oh-my-grok-build/src/server.rs:307-317 | cuts every list to the window and drops empty ones |
| `RateLimiter.Oldest` | crates/oh-my-grok-build/src/server.rs:318-326 | some least recently used address |
| `RateLimiter.Limiter.Prune` | crates/oh-my-grok-build/src/server.rs:299-327 | every list is cut to the window, empty ones are dropped, and one least recently used address goes if there are too many |
| `RateLimiter.Limiter.Check` | crates/oh-my-grok-build/src/server.rs:341-361 | pruning, the decision and the recording of one request |
| `RateLimiter.ListIsSurvivors` | crates/oh-my-grok-build/src/server.rs:299-363 | an address's list is exactly the times of its accepted requests that neither an eviction nor the window has taken out, in whatever order the clock was read |
| `RateLimiter.DecidesAnyOrder` | crates/oh-my-grok-build/src/server.rs:341-361 | a request is accepted exactly when fewer than `limit` such requests are left |
| `RateLimiter.DecidesExactly` | crates/oh-my-grok-build/src/server.rs:341-361 | with times that grow: a request is accepted exactly when fewer than `limit` requests of its address were accepted less than 60 seconds before it and since its last eviction |
| `RateLimiter.QuietComesThrough` | crates/oh-my-grok-build/src/server.rs:341-361 | an address that has been quiet for 60 seconds comes through |
| `RateLimiter.EvictsExactly` | crates/oh-my-grok-build/src/server.rs:318-326 | an address is evicted exactly when more than MAX_TRACKED_IPS have a request in the window, and then one whose last request is no younger than any other's last |
| `RateLimiter.AcceptedSpanWindow` | crates/oh-my-grok-build/src/server.rs:299-363 | any limit + 1 accepted requests of an address not evicted in between span at least 60 seconds |
| `RateLimiter.TableBounded` | crates/oh-my-grok-build/src/server.rs:299-363 | the table never holds more than MAX_TRACKED_IPS + 1 addresses |
| `WaitProtocol.RunInv` | crates/codegen/ptyctl/src/wait.rs:97-128 | the invariant of lock, sender and waiters holds after every interleaving |
| `WaitProgress.SeenAtMark` | crates/codegen/ptyctl/src/wait.rs:98-99 | the generation that a waiter has seen is the number of bumps before its last mark |
| `WaitProgress.WokenExactly` | crates/codegen/ptyctl/src/wait.rs:116-121 | a parked waiter can be woken exactly when a bump came after its last mark, and is told that the session is over exactly when none did and the sender is gone |
| `WaitProgress.WokenOnce` | crates/codegen/ptyctl/src/wait.rs:97-121 | once the sender is gone a waiter is woken at most once more |
| `WaitProgress.GetsThrough` | crates/codegen/ptyctl/src/wait.rs:97-128 | from the start of its loop with the lock free, a waiter gets in steps of its own to a match if its condition holds, and else to the ended outcome once the sender is gone |
| `WaitProgress.DeadlineEnds` | crates/codegen/ptyctl/src/wait.rs:122-124 | a parked waiter can give up at its deadline whatever the others do |
| `WaitProtocol.NoLostWakeup` | crates/codegen/ptyctl/src/wait.rs:97-128 | a parked waiter whose condition holds has an unseen generation, a writer about to bump, or a sender that is gone |
| `WaitProtocol.PendingAnnounces` | crates/codegen/ptyctl/src/session.rs:158-173 | a writer about to bump needs at most two steps of its own to do so or to find the sender gone |
| `WaitProgress.FeederGetsThrough` | crates/codegen/ptyctl/src/session.rs:158-173 | with the lock free the feeder gets its output to the grid and announces it |
| `WaitProgress.ResizerGetsThrough` | crates/codegen/ptyctl/src/session.rs:272-283 | so does a resize, while there is a feeder |
| `WaitProgress.ResizeFails` | crates/codegen/ptyctl/src/session.rs:275 | a resize that the terminal refuses changes nothing and lets go of the lock |
| `WaitProtocol.WaiterIsWoken` | crates/codegen/ptyctl/src/wait.rs:116-126 | a parked waiter whose condition holds can leave the wait now or after at most two steps of a writer |
| `WaitProtocol.EndedExactly` | crates/codegen/ptyctl/src/wait.rs:97-128 | an ended outcome shows a screen that meets the condition exactly when, after that waiter's last check, a resize wrote that screen, meeting the condition, and then asked for the sender in vain |
| `WaitProtocol.OutcomesTrue` | crates/codegen/ptyctl/src/wait.rs:97-128 | a reported match is true of its screen; an ended outcome shows a screen that does not meet the condition unless a resize asked for the sender in vain while this very waiter was waiting |
| `WaitProtocol.EndedIsFinal` | crates/codegen/ptyctl/src/wait.rs:117-121 | if no resize changes the grid or asks for the sender after the feeder's exit, an ended outcome shows the final grid, and that does not meet the condition |
| `WaitProtocol.GridIsFinal` | crates/codegen/ptyctl/src/session.rs:272-283 | once the sender is gone only a resize changes the grid |
| `WaitProtocol.SkippedBumpMisses` | crates/codegen/ptyctl/src/session.rs:272-283 | a run in which an ended outcome shows a screen that meets the condition |
| `RawTail.Tail.Push` | crates/codegen/ptyctl/src/wait.rs:202-213 | the tail becomes the last bytes of itself and the chunk |
| `RawTail.TailOfOutput` | crates/codegen/ptyctl/src/wait.rs:202-213 | however output is cut into chunks, the tail is all of it if it is short, and else its last 2048 bytes |
| `EnvFile.FormatEnvValue` | crates/oh-my-grok-build/src/providers.rs:266-287 | the loop that prints a value, quoted where it must be |
| `EnvLines.PlainExactly` | crates/oh-my-grok-build/src/providers.rs:266-274 | a value is printed as it is exactly when it needs no quotes |
| `EnvLines.FormatsPlainly` | crates/oh-my-grok-build/src/providers.rs:275-287 | no line feed, carriage return or tab stands in a printed value |
| `EnvFile.ParseEnvValue` | crates/oh-my-grok-build/src/providers.rs:234-264 | the unquoting loop |
| `EnvFile.ParseEnvLine` | crates/oh-my-grok-build/src/providers.rs:214-230 | one line: blank and comment lines, `export`, the key check, the value |
| `EnvLines.LineExactly` | crates/oh-my-grok-build/src/providers.rs:214-230 | blanks in front, `export`, and blanks around the name do not matter |
| `EnvLines.CommentIgnored` | crates/oh-my-grok-build/src/providers.rs:215-217 | blank lines and comments are no entries |
| `EnvLines.NoEqualsIgnored` | crates/oh-my-grok-build/src/providers.rs:223 | nor are lines without an equals sign |
| `EnvLines.BadNameIgnored` | crates/oh-my-grok-build/src/providers.rs:224-227 | nor lines with anything but a name in front of it |
| `EnvLines.SingleQuoted` | crates/oh-my-grok-build/src/providers.rs:260-261 | a single-quoted value ends at the next single quote, or at the end |
| `EnvLines.DoubleQuoted` | crates/oh-my-grok-build/src/providers.rs:235-259 | a double-quoted value is unescaped up to its closing quote, or to the end |
| `EnvLines.EscapeExactly` | crates/oh-my-grok-build/src/providers.rs:242-252 | what a backslash stands for in front of any character |
| `EnvFile.ParseEnvEntries` | crates/oh-my-grok-build/src/providers.rs:212-232 | the loop over the lines |
| `EnvFile.WriteEnvEntries` | crates/oh-my-grok-build/src/providers.rs:318-325 | the printing loop over the entries |
| `EnvFile.RetainEntries` | crates/oh-my-grok-build/src/providers.rs:457 | the entries that an update keeps |
| `EnvLines.TargetExactly` | crates/oh-my-grok-build/src/providers.rs:437-441 | the target is the first valid name of the provider, and else the name derived from its id |
| `EnvLines.ValidExactly` | crates/oh-my-grok-build/src/providers.rs:412-424 | which names a key may be written under |
| `EnvFile.ValueRoundTrip` | crates/oh-my-grok-build/src/providers.rs:234-287 | every value survives printing and parsing, on one trimmed line |
| `EnvFile.FileRoundTrip` | crates/oh-my-grok-build/src/providers.rs:212-325 | parsing a printed file returns the same entries, with order and duplicates |
| `EnvFile.EnvStore.WriteApiKey` | crates/oh-my-grok-build/src/providers.rs:443-461 | the new file, or no change for an invalid name |
| `EnvFile.UpdatedEntries` | crates/oh-my-grok-build/src/providers.rs:443-461 | the new file holds the retained entries and the new one |
| `EnvFile.WriteChangesOnlyTarget` | crates/oh-my-grok-build/src/providers.rs:443-461 | the effective variables change only by losing the legacy name and setting the target |
| `JsonScanner.ExtractJsonObject` | crates/oh-my-grok-build/src/lib.rs:1151-1188 | the nested loops compute the slice and parse it |
| `JsonScanner.ValuePasses` | crates/oh-my-grok-build/src/lib.rs:1151-1188 | every JSON value of sections 2 to 7 of RFC 8259 leaves the scanner in the state it found it in |
| `JsonScanner.SliceIsObject` | crates/oh-my-grok-build/src/lib.rs:1151-1188 | for every object, every text before it without an opening brace and every text after it, the slice is exactly the object |
| `JsonScanner.FoundExactly` | crates/oh-my-grok-build/src/lib.rs:1148-1188 | an object anywhere in a text is what the scanner finds exactly when no brace opens before it; otherwise the scanner sets out from that brace |
| `JsonScanner.UnclosedGivesNothing` | crates/oh-my-grok-build/src/lib.rs:1151-1188 | without an object, or with one that is not closed, there is no slice |
| `NoteStore.MergeTagsIsUnion` | crates/oh-my-grok-build/src/memory.rs:330-336 | merged tags are the union, sorted and without repetition |
| `NoteStore.StringLeqExactly` | crates/oh-my-grok-build/src/memory.rs:333 | the order of tags: a beginning first, else by the first difference |
| `NoteStore.FindDuplicates` | crates/oh-my-grok-build/src/memory.rs:319-328 | every later note of a class is paired with the class's first |
| `NoteStore.MemoryStore.MergeDuplicates` | crates/oh-my-grok-build/src/memory.rs:329-340 | the merging loop |
| `NoteStore.MemoryStore.Compact` | crates/oh-my-grok-build/src/memory.rs:315-346 | the compacted list, and the number of notes removed |
| `NoteStore.PassesCompact` | crates/oh-my-grok-build/src/memory.rs:319-342 | the three passes give one gathered note per surviving class |
| `NoteStore.SurvivorsExactly` | crates/oh-my-grok-build/src/memory.rs:315-346 | kept are, in the original order, exactly the first notes of a class that have content |
| `NoteStore.CompactExactly` | crates/oh-my-grok-build/src/memory.rs:315-346 | said by the contents alone: which notes are kept, and what date and tags they get |
| `NoteStore.GatheredContent` | crates/oh-my-grok-build/src/memory.rs:329-340 | a kept note keeps its id, content and count |
| `NoteStore.GatheredDate` | crates/oh-my-grok-build/src/memory.rs:338 | its date is the latest of the class |
| `NoteStore.GatheredTag` | crates/oh-my-grok-build/src/memory.rs:330-337 | its tags are the union of the class's |
| `NoteStore.GatheredShape` | crates/oh-my-grok-build/src/memory.rs:330-337 | they are sorted and without repetition unless the note is unchanged |
| `NoteStore.CompactTwice` | crates/oh-my-grok-build/src/memory.rs:315-346 | a second compaction changes nothing |
| `NoteStore.ClassesKeptExactly` | crates/oh-my-grok-build/src/memory.rs:339-342 | every class keeps a note exactly when no class begins with an empty note |
| `NoteStore.EmptyFirstLosesClass` | crates/oh-my-grok-build/src/memory.rs:339-342 | an empty note and a blank one both disappear |
| `OneShotStore.OneShots.Remember` | crates/oh-my-grok-build/src/memory.rs:177-200 | records a note unless one with the same normalised text is stored, which is then returned |
| `OneShotStore.KeyExactly` | crates/oh-my-grok-build/src/memory.rs:181-186 | two notes have the same key exactly when topic and detail agree up to case and surrounding white space |
| `OneShotStore.OneShots.FindCandidates` | crates/oh-my-grok-build/src/memory.rs:244-258 | the unseen notes that match, with their rank |
| `OneShotStore.CandidatesExactly` | crates/oh-my-grok-build/src/memory.rs:244-258 | these are exactly the unseen matching notes, each once |
| `OneShotStore.OneShots.Recall` | crates/oh-my-grok-build/src/memory.rs:238-271 | returns the selected notes, marked, and removes them |
| `OneShotStore.SelectedBest` | crates/oh-my-grok-build/src/memory.rs:245-262 | unseen notes with a positive score (any score for an empty query), as many as asked for or there are, by descending score, date and place |
| `OneShotStore.NoneLeftBetter` | crates/oh-my-grok-build/src/memory.rs:245-262 | every such note that is left behind comes after the returned ones in that order |
| `OneShotStore.ForgetsSelected` | crates/oh-my-grok-build/src/memory.rs:265-269 | removing the marked notes takes out exactly the selected ones |
| `OneShotStore.RunInv` | crates/oh-my-grok-build/src/memory.rs:177-271 | over every run: stored notes are unseen and pairwise distinct, and recorded notes are the stored and the returned ones, counted with multiplicity |
| `OneShotStore.ReturnedOnce` | crates/oh-my-grok-build/src/memory.rs:177-271 | with fresh ids every recorded note is stored or was returned, exactly once in all |
| `Scheduler.Schedule.AddJob` | crates/oh-my-grok-build/src/scheduler.rs:170-199 | refuses, or replaces the job of that name; names stay unique |
| `Scheduler.Schedule.DeleteJob` | crates/oh-my-grok-build/src/scheduler.rs:201-212 | removes the job; fails exactly when there is none |
| `Scheduler.Schedule.RunJob` | crates/oh-my-grok-build/src/scheduler.rs:214-225 | the locked prefix: records the start, or fails exactly when there is no such job |
| `Scheduler.Schedule.SetExpiry` | crates/oh-my-grok-build/src/scheduler.rs:424-435 | sets the expiry of the job; fails exactly when there is none |
| `Scheduler.Schedule.CleanupExpired` | crates/oh-my-grok-build/src/scheduler.rs:414-422 | removes the expired jobs and counts them |
| `Scheduler.Schedule.Poll` | crates/oh-my-grok-build/src/scheduler.rs:385-391 | the due jobs and the number of expired ones |
| `Scheduler.PollExactly` | crates/oh-my-grok-build/src/scheduler.rs:470-518 | a poll lists a job exactly when it is not past its expiry and has never run or its time has come: whole seconds of its interval, with the wrap-around, or the next occurrence of its cron rule |
| `SchedulerStarts.DueIsStarted` | crates/oh-my-grok-build/src/scheduler.rs:385-410 | a listed job is started from that poll before the daemon sleeps again, unless the daemon is killed or no job of that name is left |
| `SchedulerStarts.DaemonFinishes` | crates/oh-my-grok-build/src/scheduler.rs:391-410 | steps of its own take the daemon through all that a poll left it to do |
| `SchedulerStarts.CleansExactly` | crates/oh-my-grok-build/src/scheduler.rs:388-397 | it first cleans up exactly when it saw a job past its expiry |
| `SchedulerStarts.StartExactly` | crates/oh-my-grok-build/src/scheduler.rs:214-225 | a start is recorded with its time, and for that job alone |
| `SchedulerStarts.ListExactly` | crates/oh-my-grok-build/src/scheduler.rs:170-212 | what every other step makes of the list, job by job |
| `Scheduler.RunInv` | crates/oh-my-grok-build/src/scheduler.rs:375-412 | the invariant of list, daemon and history after every interleaving |
| `Scheduler.StartsWereDue` | crates/oh-my-grok-build/src/scheduler.rs:385-403 | names are unique, and whatever the daemon starts was unexpired and due when it polled |
| `Scheduler.SpacingExactly` | crates/oh-my-grok-build/src/scheduler.rs:496-505 | daemon starts of an interval job not re-added in between are at least the interval apart in every run, exactly when the interval is below 2^63 seconds |
| `Scheduler.WrappedStartsAgain` | crates/oh-my-grok-build/src/scheduler.rs:376-403 | a longer interval wraps: with the daemon asleep for a minute before each of two polls, both start the job |

## Left out

- `wait_stable` and the deadline arithmetic: what they return depends on timers and on which branch `select!` takes; a timeout may happen at any time in the model.
- `WaitHandle::wait_for` as a loop: it is modelled as steps that interleave with the feeder and resizes, not as a method.
- Hashline.FindUniquePosition: offsets count characters, while the code counts UTF-8 bytes of the same places; the same holds for the other hashline members, for the JSON scanner and for the columns inside `find_position`.
- JsonScanner.ExtractJsonObject: the nesting depth is unbounded, while the code counts in an `i32`.
- LspFraming.JsonRpcReader.ReadMessage: parsing the body as JSON, and where the stream stands after a failed read.
- Parsing the JSON of workspace edits, resolving file names, and reading and writing files.
- MessageLog.LogFile.LoadMessages: decoding a stored line back into a message; a message is its encoded line.
- LspTies.LoopExactly: arrays of which two or more ends move: `LspTies.LoopOutcome` says what the loop makes of them and `LspTies.LoopShifts` that it can agree only if the moves make up for each other, as they can (`LspTies.TwoMovesCanAgree`); no condition on single starts decides such an array.
- MessageLog.FitsExactly: bounds under two bytes, which no encoded line has.
- Fields of groups, agents and requests that the membership rules never look at: descriptions, roles, models, times of requests.
- `resolve_local_member_token`, which changes nothing in the group, and the stores for memberships, hosted agents and pending joins.
- Building the default list of agent names; a group is created from the final list.
- Interval and cron parsing, whole-process limits such as the daemon's PID file, and the execution of a started job.
- `recall` and `list` of ordinary notes, scoring and tokenizing, which are a filter and a sort.
- HTTP, WebSocket and process plumbing, prompts and agent replies.
