# Verification of logauditer

A Dafny model of the parts of logauditer that carry its guarantees, and proofs of what they guarantee.

- **The wire codec** (`api/api.pb.go`, `raw/raw.go`): encoders that write byte arrays through a moving index, decoders
  and the skipper of unknown fields with their nested loops (`Varint`, `Wire`, `Api`), proved against a specification on
  byte sequences (`Bits`, `Wire`, `Messages`, `Marshal`) and a grammar of fields (`Grammar`); what numbers, types,
  widths and errors these stand for is stated in plain numbers (`Fields`). The format is that of the
  Protocol Buffers Encoding specification: "Base 128 Varints", "Message Structure", "Length-Delimited Records",
  "Groups", "Last One Wins".
- **The tail** (`logmining/follower.go`, `logmining/file.go`, `logmining/directory.go`): the follower loop as an object
  updated in place (`Tailfollower`) that takes the steps of a machine (`Follower`), what it does on waking up
  (`Wakeups`); the same machine with its consumer,
  the flushed position, crashes and restarts (`Checkpoint`), and what it delivers (`Delivery`); the directory tree that
  flushes positions and resumes from them (`Directory`), tied to that machine file by file, and the sorted listing of a
  worker's files (`Worker`).
- **The life of a rule** (`server/server.go`, `command/cmds.go`): set, commit, start, stop, drop and restart over cache,
  workers, stored rules and position library, where every storage call may fail: as functions on states (`Lifecycle`)
  with their laws over runs (`RuleLaws`), and as the objects that the server updates call by call (`Server`), shown to agree.
- **The tokenizer** of the command line (`command/parse.go`, `Tokenizer`) and **the sheets** of a download
  (`web/srv.go`, `Pagination`).

`dafny verify dfyconfig.toml` checks the whole project. Integers are unbounded in Dafny: the 64-bit and 32-bit
truncation of varints and of the `int32` accumulator is written out, and the masks, shifts and bitwise merges of the
loops are defined bit by bit (`Bits`). A byte is a number below 256, and a Go
string or `Raw` is the sequence of its bytes. Outcomes that the code cannot decide (whether a storage call succeeds, how
much a read delivers, which event comes next) are inputs, and statements hold for all of them.

Where the code is not what one might expect, the model follows the code:

- An empty `Command` on the wire does not replace an earlier one, because `Raw.Unmarshal` only clears its own pointer;
  "last one wins" holds for the command exactly when the last value is non-empty or nothing came before
  (`Marshal.LastOneWins`, `Marshal.EmptyCommandLoses`).
- `Raw.MarshalTo` answers the length of the buffer it is given. `ExecuteRequest.MarshalTo` into a buffer longer than
  `Size()` therefore answers that longer length; `Marshal` is exact because its buffer is not longer
  (`Api.ExecuteRequest.MarshalTo`).
- `t.offset` is 0 until the first end of file, even after a resume. A checkpoint can thus go back
  (`Checkpoint.CheckpointRegressesOnResume`): in a run that does not reopen its file, exactly when no end of file has
  been met and something was recorded before (`Checkpoint.CheckpointRegresses`), and for files without NULs also
  across reopens (`Delivery.RegressesOnlyEarly`). With NULs, a reopened file may be cut into other stretches than
  before, and a checkpoint may go back for that reason too. Nothing is lost by going back: lines are received again
  (`Delivery.AtLeastOnce`).
- The loop that drops leading NULs drops everything up to the last NUL of a 1024-byte window, complete lines included:
  of the lines "a" and NUL "b" only "b" is sent (`Follower.CompleteLineDiscarded`). A pass sends exactly the complete
  lines ahead if and only if no window at the start of one of them has a NUL after its first byte
  (`Follower.PassExact`).
- A commit always stores a closed rule, even if it runs. Restart recovery is exact but for such rules
  (`Lifecycle.RestartRecovers`, `Lifecycle.CommitWhileRunningIsLost`).
- A drop of a rule that was never committed answers an error although cache and library have been cleared
  (`Lifecycle.DropOutcome`).
- Unquoted whitespace met with an empty buffer starts an argument. Of a stretch of whitespace between two arguments
  only the first rune is dropped; the others, two by two, become arguments of one rune, and an odd last one the first
  rune of the next argument (`Tokenizer.TokensOfLine`). A line of arguments comes back unchanged exactly when no
  whitespace stands in front of any of them but the single separators, and at most one rune behind the last
  (`Tokenizer.RoundTripExact`).

## Model

| member | source | states |
|---|---|---|
| `Bits.GroupBits` | api/api.pb.go:280-288 | masking with 0x7F keeps seven bits, and a bitwise or with 0x80 adds the continuation bit |
| `Bits.AndBits` | api/api.pb.go:424-430 | bit by bit, the masks of the model are the logical and |
| `Bits.OrBits` | api/api.pb.go:424-430 | bit by bit, the merge is the logical or |
| `Bits.ShlBits` | api/api.pb.go:424-430 | a left shift moves every bit up |
| `Bits.ShrBits` | api/api.pb.go:424-430 | a right shift moves every bit down |
| `Bits.MergeIsOr` | api/api.pb.go:414-428 | with an accumulator below the shift, the bitwise or with a masked and shifted byte adds its group on 64 bits, for every shift the loops reach |
| `Bits.MergeIsOr32` | api/api.pb.go:442-456 | the same on the 32-bit accumulator of `Reply`, where shifts of 35 and more add nothing |
| `Bits.Int32OfSignExtend` | api/api.pb.go:233-237 | an `int32` sign-extended to `uint64` comes back when truncated, and is 0 only for 0 |
| `Bits.ShiftRight` | api/api.pb.go:280-288 | shifting right by seven drops a group, by three the wire type of a tag |
| `Varint.AccumulatorBelowShift` | api/api.pb.go:414-428 | in every round of a varint loop the accumulator is below the shift, so the merge of groups is the bitwise one |
| `Varint.EncodeVarintApi` | api/api.pb.go:280-288 | writes exactly the encoding of `v` at `offset`, nothing else, and answers where it ends |
| `Varint.SplitGroup` | api/api.pb.go:280-288 | the byte that the masks give is the next byte of the encoding, and the shift leaves the rest |
| `Varint.MergeGroup` | api/api.pb.go:414-428 | behind up to nine bytes of a varint, the bitwise merge of the next one gives the value with it |
| `Varint.MergeGroup32` | api/api.pb.go:442-456 | the same for the `int32` accumulator of `Reply`, which holds the low half of that value |
| `Varint.SovApi` | api/api.pb.go:316-325 | counts exactly the bytes that `encodeVarintApi` writes |
| `Varint.ReadVarint` | api/api.pb.go:414-428 | the loop over indices stops where the framing says, with its status and the `uint64` value of the bytes consumed |
| `Varint.ScanStable` | api/api.pb.go:414-428 | more input changes how a varint loop ends only if it ran out of input |
| `Varint.VarintRoundTrip` | api/api.pb.go:280-288 | every `uint64` survives the encoder and the decoding loop, whatever follows it |
| `Varint.EncodeShortest` | api/api.pb.go:280-288 | no other spelling of the same number is shorter |
| `Wire.SkipApi` | api/api.pb.go:536-634 | on every non-empty input, at any nesting, terminates without reaching the panic and answers what the specification of skipping answers |
| `Wire.TakeTag` | api/api.pb.go:429-430 | shift, truncation and mask take a tag apart: the type is the tag modulo 8, the number an int32 congruent to the tag divided by 8 modulo 2^32 |
| `Wire.TagParts` | api/api.pb.go:429-430 | the tag 8 n + t is taken for number n and type t, for every n below 2^31 and t below 8 |
| `Wire.TagNumber` | api/api.pb.go:429-430 | for every tag the number is the int32 with the low 32 bits of what is above the type |
| `Wire.SkipGroupApi` | api/api.pb.go:598-624 | the loop inside a group, whose nested fields may end beyond the slice, terminates and agrees with skipping the group field by field |
| `Wire.Skip` | api/api.pb.go:536-634 | a successful skip covers at least one byte |
| `Grammar.SkipStable` | api/api.pb.go:536-634 | an answer of the skipper other than a premature end does not depend on what follows, through any nesting of groups |
| `Grammar.SkipField` | api/api.pb.go:536-634 | the skipper passes exactly over every field of the grammar: varint, fixed, length-delimited, groups of any depth |
| `Grammar.SkippedField` | api/api.pb.go:536-634 | whatever the skipper passes over inside the input is a field of the grammar |
| `Grammar.SkipExact` | api/api.pb.go:536-634 | both directions: skipping n bytes is having a field of the grammar as the first n bytes |
| `Messages.DecodeField` | api/api.pb.go:412-527 | a decoded field covers at least one byte and ends within the input, and the message keeps its kind |
| `Messages.DecodeConcat` | api/api.pb.go:329-535 | decoding is a merge homomorphism: `a + b` decodes as `b` into the result of `a`, result or error alike, for every starting message |
| `Messages.DecodeErrorFinal` | api/api.pb.go:329-535 | an error other than a premature end is the same, with the same partial message, under every continuation |
| `Messages.DecodeTruncated` | api/api.pb.go:329-535 | any prefix of a decodable input is decodable or ends prematurely, never another error |
| `Messages.DecodeSpelledAll` | api/api.pb.go:329-535 | accepted fields, however spelled, decode to the fold of their meanings |
| `Messages.DecodedAll` | api/api.pb.go:329-535 | every input that decodes is a spelling of accepted fields, with that meaning |
| `Messages.DecodeExact` | api/api.pb.go:329-535 | both directions in one: decoding yields a message if and only if the input spells accepted fields that mean it |
| `Messages.UnknownFieldIgnored` | api/api.pb.go:515-527 | a well-formed field, the number in whose tag is legal and none of the message's, inserted at any field boundary changes nothing, neither a result nor an error |
| `Fields.UnknownTagIgnored` | api/api.pb.go:515-527 | the same for the tag 8 n + type as the encoder writes it, for every legal n but 1 in a request, and but 1, 2 and 3 in a response |
| `Fields.AcceptedByNumber` | api/api.pb.go:429-527 | a field is accepted if and only if its number is from 1 to 2^31 - 1 and, for command, reply, item and items, its type is the declared one |
| `Fields.MeaningByNumber` | api/api.pb.go:437-527 | what an accepted field of each number does to either message |
| `Fields.TagRejected` | api/api.pb.go:431-442 | which error each unacceptable tag gives, whatever follows, with the message unchanged |
| `Fields.LengthRejected` | api/api.pb.go:476-487 | a length from 2^63 on is negative, and one beyond the input a premature end |
| `Fields.ReplyRejected` | api/api.pb.go:438-456 | a reply cut off or longer than ten bytes is an error that leaves the bits read so far |
| `Fields.SkipWidths` | api/api.pb.go:555-631 | the skipper passes over eight bytes for type 1, four for type 5, none for type 4, and refuses 6 and 7 |
| `Fields.SkipSpelled` | api/api.pb.go:557-594 | it passes over a varint, or a length and what that announces, and refuses a negative length |
| `Fields.SkipSpelledGroup` | api/api.pb.go:595-623 | it passes over a group up to the first tag of type 4, whatever its number |
| `Marshal.DecodeSpelling` | api/api.pb.go:228-260 | decoding a marshalled message into any message of its kind merges it field by field |
| `Marshal.MarshalRoundTrip` | api/api.pb.go:192-260 | both messages survive Marshal and Unmarshal: negative replies, empty items, the empty command included |
| `Marshal.MarshalInjective` | api/api.pb.go:192-260 | different messages are marshalled differently |
| `Fields.SpelledFields` | api/api.pb.go:202-260 | what is marshalled is a sequence of valid fields in the order of their numbers: the command always, reply and item if they differ from the default, every item of the list |
| `Fields.RequestNeverEmpty` | api/api.pb.go:207-213 | a marshalled request starts with its tag and ends with the command, also the empty one; an empty response is no byte |
| `Fields.ReplySpelled` | api/api.pb.go:233-237 | a reply is written as the signed 64-bit number it is: ten bytes if negative, else at most five |
| `Fields.VarintLength` | api/api.pb.go:316-325 | a varint takes k bytes or fewer if and only if the number is below 2^(7k) |
| `Marshal.MarshalConcat` | api/api.pb.go:329-535 | concatenated marshalled messages decode to their merge |
| `Marshal.LastOneWins` | raw/raw.go:34-43 | the last occurrence of a singular field decides, for the command if and only if it is non-empty or nothing came before |
| `Marshal.EmptyCommandLoses` | raw/raw.go:34-43 | a concrete input on which the last command, an empty one, does not win |
| `Api.Copy` | api/api.pb.go:238-257 | Go's `copy`: as many bytes as fit, at the index, and nothing else |
| `Api.RawMarshalTo` | raw/raw.go:25-31 | copies what fits and answers the length of the slice, or 0 for an empty value |
| `Api.RawUnmarshal` | raw/raw.go:34-43 | a non-empty payload replaces the value, an empty one leaves it |
| `Api.ExecuteRequest.Size` | api/api.pb.go:289-295 | the exact length of what Marshal writes |
| `Api.ExecuteRequest.MarshalTo` | api/api.pb.go:202-216 | writes the specified bytes once each and nothing behind them; the answer, which may be the whole buffer |
| `Api.ExecuteRequest.Marshal` | api/api.pb.go:192-200 | a buffer of `Size()` bytes is filled to the last with exactly the specified bytes |
| `Api.ExecuteRequest.UnmarshalField` | api/api.pb.go:332-402 | one round of the loop, on indices and the object, is one step of the specification |
| `Api.ExecuteRequest.Unmarshal` | api/api.pb.go:329-408 | the whole loop agrees with the specification: result, error, and the object as an error leaves it |
| `Api.ExecuteCommandResponse.Size` | api/api.pb.go:297-314 | the exact length of what Marshal writes |
| `Api.ExecuteCommandResponse.MarshalTo` | api/api.pb.go:228-260 | writes the specified bytes once each from the start of any buffer long enough, nothing else, and answers their number |
| `Api.ExecuteCommandResponse.PutItems` | api/api.pb.go:244-258 | the loop over `Items` writes exactly their fields behind what is there |
| `Api.InlineLength` | api/api.pb.go:248-255 | the inline length loop writes the same bytes as `encodeVarintApi` |
| `Api.ExecuteCommandResponse.Marshal` | api/api.pb.go:218-226 | a buffer of `Size()` bytes is filled to the last with exactly the specified bytes |
| `Api.ExecuteCommandResponse.UnmarshalReply` | api/api.pb.go:438-456 | the loop that merges `Reply` into the field as it reads agrees with the specification, on errors with the bits read so far |
| `Api.ExecuteCommandResponse.UnmarshalField` | api/api.pb.go:412-529 | one round of the loop is one step of the specification |
| `Api.ExecuteCommandResponse.Unmarshal` | api/api.pb.go:409-535 | the whole loop agrees with the specification: result, error, and the object as an error leaves it |
| `Follower.StepAccounted` | logmining/follower.go:131-249 | every step accounts for every byte position: start of the generation, ledger, pending bytes and handle add up, whatever the reads deliver |
| `Follower.WaitPointOverRuns` | logmining/follower.go:154-172 | over all event runs from any start: at the select the buffer is empty and `t.offset` is the handle's position, the start of the generation plus all lines with their newlines plus all discarded bytes |
| `Follower.PassExact` | logmining/follower.go:132-167 | for all bytes ahead: a pass sends exactly their complete lines if and only if no 1024-byte window at the start of one of them has a NUL after its first byte |
| `Follower.PassWeighs` | logmining/follower.go:132-167 | the lines of a pass are together never longer than the complete lines ahead |
| `Follower.CompleteLineDiscarded` | logmining/follower.go:136-148 | a concrete input of two complete lines of which the first is thrown away |
| `Follower.NulReach` | logmining/follower.go:136-148 | a single NUL behind the first byte is found, and everything up to it dropped, if and only if it is among the first 1024 bytes |
| `Follower.SplitJoins` | logmining/follower.go:150-166 | the lines of a split hold no newline, and with a newline behind each and a last part without any they are the whole |
| `Follower.PassSplits` | logmining/follower.go:132-167 | without NULs, a pass sends exactly the complete lines ahead and discards nothing |
| `Follower.PassConsumes` | logmining/follower.go:132-167 | with NULs too, a pass consumes a prefix of what is ahead, byte for byte, and leaves no complete line |
| `Follower.LastNulIsLast` | logmining/follower.go:137-138 | the index found is that of the last NUL of the window |
| `TailfollowerLoop.Tailfollower.Fill` | logmining/follower.go:137-150 | a read of the buffered reader, of any size that fits, moves bytes from the file to the buffer and is a step of the machine |
| `TailfollowerLoop.Tailfollower.DiscardNuls` | logmining/follower.go:136-148 | the NUL loop terminates, throws away what the pass over the bytes ahead says, and is a run of the machine |
| `TailfollowerLoop.Tailfollower.ReadBytes` | logmining/follower.go:150-154 | however the reads fall, what comes back is the bytes up to the first newline ahead, or all to the end of the file |
| `TailfollowerLoop.Tailfollower.ReadToEnd` | logmining/follower.go:131-167 | the loop between two waits terminates over a file at rest and sends exactly the lines of the pass ahead, in order, as a run of the machine; they are all complete lines ahead exactly if no NUL is in the way |
| `TailfollowerLoop.Tailfollower.OnWrite` | logmining/follower.go:178-204 | a write event seeks to 0 and resets reader and `t.offset` if the file is shorter than `t.offset`, and otherwise changes nothing |
| `TailfollowerLoop.Tailfollower.Rewatch` | logmining/follower.go:251-276 | a new handle at 0 and an empty reader, with `t.offset` as it was |
| `TailfollowerLoop.Tailfollower.OnWakeup` | logmining/follower.go:170-248 | every event either starts over from the first byte or goes on from `t.offset`, by the kind of event and the size of the file |
| `TailfollowerLoop.Tailfollower.Wake` | logmining/follower.go:131-249 | from one wait to the next over a file at rest: exactly the lines of the pass over the file from its first byte, after a truncation or rewatch, else from `t.offset`, which is then behind all of it |
| `Wakeups.RestRunIsPass` | logmining/follower.go:131-167 | every run over a file at rest, however the reads fall, adds the same to the ledger up to the next wait: the pass over what is ahead |
| `Wakeups.AfterWrite` | logmining/follower.go:178-204 | from any reachable wait, a write event and any run to the next wait: the whole file is read from its first byte if it is shorter than `t.offset`, else what is behind `t.offset` |
| `Wakeups.AfterReopen` | logmining/follower.go:206-215 | from any reachable wait, a rewatch and any run to the next wait: the file is read from its first byte, with `t.offset` stale meanwhile |
| `Wakeups.AfterTimeout` | logmining/follower.go:227-240 | from any reachable wait, a timeout with the same file: it is read on from `t.offset`, and a truncation is not noticed |
| `Wakeups.NeverStuck` | logmining/follower.go:131-249 | in every reachable state of the loop a step other than stopping is possible |
| `Checkpoint.ReadsStep` | logmining/follower.go:131-249 | no step of the loop loses, repeats or reorders a byte of an append-only file |
| `Checkpoint.ConservedOverHistories` | logmining/follower.go:131-167 | over every history of appends, steps, flushes, crashes and restarts, NULs included: from the start of the generation to the cursor the file is exactly the received lines and the discarded stretches, in order |
| `Checkpoint.OrderedHistory` | logmining/file.go:92-112 | within a run that does not reopen its file, the recorded offset stays behind the follower's own position |
| `Checkpoint.CheckpointRegresses` | logmining/file.go:106-111 | in a run that does not reopen its file, NULs or not, a checkpoint moves the recorded offset back if and only if `t.offset` is still 0 and something was recorded |
| `Checkpoint.CheckpointRegressesOnResume` | logmining/file.go:106-111 | a concrete run, resumed at 2, that records 0 |
| `Checkpoint.ResumesWhereRecorded` | logmining/directory.go:337-356 | after an OK flush or close and any history that does not write the document again, the next restart follows the file from the offset that was in memory |
| `Checkpoint.ClosedThenResumed` | logmining/directory.go:337-356 | a graceful close stores the position and stops the file, so that a restart resumes there |
| `Checkpoint.CrashedThenResumed` | logmining/directory.go:168-204 | after a crash a restart follows the file from the stored offset |
| `Checkpoint.FileIsAppended` | logmining/follower.go:131-167 | over every history the file is its first content and all appends |
| `Delivery.SafeNext` | logmining/file.go:92-111 | receiving the line at a position that is safe to resume from makes the position behind it safe |
| `Delivery.HistoryInv` | logmining/directory.go:168-204 | the delivery invariant holds over every history, with any storage call failing |
| `Delivery.AtLeastOnce` | logmining/file.go:92-112 | at every reachable state the offsets in memory and in storage cut no line and have all complete lines before them received, so stopping anywhere and resuming there skips nothing; only complete lines are ever received |
| `Delivery.NoneMissingAtEnd` | logmining/follower.go:150-164 | whenever the follower meets the end of the file, every complete line of it has been received |
| `Delivery.ChunkingIndependence` | logmining/follower.go:131-167 | whatever the appends and reads, the lines sent by the time the follower waits are the newline split of the content from its start up to `t.offset`, each once and in order; at the end of the file, all of them |
| `Delivery.RegressesOnlyEarly` | logmining/file.go:106-111 | over every history of a file without NULs, reopens, crashes and restarts included, a checkpoint moves the recorded offset back if and only if no end of file has been met in this run and something was recorded |
| `DirectoryTree.Directory.AsyncFlush` | logmining/directory.go:113-128 | over a tree of any depth: every tracked file whose write succeeds is mapped to its current position, everything else in the library is unchanged |
| `DirectoryTree.Directory.List` | logmining/directory.go:130-138 | appends the entry of every tracked file of the tree exactly once |
| `DirectoryTree.DecimalReads` | logmining/directory.go:132 | the digits of an offset, read from left to right, give it back, and only 0 starts with a zero |
| `DirectoryTree.InfoDetermines` | logmining/directory.go:132 | an entry determines name and offset |
| `DirectoryTree.AllIsEveryPath` | logmining/directory.go:113-138 | tracked is exactly what a path of sub-directories of any length leads to |
| `DirectoryTree.Directory.AddFile` | logmining/directory.go:168-204 | resumes at a readable non-zero record and otherwise starts over and records that; a failed write or open tracks nothing |
| `DirectoryTree.Directory.AddEventFile` | logmining/directory.go:206-229 | a file just created starts over, whatever the library holds |
| `DirectoryTree.Directory.RemoveFile` | logmining/directory.go:231-246 | the file is no longer tracked or recorded, so it starts over when it is seen again |
| `DirectoryTree.FlushIsEachFlush` | logmining/directory.go:113-128 | a flush of the tree is, for each of its files, the flush step of the checkpoint protocol, and a file tracked again resumes at the flushed offset |
| `DirectoryTree.AddFileIsRestart` | logmining/directory.go:168-204 | tracking a file, with a read, a write and an open that may each fail, is the restart step of the checkpoint protocol, so its guarantees hold for every file of a tree |
| `DirectoryTree.RemoveFileForgets` | logmining/directory.go:231-246 | removing a file is the step of the checkpoint protocol that deletes its document |
| `WorkerListing.WorkerList` | server/server.go:115-120 | the listing is a sorted permutation of the entries of exactly the tracked files, each once |
| `WorkerListing.SortSorts` | server/server.go:118 | sorting by Go's order of strings gives a sorted permutation |
| `WorkerListing.LeqAtDifference` | server/server.go:118 | the order of strings is that of the first difference, and a prefix comes first |
| `WorkerListing.SortedUnique` | server/server.go:118 | there is only one sorted permutation, so the listing does not depend on the algorithm of the library |
| `Lifecycle.ContainedOverRuns` | server/server.go:222-422 | in every run, whatever storage calls fail, the rule of each running worker is in the cache and in storage |
| `Lifecycle.ValuesKept` | server/server.go:329-422 | start, stop and restart never change a stored value nor which rules are stored |
| `Lifecycle.MarkedOverRuns` | server/server.go:329-422 | without faults, a stored rule is marked open if and only if it runs and has not been committed since its start |
| `Lifecycle.RestartRecovers` | server/server.go:131-178 | over every fault-free run: open implies running, a restart starts exactly the running rules not committed since their start, and all of them if and only if there is no other |
| `Lifecycle.CommitWhileRunningIsLost` | command/cmds.go:56-67 | a running rule that is committed again does not come back at a restart |
| `Lifecycle.StartOutcome` | server/server.go:355-390 | any error of a start leaves cache, workers and rules as they were, the worker that could not be marked included; otherwise the rule runs and is marked open |
| `Lifecycle.StopOutcome` | server/server.go:392-422 | whatever fails once the document is read, the rule is down; it would start again at a restart exactly if its mark was open and could not be stored |
| `Lifecycle.RulesAreIndependent` | server/server.go:180-422 | over every run, with any faults, what becomes of a rule in cache, workers, storage and library does not depend on the commands that name other rules |
| `Lifecycle.DropOutcome` | server/server.go:278-327 | a drop answers OK exactly if the rule is stored, not running and every call succeeds, and then nothing of it is left; a failure at the library leaves the state as it was; one at the document does not |
| `Lifecycle.DropIsFinal` | server/server.go:278-347 | wherever in a run a drop answers OK, the rule is gone, and for it to run again a set, then a commit, then a start of it must have come after, across faults and restarts |
| `Lifecycle.FullCycle` | server/server.go:222-422 | set, commit, start, stop and drop of a rule that is nowhere leave the state as it was |
| `RuleLaws.SetOutcome` | command/cmds.go:84-98 | a set is OK exactly if the rule unmarshals, and then the cache has the value given, for a new rule or an old one, and nothing else changes |
| `RuleLaws.LastSetWins` | command/cmds.go:84-98 | over every run the cached value is that of the last set, as long as no restart comes after, and it stays cached unless dropped |
| `RuleLaws.CommitOutcome` | server/server.go:222-240 | a commit is OK exactly if the rule is cached and written, and then its document has the cached value and is closed, also over an older one |
| `RuleLaws.CommitStoresLastSet` | command/cmds.go:56-67 | over every run in between, an OK commit stores the value of the last set |
| `RuleLaws.RestartOutcome` | server/server.go:131-178 | after a restart exactly the stored rules are cached, each with its stored value, and exactly those marked open run whose worker comes up; if the rules cannot be read there is no server |
| `RuleLaws.RestartCaches` | server/server.go:160-161 | over every run after a restart, the cached value of a rule not set since is the one stored then |
| `RuleLaws.RestartThenCommit` | server/server.go:160-161 | after a restart a commit of any stored rule is accepted and keeps its value |
| `RuleLaws.RestartThenStart` | server/server.go:160-161 | after a restart a fault-free start of any stored rule, open or closed, leaves it running |
| `RuleLaws.StartSaves` | server/server.go:355-390 | when a start answers a string, and what the library holds after it, also if the worker had to be taken down again |
| `RuleLaws.StopSaves` | server/server.go:392-422 | when a stop answers a string, and that the last positions of a worker taken down are saved, whether or not its mark is |
| `RuleLaws.RestartSaves` | server/server.go:160-171 | a restart saves the positions of the workers that come up and no others |
| `RuleLaws.DownRefuses` | server/server.go:156-159 | without a server nothing but a restart does anything |
| `ServerLoop.Storage.Keys` | server/server.go:144-159 | all stored documents, each once, or an error |
| `ServerLoop.Scheduler.Exists` | server/server.go:48-53 | whether a worker of that name is running |
| `ServerLoop.Scheduler.Add` | server/server.go:55-65 | a worker that comes up is entered under its name, one that does not is not |
| `ServerLoop.Scheduler.Del` | server/server.go:67-78 | the worker is gone, having saved its positions if it was running |
| `ServerLoop.Server.Prepare` | command/cmds.go:56-296 | the commands' own checks: either the final answer and state, or an untouched state and the request that the server acts on |
| `ServerLoop.Server.Started` | server/server.go:329-390 | the start, call by call with the worker taken down again if its mark cannot be stored, is that of the life of a rule |
| `ServerLoop.Server.Stopped` | server/server.go:392-422 | the stop, call by call, is that of the life of a rule, with the worker down even if the mark cannot be stored |
| `ServerLoop.Server.Dropped` | server/server.go:278-327 | the drop, call by call with the cache put back when the library fails, is that of the life of a rule |
| `ServerLoop.Server.Execute` | server/server.go:180-195 | every command, from its checks to its reply, changes the objects as the life of a rule says and gives its reply |
| `ServerLoop.NewServer` | server/server.go:131-178 | the loop over the stored rules, in any order, fills cache and workers as the restart of the life of a rule says, or no server is made |
| `Tokenizer.ExtractArgs` | command/parse.go:65-88 | the loop computes the tokens of the line as specified rune by rune |
| `Tokenizer.TokensOfLine` | command/parse.go:65-88 | for arguments bare or in backticks, whitespace of any length in front of them and behind the last: exactly which arguments come out, the written ones and those made of whitespace |
| `Tokenizer.RoundTripExact` | command/parse.go:73-79 | the written arguments come back unchanged if and only if none has whitespace in front of it beyond the separator, and at most one rune is behind the last |
| `Tokenizer.BlankLine` | command/parse.go:73-86 | what comes out of a line of whitespace alone; nothing only if the line is empty |
| `Tokenizer.TokensConserve` | command/parse.go:65-88 | for every input no argument is empty, and the arguments with one dropped whitespace rune behind each are the input without its backticks |
| `Pagination.AddRow` | web/srv.go:147-164 | one row of the query keeps the layout: a new sheet with a header exactly when the last one is full |
| `Pagination.GetDown` | web/srv.go:126-175 | the loop lays the rows out on ceil(n / 65533) sheets numbered from 1, each with its header and the next 65533 rows |
| `Pagination.WorkbookConserves` | web/srv.go:126-175 | no row is lost, repeated or moved; there are as many sheets as 65533 rows a sheet need, numbered from 1, each with the header on top and at most 65534 rows, and all but the last have just that |

## Left out

- Wire.SkipApi: index sums are mathematical integers, so the wrap-around of `iNdEx + length` past the largest `int` and the errors the code has for it are not modelled.
- Wire.ReadChunk: as above for the sum of index and length; a negative length is modelled.
- Api.ExecuteRequest.MarshalTo: buffers shorter than `Size()`, on which the code panics, are excluded, here and for the response.
- Api.RawUnmarshal: values are byte sequences, so aliasing of the decoded slice with its input is not modelled, nor are the JSON, comparison and random methods of `Raw`.
- encodeFixed32Api, encodeFixed64Api, sozApi: nothing calls them.
- Enum names and the proto text form; gRPC, TLS, the terminal client and all HTTP handlers but the layout of the download.
- TailfollowerLoop.Tailfollower.ReadToEnd: the file is at rest during the pass; a file that changes between the steps is covered on the machine (`Follower`, `Checkpoint`), whose steps interleave with appends.
- The goroutines of `logmining/file.go` and `logmining/directory.go` are steps of the machine on values, not objects; the Go memory model is not modelled.
- Delivery.AtLeastOnce: append-only files without NUL bytes, followed from a library without a record; truncation that is refilled before it is noticed is not detected by the code, and the recorded offset promises nothing across truncation or replacement by another file.
- Delivery.AtLeastOnce: the hand-over from the consumer to the database after a line is received; whether a line parses is not looked at.
- TailfollowerLoop.Tailfollower.Wake: a file that cannot be opened again, or whose size cannot be read, ends the loop; such ends are the step `Stopped` of `Follower`. Events arrive one at a time; their debouncing is left out.
- The count of discarded bytes that travels with a line; `LastPosition.Reopen` is always true, as directory.go sets it; a follower that stops on an error of the operating system only stops.
- DirectoryTree.Directory.RemoveFile: the closing of the follower, which the code leaves to another goroutine, is the step `Forget` of `Checkpoint`.
- `removeDir`, sub-directory creation, the tickers, expiry of files by date, file patterns: not modelled; each depends on real time or on regular expressions.
- DirectoryTree.Directory.AsyncFlush: the close branch of `track` writes the same documents after closing each follower and hands the close on to the sub-directories' own goroutines; for a single file that is the step `Close` of `Checkpoint`.
- WorkerListing.WorkerList: the sort is a call of Go's library; here it is an insertion sort, and `WorkerListing.SortedUnique` makes the choice immaterial.
- Lifecycle.DropIsFinal: commands are atomic and sequential; flushes in the background, which can write positions of a rule while it is dropped, are not steps of this model.
- Lifecycle.ContainedOverRuns: the cache is a map whose calls do not fail, as `cache/cache.go` has it, so the branches for a failing cache (drop, its rollback, the set of a restart) are not modelled; stopping a worker does not fail either.
- The dispatch of storage calls to MongoDB is replaced by maps: SET replaces a document, DEL of a missing one is an error, a failed call changes nothing; a collection without documents and a missing one are the same.
- Test, Get, Keys, List, Top and Help answer from the state without changing it; the texts of replies are not modelled, only their kind.
- `Parser.Parse` after the split: the lookup of the command by its upper-case name.
- Tokenizer.ExtractArgs: a line is a sequence of runes; UTF-8 decoding is not modelled.
- Pagination.GetDown: errors of the spreadsheet library and the decimal text of sheet numbers are left out; the column names and cell texts, which the code takes from struct fields by reflection, and the query that delivers the rows, are parameters.
