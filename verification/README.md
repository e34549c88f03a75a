# A verified model of the spaghettiOS NFS client and bitfield generator

spaghettiOS carries an asynchronous NFSv3 client over ONC-RPC (libnfs) and the
seL4 bitfield generator. This project models their five hardest parts in Dafny
and proves what holds of them over every run, every input or every layout.

- **RPC transport.** PDUs move between an out-queue, 1024 hashed wait queues and
  completion. `RpcModel` is the step function, `RpcRuns` its invariants and
  theorems over whole runs, `RpcLaws` what each step does to each PDU,
  `LinkedQueue` the pointer code of one queue, `RpcQueues` the 1025 queues that
  share their nodes, `RpcContext` the context on those queues whose methods
  refine the steps, `RecordStream` the record-marked byte stream under any
  cutting by `send` and `recv`, and `HashSpread` the multiplicative hash.
- **File I/O.** `Chunks`, `SplitRead` and `SplitWrite` are requests split into
  chunks that are answered in any order, `PageCache` the direct-mapped cache
  against the plain file, `CacheHits` when it hits, `FileHandle` and `ReadAhead`
  their use by `pread` and `pwrite`.
- **Paths.** `PathSpec` evaluates a path on a stack of names, `NormalizePath` is
  the in-place rewriter on a character array, `LookupWalk` the callback-driven
  walk, `WalkMeaning` shows that the walk is name resolution, `WalkLaws` says
  what that resolution is, and `NestedMounts` is the choice of a nested mount.
- **ZDR codec.** `ZdrSpec` holds the encodings of RFC 4506 and the decoders as
  functions of a buffer, `ZdrStream` the cursor, `MountCodec` the recursive
  MOUNT types, `RpcMessage` and `RpcRoutines` the messages of RFC 5531,
  `MessageLayout` the place of each of their words.
- **Bitfield generator.** `Bits` are words as sets of bit positions,
  `BlockLayout` and `BlockWords` the blocks and their accessors, `TagScheme` and
  `UnionWords` the variable-width tags, `UnionCheck` the generator's checks.

`dafny verify dfyconfig.toml` checks the whole project.

## Where the code falls short

Each of these is proved with a concrete case and with the exact condition under
which the intended property does hold.

- A timeout scan that takes the last PDU of a queue without emptying it leaves a
  stale tail, and the next PDU pushed is lost (`RpcRuns.ScanTail`,
  `RpcRuns.RunLosesIff`, `RpcRuns.UncleanScanLosesPdu`).
- `waitpdu_len` keeps counting PDUs that timed out or were purged
  (`RpcRuns.RunBound`, `RpcRuns.TimeoutLeaksOne`).
- Reconnecting keeps a half-read record, so the next connection is read out of
  frame (`RecordStream.ReconnectExact`, `RecordStream.LeftoverRun`), and after a
  refused marker none is read any more (`RecordStream.Reader.NextConnection`,
  `RecordStream.OversizedRun`).
- A read whose cached part ends at the end of the file can report fewer bytes
  than are due, or a negative count (`FileHandle.Handle.ReadFile`,
  `FileHandle.CachedPageUnreported`).
- An absolute link drops the rest of the path (`LookupWalk.GoalExact`,
  `WalkMeaning.AbsoluteLinkRun`).
- The choice of a nested mount rewrites the path it is matching, so a shorter
  mount can win (`NestedMounts.MatchExact`, `NestedMounts.ShorterMountTaken`).
- The setters' assertion misses bits that the setter drops
  (`BlockLayout.WriteAssertExact`, `BlockLayout.TopBitDropped`,
  `BlockLayout.HalfWordUnseen`) and refuses some that it stores
  (`BlockLayout.WriteAssertComplete`, `BlockLayout.HighFieldBarred`).
- A constructor checks nothing for a high field of a whole word
  (`BlockWords.NewReadsBack`, `BlockWords.WholeWordLost`).
- A union may be declared under another base than its blocks, and then a tag can
  cross a word (`UnionCheck.TaggedUnion.Check`, `UnionWords.ReadBackExact`,
  `UnionCheck.CrossingAccepted`).
- The `_equals` tag test looks at the unshifted tag (`UnionWords.EqualsExact`,
  `UnionWords.ShiftedTagsConfused`).
- Rounding up to a power of two ends exactly for settings up to 2^31
  (`ReadAhead.RoundUp`, `ReadAhead.RoundUpDiverges`).
- A read-ahead above 2^30 leaves the page cache unsized
  (`ReadAhead.Settings.SetReadahead`, `ReadAhead.UnsizedCache`).
- ZDR lengths are checked with 32-bit signed sums and without their padding
  (`ZdrSpec.CheckExact`, `ZdrSpec.SumOverflows`, `ZdrSpec.PaddingPastEnd`).

## Model

| member | source | states |
|---|---|---|
| PathSpec.EvalIsNamed | libnfs/lib/libnfs.c:868-967 | Whatever a path evaluates to, no name of the result is empty, "." or "..". |
| PathSpec.CutOut | libnfs/lib/libnfs.c:868-967 | A run of components that leaves every stack alone can be cut out of any path without changing its meaning: why the rewriting rules are sound. |
| NormalizePath.SlashRule | libnfs/lib/libnfs.c:874-880 | Replacing a "//" by "/" keeps absoluteness, the trailing slash and the evaluation of the path. |
| NormalizePath.DotRule | libnfs/lib/libnfs.c:882-888 | Replacing a "/./" by "/" keeps the meaning of the path. |
| NormalizePath.ParentRule | libnfs/lib/libnfs.c:905-923 | Folding "/name/../" to "/" keeps the meaning of the path, for any position and any name. |
| NormalizePath.JoinKeepsFree | libnfs/lib/libnfs.c:882-923 | Closing a gap between a slash-free end and a leading slash cannot bring back a pattern removed by an earlier phase. |
| NormalizePath.BeforeParent | libnfs/lib/libnfs.c:905-923 | In a path free of "//" and "/./", what stands before the first "/../" is a proper name, so folding it is allowed. |
| NormalizePath.StartsWithParent | libnfs/lib/libnfs.c:890-896 | A settled path that begins with "/../" has no evaluation: refusing it is right. |
| NormalizePath.SettledShape | libnfs/lib/libnfs.c:925-964 | After the three loops the path is a list of names followed by one last piece. |
| NormalizePath.SuffixTests | libnfs/lib/libnfs.c:925-964 | On such a path the tests for a trailing "/", "/." and "/.." are decided by that last piece alone. |
| NormalizePath.StrStr | libnfs/lib/libnfs.c:875-906 | `strstr`: the first position of the pattern, or -1 when there is none. |
| NormalizePath.CopyDown | libnfs/lib/libnfs.c:876-922 | The in-place move of the tail with its NUL: the buffer then holds the text with exactly the gap removed. |
| NormalizePath.SquashSlashes | libnfs/lib/libnfs.c:874-880 | The loop ends with a path of the same meaning without "//". |
| NormalizePath.DropDots | libnfs/lib/libnfs.c:882-888 | The loop ends with a path of the same meaning without "//" and "/./". |
| NormalizePath.FoldParents | libnfs/lib/libnfs.c:890-923 | The loop ends: either the path is refused and has no evaluation, or it has the same meaning and none of the three patterns. |
| NormalizePath.TrimEnd | libnfs/lib/libnfs.c:925-964 | The suffix rules leave exactly the canonical text, or refuse exactly when the last ".." underflows. |
| NormalizePath.NormalizePath | libnfs/lib/libnfs.c:868-967 | The in-place rewriter terminates and refines the component stack: it returns 0 exactly for absolute paths whose ".." never pops an empty stack, and then the buffer holds the joined stack. |
| LookupWalk.FollowRelative | libnfs/lib/nfs_v3.c:208-243 | The text built for a relative target evaluates to parent of the link, then target, then the remaining names, at any position; it underflows exactly when that evaluation does. |
| LookupWalk.GoalExact | libnfs/lib/nfs_v3.c:184-231 | What a link with its remaining names leads to in the code equals what was meant (target, then remaining names) exactly when the link is relative, no names remain, or the target is outside the export or has no evaluation. |
| LookupWalk.NamesPlain | libnfs/lib/nfs_v3.c:469-508 | A plain path in the working directory leads into it, ".." out of it, the empty one to it, and an absolute path does not depend on it. |
| LookupWalk.Normalize | libnfs/lib/nfs_v3.c:235-240 | The normaliser run on a copy of the text: accepted exactly for absolute, non-underflowing text, with the canonical text as result. |
| LookupWalk.Walk.SkipSlashes | libnfs/lib/nfs_v3.c:322-324 | The cursor ends on the first letter of the next name, or at the end exactly when no name is left. |
| LookupWalk.Walk.TakeName | libnfs/lib/nfs_v3.c:326-383 | Cuts off exactly the next name; names walked plus names left stay the same list. |
| LookupWalk.Walk.FollowLink | libnfs/lib/nfs_v3.c:329-366 | O_NOFOLLOW or an exhausted link budget give ELOOP; otherwise one READLINK is sent and counted, or ENOMEM is reported. |
| LookupWalk.Walk.Advance | libnfs/lib/nfs_v3.c:315-420 | From any state: exactly one of READLINK, LOOKUP of the next name, continuation, or error callback, with the exact condition for each. |
| LookupWalk.Walk.Start | libnfs/lib/nfs_v3.c:458-564 | A relative name is walked from the names of the working directory, the empty one stays there, an absolute one leaves it aside: returns -1 exactly when the components underflow (or the GETATTR for the root cannot be sent); otherwise the walk stands on the names they come to, and asks for the attributes of the root exactly when there are none and no slash ends the path. |
| LookupWalk.Walk.OnObject | libnfs/lib/nfs_v3.c:273-313 | The LOOKUP and GETATTR callbacks: an error ends the walk with that code, an object continues it on the same path. |
| LookupWalk.Walk.Retarget | libnfs/lib/nfs_v3.c:184-231 | The text the READLINK callback builds, and the exact test for absolute targets inside the export. |
| LookupWalk.Walk.OnTarget | libnfs/lib/nfs_v3.c:154-250 | After a relative target the walk is on the evaluation of parent, target, remaining names, or has failed with ENOENT exactly when that underflows; absolute targets likewise on the target alone. |
| LookupWalk.Walk.Walked | libnfs/lib/nfs_v3.c:154-564 | Whatever the server answers, the walk ends, after at most 40 READLINKs, in exactly one callback; measure: links left, then length of the remaining path. |
| WalkMeaning.FromRoot | libnfs/lib/nfs_v3.c:235-243 | A walk (re)started at the root along some names stands for resolving those names from the root. |
| WalkMeaning.ObjectAnswered | libnfs/lib/nfs_v3.c:273-420 | One LOOKUP or GETATTR answer, whatever it is, moves the walk one step along name resolution: the outcome it stands for is unchanged. |
| WalkMeaning.TargetAnswered | libnfs/lib/nfs_v3.c:154-250 | One READLINK answer keeps the outcome the walk stands for. |
| WalkMeaning.Walked | libnfs/lib/nfs_v3.c:154-564 | The whole callback-driven, text-rewriting walk ends with exactly the outcome of name resolution over lists of names, for every directory tree, every set of links, any answer for the root, any working directory and both no-follow modes; and with the outcome that was meant whenever no absolute link is met with names left. |
| WalkMeaning.StraightIsMeant | libnfs/lib/nfs_v3.c:154-420 | Resolution as the code does it is resolution as meant along every route on which no absolute link is met with names left. |
| WalkMeaning.AbsoluteLinkRun | libnfs/lib/nfs_v3.c:184-231 | A concrete walk: READLINK answers "/e/x" with "b" still to come, and the walk goes on for "x" with nothing behind it. |
| WalkMeaning.Settles | libnfs/lib/nfs_v3.c:154-420 | Name resolution with a link budget always ends in a found object or an error. |
| WalkLaws.PlainPath | libnfs/lib/nfs_v3.c:273-420 | Without links a lookup is one LOOKUP after the other: the object that the last names, or the first error. |
| WalkLaws.PlainPrefix | libnfs/lib/nfs_v3.c:273-420 | Directories in front of anything are walked first, and the rest from where they lead. |
| WalkLaws.GoalPlain | libnfs/lib/nfs_v3.c:208-231 | A relative link leads from the directory it is in: its own name goes, the target and what was left come. |
| WalkLaws.GoalInside | libnfs/lib/nfs_v3.c:184-207 | An absolute link into the export leads from its root, one to the export to the root; one outside leads nowhere, and one beside it neither. |
| WalkLaws.LinkMet | libnfs/lib/nfs_v3.c:315-366 | A link is an error under O_NOFOLLOW, the result in last place of a lookup that does not follow, ELOOP when the budget is used up, and otherwise resolution starts again along the names it leads to. |
| WalkLaws.FortyLinks | libnfs/lib/nfs_v3.c:329-345 | A chain of links is resolved to its end exactly when there are at most forty; one more gives ELOOP. |
| WalkLaws.RootLookup | libnfs/lib/nfs_v3.c:545-564 | The root itself: its attributes decide between an error, the root, and the link it is. |
| WalkLaws.CanonicalSame | libnfs/lib/libnfs.c:868-967 | Normalising keeps where a path leads and is idempotent; a slash at the end is kept by the root alone. |
| WalkLaws.UnderIsAbove | libnfs/lib/nfs_v3.c:527-543 | On names: a mount is above a path exactly when its names are the first names of the path. |
| NestedMounts.Match | libnfs/lib/nfs_v3.c:527-543 | The loop over the nested mounts computes the fold that rewrites the text it is matching. |
| NestedMounts.UpToFirst | libnfs/lib/nfs_v3.c:527-543 | The loop leaves the path alone up to the first mount above it, and always takes that one. |
| NestedMounts.MatchExact | libnfs/lib/nfs_v3.c:527-543 | It ends with the longest mount above the path, and the text behind it, exactly when that one is the first above the path and no later, longer one lies above what is left. |
| NestedMounts.ShorterMountTaken | libnfs/lib/nfs_v3.c:527-543 | A concrete pair of mounts of which the shorter is taken. |
| RpcRuns.InEnqueue | libnfs/lib/pdu.c:62-73 | After a push the PDU is in the queue exactly when the tail was right; the rest keeps its multiplicity. |
| RpcRuns.HeldNext | libnfs/lib/socket.c:207-255 | Conservation for every step from every state: places plus callbacks of a PDU change only when it is submitted or pushed behind a wrong tail. |
| RpcRuns.AccountedNext | libnfs/lib/pdu.c:548-581 | Every step keeps: no PDU in two places, none answered twice, none made up. |
| RpcRuns.NoneLostNext | libnfs/lib/pdu.c:62-73 | A step loses a PDU exactly when it pushes behind a wrong tail. |
| RpcRuns.ScanTail | libnfs/lib/socket.c:389-432 | A queue scan leaves the tail right exactly when it does not take the last PDU without emptying the queue. |
| RpcRuns.TailsNext | libnfs/lib/socket.c:381-433 | Every step keeps all tails right, except a timeout scan that is not clean, which never does. |
| RpcRuns.RequeueConserves | libnfs/lib/socket.c:843-853 | Requeueing keeps the outstanding PDUs with their multiplicity, empties every bucket and makes no callback. |
| RpcRuns.RequeueRewinds | libnfs/lib/socket.c:835-853 | After a requeue every queued PDU has `written == 0`, given that only the head was ever partly written. |
| RpcRuns.WrittenNext | libnfs/lib/socket.c:207-255 | Every step keeps: only the head of the out-queue is partly written. |
| RpcRuns.UnlinkOrder | libnfs/lib/pdu.c:560-569 | Unlinking the found PDU keeps the order of all others. |
| RpcRuns.UnlinkTail | libnfs/lib/pdu.c:560-569 | Unlinking keeps a right tail right. |
| RpcRuns.BucketSearch | libnfs/lib/pdu.c:548-559 | The search of one bucket finds a PDU for an xid exactly when a linear search over all waiting PDUs does, and it is the same one. |
| RpcRuns.RunAccounted | libnfs/lib/socket.c:207-433 | In every run whatsoever no PDU is in two places and none is answered twice. |
| RpcRuns.RunLosesNothing | libnfs/lib/socket.c:207-433 | In every run with clean timeout scans every submitted PDU is queued, waiting or answered. |
| RpcRuns.RunLosesIff | libnfs/lib/socket.c:381-433 | In every run all submitted PDUs are accounted for at the end exactly when no step pushed behind a wrong tail. |
| RpcRuns.LostForever | libnfs/lib/pdu.c:62-73 | A lost PDU stays lost: no later step queues it or calls back for it. |
| RpcRuns.UncleanScanLosesPdu | libnfs/lib/socket.c:389-408 | A concrete three-PDU run in which the repaired-only-when-empty tail loses a PDU. |
| RpcRuns.Lifecycle | libnfs/lib/pdu.c:220-272 | Through any clean run each submitted PDU is in exactly one of out-queue, its own bucket, or completed, once, and its callback has fired exactly once iff completed. |
| RpcRuns.RunPlaced | libnfs/lib/socket.c:207-255 | In every run waiting PDUs are in the bucket of their xid. |
| RpcRuns.CountedNext | libnfs/lib/socket.c:237-252 | Every step keeps `waitpdu_len` equal, modulo 2^32, to the waiting PDUs plus what timeouts, purges and losses leaked. |
| RpcRuns.RunCounted | libnfs/lib/socket.c:237-252 | In every run `waitpdu_len` is, modulo 2^32, the number of waiting PDUs plus what leaked. |
| RpcRuns.RunBound | libnfs/lib/socket.c:237-252 | In every run from a fresh context, as long as the counter cannot have wrapped, `waitpdu_len` is never less than the number of waiting PDUs and equals it exactly when nothing leaked. |
| RpcRuns.TimeoutLeaksOne | libnfs/lib/socket.c:410-432 | A concrete run: one PDU is sent and times out, and the counter stays at 1. |
| RpcRuns.RunExact | libnfs/lib/socket.c:237-252 | In runs without timeout and purge the counter is exact. |
| RpcRuns.RunRetries | libnfs/lib/socket.c:811-870 | With a positive retry setting N at most N connection attempts are made between successful connects. |
| RpcLaws.IsNext | libnfs/lib/socket.c:207-255 | Every step keeps the record of every PDU: id, transaction id, size and deadline unchanged, `written` up by what `send` took of it, or back to 0 with a reconnect. |
| RpcLaws.Ledger | libnfs/lib/socket.c:207-255 | In every run, of every PDU: transaction ids follow each other, `written` is what `send` has taken since the last rewind, a queued PDU has bytes left, and a waiting one has been taken whole. |
| RpcLaws.TimeoutCalls | libnfs/lib/socket.c:381-433 | In field values: a scan calls back, as timed out, exactly the PDUs with a deadline that has come, and leaves exactly those without one or with one that lies ahead. |
| RpcLaws.ReplyCalls | libnfs/lib/pdu.c:548-581 | A reply calls back, with its code, a PDU that waits for its transaction id, and changes nothing exactly when there is none. |
| RpcLaws.PurgeCalls | libnfs/lib/init.c:265-305 | A purge calls back, with its status, every PDU queued or waiting and no other, and leaves none. |
| RpcLaws.ResetAt | libnfs/lib/socket.c:843-853 | Requeued PDUs come out in the opposite order, each from its first byte. |
| RpcLaws.RunRationed | libnfs/lib/socket.c:811-870 | In every run with a retry setting N the retries left are N less the attempts made since a connection was last established. |
| RpcLaws.OutageExact | libnfs/lib/socket.c:811-870 | Everything is errored exactly when there is no automatic reconnection, or N attempts have failed, or the connection cannot be begun; otherwise everything is queued again, rewound, and one more attempt is made. |
| LinkedQueue.LinkedQueue.Enqueue | libnfs/lib/pdu.c:62-73 | The pointer code refines the sequence model, stale tail included. |
| LinkedQueue.LinkedQueue.ReturnToQueue | libnfs/lib/pdu.c:75-81 | Pushes in front; an empty queue gets its tail. |
| LinkedQueue.LinkedQueue.ListRemove | libnfs/include/slist.h:39-50 | Takes exactly the given node out of the chain and leaves the tail pointer alone. |
| LinkedQueue.LinkedQueue.FindXid | libnfs/lib/pdu.c:549-559 | Stops at the first node with the xid, with its predecessor. |
| LinkedQueue.LinkedQueue.Detach | libnfs/lib/pdu.c:560-569 | Takes the found node out; head and tail end as in the model. |
| LinkedQueue.LinkedQueue.TakeXid | libnfs/lib/pdu.c:548-569 | The pointer search and unlinking of a reply are the model's: the first PDU with the xid leaves, or nothing changes. |
| LinkedQueue.LinkedQueue.TimeoutScan | libnfs/lib/socket.c:389-408 | One queue of the scan: the queue is the model's scan of it, and exactly the expired PDUs are called back, in order. |
| LinkedQueue.LinkedQueue.PopFront | libnfs/lib/socket.c:236-242 | Takes the head off and clears the tail with the last node. |
| LinkedQueue.LinkedQueue.Drain | libnfs/lib/init.c:280-300 | Empties the queue first, then every PDU that was on it is called back once, in order. |
| RpcQueues.Pool.Push | libnfs/lib/pdu.c:62-73 | A loose node goes to the end of one queue; every other queue is what it was, though all share one set of nodes and a stale tail may be written through. |
| RpcQueues.Pool.Pop | libnfs/lib/socket.c:236-242 | The head comes off one queue and is on none; the others are unchanged. |
| RpcQueues.Pool.Progress | libnfs/lib/socket.c:225-234 | The head records what was written; nothing else changes. |
| RpcQueues.Pool.Take | libnfs/lib/pdu.c:548-569 | The first node with the xid comes off its bucket; all other queues unchanged. |
| RpcQueues.Pool.Expire | libnfs/lib/socket.c:389-408 | One queue is scanned by relinking its nodes; the expired ones come off in order, all other queues unchanged. |
| RpcQueues.Pool.Drain | libnfs/lib/init.c:280-300 | One queue is emptied and its PDUs handed over in order. |
| RpcQueues.Pool.Return | libnfs/lib/socket.c:843-853 | The nodes of one bucket are relinked, one by one, to the front of the out-queue, rewound. |
| RpcQueues.Pool.KeepApart | libnfs/lib/pdu.c:62-81 | No node is on two queues. |
| RpcQueues.ReturnAll | libnfs/lib/socket.c:843-853 | Relinking a chain from one queue to another while walking it: both queues end as in the sequence model. |
| RpcContext.Context.constructor | libnfs/lib/init.c:65-106 | A new context is an initial state of the step function. |
| RpcContext.Context.QueuePdu | libnfs/lib/pdu.c:220-272 | On linked nodes, refines the submit step: a new node with the next xid behind the out-queue, a stale tail included. |
| RpcContext.Context.SendSome | libnfs/lib/socket.c:220-253 | One accepted `send` refines the send step, and so the byte stream and the record of each PDU: partial writes advance the head node, a finished head is relinked into its bucket. |
| RpcContext.Context.WriteToSocket | libnfs/lib/socket.c:207-255 | Against any answers of `send` the loop makes exactly the send steps these answers stand for, and fails exactly when the connection breaks with something left to send. |
| RpcContext.Context.ProcessReply | libnfs/lib/pdu.c:548-581 | Refines the reply step: found in its bucket by pointer search, unlinked, counted down, called back; an unknown xid changes nothing. |
| RpcContext.Context.TimeoutScan | libnfs/lib/socket.c:381-433 | Refines the timeout step over the nodes of the out-queue and all 1024 buckets. |
| RpcContext.Context.PurgeAll | libnfs/lib/init.c:265-305 | Refines the purge step: every node queued or waiting is called back with the error; `waitpdu_len` is left. |
| RpcContext.Context.ReconnectRequeue | libnfs/lib/socket.c:811-870 | Refines the reconnect step: head rewound, the nodes of all buckets relinked in front, or an error to all when retries are used up; returns 0 exactly when a new connection was begun. |
| RpcContext.Context.OnConnected | libnfs/lib/socket.c:791-806 | Refines the established step: the context counts as connected, so the next outage starts with a full retry budget. |
| RpcContext.Perform | libnfs/lib/socket.c:207-433 | Any feasible run of steps, done by these methods on one context, ends in the state the step function gives: every theorem over runs holds of the linked queues. |
| RpcContext.SendsAreStream | libnfs/lib/socket.c:207-255 | The send steps on PDUs are the sends of the byte stream: what the socket has taken is a prefix of the records that `RecordStream` delivers. |
| RecordStream.FrontUnique | libnfs/lib/pdu.c:274-281 | Record marking is unambiguous: finished fragments at the front of a stream are the first fragments meant. |
| RecordStream.CutStream | libnfs/lib/pdu.c:274-281 | Cutting a byte stream into fragments finds exactly the fragments that were sent, whatever follows them. |
| RecordStream.CutAll | libnfs/lib/socket.c:297-366 | The cutting drops nothing: fragments and the partial rest make up the stream. |
| RecordStream.Reader.Prepare | libnfs/lib/socket.c:301-326 | How much to ask of `recv` and where it goes; fails exactly on an oversized fragment. |
| RecordStream.Reader.Finish | libnfs/lib/socket.c:350-362 | The last bytes of a fragment: put aside, or the concatenated record is handed on. |
| RecordStream.Reader.Process | libnfs/lib/pdu.c:482-545 | Fragments are concatenated in order; a record without a transaction id is refused. |
| RecordStream.Reader.AsCut | libnfs/lib/socket.c:297-366 | Records handed on, fragments put aside and bytes of a partial fragment are functions of the bytes consumed so far. |
| RecordStream.Reader.ReadOnce | libnfs/lib/socket.c:297-366 | One round consumes a prefix of what is left; it takes nothing only when `recv` would block, and fails only on a stream that no good sender makes. |
| RecordStream.Reader.Read | libnfs/lib/socket.c:258-366 | For any cutting of any byte stream by `recv`: what was handed on is what the consumed bytes say; with enough non-empty cuts the whole stream is read, and the reader gives up exactly on streams with an empty, oversized or unreadable record, and is then stuck at the marker or between two records. |
| RecordStream.Reader.NextConnection | libnfs/lib/socket.c:811-870 | After a reconnect, which keeps the partial record, the next connection's records arrive exactly when the bytes left over do not disturb them; after a record without transaction id, exactly when they are good; and past a refused marker never. |
| RecordStream.Reader.LeftoverExact | libnfs/lib/socket.c:811-870 | Every next connection is read as meant exactly when no byte and no fragment is left over at the reconnect. |
| RecordStream.Writer.Queue | libnfs/lib/pdu.c:263-269 | The record marker goes into the gap left for it. |
| RecordStream.Writer.Write | libnfs/lib/socket.c:207-255 | For any answers of `send` the queue is the fold of those answers, bytes accepted followed by bytes owed stay the queued records, and enough positive answers empty the queue. |
| RecordStream.WholeDelivered | libnfs/lib/pdu.c:263-269 | PDUs sent as single fragments come out as they were. |
| RecordStream.Transfer | libnfs/lib/socket.c:207-366 | Between two contexts, for any cutting in both directions, a prefix of the queued payloads arrives unchanged and in order, and all of them with enough `send` and `recv` calls that move something. |
| RecordStream.ReconnectExact | libnfs/lib/socket.c:811-870 | Framing is per connection: all good connections are framed exactly when the last one was lost between two records. |
| RecordStream.LeftoverSpoils | libnfs/lib/socket.c:811-870 | For any leftover there is a connection of one four-byte record that is not read as meant. |
| RecordStream.LeftoverRun | libnfs/lib/socket.c:811-870 | A concrete reader: one byte arrives, the connection is lost, and a whole record on the next one is refused. |
| RecordStream.RefusedForever | libnfs/lib/socket.c:301-313 | Once a marker has been refused, every later connection is refused, whatever it brings. |
| RecordStream.OversizedRun | libnfs/lib/socket.c:301-313 | A concrete reader that one oversized marker leaves so. |
| HashSpread.OddInjective | libnfs/lib/pdu.c:83-86 | An odd multiplier is injective modulo a power of two. |
| HashSpread.NeighboursApart | libnfs/lib/pdu.c:83-86 | Values less than 2^k apart hash apart modulo 2^k. |
| HashSpread.XidSpread | libnfs/lib/pdu.c:83-86 | Any 1024 consecutive xids, across the 32-bit wrap, fall into distinct wait buckets. |
| PageCache.HitIsCurrent | libnfs/lib/libnfs.c:185-205 | In a coherent cache a hit is the file's current page. |
| PageCache.PieceCoherent | libnfs/lib/libnfs.c:164-182 | Storing one piece keeps the cache coherent with the file that has the piece written: collisions, partial pages and expiry included. |
| PageCache.PutCoherent | libnfs/lib/libnfs.c:158-183 | The whole of `put`, across page boundaries. |
| PageCache.NextCoherent | libnfs/lib/libnfs.c:148-205 | Every operation (write, read, invalidation, passing time) keeps the cache coherent. |
| PageCache.RunCoherent | libnfs/lib/libnfs.c:142-205 | After any run from any coherent state a returned page equals the file's current page. |
| PageCache.ClockStepsBack | libnfs/lib/libnfs.c:162-205 | Why the clock has to be monotone: a concrete stale page. |
| PageCache.PagesApart | libnfs/lib/libnfs.c:142-146 | Any num_entries consecutive pages fall into distinct slots, for every cache size, as long as they span no more than 2^32 bytes. |
| CacheHits.HitExact | libnfs/lib/libnfs.c:142-205 | After any run from an empty cache a page is returned exactly when it was stored, has not been replaced or invalidated since, and its time is not over. |
| CacheHits.StoredIsHit | libnfs/lib/libnfs.c:158-205 | A whole page stored is returned, as stored, until its time is over, and not after. |
| CacheHits.PartRenews | libnfs/lib/libnfs.c:164-182 | Storing a part of a good page renews it, with the part in its place. |
| CacheHits.RangeIsHit | libnfs/lib/libnfs.c:158-205 | Of pages stored together each is returned afterwards, if none of the others shares its slot. |
| CacheHits.RowApart | libnfs/lib/libnfs.c:142-146 | That is so for as many pages in a row as the cache has. |
| PageCache.Cache.Invalidate | libnfs/lib/libnfs.c:148-156 | All entries blank. |
| PageCache.Cache.Put | libnfs/lib/libnfs.c:158-183 | The loop over the entries array equals the piecewise specification, of which hits, renewal and expiry are known exactly. |
| PageCache.Cache.Lookup | libnfs/lib/libnfs.c:185-205 | Refines `Get` for page-aligned offsets. |
| Chunks.RemovedFlight | libnfs/lib/nfs_v3.c:4478-4594 | Removing a finished chunk takes exactly its own bytes out of flight. |
| Chunks.ReissuedChunk | libnfs/lib/nfs_v3.c:4526-4550 | Asking again for the rest of a chunk keeps the chunks disjoint and inside the request. |
| Chunks.CutsPlaced | libnfs/lib/nfs_v3.c:4696-4738 | The chunks of a request are disjoint, inside it and of at most the given size. |
| Chunks.CutsCover | libnfs/lib/nfs_v3.c:4696-4738 | Every byte of the request is in one of them. |
| Chunks.CutsAre | libnfs/lib/nfs_v3.c:4696-4738 | All chunks but the last are as long as allowed, one right behind the other. |
| Chunks.SendAll | libnfs/lib/nfs_v3.c:4696-4738 | The send loop sends a prefix of them, all unless one cannot be sent. |
| SplitRead.StoredSound | libnfs/lib/nfs_v3.c:4500-4551 | Storing an honest answer, short, full or at end of file, keeps every byte of the request in flight or in its place. |
| SplitRead.EndReached | libnfs/lib/nfs_v3.c:4578-4592 | With nothing in flight `max_offset` is decided by the file alone, whatever the order of answers. |
| SplitRead.AllArrived | libnfs/lib/nfs_v3.c:4578-4592 | With nothing in flight any covered stretch of the buffer is the file's. |
| SplitRead.ToldIsDue | libnfs/lib/nfs_v3.c:4583-4592 | The reported count is the count due exactly under a stated condition on file length and cached prefix. |
| SplitRead.ReadOp.Issue | libnfs/lib/nfs_v3.c:4691-4741 | Chunks of at most `readmax` cover the request, disjointly; `num_calls` is their number; -1 exactly when the first cannot be sent, out of memory exactly when a later one cannot. |
| SplitRead.ReadOp.OnData | libnfs/lib/nfs_v3.c:4500-4551 | An answer with data is stored at its own offset and re-issued exactly when short and not at end of file; an overlong or an empty one is an error, one that cannot be repeated is out of memory. |
| SplitRead.ReadOp.Finish | libnfs/lib/nfs_v3.c:4557-4594 | Error precedence, or the count and bytes given to the caller. |
| SplitRead.ReadOp.OnAnswer | libnfs/lib/nfs_v3.c:4465-4594 | Any answer keeps the invariant and raises exactly its flag; the callback is made exactly when the last chunk is done, with the code of the flags if one is up. |
| SplitRead.Answered | libnfs/lib/nfs_v3.c:4465-4594 | For any answers in any order: chunks in flight, the three flags and honesty are the fold of the answers, and a failure is reported with their code; one callback exactly when nothing is left, and after clean honest answers exactly the file's bytes. |
| SplitRead.ReadEnds | libnfs/lib/nfs_v3.c:4465-4594 | Every read ends: enough answers, each to a chunk in flight and not an empty one before the end of the file, leave nothing in flight. |
| SplitRead.FlagsExact | libnfs/lib/nfs_v3.c:4478-4551 | Each of the three flags is up at the end exactly when some answer raised it; ENOMEM is reported before EFAULT, and that before EINTR. |
| SplitRead.OneAnswer | libnfs/lib/nfs_v3.c:4465-4594 | What each failure is reported as: EFAULT, EINTR or ENOMEM, by number. |
| FileHandle.Handle.FromCache | libnfs/lib/nfs_v3.c:4634-4654 | The pages copied from the cache are the file's, up to exactly the first missing page. |
| FileHandle.Handle.MoveWindow | libnfs/lib/nfs_v3.c:4666-4678 | The read-ahead window moves as `NextWindow`. |
| FileHandle.Handle.StartWire | libnfs/lib/nfs_v3.c:4666-4741 | The rest of the read goes over the wire from the end of the cached part, widened by the window. |
| FileHandle.Handle.Pread | libnfs/lib/nfs_v3.c:4597-4741 | Served from cache exactly when all pages are there: the bytes due, with position and read-ahead mark moved; otherwise a valid split read of the right range is under way. The window is the next one. |
| FileHandle.Handle.Complete | libnfs/lib/nfs_v3.c:4578-4592 | A finished read keeps the cache coherent and puts exactly what it read there; position and read-ahead mark are stated. |
| FileHandle.Handle.CompleteWrite | libnfs/lib/nfs_v3.c:4327-4332 | A finished write, also of nothing, leaves the cache coherent with the new file, with exactly the buffer put there. |
| FileHandle.Handle.ReadFile | libnfs/lib/nfs_v3.c:4465-4741 | A whole read, from cache lookup over chunks and any answers to the callback: after clean honest answers the bytes given are the file's, the cache stays coherent, and the count reported is the one due exactly under a condition on file length and cached prefix; position, mark, window and cache afterwards are stated, and so is the code of a failure. |
| FileHandle.Handle.WriteFile | libnfs/lib/nfs_v3.c:4236-4415 | A whole write: after clean honest answers every byte is reported, the server's file is the old one with the buffer at its offset, and the cache agrees with it; a failure is reported with the code of its flags. |
| FileHandle.CachedPageUnreported | libnfs/lib/nfs_v3.c:4583-4592 | A concrete run on a cache that holds page 0: the server answers end-of-file and the read reports -100 where bytes were due. |
| FileHandle.PagesRead | libnfs/lib/nfs_v3.c:4621-4632 | With a cache a read takes in the pages its bytes touch, and no more; without one just its bytes. |
| FileHandle.RereadIsHit | libnfs/lib/nfs_v3.c:4634-4654 | What a read has put into the cache is served from it until its time is over, as long as it fits. |
| FileHandle.AheadIsHit | libnfs/lib/nfs_v3.c:4666-4741 | Read-ahead works: after a read over the wire its bytes, and as many behind them as the window then has, are served from the cache, if the file has them and the cache the room. |
| SplitWrite.LandedPiece | libnfs/lib/nfs_v3.c:4262-4302 | Each answered part puts exactly its bytes at their own offset in the file, and the rest stays as it was or in flight. |
| SplitWrite.LandedAll | libnfs/lib/nfs_v3.c:4327-4332 | With nothing in flight the server's file is the old one with the whole buffer written. |
| SplitWrite.AnswerKeeps | libnfs/lib/nfs_v3.c:4262-4302 | Any honest answer keeps file, chunks and the end that will be reported in step. |
| SplitWrite.WriteOp.Issue | libnfs/lib/nfs_v3.c:4336-4415 | Chunks of at most `writemax` cover the buffer, disjointly; -1 exactly when the first cannot be sent, out of memory exactly when a later one cannot. |
| SplitWrite.WriteOp.Absorb | libnfs/lib/nfs_v3.c:4246-4302 | Flags and `max_offset` after any answer; a short non-empty write is continued. |
| SplitWrite.WriteOp.Finish | libnfs/lib/nfs_v3.c:4310-4332 | Error precedence (ENOMEM, EFAULT, EINTR), or every byte reported. |
| SplitWrite.WriteOp.OnAnswer | libnfs/lib/nfs_v3.c:4236-4334 | Any answer keeps the invariant and raises exactly its flag; the callback is made exactly when the last chunk is done, with the code of the flags if one is up. |
| SplitWrite.Answered | libnfs/lib/nfs_v3.c:4236-4415 | For any answers in any order: chunks in flight, the three flags and honesty are the fold of the answers, and a failure is reported with their code; one callback exactly when nothing is left, and an error-free write reports every byte and has each at its own offset. |
| SplitWrite.WriteEnds | libnfs/lib/nfs_v3.c:4236-4415 | Every write ends: enough answers to chunks in flight leave nothing in flight. |
| SplitWrite.FlagsExact | libnfs/lib/nfs_v3.c:4246-4302 | Each of the three flags is up at the end exactly when some answer raised it; ENOMEM is reported before EFAULT, and that before EINTR. |
| SplitWrite.OneAnswer | libnfs/lib/nfs_v3.c:4236-4334 | What each failure is reported as: EFAULT, EINTR or ENOMEM, by number. |
| ReadAhead.RoundUp | libnfs/lib/init.c:127-133 | The least power of two no smaller, for settings up to 2^31. |
| ReadAhead.RoundUpDiverges | libnfs/lib/init.c:127-133 | Above 2^31 no 32-bit doubling ever reaches the setting: the loop cannot end. |
| ReadAhead.Settings.SetPagecache | libnfs/lib/init.c:135-141 | The page count becomes the least power of two that is neither less than the setting nor less than before. |
| ReadAhead.Settings.SetReadahead | libnfs/lib/init.c:152-168 | The read-ahead becomes the least power of two of at least a page that reaches the setting, and the page count grows no more than needed. The cache has room for twice the read-ahead exactly for settings up to 2^30, or when it had that room before: above, the 32-bit product wraps to 0. |
| ReadAhead.UnsizedCache | libnfs/lib/init.c:152-168 | A concrete context with a read-ahead of 2^31 bytes and no page cache. |
| ReadAhead.WindowKept | libnfs/lib/nfs_v3.c:4666-4678 | Under a fixed setting the window stays 0 or a power of two between one page and the setting. |
| ReadAhead.WindowFits | libnfs/lib/nfs_v3.c:4666-4678 | So a window's pages have a cache slot each, whatever the size of the cache: it never evicts its own pages. |
| ReadAhead.WindowOpens | libnfs/lib/nfs_v3.c:4666-4678 | After k reads in a row the window is 2^k pages, or the setting if that is less. |
| ReadAhead.SeekCloses | libnfs/lib/nfs_v3.c:4666-4678 | A read from before the last end, or from further ahead than the window and a page, closes the window. |
| ZdrSpec.WordTrip | libnfs/lib/libnfs-zdr.c:107-125 | An unsigned word decodes to itself. |
| ZdrSpec.HyperTrip | libnfs/lib/libnfs-zdr.c:132-155 | A hyper decodes to itself. |
| ZdrSpec.BytesTrip | libnfs/lib/libnfs-zdr.c:162-199 | Counted bytes and strings decode to themselves and advance past the padding. |
| ZdrSpec.ArrayTrip | libnfs/lib/libnfs-zdr.c:317-339 | An integer array of any length decodes to itself. |
| ZdrSpec.PaddingPastEnd | libnfs/lib/libnfs-zdr.c:171-185 | The length check lets padding run past the end exactly when the buffer size is no multiple of four. |
| ZdrSpec.CheckExact | libnfs/lib/libnfs-zdr.c:171 | The length check, made on 32-bit `int`s, says whether the data fit exactly when position and length add up to less than 2^31; every other length it lets through. |
| ZdrSpec.WildExact | libnfs/lib/libnfs-zdr.c:162-199 | Decoding leaves the buffer exactly when the position behind the count and the length add up to 2^31 or more. |
| ZdrSpec.SumOverflows | libnfs/lib/libnfs-zdr.c:171 | A length below 2^31 that does not fit and passes, because the sum overflows. |
| ZdrStream.Zdr.UInt | libnfs/lib/libnfs-zdr.c:107-130 | Encoding writes exactly the four big-endian bytes; decoding leaves the buffer unchanged; both fail exactly without room and advance by four. |
| ZdrStream.Zdr.UHyper | libnfs/lib/libnfs-zdr.c:132-160 | The same for eight bytes, all or nothing. |
| ZdrStream.Zdr.OpaqueData | libnfs/lib/libnfs-zdr.c:247-266 | Data plus zero padding, both ways, exactly when there is room; without room it goes astray, having no check. |
| ZdrStream.Zdr.VarBytes | libnfs/lib/libnfs-zdr.c:162-199 | On every buffer: length, data, padding; done, refused or astray exactly as the specified decoder says, and when encoding astray only past 2^31. |
| ZdrStream.Zdr.Str | libnfs/lib/libnfs-zdr.c:268-315 | The same, with strings used in place: the terminating zero it writes leaves the buffer unchanged. |
| ZdrStream.Zdr.IntArray | libnfs/lib/libnfs-zdr.c:317-339 | Count, then the element loop; encoder and decoder as specified, counts of 2^31 and more included. |
| MountCodec.GroupsTrip | libnfs/mount/libnfs-raw-mount.c:90-106 | A group chain of any length decodes to itself. |
| MountCodec.ExportsTrip | libnfs/mount/libnfs-raw-mount.c:108-126 | An export chain with nested group chains decodes to itself. |
| MountCodec.MountTrip | libnfs/mount/libnfs-raw-mount.c:128-153 | A mount reply decodes to itself, both arms. |
| MountCodec.ZdrGroups | libnfs/mount/libnfs-raw-mount.c:90-106 | The recursive routine terminates on every buffer and is the specified encoder and decoder, also where a length leads it astray. |
| MountCodec.ZdrExports | libnfs/mount/libnfs-raw-mount.c:108-126 | The mutually recursive routines terminate on every buffer and are the specified encoder and decoder, also where a length leads them astray. |
| MountCodec.ZdrMount | libnfs/mount/libnfs-raw-mount.c:128-153 | The union routine is the specified encoder and decoder on every buffer. |
| RpcMessage.AuthTrip | libnfs/lib/libnfs-zdr.c:345-356 | Credentials and verifiers of any flavor and length decode to themselves. |
| RpcMessage.CallTrip | libnfs/lib/libnfs-zdr.c:358-397 | A call body decodes to itself. |
| RpcMessage.AcceptedTrip | libnfs/lib/libnfs-zdr.c:399-428 | Accepted replies, every status arm, with void, mount and export results. |
| RpcMessage.RejectedTrip | libnfs/lib/libnfs-zdr.c:430-455 | Rejected replies, every arm. |
| RpcMessage.ReplyTrip | libnfs/lib/libnfs-zdr.c:457-485 | Replies, accepted and denied. |
| RpcMessage.MsgTrip | libnfs/lib/libnfs-zdr.c:487-521 | Every call and reply message decodes to itself. |
| RpcRoutines.OpaqueAuth | libnfs/lib/libnfs-zdr.c:345-356 | Both directions as specified, on every buffer. |
| RpcRoutines.RpcCallBody | libnfs/lib/libnfs-zdr.c:358-397 | Both directions as specified, stopping at the first part that fails. |
| RpcRoutines.AcceptedReply | libnfs/lib/libnfs-zdr.c:399-428 | Both directions as specified for every status. |
| RpcRoutines.RejectedReply | libnfs/lib/libnfs-zdr.c:430-455 | Both directions as specified for every status. |
| RpcRoutines.RpcReplyBody | libnfs/lib/libnfs-zdr.c:457-485 | Both directions; a status that is neither accepted nor denied fails. |
| RpcRoutines.RpcMsg | libnfs/lib/libnfs-zdr.c:487-521 | Both directions; a direction that is neither call nor reply fails. |
| RpcRoutines.SendAndReceive | libnfs/lib/libnfs-zdr.c:487-531 | Any message written into a buffer with room for it and read back is the same message, with both cursors at the same place. |
| RpcRoutines.AuthUnixCreate | libnfs/lib/libnfs-zdr.c:552-588 | For every host name and group list the body has exactly the declared length and is read back, by Appendix A of RFC 5531, as time, host, user, group and groups, in that order and up to its end. |
| RpcRoutines.AuthSysReads | libnfs/lib/libnfs-zdr.c:552-588 | The encoding of such a credential is read back, field by field, by the decoders. |
| MessageLayout.CallLayout | libnfs/lib/libnfs-zdr.c:358-397 | Word by word: where a call has its transaction id, versions, program, procedure, credential and verifier. |
| MessageLayout.ReplyLayout | libnfs/lib/libnfs-zdr.c:457-485 | Word by word: where a reply has its transaction id, statuses and verifier. |
| MessageLayout.AcceptedLayout | libnfs/lib/libnfs-zdr.c:399-428 | Where an accepted reply has its status, versions or results. |
| MessageLayout.RejectedLayout | libnfs/lib/libnfs-zdr.c:430-455 | Where a denial has its status, versions or reason. |
| MessageLayout.GroupsLayout | libnfs/mount/libnfs-raw-mount.c:90-106 | 1 before each element of a list, 0 at its end. |
| MessageLayout.ExportsLayout | libnfs/mount/libnfs-raw-mount.c:108-126 | The same for exports, directory before groups. |
| MessageLayout.MountLayout | libnfs/mount/libnfs-raw-mount.c:128-153 | 0, file handle and flavors, or the error alone. |
| MessageLayout.VarLayout | libnfs/lib/libnfs-zdr.c:162-199 | Length, bytes, and zeros up to a multiple of four. |
| MessageLayout.HyperLayout | libnfs/lib/libnfs-zdr.c:132-155 | High word before low word. |
| MessageLayout.ArrayLayout | libnfs/lib/libnfs-zdr.c:317-339 | Count, then element i at 4 + 4i. |
| MessageLayout.RecordLayout | libnfs/lib/pdu.c:263-269 | A fragment: its length, with the top bit set in the last one of a record, then its bytes. |
| BlockLayout.LaidApart | kernel/tools/bitfield_gen.py:2105-2124 | Fields laid out from the top down lie inside the block and never overlap. |
| BlockLayout.LaidDown | kernel/tools/bitfield_gen.py:2105-2124 | The first field declared is the highest. |
| BlockLayout.LaidFull | kernel/tools/bitfield_gen.py:2105-2124 | Without padding each field ends where the one before begins, from the top of the block down to bit 0. |
| BlockLayout.Layout | kernel/tools/bitfield_gen.py:2105-2124 | The two loops of `__init__` compute that layout. |
| BlockLayout.SetBase | kernel/tools/bitfield_gen.py:2143-2156 | Accepts exactly whole-word blocks whose fields cross no word boundary. |
| BlockLayout.InsideWord | kernel/tools/bitfield_gen.py:2152-2156 | An accepted field lies inside one word, empty fields included. |
| BlockLayout.ReadAfterWrite | kernel/tools/bitfield_gen.py:255-288 | Reading a written field gives the value back exactly when the field can represent it: low and high fields, either shift direction, with and without sign extension. |
| BlockLayout.WriteElsewhere | kernel/tools/bitfield_gen.py:280-288 | Writing one field leaves every other field of the word as it was, for any value. |
| BlockLayout.WriteAssertMeans | kernel/tools/bitfield_gen.py:280-288 | With the C type that base, suffix and value give the mask: what passes the assertion of a writer and has no bit it misses is what fits and has no bit it bars. |
| BlockLayout.WriteAssertExact | kernel/tools/bitfield_gen.py:352-362 | Every value that passes the assertion reads back exactly when it misses no bit: a closed form in the layout and the type of the mask. |
| BlockLayout.WriteAssertComplete | kernel/tools/bitfield_gen.py:280-288 | Every value that fits passes the assertion exactly when no bit is barred: a closed form in the layout. |
| BlockLayout.TopBitDropped | kernel/tools/bitfield_gen.py:352-362 | A concrete union field whose assertion passes a value that reads back as 0. |
| BlockLayout.HalfWordUnseen | kernel/tools/bitfield_gen.py:280-288 | A concrete field of a 64-bit block that ends at bit 32: its mask is an `unsigned`, and 2^40 passes. |
| BlockLayout.HighFieldBarred | kernel/tools/bitfield_gen.py:280-288 | A concrete high field whose assertion refuses a value that fits. |
| BlockLayout.NewAssertExact | kernel/tools/bitfield_gen.py:2408-2418 | Where the constructor has an assertion, it accepts exactly the values that fit. |
| BlockLayout.NewAssertMeets | kernel/tools/bitfield_gen.py:2408-2424 | All that a constructor lets through fits exactly when the field is no high field of a whole word with unusable bits, for which no assertion is emitted. |
| BlockWords.SharedWord | kernel/tools/bitfield_gen.py:2143-2156 | Fields disjoint in the block are disjoint in a word they share. |
| BlockWords.GetBit | kernel/tools/bitfield_gen.py:255-278 | Bit by bit: a reader returns the bits of its field and, in a signed high field, copies of the top one above them. |
| BlockWords.SetBit | kernel/tools/bitfield_gen.py:280-298 | Bit by bit: a writer leaves the bits of the value in its field and everything else, padding included, as it was. |
| BlockWords.BlockBuilt | kernel/tools/bitfield_gen.py:2389-2428 | Bit by bit: a constructed block has the bits of each value in its field and nothing elsewhere. |
| BlockWords.GetAfterSet | kernel/tools/bitfield_gen.py:2449-2502 | get-after-set on whole blocks: the value, exactly when it fits. |
| BlockWords.SetKeepsOthers | kernel/tools/bitfield_gen.py:2449-2502 | set leaves every other field's get unchanged, whatever value is stored. |
| BlockWords.GetAfterRun | kernel/tools/bitfield_gen.py:2449-2502 | After any run of sets with fitting values every field reads as the last value stored into it. |
| BlockWords.NewHolds | kernel/tools/bitfield_gen.py:2389-2428 | In a constructed block each field's bits are those its own value put there. |
| BlockWords.GetAfterNew | kernel/tools/bitfield_gen.py:2389-2428 | get-after-new: the value, exactly when it fits. |
| BlockWords.NewReadsBack | kernel/tools/bitfield_gen.py:2389-2428 | Every field of a constructed block gives its argument back, for all arguments that pass the assertions, exactly when no field is such a field. |
| BlockWords.WholeWordLost | kernel/tools/bitfield_gen.py:2408-2424 | A concrete block whose constructor passes 2^63 and whose reader does not return it. |
| BlockWords.PtrSet | kernel/tools/bitfield_gen.py:290-298 | The pointer writer updates one word of the array as specified. |
| BlockWords.PtrNew | kernel/tools/bitfield_gen.py:2389-2428 | Or-ing the field parts word by word builds the specified block. |
| TagScheme.MaskBit | kernel/tools/bitfield_gen.py:1982-1987 | A class-mask bit inside the tag field shows in the word exactly as in the tag value. |
| TagScheme.NarrowerMatches | kernel/tools/bitfield_gen.py:1958-1968 | Words of a wider tag match the word class mask of every narrower width. |
| TagScheme.OwnDiffers | kernel/tools/bitfield_gen.py:1970-1973 | Words of a tag never match the class mask of its own width, unless it is the last. |
| TagScheme.ChosenIsOwn | kernel/tools/bitfield_gen.py:1712-1723 | The emitted chain of tests ends at the width of the tag the word carries, for any number of widths. |
| TagScheme.TagReadIsTag | kernel/tools/bitfield_gen.py:386-392 | The emitted tag reader returns exactly the tag that the word carries, for any widths, offsets and masks that pass the checks. |
| TagScheme.ValueOkExact | kernel/tools/bitfield_gen.py:1943-1980 | The check of a tag value refuses no more than it must: the emitted chain ends at the width of the tag on every word that carries it exactly when the value passes. |
| UnionWords.NewCarries | kernel/tools/bitfield_gen.py:1759-1838 | A union constructor builds a block that carries its element's tag. |
| UnionWords.TagAfterNew | kernel/tools/bitfield_gen.py:1711-1838 | The tag reader applied to a constructed block returns that block's tag. |
| UnionWords.ReadBackExact | kernel/tools/bitfield_gen.py:1711-1838 | The tag a constructor stores is the tag read back exactly when none of its bits is shifted out of the word of the union. |
| UnionWords.TagAfterSet | kernel/tools/bitfield_gen.py:1840-1902 | Setting any non-tag field never changes the tag read. |
| UnionWords.AccessorAssert | kernel/tools/bitfield_gen.py:320-327 | The check at the head of a union accessor passes exactly on words that carry the tag. |
| UnionWords.EqualsIsEquality | kernel/tools/bitfield_gen.py:398-409 | When the unshifted tag selects its own width, `_equals` is equality of tags. |
| UnionWords.SelectsItself | kernel/tools/bitfield_gen.py:398-409 | That is so with the tag at bit 0 of its word, or with a single width. |
| UnionWords.EqualsExact | kernel/tools/bitfield_gen.py:398-409 | In general: `_equals` is right on all words of an element exactly under a condition that can be checked when the union is generated. |
| UnionWords.ShiftedTagsConfused | kernel/tools/bitfield_gen.py:398-409 | A checked union at bit 4 in which `_equals` takes tag 3 for tag 1. |
| UnionCheck.NoDuplicates | kernel/tools/bitfield_gen.py:1207-1217 | Accepts exactly tags without repeated name or value. |
| UnionCheck.TaggedUnion.PositionMasks | kernel/tools/bitfield_gen.py:2037-2048 | Masks are moved to the class offset; fails exactly on a mask for an unused width. |
| UnionCheck.TaggedUnion.MakeClasses | kernel/tools/bitfield_gen.py:1989-2102 | Accepts exactly masks that cover the used widths, lie in their fields and form the required chain. |
| UnionCheck.TaggedUnion.ValueInClass | kernel/tools/bitfield_gen.py:1943-1980 | Accepts exactly values in their field that match all narrower masks and not their own. |
| UnionCheck.TaggedUnion.Resolve | kernel/tools/bitfield_gen.py:1221-1259 | Accepts exactly unions whose blocks agree in base and size and whose tags all pass. |
| UnionCheck.TaggedUnion.SetBase | kernel/tools/bitfield_gen.py:1261-1279 | Accepts exactly unions whose tag fields share a word. |
| UnionCheck.TaggedUnion.Check | kernel/tools/bitfield_gen.py:1201-1279 | What passes all checks meets every condition the theorems on the emitted code need exactly when no tag field crosses a word of the union; always so when the blocks were declared under the base of the union. |
| UnionCheck.CrossingAccepted | kernel/tools/bitfield_gen.py:1221-1279 | A union under base 32 of a block under base 64 that passes every check and whose tag no 32-bit word reads as. |

## Left out

- UDP and broadcast modes, server contexts and the discard-after-sending flag: they keep or drop PDUs by other rules.
- Reentrant callbacks: a callback that queues or purges while a step is under way.
- Failing `malloc`, except where it raises the out-of-memory flags of split reads and writes.
- `send`, `recv`, the clock, the server's answers and whether a request could be sent are parameters of the methods.
- Overlapping reads and writes on one handle while another is in flight; the file is taken not to change under a read.
- Truncation of counts and offsets to `int` and `uint32_t`, except in the transaction id, `waitpdu_len`, both hashes and the read-ahead settings.
- `NFS_BLKSIZE` is taken as 4096; the header that defines it is not part of this model.
- Walks that start at the handle of a nested mount: the choice of the mount is modelled, the walk starts at the root.
- The directory cache, metadata operations, NFSv4, NLM and the synchronous wrappers: they add only easy members.
- `rpc_process_call` and `rpc_process_reply` beyond the match of the transaction id.
- ZDR routines that go astray: the model says exactly when, and stops there; what the source reads or writes outside its buffer is not modelled.
- ZdrStream.Zdr.Valid: takes the buffer to have room for the padding of its last item and to end short of 2^31 by more than a hyper, where the checks of single words overflow too.
- ZdrStream.Zdr.IntArray: `zdr_array` takes any element routine; only integers are modelled.
- RpcRoutines.AcceptedReply: the results routine is one of void, mount reply and export list.
- RpcMessage.AcceptedTrip: the results routine is one of void, mount reply and export list.
- In-place decoding is modelled on values: that the caller's pointer aliases the buffer is not.
- BlockLayout.WriteAssertMeans: takes the shift of the mask to be smaller than the width of its type, as C demands, and shifts of negative numbers as two's complement machines do them.
- `visible_order`, the proof templates, parsing, pruning and file output of the bitfield generator.
- UnionCheck.TaggedUnion.Check: takes it as given that the blocks of the union have passed their own `set_base`, each under its own base.
