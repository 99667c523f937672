# Clift: a Dafny model

Clift takes an image from the clipboard to a remote account, either over SFTP, which it speaks itself, or through a
small relay that holds an encrypted object until it is fetched once. This project models the parts of it in which
something can go wrong between two parties, and proves what its comments, tests and documentation promise about them.
Where the code does not keep a promise, the condition under which it does is proved, with a run that shows the failure.

`dafny verify dfyconfig.toml` checks everything.

## What is modelled

**The SFTP client.** `Wire`, `Codec`, `PrefixFree` and `Framing` are about bytes: the decoder is a class with a cursor,
proved against decoding functions, and those are proved against a reference writer and reader of the protocol
(draft-ietf-secsh-filexfer-02: section 3 for packets, 5 for attributes, 6 for requests, 7 for responses).
`RemoteFs` is the far side: a tree of directories, files and links and a server that handles requests in the order they
were sent. Which requests it declines, which bits it grants for a path and a mode, and which handles it gives out are
arbitrary.
`Session` is the client's half: requests go out in order, replies come back in any order or not at all, and replies an
earlier caller left unread may still be around; `Exchange` ties its values to the bytes. `Listing` reads a directory,
`Upload` is the pipelined writing of one file, `UploadAtomic` the temporary name and the rename around it.
`Directories` says what making a directory means on a tree, request by request and for any server, and what can be
decided in advance when the server answers each request the same way every time. `Pipelining` does the same for several
directories at once, `RollingBack` is about what a failure leaves, and `FsOps` are the session methods, each proved to do
exactly what these say on any server. Every method is followed step by step through ghost histories: the tree after each
handled request, each request sent and reply consumed, and each reply given. `Pool` is the runner's map of kept sessions.

**The relay.** `ObjectStore` and `RateLimiting` are the daemon's two shared tables, `Relay` its workers as interleaved
atomic steps (reading an expiry, taking, replying, checking the clock and inserting again are separate steps, and two
workers may be anywhere between them). `Worker` is the Cloudflare twin with its two tables and its alarm, proved to do to
its objects what the daemon's store does; `Alarms` opens its awaits to other events and says which of them must not be.
`Lifetimes` is how each of the two reads the lifetime a client asks for.

**Calendar and spellings.** `Calendar` (with `Decimal`) is the civil calendar arithmetic with truncating division.
`Autostart`, `ConfigEdit`, `Units` and `Hotkeys` (with `Text`) are the printers and parsers that must undo each other.

`Prelude` holds the types they share. Constants and error conditions are those of the code.

## Where the code and its promises differ

- The relay's total ceiling is documented without qualification. With more than one worker it can be exceeded, because a
  failed delivery puts its object back without asking; it holds over every run exactly with one worker.
- A failed delivery is documented to leave the object fetchable. A worker that asked for the deadline while another was
  delivering the object finds none, and then loses it.
- A withdrawn object can come back, when it was withdrawn during a delivery that then fails.
- `ensure_dirs` is documented to leave nothing behind that was not there when it fails. It can: a directory made before
  the one that is wrong stays, and so does the wrong one if it was made, or anything made above it, or a later one that
  cannot be removed; and when a look is refused nothing is removed at all. The exact condition is proved. Distinct paths
  are needed for the pipelined form to be the same as one call after the other.
- Date names are documented to sort chronologically. They do for years 0 to 9999; outside them, exactly under the
  condition proved, and from -999 to -1 the years sort backwards.
- The Windows login item reads back its program exactly when the path has no line break.
- A hotkey made from a key outside the documented range can be rendered but not read back.
- The two relays are documented to speak one protocol. They read a requested lifetime differently for numbers of 2^64
  and more, which the daemon refuses and the Worker cuts down; for a plus sign, which a form decodes to a space; for
  digits or the name written with percent signs, which only the Worker decodes; and for the name without a value, which
  the daemon passes over and the Worker refuses. Nothing a client sends is among them.
- The Worker's alarm is in time because the runtime lets no other event in while storage is awaited; the code alone does
  not ensure it. Two of its three awaits must be closed, and the third need not be.
- An upload that fails removes a file that already had its temporary name; the name is random for that reason, and the
  theorem states exactly when nothing is lost.

## Model

| member | source | states |
|---|---|---|
| Wire.DecodeReply | crates/clift-transport/src/wire.rs:177-236 | The cursor-driven reply decoder, with its loops over names and extended attributes, reads exactly what the functional decoder reads, for every body. |
| Wire.DecodeFields | crates/clift-transport/src/wire.rs:181-228 | The same for the fields of each reply type, and the cursor ends where the functional reading does. |
| Wire.DecodeVersion | crates/clift-transport/src/wire.rs:156-170 | A greeting is accepted exactly when it has the right type, a version and then nothing but whole extension pairs. |
| Wire.Reader.Take | crates/clift-transport/src/wire.rs:421-435 | Taking bytes from the cursor yields the next ones and moves past them, or fails and leaves it where it was. |
| Wire.Reader.NextAttrs | crates/clift-transport/src/wire.rs:458-483 | An attribute block is read field by field as its flags say, for all 32 bits of the flags. |
| Wire.Reader.NextEntries | crates/clift-transport/src/wire.rs:210-217 | The loop over names reads the entries one after another and stops at the first that is malformed. |
| PrefixFree.AcceptedBodiesArePrefixFree | crates/clift-transport/src/wire.rs:177-236 | An accepted handle, name or attribute reply with any bytes added is refused, so no accepted body is a proper prefix of another. |
| PrefixFree.TheNameCheckRefusesNothingReadable | crates/clift-transport/src/wire.rs:203-209 | The early check of the name count against the bytes left never changes the result of a body the unchecked decoder accepts. |
| Codec.ReplyBack | crates/clift-transport/src/wire.rs:177-236 | Every well-sized reply a server can write, whatever combination of attribute flags and extended pairs it sets, decodes to exactly the fields the client keeps. |
| Codec.AttrsBack | crates/clift-transport/src/wire.rs:458-483 | An attribute block with any of the five flags decodes to its kept fields and leaves exactly the bytes behind it. |
| Codec.StatusesAreNotPrefixFree | crates/clift-transport/src/wire.rs:183-197 | Status replies are not prefix free: the bare code, the code with a message and the code with a message and a language tag are all accepted and extend one another. |
| Codec.VersionBack | crates/clift-transport/src/wire.rs:156-170 | A greeting with any extension pairs decodes to its version. |
| Codec.RequestBack | crates/clift-transport/src/wire.rs:241-399 | A server that frames and reads requests as the draft says gets back exactly the request built, for every builder, exactly when the body is shorter than 2^32 bytes. |
| Framing.ReadPackets | crates/clift-transport/src/session.rs:673-702 | The reader loop hands on exactly the packets of the functional splitting, and ends for the reason it gives. |
| Framing.PacketsComeBack | crates/clift-transport/src/session.rs:673-702 | Any sequence of framed packets of 1 to MAX_PACKET bytes, with anything behind it, is split back into exactly that sequence first. |
| Framing.PacketsAreTheStream | crates/clift-transport/src/session.rs:673-702 | Whatever the stream, the packets handed on are its beginning byte for byte, each of legal size, and what is left does not begin with another. |
| RemoteFs.ParentIsAPath | crates/clift-transport/src/fsops.rs:546-554 | The parent of a path other than the root parses as a path again, so taking a parent never fails on one. |
| RemoteFs.ParentOf | crates/clift-transport/src/fsops.rs:546-554 | A parent is a path and strictly shorter, which is what makes the recursion on parents end. |
| Session.SftpSession.NewId | crates/clift-transport/src/session.rs:476-480 | Ids count up and wrap at 2^32; while they have not wrapped, a new id is not one that is still owed a reply. |
| Session.SftpSession.Send | crates/clift-transport/src/session.rs:482-498 | A request is handled in order, or the session is broken and nothing has happened; a broken session sends nothing. |
| Session.SftpSession.NextPacket | crates/clift-transport/src/session.rs:500-521 | Any of the replies on their way can be the next to arrive, or none because the connection has failed. |
| Session.SftpSession.Wait | crates/clift-transport/src/session.rs:523-535 | Whatever arrives first and whatever earlier callers left unread, the reply returned is the one to the id asked for, it alone is no longer owed, and every other reply stays owed unchanged. |
| Session.SftpSession.ExpectOk | crates/clift-transport/src/session.rs:537-543 | The status of the very request asked about decides the result; a reply of another type breaks the session. |
| Session.SftpSession.ExpectHandle | crates/clift-transport/src/session.rs:545-550 | The same for a handle. |
| Session.SftpSession.ExpectAttrs | crates/clift-transport/src/session.rs:552-557 | The same for attributes. |
| Session.SftpSession.Ask | crates/clift-transport/src/session.rs:282-286 | One request answered with a status: unless the connection fails, exactly this request is handled, its own reply is the result, and nothing is left owed. |
| Session.SftpSession.ExpectNames | crates/clift-transport/src/session.rs:559-564 | The same for names. |
| Exchange.TheWireIsTransparent | crates/clift-transport/src/wire.rs:177-399 | A request built, framed, read by the server, answered and decoded again is the very request and the very answer, which is why the session may be followed on values. |
| Listing.AskNames | crates/clift-transport/src/session.rs:302-310 | One readdir and its own reply; the tree does not change and nothing is left owed. |
| Listing.ReadAll | crates/clift-transport/src/session.rs:301-311 | The loop ends with the server's listing, and has the entries of exactly the name replies it got, in order. |
| Listing.List | crates/clift-transport/src/session.rs:294-317 | The result is what the server's replies come to: nothing for a missing directory, every entry in order if the listing and the close were granted, otherwise the first of the two refusals; an opened handle is closed exactly once whether or not the listing succeeded, nothing is left unread, and the tree is unchanged. |
| Upload.Fill | crates/clift-transport/src/session.rs:644-655 | For every pattern of short reads and interruptions the buffer is filled with the next bytes of the source, and is short only at its end. |
| Upload.WriteAll | crates/clift-transport/src/session.rs:411-468 | When the read-back and the close were not sent, a failure was recorded; otherwise the source was read to its end; at most 64 mode and write requests are unanswered at any time, and on every unbroken path all of them are collected. |
| Upload.CloseEarly | crates/clift-transport/src/session.rs:370-377 | After writing has stopped early the handle is closed exactly once and the answer is collected, unless the connection fails. |
| Upload.CollectClosing | crates/clift-transport/src/session.rs:378-395 | When neither the writes, the read-back nor the close was refused, the file holds exactly the source and the attributes are its own. |
| Upload.Upload | crates/clift-transport/src/session.rs:359-396 | Success means a new file equal to the source with the mode the server granted and nothing else changed; at every step only that file differs, and if the server grants the mode the file never has a byte in it and another mode; an unbroken run leaves nothing owed and closes an opened handle exactly once; what is reported is the first refusal in the order of the requests, and a local failure only when reading did fail; the fallback for a missing reason is never reached. |
| Upload.ClosingSent | crates/clift-transport/src/session.rs:438-444 | Sending the read-back and the close behind the last piece keeps every invariant of the writing. |
| Upload.WriteSent | crates/clift-transport/src/session.rs:426-437 | Sending one more piece keeps every invariant: the file holds what was sent so far unless something was refused. |
| Upload.AnswerCollected | crates/clift-transport/src/session.rs:445-466 | Reading the oldest answer keeps every invariant and records the first refusal. |
| Upload.AllWritten | crates/clift-transport/src/session.rs:359-396 | Once nothing is pending and nothing was refused, the file on the server is the whole source. |
| UploadAtomic.Verify | crates/clift-transport/src/upload.rs:107-141 | The verdict is good exactly when the reported size is the expected one and the nine permission bits are 0600. |
| UploadAtomic.TemporaryPath | crates/clift-transport/src/upload.rs:148-169 | The intermediate name is the destination's directory, a dot, the hexadecimal text of the random bytes and .part. |
| UploadAtomic.TheTemporaryIsBeside | crates/clift-transport/src/upload.rs:148-169 | The intermediate name is always a valid path in the same directory as the destination. |
| UploadAtomic.TheTemporaryIsTheDestinationExactlyWhen | crates/clift-transport/src/upload.rs:148-169 | It is the destination itself exactly when that already has the name of this very draw. |
| UploadAtomic.NothingIsLostExactlyWhen | crates/clift-transport/src/upload.rs:57-66 | After an upload that failed on a working session, with removals granted, the tree is as it was exactly when nothing had the temporary name, or a directory had it. |
| UploadAtomic.AFileOfThatNameIsLost | crates/clift-transport/src/upload.rs:61-66 | The open that is refused because a file has the name, and the removal that follows it: the file is gone and nothing else has changed. |
| UploadAtomic.EveryDrawIsItsOwn | crates/clift-transport/src/upload.rs:148-169 | Different random bytes give different intermediate names. |
| UploadAtomic.TidyUp | crates/clift-transport/src/upload.rs:57-66 | Removing the temporary file never touches the destination, and leaves no temporary file if the server grants removals. |
| UploadAtomic.UploadAtomic | crates/clift-transport/src/upload.rs:39-98 | After every step the destination is as it was or the complete file with mode 0600; success gives exactly the bytes read and no temporary file; any other outcome on a working session leaves everything else as it was and, if removals are granted, nothing at the temporary name. A file that already had the temporary name is lost by a failure, a directory is not. What is reported is the first refusal among the replies, or what the check of the written file found, or a failure of the local file that did happen. |
| UploadAtomic.SucceedsExactlyWhen | crates/clift-transport/src/upload.rs:39-98 | On a working session with a readable local file, the upload succeeds exactly when the server refused nothing, the number of bytes is the announced one and the permission bits the server gave the file are 0600. |
| Directories.AttrsReadBack | crates/clift-transport/src/fsops.rs:520-531 | Kind and permission bits read from a node's attributes are that node's. |
| Directories.EnsureDirKeepsItsPromise | crates/clift-transport/src/fsops.rs:323-457 | On any server, however its refusals change from one request to the next: nothing that existed is touched and whatever is new is a directory at or above the path; on success the path is a directory with exactly the requested permission bits, and so is everything new. |
| Directories.SettleIsExact | crates/clift-transport/src/fsops.rs:399-457 | Settling changes at most the bits of a directory made here, and on success what was looked at was exact or the directory is. |
| Directories.AskingAgainChangesNothing | crates/clift-transport/src/fsops.rs:323-362 | Asking for what is there changes nothing, on any server that does not answer "no such file" to the mkdir of something it has. |
| Directories.EnsureInDecides | crates/clift-transport/src/fsops.rs:323-362 | On a server that decides each request the same way every time, ensure_in succeeds exactly when what is there is a directory with exactly the mode, or it and every missing ancestor can be made below an existing directory; and then the tree is the old one with exactly those added. |
| Directories.WhatIsEnsuredStays | crates/clift-transport/src/fsops.rs:323-457 | On such a server a second call succeeds as well and changes nothing. |
| Directories.MadeAdds | crates/clift-transport/src/fsops.rs:344-361 | What a success adds is the path and its missing ancestors, each good, and nothing else changes. |
| Pipelining.EnsureDirsKeepsItsPromise | crates/clift-transport/src/fsops.rs:365-396 | When ensure_dirs succeeds, on any server and for any list: every path is a directory with exactly the mode, what existed is unchanged, and everything new is at or above a listed path and has exactly the mode. |
| Pipelining.WhatIsAsked | crates/clift-transport/src/session.rs:252-276 | On any server, what the pipelined exchange says of a path is true of the tree it leaves, and what it made was not there before. |
| Pipelining.AskedOf | crates/clift-transport/src/session.rs:252-276 | What each answer of the exchange says about the tree it was asked on, when the server decides constantly, and exactly which directories the exchange has made. |
| Pipelining.PipeliningChangesNothing | crates/clift-transport/src/fsops.rs:365-396 | For distinct paths and a server that decides constantly, the pipelined ensure_dirs succeeds exactly when ensure_dir on each path in order would, and then leaves the same tree. |
| Pipelining.EnsureAlike | crates/clift-transport/src/fsops.rs:323-396 | The two runs agree on each directory even while the pipelined tree still holds directories nobody has settled. |
| RollingBack.EnsureAllOnlyAdds | crates/clift-transport/src/fsops.rs:365-396 | Whether it succeeds or fails, on any server and for any list, nothing that existed is touched and whatever is new is a directory at or above a listed path. |
| RollingBack.WhatAFailureLeaves | crates/clift-transport/src/fsops.rs:365-396 | On any server, after a wrong directory the ones before it stay and are exact, and every later one the first exchange made is gone, or has something in it, or had its removal refused; when a look is refused instead, nothing is removed. |
| RollingBack.AFailureLeavesNothingExactlyWhen | crates/clift-transport/src/fsops.rs:374-396 | A failure leaves the tree as it was exactly when the paths before the failing one were there and as they should be, the failing one was not made and asking for it adds nothing, and every later one that was made can be removed; with a refused look, exactly when nothing was made that stays. The condition is about the tree and the server alone. |
| RollingBack.EnsureInTouches | crates/clift-transport/src/fsops.rs:323-362 | Asking for one directory adds something, whatever its outcome, exactly when each mkdir on the way up is answered "no such file" until one is granted. |
| RollingBack.EnsureInStops | crates/clift-transport/src/fsops.rs:323-362 | Asking for one directory ends with a refused look exactly when the look at it is refused, or at one above it that is asked for too. |
| RollingBack.RollBackClears | crates/clift-transport/src/fsops.rs:382-392 | On any server, removing last first leaves a directory made here only with something in it or if its removal was refused. |
| RollingBack.AnEarlierDirectoryStays | crates/clift-transport/src/fsops.rs:374-396 | The promise that a failure leaves nothing behind fails without any refusal: a directory made before the wrong one stays. |
| RollingBack.ListedTwice | crates/clift-transport/src/fsops.rs:365-396 | Distinctness is needed: with a path listed twice, on a server that ignores the mode of mkdir, the pipelined run fails where the other would not. |
| RollingBack.ARefusedLookLeavesDirectories | crates/clift-transport/src/session.rs:267-275 | A refused look leaves what the exchange made: both directories of the example survive the failure. |
| FsOps.Look | crates/clift-transport/src/session.rs:219-223 | On any server a look returns what is there, nothing, or the refusal, and changes nothing. |
| FsOps.SetMode | crates/clift-transport/src/session.rs:282-286 | On any server, setting the mode of a directory made here is what the tree model says and never touches what existed. |
| FsOps.AskPairs | crates/clift-transport/src/session.rs:257-265 | All pairs of requests go out before an answer is read; the tree is then that of the whole exchange and exactly these answers are owed. |
| FsOps.ReadPairs | crates/clift-transport/src/session.rs:266-276 | The answers are read in order; a refused look ends the reading and leaves exactly the answers to the later pairs owed. |
| FsOps.MkdirsAndLstats | crates/clift-transport/src/session.rs:252-276 | Each answer is the one to its own path even when an earlier call left answers unread, and a refusal leaves exactly the later pairs owed. |
| FsOps.MkdirAndLstat | crates/clift-transport/src/session.rs:235-241 | The same for one path, with nothing left owed. |
| FsOps.Settle | crates/clift-transport/src/fsops.rs:399-457 | On any server, every case of a mkdir answer and a look does to the tree, and concludes, exactly what the tree model says. |
| FsOps.EnsureIn | crates/clift-transport/src/fsops.rs:323-362 | On any server the session method does to the tree exactly what the tree model says, ends because parents are shorter, and at every step, even if the connection fails, leaves everything that existed untouched; on success the path has exactly the bits, and so has everything new, all of it at or above the path. |
| FsOps.EnsureAll | crates/clift-transport/src/fsops.rs:365-396 | The same for the pipelined form, for any list; unless a look was refused every answer has been read. |
| FsOps.SettleInOrder | crates/clift-transport/src/fsops.rs:374-396 | The loop settles the directories in order and stops and rolls back at the first wrong one. |
| FsOps.RollBackFrom | crates/clift-transport/src/fsops.rs:384-392 | The rollback loop removes exactly as the tree model says, and only directories made by this call. |
| FsOps.RemoveEntry | crates/clift-transport/src/fsops.rs:293-319 | Success means the path is gone and nothing else is, unless the server denied having it, in which case nothing has changed; a link is unlinked rather than followed, and a path that was already gone is success. |
| Pool.SshRunner.Sftp | crates/clift-transport/src/proc.rs:502-540 | No operation is ever started on a session that is broken, has exited or has idled past the limit, even when an earlier action swallowed the breakage; a kept session that is still good is the one used, and a new one is opened exactly otherwise; there is one session per host and none ever serves two; a reported breakage drops the session. |
| Pool.SshRunner.Acquire | crates/clift-transport/src/proc.rs:521-531 | The kept session is handed out as it is exactly when it is under the idle limit and usable; otherwise a new one takes its place, and a failure to open one changes nothing. |
| Pool.SshRunner.TendSessions | crates/clift-transport/src/proc.rs:222-249 | A pass keeps a session exactly when it is under the idle limit, usable when its turn comes and, if quiet long enough to be asked, answered; a check moves the time of the last check and never that of the last use; any session may break or exit at any moment of the pass. |
| Pool.SshRunner.TendOne | crates/clift-transport/src/proc.rs:233-248 | The decision about one session, in the order of the closure's tests. |
| Pool.SshRunner.RememberedCacheHome | crates/clift-transport/src/proc.rs:260-277 | An answer is given exactly while sessions are kept and it has been used within the idle limit; giving it renews it, and a stale one is dropped. |
| ObjectStore.Store.Put | crates/clift-relayd/src/store.rs:71-93 | Expired objects are dropped, the ceilings are checked with saturating addition, and the new object starts its lifetime; otherwise the refusal is the first that applies. |
| ObjectStore.Store.Take | crates/clift-relayd/src/store.rs:103-107 | What has expired is dropped first; an object is handed out and gone in one step. |
| ObjectStore.Store.Usage | crates/clift-relayd/src/store.rs:140-149 | The count and the sum over all objects, whatever order they are visited in. |
| ObjectStore.HeldWithout | crates/clift-relayd/src/store.rs:140-149 | The sum of the lengths does not depend on the order in which the map is visited. |
| Relay.SingleUseFromTheStart | crates/clift-relayd/src/server.rs:168-192 | In every interleaving of worker steps an object is in the store with the bytes and deadline it was published with or in the hands of exactly one worker, is delivered at most once, and is restored only with its own deadline. |
| Relay.SingleUseAlways | crates/clift-relayd/src/server.rs:168-192 | The same from any state that satisfies it. |
| Relay.GoneForGood | crates/clift-relayd/src/server.rs:168-192 | What no worker can put back never returns to the store, over every run. |
| Relay.DeliveredIsGone | crates/clift-relayd/src/server.rs:184-192 | A delivered object never comes back. |
| Relay.ComesBackExactlyWhenRecoverable | crates/clift-relayd/src/server.rs:184-192 | An object that is not in the store, withdrawn or not, can be there again exactly when some worker holds it and had seen a deadline that has not passed. |
| Relay.FailedDelivery | crates/clift-relayd/src/server.rs:175-192 | A failed delivery gives the object up for good exactly when the worker had read no deadline before taking it or the deadline has passed. |
| Relay.AFailedDeliveryCanLoseTheObject | crates/clift-relayd/src/server.rs:175-176 | A run of two workers in which a failed delivery loses an unexpired object, because the deadline was read while the other worker held it. |
| Relay.AWithdrawnObjectCanComeBack | crates/clift-relayd/src/server.rs:75-91 | A run of two workers in which an object withdrawn during its delivery is back in the store after the delivery has failed. |
| Relay.WithinCeilingAlways | crates/clift-relayd/src/store.rs:71-120 | Bytes held and in delivery together stay within the total plus one largest object for every other worker. |
| Relay.CeilingFromTheStart | crates/clift-relayd/src/store.rs:71-120 | Over every run with W workers at most max_total + (W-1) * max_object bytes are held or in delivery, and no object is too large. |
| Relay.CeilingCanBeExceeded | crates/clift-relayd/src/store.rs:114-120 | With two workers or more, for all limits, there is a run in which the store alone holds more than its total, whatever ids are drawn. |
| Relay.CeilingHoldsExactlyForOneWorker | crates/clift-relayd/src/store.rs:71-120 | The documented ceiling on the store holds over every run exactly when there is one worker. |
| RateLimiting.RateLimiter.Allow | crates/clift-relayd/src/ratelimit.rs:44-70 | The limiter changes its table and decides as the fixed-window function does. |
| RateLimiting.WorkerLimiter.Allow | relay/cloudflare/src/index.ts:315-334 | The Worker's limiter, which deletes stale windows in a loop and replaces rather than resets, comes to the same table and decision. |
| RateLimiting.SweepingIsInvisible | crates/clift-relayd/src/ratelimit.rs:54-58 | For every non-decreasing trace, evicting old windows never changes a decision compared with a limiter that never evicts. |
| RateLimiting.AnyMinuteAdmitsLessThanTwice | crates/clift-relayd/src/ratelimit.rs:44-70 | Any half-open sixty seconds admit at most 2 * per_minute - 1 requests of one address, however they fall around a window's edge. |
| RateLimiting.TheBoundIsReached | crates/clift-relayd/src/ratelimit.rs:44-70 | For every limit there is a trace that reaches that bound. |
| Worker.Concat | relay/cloudflare/src/index.ts:409-418 | The array filled part by part is the concatenation of the parts. |
| Worker.ReadCapped | relay/cloudflare/src/index.ts:384-407 | The body is read whole exactly when it is within the cap. |
| Worker.ChunksFlatten | relay/cloudflare/src/index.ts:224-233 | The chunks of a body, in the order of their numbers, are the body. |
| Worker.CliftRelay.Discard | relay/cloudflare/src/index.ts:283-287 | Chunk rows and object rows of exactly the expired objects go together. |
| Worker.CliftRelay.HeldBytes | relay/cloudflare/src/index.ts:289-293 | The sum over the rows is the bytes held. |
| Worker.CliftRelay.NextExpiry | relay/cloudflare/src/index.ts:295-300 | The earliest deadline, or nothing when nothing is held. |
| Worker.CliftRelay.Alarm | relay/cloudflare/src/index.ts:154-161 | After the alarm what has expired is gone and, if anything is left, the alarm is set to a deadline no later than any. |
| Worker.CliftRelay.ScheduleAlarm | relay/cloudflare/src/index.ts:303-308 | The alarm only ever moves earlier, and never stays later than the new deadline. |
| Worker.CliftRelay.InsertChunks | relay/cloudflare/src/index.ts:224-233 | The loop adds the chunks of the body numbered from zero without a gap, and changes no other row. |
| Worker.CliftRelay.Insert | relay/cloudflare/src/index.ts:211-234 | Between the capacity check and the last row nothing is let in; the object is stored exactly when it fits under the total, and all invariants hold again. |
| Worker.CliftRelay.Announce | relay/cloudflare/src/index.ts:179-194 | The first event of a publication: what has expired goes, and a lifetime or a declared length is refused exactly when it will not do, the lifetime first. |
| Worker.CliftRelay.Publish | relay/cloudflare/src/index.ts:196-240 | The second event, after any others: too large and empty are told exactly when they apply, and otherwise the objects as they are by then change as in the daemon's put. The tables, the ceiling and the alarm are in order at the event's end. |
| Worker.CliftRelay.SelectChunks | relay/cloudflare/src/index.ts:258-261 | The chunk rows come out in the order of their numbers. |
| Worker.CliftRelay.Retrieve | relay/cloudflare/src/index.ts:242-275 | An unexpired body comes back byte for byte and is gone; otherwise nothing changes. |
| Worker.CliftRelay.Get | relay/cloudflare/src/index.ts:110-150 | A fetch drops what has expired and then takes exactly as the daemon's store does, for every id, well formed or not. |
| Worker.CliftRelay.Delete | relay/cloudflare/src/index.ts:139-148 | A withdrawal removes the object and its chunks and nothing else. |
| Worker.StaysAsItIs | relay/cloudflare/src/index.ts:179-281 | Whatever other events happen, an unexpired object stays exactly as it is. |
| Worker.StaysGone | relay/cloudflare/src/index.ts:242-281 | Once gone, an object stays gone while its id is not published again. |
| Worker.HandedOutExactlyOnce | relay/cloudflare/src/index.ts:242-275 | A stored body is handed out byte for byte by the first fetch before its deadline and by no later fetch, whatever events come between. |
| Alarms.TheAlarmIsInTimeExactlyWhenGated | relay/cloudflare/src/index.ts:154-161 | Over every run in which other events may come in at the awaits, the alarm is no later than the first expiry once nothing is awaited, exactly when nothing is let in between reading and setting it and between the handler's look at the rows and its setting of it. |
| Alarms.InTimeUnlessPostponed | relay/cloudflare/src/index.ts:303-308 | Whatever comes in at the awaits, the alarm is in time at the end of every run in which no write puts it off. |
| Alarms.GatedNeverPostpones | relay/cloudflare/src/index.ts:303-308 | With both gates closed no write ever puts the alarm off. |
| Alarms.OpenScheduleEndsLate | relay/cloudflare/src/index.ts:303-308 | With the first gate open, a run of two publications that ends with the alarm after the first expiry. |
| Alarms.OpenHandlerEndsLate | relay/cloudflare/src/index.ts:154-161 | With the second gate open, a run in which the handler sets the alarm behind a publication that came in. |
| Lifetimes.TheTwinsDifferExactlyWhen | crates/clift-relayd/src/server.rs:210-227 | The exact set of query texts, for every maximum, on which the daemon, which takes the text as it is, and the Worker, which is given it decoded as a form, grant or refuse differently. |
| Lifetimes.ValueDecides | relay/cloudflare/src/index.ts:344-357 | Of a value both read, the exact set on which they differ: digits spelled with percent signs, a plus sign, or a number of more than 64 bits. |
| Lifetimes.AClientIsUnderstood | crates/clift-relay/src/lib.rs:122 | The query a client sends, for every 64-bit number of seconds, is read alike by both and as it was meant. |
| Lifetimes.ThreeQueriesReadDifferently | crates/clift-relayd/src/server.rs:210-227 | Three queries read differently: a sign, a name without a value, and digits in percent signs. |
| Lifetimes.ALongNumberReadsDifferently | relay/cloudflare/src/index.ts:344-357 | Every number of more than 64 bits is refused by the daemon and cut down by the Worker. |
| Lifetimes.ASpelledNameReadsDifferently | crates/clift-relayd/src/server.rs:210-227 | A name written with a percent sign is read by the Worker only. |
| Calendar.CivilAfterDays | crates/clift-core/src/calendar.rs:22-46 | Every valid proleptic Gregorian date, negative years included, comes back from its day number. |
| Calendar.EveryDayHasADate | crates/clift-core/src/calendar.rs:34-46 | Every integer day is a valid date whose day number is that day, and neither conversion fallback is taken. |
| Calendar.SuccessorOfADay | crates/clift-core/src/calendar.rs:34-46 | Day n + 1 is the calendar successor of day n under the leap-year rule. |
| Calendar.DayZero | crates/clift-core/src/calendar.rs:22-46 | Day zero is 1970-01-01. |
| Calendar.DateOrderIsDayOrder | crates/clift-core/src/calendar.rs:22-46 | Later days are later dates and the other way round. |
| Calendar.TextSortsChronologically | crates/clift-core/src/calendar.rs:62-84 | For years 0 to 9999 date and timestamp texts sort exactly as the instants do. |
| Calendar.DateNamesInOrder | crates/clift-core/src/calendar.rs:62-66 | For every two days, negative years included, the exact condition under which the text of the later one sorts later. |
| Calendar.EarlyYearsSortBackwards | crates/clift-core/src/calendar.rs:62-66 | Of two years from -999 to -1 the later one has the earlier name. |
| Calendar.YearTenThousandSortsEarly | crates/clift-core/src/calendar.rs:62-66 | The first day of year 10000 sorts before the last day of year 9999. |
| Autostart.EscapingIsUndone | crates/clift-inject/src/autostart.rs:92-96 | Unescaping undoes escaping for every text, entity text included. |
| Autostart.PropertyList | crates/clift-inject/src/autostart.rs:376-412 | The document built in a loop reads back as exactly the program. |
| Autostart.TheProgramIsReadBack | crates/clift-inject/src/autostart.rs:81-86 | For every program, argument list and log path the first program argument of the document is exactly the program; neither the label nor anything in the head is mistaken for it. |
| Autostart.DoublingIsUndone | crates/clift-inject/src/autostart.rs:148-154 | Halving quotes undoes doubling them, and neither adds a line. |
| Autostart.Script | crates/clift-inject/src/autostart.rs:117-137 | The script built in a loop reads back as exactly the program when that has no line break. |
| Autostart.TheScriptIsReadBack | crates/clift-inject/src/autostart.rs:140-146 | The program is read back from the script exactly when it has no line break in it. |
| ConfigEdit.Document.Get | crates/clift-core/src/config/edit.rs:97-117 | The cursor ends at the value at the key's path, or reports what is missing. |
| ConfigEdit.Document.Set | crates/clift-core/src/config/edit.rs:139-188 | The walk that makes tables as it goes comes to the one placement at the key's path, and a failed set leaves the whole document as it was. |
| ConfigEdit.SettableKeysAreUnrelated | crates/clift-core/src/config/edit.rs:25-79 | No settable key's path leads through another's. |
| ConfigEdit.SetThenGet | crates/clift-core/src/config/edit.rs:97-188 | What was set reads back in its canonical spelling. |
| ConfigEdit.CanonicalCounts | crates/clift-core/src/config/edit.rs:146-156 | A canonical whole number reads as the same number again. |
| ConfigEdit.SetLeavesOtherKeys | crates/clift-core/src/config/edit.rs:139-188 | Every other key reads as before. |
| ConfigEdit.SetLeavesTheRest | crates/clift-core/src/config/edit.rs:139-188 | Everything beside the key's path, known to this build or not, is unchanged. |
| ConfigEdit.SetsCommute | crates/clift-core/src/config/edit.rs:139-188 | Two edits of different keys that succeed one after the other also succeed in the other order, with the same document. |
| ConfigEdit.EnsuredOneMore | crates/clift-core/src/config/edit.rs:172-186 | When the walk meets something that is not a table it has not made any table yet. |
| Units.SizesRoundTrip | crates/clift-core/src/config/io.rs:376-387 | Every 64-bit size parses back from its rendering, with no overflow refusal. |
| Units.DurationsRoundTrip | crates/clift-core/src/config/io.rs:389-397 | The same for every 64-bit number of seconds. |
| Units.NumberWithUnit | crates/clift-core/src/config/units.rs:15-57 | A number and a unit in any letters parse to the number times what the lower-case unit is worth, or to that unit's error. |
| Hotkeys.Parse | crates/clift-core/src/hotkey.rs:126-167 | The loop over modifier slots comes to the functional parse. |
| Hotkeys.ParseParts | crates/clift-core/src/hotkey.rs:146-166 | Each part fills a free slot; an unknown or repeated modifier stops with its own error. |
| Hotkeys.NamedMeaning | crates/clift-core/src/hotkey.rs:146-166 | The parts are accepted exactly when each names a modifier and none is named twice, and the slots set are exactly the modifiers named. |
| Hotkeys.OrderAndAliasesDoNotMatter | crates/clift-core/src/hotkey.rs:117-122 | Combinations that name the same modifiers in any order and by any alias, with the same key, parse alike. |
| Hotkeys.CaseDoesNotMatter | crates/clift-core/src/hotkey.rs:117-122 | Combinations that differ only in the case of ASCII letters parse alike. |
| Hotkeys.KeysRoundTrip | crates/clift-core/src/hotkey.rs:74-105 | Every key with a name parses back from its rendering. |
| Hotkeys.CombinationsRoundTrip | crates/clift-core/src/hotkey.rs:126-223 | Every combination that may be taken parses back from its rendering exactly when its key is a lower-case letter, a digit or F1 to F12. |
| Hotkeys.TheThirteenthFunctionKey | crates/clift-core/src/hotkey.rs:171-223 | A combination with the function key 13 may be taken and does not parse back. |
| Hotkeys.New | crates/clift-core/src/hotkey.rs:171-193 | A combination is refused exactly when it has no modifier at all, or is the letter v with the command or the control modifier alone; otherwise it holds exactly what it was made of. |
| Hotkeys.Render | crates/clift-core/src/hotkey.rs:207-223 | The rendering is the canonical names in their fixed order, joined with plus signs. |

## Left out

- Encryption, tokens, frames, staging and use cases: bodies are opaque bytes.
- Processes, pipes, threads, deadlines and stderr: a reply arrives or the connection breaks, at any moment.
- Wrap-around of request ids: sessions are followed until 2^32 ids have been used, and the number of ids each method needs is part of its contract.
- `realpath`: the server of this model has no working directory.
- Listing.List: a listing ends only when the server says so, so the number of batches a server gives is a bound in the contract; what the batches hold is up to the server and is not compared with the tree.
- `stat`, `list_dir` and `entry`: they filter names with `SafeFileName`, which is not part of this model.
- The greeting exchange when a session is opened, beyond its decoding.
- Bits that depend on more than the path and the mode asked for, such as a group inherited from the parent: granting the same request twice grants the same bits, and the same tree after both ways of making directories rests on that.
- Symbolic links on the way to a path: the server takes paths as they are spelled; a link is a node of its own that `lstat`, `remove` and the directory checks see.
- Upload.Upload: nothing is claimed about the file's contents after a refusal, only that no other path has changed.
- UploadAtomic.UploadAtomic: after a broken connection only the step-by-step claim remains, because the last rename may or may not have been handled.
- UploadAtomic.Verify: setuid, setgid and sticky bits are ignored by the check, so a complete file has its nine permission bits 0600 and any others the server sets.
- Pipelining.PipeliningChangesNothing: the server's refusals depend on the request alone, because with refusals that change between the two runs there is nothing to compare; what holds on every server is in EnsureDirsKeepsItsPromise and EnsureAllOnlyAdds.
- Directories.EnsureInDecides: the same, since which directory can be made is not fixed in advance otherwise.
- RollingBack.AFailureLeavesNothingExactlyWhen: the same, and for distinct paths.
- Directories.CheckExisting: the reasons for a wrong directory are one verdict; their wording is left out.
- Wire.DecodeReply: text is kept as bytes, so the lossy conversion of a status message to UTF-8 is not modelled.
- RemoteFs.ParentOf: control characters outside ASCII are not looked for, because paths are bytes here.
- Pool.SshRunner.Sftp: opening a session takes no time and never yields one that is already broken.
- `user_multiplexes` and the argument lists of `ssh`: single look-ups.
- RateLimiting.RateLimiter.Allow: the count of one window is not bounded at 2^32.
- ObjectStore.Store.Put: sizes are not bounded at 64 bits except where the code saturates.
- Worker.CliftRelay.Publish: the SQL statements are map updates; a failing statement or a failing alarm write is not modelled, and the random id is assumed fresh.
- Lifetimes.TheTwinsDifferExactlyWhen: the query is what follows the question mark, in bytes and without a number sign; the Worker's numbers are taken as exact, as they are up to its maximum while that is at most 2^53.
- Routing, headers, the health document and every response body of both relays.
- Hotkey warnings, the default combination and `token_to_redeem`.
- ConfigEdit.Document.Set: a document is a value here, so a walk through tables shared with other documents is not modelled; Rust's ownership rules it out.
- Rendering and parsing whole TOML documents, and the file handling around them.
- Sub-second instants before the epoch in `unix_seconds`.
- The command line `cmd.exe` receives from the startup script: only the program's line is read back.
