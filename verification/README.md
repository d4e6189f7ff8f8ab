# A verified model of the session manager

The session manager gives every user of a shared server one game container,
streams that container's log to the browser, and lets a user export and import
save folders. This project models four of its parts in Dafny and proves what
they promise. `dafny verify dfyconfig.toml` checks everything.

## The container lifecycle

`Lifecycle` is the container protocol as a labelled transition system. A state
holds the container table (user to id, stopping flag, last-seen time), the
docker daemon, the claims and program counters of all operations in flight, the
holder of the manager's mutex, and the clock. A request for a container
(`ensureContainer`) holds the mutex across four stages: look up, inspect, remove
by name, run. Logout, stop, export, admin delete and the idle reaper flag an
entry, run `docker stop` without the mutex, and then forget the entry if its id
is unchanged; an admin delete whose stop fails lifts the flag instead. An import
probes the container and clears a stale entry. Between any two steps containers
may die, and every docker command may fail.

`LifecycleInvariant` has the inductive invariant, `LifecycleTheorems` what
follows from it for every run: each user has at most one running container, and
each running container is some user's current one, an orphan of a failed stop, or
a stray from before startup; no flag outlives the operations that hold it; an old
claim never touches a newer container; a flagged user is refused; every operation
and every request is over after a bounded number of its own steps; the table stays
within its cap; the countdown shown to the user never promises more than the
reaper grants. `Manager` has the same critical sections as the program has
them, methods on a map of mutable records, each proved to do what the matching
step does; `ServeIsItsStages` shows that the whole of `ensureContainer` is its
stages run back to back.

The comment on `dockerListRunning` promises names that start with `df-`; docker's
filter matches anywhere in a name, and reconcile checks the prefix and the user
itself. The model does as the code does: the listing may hold other names.

Premises: `dockerIsRunning` tells the truth; container ids are never reused and a
container that stopped never runs again; docker keeps the names of containers
that exist unique; a `docker run` that fails leaves nothing running; at startup
the running containers were listed, those and no others. Which container docker
starts, which command fails and the order in which Go walks a map are choices a
step carries.

## The game log

`LineFramer` cuts chunks into lines as the tailer does, with its bounded buffer;
`TailFile` puts a file under it that grows and is now and then reset; `SessionLog`
is the ring of events and its fan-out to subscribers with bounded queues, as
functions and as the classes of the program; `Pipeline` has the tailer's loop as a
method and joins the two halves end to end. What classifies a line is a
parameter.

The tailer notices a reset by the file being shorter than its read offset. A reset
can come too late for that: the file is back at the offset or above it before its
size is looked at.
Lines then mix the old and the new content only where the read meets bytes in the
buffer; a log that was reset between two whole lines mixes nothing. The model keeps
the epoch of every buffered byte, and `LineJoinsIffTorn` says, for every run, exactly which
lines hold bytes of two epochs. `LateResetMixesEpochs` is a run with one, and
`LinesNeverMixEpochs` says that lines are contiguous pieces of one epoch everywhere
else. (It is about where bytes were read. A line that mixes epochs may by chance spell
something one of them holds.)

## Import and export

`Paths` models the cleaning of entry names with `path.Clean` as its documented
loop over a stack of components. `FileTree` models a directory tree as a map from
component sequences to directories and files. `Extraction` is one fold over
abstract entries, and `Extractors` has the two extraction loops as methods that
refine it. `SaveRoot` is the bounded search for the save folders, `Install` the
choice of a region slot and the install loop, and `Export` the walk that writes the
archive. `RoundTrip` has the whole import, of any archive next to any saves, and the
export followed by it.

Nothing at all may be written once the byte budget is used up, not even an empty
file, so "at most 1 GiB in total" does not decide whether an archive is taken.
`ExtractedExactly` has the exact condition on the entries: good names, supported types, no
two in each other's place, and a total less than the cap, or just the cap with a last
file that is not empty.

In `validateEntryName` the second test for an absolute path never fires; the model
keeps it.

The comment on `nextFreeRegion` promises a name that does not exist. The code looks
at directories only, and at numbers and not names: a directory `region01` occupies
slot 1, and a plain file `region1` occupies nothing and is replaced (`SlotCanBeTaken`).
The promise is broken exactly where a plain file has the name of the first slot no
directory occupies (`SlotIsTakenExactly`), so what `RegionsAreUntouched` protects is
directories.

Premises of the round trip, all in `RoundTrip.Exportable`: names hold no separators
and are not metadata, the total is below the cap, `data/save` is the first
directory in pre-order within reach of the search to hold a save folder, and there
are fewer than 10000 regions. Import and export run alone for their user.

## The session cookie

`Cookie` prints and parses the cookie in unpadded base64url (section 5 of RFC
4648), with Go's lenient decoder: line breaks are passed over and left-over bits
are not checked. The keyed hash and the formatting and parsing of timestamps are
parameters; a timestamp that is written is taken to hold no bar and to read back to
the whole second. A user name with a bar in it gets a cookie that is never accepted,
since the signature would have to hold a bar and is hexadecimal.

## Model

| member | source | states |
|---|---|---|
| `LifecycleInvariant.AdoptIsExact` | session-manager/manager.go:299-322 | A user has an entry at startup if and only if the user is known and a container named df- and the user was listed; the entry is for such a one, unflagged and seen just now. |
| `LifecycleInvariant.StraysAreExact` | session-manager/manager.go:307-312 | The containers startup leaves alone are exactly the running ones whose name is df- and a known user for no known user. |
| `LifecycleInvariant.BootEstablishes` | session-manager/manager.go:291-325 | What reconcile builds satisfies the protocol invariant: a running container is adopted or belongs to no known user. |
| `LifecycleInvariant.BootIsPossible` | session-manager/manager.go:291-325 | Startup is possible whatever containers a previous instance left. |
| `LifecycleInvariant.DeathsKeep` | session-manager/docker.go:184-190 | Containers dying or being removed at any moment, in any number, break no part of the invariant. |
| `LifecycleInvariant.BeginKeeps` | session-manager/manager.go:149-157 | A stopper's first critical section keeps the invariant: the entry it flags is claimed by an operation in flight. |
| `LifecycleInvariant.ReapKeeps` | session-manager/manager.go:638-647 | The reaper's scan keeps it, claiming any number of users in any order. |
| `LifecycleInvariant.StopKeeps` | session-manager/docker.go:136-143 | A stop command that returns, well or badly, keeps it: only a good return says the claimed container is dead, a bad one takes the admin delete to its abort and the others to dropping the entry. |
| `LifecycleInvariant.ProbeKeeps` | session-manager/admin.go:208-217 | An unlocked inspect that returns keeps it, whether it leads to a stop, to clearing a stale entry or, for an import, to giving up. |
| `LifecycleInvariant.FinishKeeps` | session-manager/manager.go:655-660 | The last critical section keeps it: an entry it drops was dead or becomes an orphan of a failed stop, and no flag is left without a claim. |
| `LifecycleInvariant.EnsureKeeps` | session-manager/manager.go:231-287 | Every stage of a request for a container keeps it, with docker commands of stoppers interleaved between the stages. |
| `LifecycleInvariant.StepKeeps` | session-manager/manager.go:147-172 | Every step of every operation, of the environment and of the clock keeps the invariant. |
| `LifecycleInvariant.InvariantHolds` | session-manager/manager.go:291-325 | The invariant holds in every state of every run from startup. |
| `LifecycleTheorems.RunningContainersAreAccountedFor` | session-manager/manager.go:231-287 | In every reachable state no two running containers share a name, and each one that is neither an orphan nor a startup stray is its user's current entry. |
| `LifecycleTheorems.OrphansComeFromFailedStops` | session-manager/manager.go:612-624 | Every orphan goes back to an earlier step of the run at which a stop command failed on that very container. |
| `LifecycleTheorems.DeadStaysDead` | session-manager/docker.go:184-190 | A container found dead at one time is dead at every later time, so the answer of an unlocked inspect can be acted on later. |
| `LifecycleTheorems.RepliesAreTrue` | session-manager/manager.go:231-287 | Over any run, whoever is told of a container has it: running, current, unflagged and just seen, and new if it was started; "session ending" is said only of a flagged entry and changes nothing, "server busy" only of a full table, and after an error the table is unchanged and nothing more is running. |
| `LifecycleTheorems.RemoveFreesTheName` | session-manager/docker.go:97-102 | Removing by name removes every container of the user and no other, so that from there a start can succeed whatever unused id docker gives it. |
| `LifecycleTheorems.FailedRemovalIsExact` | session-manager/docker.go:88-102 | A removal by name that fails is passed over; user directories that cannot be made end the request; neither changes docker. |
| `LifecycleTheorems.LaunchIsExact` | session-manager/docker.go:127-131 | A start adds one container under the name df- and the user, running or, if it failed half way, not, and changes no other. |
| `LifecycleTheorems.DeathIsExact` | session-manager/docker.go:182-203 | A container that dies or is removed on its own accord is that from then on; no other changes, nor does the table. |
| `LifecycleTheorems.StopIsExact` | session-manager/docker.go:136-143 | A stop that succeeds removes the claimed container and changes no other; one that fails changes none. |
| `LifecycleTheorems.BeginIsExact` | session-manager/manager.go:149-157 | An operation begins with a claim on the id of the user's entry; admin deletes and imports then look, the others stop. |
| `LifecycleTheorems.ProbeIsExact` | session-manager/admin.go:208-217 | An unlocked look changes nothing but the operation: a dead container goes on to be forgotten without a stop, a live one ends an import and is stopped by an admin delete. |
| `LifecycleTheorems.StopsComeToTheirEnd` | session-manager/admin.go:217-238 | Over any run: once a stop has returned, its operation next forgets the entry if it still has the claimed id; after a failure an admin delete instead keeps the entry, lifts its flag and is over, and any other operation that drops the entry leaves an orphan. |
| `LifecycleTheorems.ImportsStopNothing` | session-manager/saves_import.go:60-76 | No step of an import changes docker, or the table other than by dropping the entry of a dead container. |
| `LifecycleTheorems.NoFlagOutlivesItsStoppers` | session-manager/manager.go:597-624 | In every reachable state a flagged entry is claimed, by its exact id, by an operation in flight; with none in flight no entry is flagged. |
| `LifecycleTheorems.AnythingMayHappen` | session-manager/manager.go:147-172 | The model rules nothing out: at any moment time passes, containers die and commands succeed or fail, and whatever needs only the mutex may begin whenever it is free. |
| `LifecycleTheorems.OperationsFinish` | session-manager/manager.go:612-661 | Over any run an operation is over after at most as many steps of its own as its rank says, three for each claim and three more, whatever happens in between. |
| `LifecycleTheorems.CountIsExact` | session-manager/manager.go:649-661 | The steps counted in these bounds are those of the run that are meant, each once. |
| `LifecycleTheorems.OperationsAreNeverStuck` | session-manager/manager.go:612-624 | An operation always has a next step, except while it needs the mutex and a request holds it. |
| `LifecycleTheorems.RequestsAreNeverStuck` | session-manager/manager.go:231-287 | A request that holds the mutex always has a next stage. |
| `LifecycleTheorems.RequestsLetGo` | session-manager/manager.go:231-233 | Over any run a request lets the mutex go after at most three stages. |
| `LifecycleTheorems.OperationsAreIndependent` | session-manager/manager.go:649-661 | No step of anyone else changes an operation in flight. |
| `LifecycleTheorems.OldClaimsSpareNewContainers` | session-manager/manager.go:164-166 | An operation that claimed a container before another was started never stops, unflags or forgets the later one, whatever interleaves. |
| `LifecycleTheorems.FinishedClaimsStayForgotten` | session-manager/manager.go:620-624 | Once an operation has finished with a container other than by an abort, no user has an entry for that container at any later time of the run. |
| `LifecycleTheorems.UsersAreIsolated` | session-manager/docker.go:95-102 | No step taken for one user changes the entry or the container of another, removal by name included. |
| `LifecycleTheorems.ClaimsShutOutRequests` | session-manager/manager.go:235-241 | From the step at which a stopper or the reaper claims a container, until it leaves the table or an admin delete of it aborts, every request of its user is refused with nothing changed, and none is under way. |
| `LifecycleTheorems.TableRespectsCap` | session-manager/manager.go:252-255 | Over any run the table never exceeds the larger of the cap and its earlier size; within the cap once, it stays within. |
| `LifecycleTheorems.RunningContainersAreBounded` | session-manager/manager.go:252-255 | Running containers number at most the larger of the cap and what startup adopted, plus orphans and strays. |
| `LifecycleTheorems.CountdownIsSafe` | session-manager/manager.go:523-542 | If the countdown shows n > 0, the entry is within the idle timeout until n - 1 seconds later, truncation of both durations included. |
| `LifecycleTheorems.CountdownIsTight` | session-manager/manager.go:523-542 | If it shows n, the entry is idle beyond the timeout n + 1 seconds later. |
| `LifecycleTheorems.ReapableReportsZero` | session-manager/manager.go:638-646 | An entry the reaper may claim shows a countdown of zero. |
| `LifecycleTheorems.LastSeenNeverGoesBack` | session-manager/manager.go:566-574 | Whatever entry a user has later, it was last seen no earlier than the one of now. |
| `LifecycleTheorems.ReaperHonoursCountdown` | session-manager/manager.go:634-647 | A user shown n > 0 seconds is not claimed by the reaper for n - 1 seconds, whatever happens in between, respawns included. |
| `LifecycleTheorems.ReaperKeepsItsWord` | session-manager/manager.go:638-647 | A user shown n and not seen again is claimed by any scan from n + 1 seconds later on. |
| `LifecycleTheorems.ReaperHonoursPresence` | session-manager/manager.go:566-574 | A keepalive that finds an entry, a request that finds the container running and one that starts it all keep the reaper away for the whole idle timeout. |
| `Manager.ServeIsItsStages` | session-manager/manager.go:231-287 | The stages of a request, run back to back under the mutex, are one decision on the table and the daemon, the one the method below is proved against. |
| `Manager.AnswersAreExact` | session-manager/docker.go:97-131 | What that asks of docker's answers is what the stages ask: an unused id and a free name for a start. |
| `Manager.Manager.EnsureContainer` | session-manager/manager.go:231-287 | On mutable records, a request leaves the table and the daemon as that decision says and gives its reply. |
| `Manager.Manager.ReuseContainer` | session-manager/manager.go:235-250 | A flagged entry is refused and kept, a live one is touched and returned, a dead one is dropped, and no other changes. |
| `Manager.Manager.SpawnContainer` | session-manager/manager.go:265-286 | The name is freed, a container run, and an entry made only where the run succeeded; after a removal the new container is the only one that holds the name. |
| `Manager.Manager.Reconcile` | session-manager/manager.go:299-322 | The startup loop builds exactly the table of `Adopt`. |
| `Manager.Manager.FlagForStop` | session-manager/manager.go:595-605 | The claim is the id of the user's entry, which is flagged in place; nothing else changes. |
| `Manager.Manager.ForgetIfSame` | session-manager/manager.go:620-624 | The entry goes exactly if it still has the claimed id. |
| `Manager.Manager.UnflagIfSame` | session-manager/admin.go:224-228 | The flag goes exactly if the entry still has the claimed id. |
| `Manager.Manager.Keepalive` | session-manager/manager.go:566-574 | The last-seen time of the user's entry is now, if there is one, and nothing else changes. |
| `Manager.Manager.SessionStatus` | session-manager/manager.go:513-542 | Reads only; the idle time and the countdown are in whole seconds, truncated as the program truncates them. |
| `Manager.Manager.ReapScan` | session-manager/manager.go:638-647 | In whatever order the map is walked, every idle entry is flagged and claimed once, and no other. |
| `LineFramer.TrimCR` | session-manager/gamelog.go:194 | What is left is a prefix that ends in no CR, and only CRs were cut off. |
| `LineFramer.SplitIsExact` | session-manager/gamelog.go:189-195 | The pieces, each followed by a newline, and the rest make up the text again, and no piece holds a newline. |
| `LineFramer.SplitIsUnique` | session-manager/gamelog.go:189-195 | They are the only way to cut the text so. |
| `LineFramer.FramingIgnoresChunks` | session-manager/gamelog.go:182-205 | Fed in any chunks that never overflow the buffer, the tailer reports the lines of the whole text and keeps its unterminated tail. |
| `LineFramer.ShortLinesNeverOverflow` | session-manager/gamelog.go:161-188 | With lines of at most 61440 bytes and reads of at most 4096, the buffer never overflows. |
| `LineFramer.ShortLinesAreFramedExactly` | session-manager/gamelog.go:161-205 | Under these bounds every complete nonblank line is reported once and in order, trailing CRs trimmed, however the reads fall. |
| `LineFramer.BufferIsBounded` | session-manager/gamelog.go:186-188 | After every round the buffer holds at most 65536 bytes, for any input. |
| `LineFramer.LinesAreSlices` | session-manager/gamelog.go:189-203 | A reported line is a contiguous part of the text it was cut from. |
| `TailFile.AnythingMayHappen` | session-manager/gamelog.go:161-182 | The model rules nothing out: the file may grow or be reset at any moment, and a read may give any number of bytes up to 4096 that are there. |
| `TailFile.LineJoinsIffTorn` | session-manager/gamelog.go:170-204 | For every run: a reported line holds bytes of two epochs if and only if it is the first of its round and an earlier or the same read was of a new epoch at an offset of an old one, met a nonempty buffer with room, was followed by no newline, overflow or rewind since, and the line is longer than what was buffered before it. |
| `TailFile.LinesNeverMixEpochs` | session-manager/gamelog.go:170-184 | As long as no such line is completed, every line reported over the whole run is a contiguous piece of what one epoch of the file held. |
| `TailFile.LateResetMixesEpochs` | session-manager/gamelog.go:170-184 | The shortest run that completes one: an unterminated line, and a file reset to more than the read offset before its size is looked at. |
| `TailFile.StretchesAreFramedOneByOne` | session-manager/gamelog.go:170-205 | With room in the buffer, what is reported is the lines of what was read between one seek to the start and the next, each stretch split on its own; late resets included. |
| `TailFile.ShortLinesLeaveRoomInRuns` | session-manager/gamelog.go:182-188 | If no line that was read is longer than 61440 bytes, no read of the run overflows the buffer, whatever was reset or rewound. |
| `TailFile.WithoutResetsInTime` | session-manager/gamelog.go:174-180 | A file that is never reset is always read in time. |
| `TailFile.StretchesAreEpochs` | session-manager/gamelog.go:174-180 | Where no read is late, those stretches are what each epoch of the file started with. |
| `TailFile.ShortEpochsAreReadShort` | session-manager/gamelog.go:174-188 | And then short lines in every epoch of the file are short lines in what was read. |
| `SessionLog.RingIsTheLastEvents` | session-manager/gamelog.go:82-85 | The ring is the last 500 of all events ever appended. |
| `SessionLog.EventsAreConserved` | session-manager/gamelog.go:80-131 | Received, queued, taken drops and pending drops add up to what was replayed and appended; what a client gets keeps its order; at most 64 are queued. |
| `SessionLog.OfferedIsReplayThenAppended` | session-manager/gamelog.go:96-110 | A subscriber is offered the last 50 events of the ring and then every event appended since. |
| `SessionLog.DropsHappenExactlyWhenFull` | session-manager/gamelog.go:86-92 | An event is lost exactly when 64 are queued as it is appended, and then nothing queued is. |
| `SessionLog.NothingLostIffNeverFull` | session-manager/gamelog.go:86-92 | No drop is counted over a run if and only if the queue was never full when an event came. |
| `SessionLog.LosslessIffNeverFull` | session-manager/gamelog.go:86-110 | A client has or will get all it was offered, once and in order, if and only if its queue was never full when an event came. |
| `SessionLog.Log.Append` | session-manager/gamelog.go:80-94 | The ring takes the event, and every subscriber is offered it once, by a send that cannot block. |
| `SessionLog.Log.Subscribe` | session-manager/gamelog.go:96-110 | The new subscriber has the replay queued, every send of it made with room in the queue, and is registered last. |
| `SessionLog.Log.Unsubscribe` | session-manager/gamelog.go:112-121 | Exactly that subscriber leaves, the order of the others kept. |
| `SessionLog.Log.TakeDrops` | session-manager/gamelog.go:125-131 | The count is returned and set to zero; the queue is as it was. |
| `Pipeline.Tailer.CheckSize` | session-manager/gamelog.go:174-180 | Position and buffer start over if the file is shorter than what was read, and only then. |
| `Pipeline.Tailer.Drain` | session-manager/gamelog.go:189-204 | The loop appends the complete nonblank lines of the buffer to the log, in order, for every subscriber, and leaves the rest. |
| `Pipeline.Tailer.Read` | session-manager/gamelog.go:182-205 | One read moves the ring and every subscriber on by exactly the lines it completed, and the buffer stays within its bound. |
| `Pipeline.Tailer.Poll` | session-manager/gamelog.go:174-205 | One turn of the loop takes position and buffer to where the model of the file has them, and reports the lines the read completed to the log and every subscriber. |
| `Pipeline.EventsAreTheLines` | session-manager/gamelog.go:199-203 | Between any two moments of a run, resets and overflows included, the events are the lines framed, one for one. |
| `Pipeline.RingHoldsTheLastLines` | session-manager/gamelog.go:80-85 | At every moment of every run, resets and overflows included, the ring holds the last 500 lines framed. |
| `Pipeline.RingHoldsTheFile` | session-manager/gamelog.go:80-85 | If no line that was read is longer than 61440 bytes, that is the last 500 complete nonblank lines of what was read of the file, stretch after stretch. |
| `Pipeline.ClientFollowsTheLog` | session-manager/gamelog.go:86-92 | A client in a run moves on as the methods of the tailer and the log say of every subscriber. |
| `Pipeline.ClientReceivesOne` | session-manager/gamelog.go:260-268 | A client that receives takes the first event queued and nothing else changes; with none queued nothing does. |
| `Pipeline.ClientTakesItsDrops` | session-manager/gamelog.go:125-131 | A client that takes its drops is told all counted so far, the count starts over, and nothing else changes. |
| `Pipeline.ClientSeesTheFile` | session-manager/gamelog.go:96-110 | A client that joins at any moment of any run is offered the last 50 lines framed so far and then every later line; it gets them all, once and in order, if and only if its queue is never full when one comes. |
| `Paths.WalkIsReach` | session-manager/saves_import.go:339-347 | The stack of path.Clean ends without ".." if and only if the walk along the components never goes above its start, and is then where the walk ends. |
| `Paths.AcceptedIffInside` | session-manager/saves_import.go:330-349 | A nonempty name is accepted if and only if, with slashes for backslashes, it starts with neither "/" nor ".//" and its lexical walk never goes above its start. |
| `Paths.AcceptedNamesAreCanonical` | session-manager/saves_import.go:330-349 | What is accepted has only proper components, is where the name with slashes for backslashes leads, and is accepted unchanged again. |
| `Paths.RefusalsAreExact` | session-manager/saves_import.go:330-349 | A name is refused as empty, as absolute or as going above its start exactly where it is that. |
| `Paths.JoinOfSplit` | session-manager/saves_import.go:343-343 | The components of a path, joined by slashes, are the path again, and none has a slash. |
| `Paths.NamesAreCanonical` | session-manager/saves_import.go:330-349 | Proper components joined by slashes are accepted as they are. |
| `Paths.MetadataByComponents` | session-manager/saves_import.go:352-358 | On a clean name the metadata test is on the first and the last component. |
| `FileTree.MkdirAllExact` | session-manager/saves_import.go:381-391 | os.MkdirAll succeeds if and only if no component is a file, adds the missing directories and nothing else, and keeps the tree prefix-closed. |
| `FileTree.LessIsByBytes` | session-manager/saves_import.go:296-297 | The order of a listing is byte by byte: a beginning before what it begins, and otherwise by the first place where two names differ. |
| `FileTree.ReadDir` | session-manager/saves_import.go:509-514 | A listing has every name in the directory once, ascending. |
| `Extraction.ItemsByComponents` | session-manager/saves_import.go:368-379 | An entry asks for nothing outside the destination: it is refused, skipped for the destination itself or metadata, or about the place its name leads to. |
| `Extraction.ExtractionIsFaithful` | session-manager/saves_import.go:361-400 | The extracted tree holds a directory for every path an entry is at or below and in each file the data written last, and nothing else; the counters count the files and bytes accepted. |
| `Extraction.ExtractedExactly` | session-manager/saves_import.go:361-400 | An archive is extracted if and only if no name is bad, no type unsupported, no file is wanted where another entry needs a directory, and the total is below the cap or is the cap with a last file that is not empty. |
| `Extraction.BudgetIsExact` | session-manager/saves_import.go:463-497 | Of the archives a larger budget lets through, exactly those that fit are extracted, to the same tree; the others fail with the budget error. |
| `Extraction.BelowTheCapNeverOverBudget` | session-manager/saves_import.go:475-497 | A total below the cap never fails on the budget. |
| `Extraction.DiskBytesAreFileSizes` | session-manager/saves_import.go:479-496 | The bytes on disk are those of the files: each new one adds its size, directories add none. |
| `Extraction.DiskIsWithinBudget` | session-manager/saves_import.go:492-496 | The bytes on disk are at most the bytes counted, and at most the cap on every exit. |
| `Extraction.CopyIsAtMostOneOver` | session-manager/saves_import.go:483-491 | At every moment of a copy the disk is at most one byte over the cap. |
| `Extraction.MostHeldCovers` | session-manager/saves_import.go:483-491 | The most held, as the loops keep it, covers every moment of every copy, cut ones included. |
| `Extraction.MostHeldIsOneOver` | session-manager/saves_import.go:475-497 | The most held is at most one byte over the cap. |
| `Extractors.Staging.WriteLimitedReader` | session-manager/saves_import.go:475-497 | A file that fits is written whole, one that does not is removed again, and nothing else on disk changes; the most held takes in the cut copy. |
| `Extractors.ExtractItem` | session-manager/saves_import.go:439-456 | One turn of either loop is one step of the fold, on success and on every error, and takes the most held one item further. |
| `Extractors.ExtractZip` | session-manager/saves_import.go:361-400 | The loop over a zip leaves the tree, counts and error of the fold over its entries; the most the disk held is exactly that of the fold, at least what it holds now and at most one byte over the cap. |
| `Extractors.ExtractTarGz` | session-manager/saves_import.go:403-459 | The same for the loop over a tar, extension headers passed over. |
| `Extraction.ErrorsAreTrue` | session-manager/saves_import.go:361-400 | An extraction that fails names something that is wrong with the archive: a bad name, an unsupported type, two entries in each other's place, or the budget. |
| `Extractors.ZipFilesAreExact` | session-manager/saves_import.go:368-398 | A zip that is extracted leaves at a path a file with some data if and only if that is the data of the last regular entry whose accepted name leads there and is no clutter. |
| `Extractors.ZipNodesAreExact` | session-manager/saves_import.go:368-398 | It leaves a node exactly at and above the places of its file and directory entries that are accepted and no clutter. |
| `Extractors.ZipIsTakenExactly` | session-manager/saves_import.go:361-400 | A zip is extracted if and only if every name is good, no special entry lands anywhere, no two entries land in each other's place, and the sizes of the files that land fit 1 GiB; those files and bytes are counted. |
| `Extractors.TarFilesAreExact` | session-manager/saves_import.go:416-457 | The same as for a zip, of the regular entries of a tar. |
| `Extractors.TarNodesAreExact` | session-manager/saves_import.go:416-457 | The same, of its regular and directory entries. |
| `Extractors.TarIsTakenExactly` | session-manager/saves_import.go:403-459 | The same, with the names of extension headers not looked at. |
| `Extractors.FormatsAgree` | session-manager/saves_import.go:361-459 | A zip and a tar with the same entries, extension headers aside, give the same tree, the same counts and the same error. |
| `SaveRoot.SaveDirsIn` | session-manager/saves_import.go:508-523 | The save folders of a directory are its subdirectories that directly hold world.sav, all of them, ascending. |
| `SaveRoot.FindsTheFirstSaveRoot` | session-manager/saves_import.go:289-306 | The search returns the first directory in pre-order within its depth to hold a save folder, with all its save folders, and none if and only if there is none. |
| `SaveRoot.BeforeIsStrict` | session-manager/saves_import.go:296-304 | Pre-order is a strict order, so the first one is unique. |
| `Install.RegionNamesAreExact` | session-manager/saves_import.go:26-28 | A region name is "region" and then decimal digits, at least one. |
| `Install.RegionNameReadsBack` | session-manager/saves_import.go:540-547 | A slot name matches the region pattern and reads back as its number. |
| `Install.LowestFreeIsLowest` | session-manager/saves_import.go:545-550 | The slot chosen is unused and every lower one is used; there is none only if all below 10000 are used. |
| `Install.NextFreeRegion` | session-manager/saves_import.go:527-551 | The loops find that slot in the directory listing. |
| `Install.TargetIsNew` | session-manager/saves_import.go:238-248 | No target is a region directory that is already there. |
| `Install.SlotIsTakenExactly` | session-manager/saves_import.go:525-551 | nextFreeRegion gives a name that exists already if and only if, before the call, a plain file has the name of the first slot below 10000 that no directory occupies. |
| `Install.SlotCanBeTaken` | session-manager/saves_import.go:525-551 | A directory in which it does: a plain file region1 and nothing else. |
| `Install.TargetKeepsKind` | session-manager/saves_import.go:238-248 | A target is a region name if and only if the save had one, so other saves never take a slot. |
| `Install.OneInstallIsExact` | session-manager/saves_import.go:249-270 | What one turn leaves at its target and of its source for every answer of the file system: the save moved whole, nothing where the rename failed, and no more than what could not be removed where a removal or a change of owner failed. |
| `Install.RegionsAreUntouched` | session-manager/saves_import.go:234-271 | On every exit of the loop every region directory that was there is as it was, byte for byte. |
| `Install.InstalledStays` | session-manager/saves_import.go:234-271 | What the loop has installed stays as it is whatever happens to the saves that follow. |
| `Install.InstallIsExact` | session-manager/saves_import.go:234-271 | On every exit the installed names are pairwise distinct and hold, in order and unchanged, the first saves of the archive; on success all of them. |
| `Install.Volume.InstallSaves` | session-manager/saves_import.go:234-271 | The loop in place does what that function says, on success and where each call fails. |
| `Export.WalkVisitsAll` | session-manager/manager.go:351-378 | The walk visits exactly what is at or below its start. |
| `Export.WalkIsInPreOrder` | session-manager/manager.go:351-378 | It visits in ascending pre-order, so nothing twice. |
| `Export.ContentIsExact` | session-manager/manager.go:393-401 | There is something to export if and only if some node lies below data or config. |
| `Export.EntriesAreExact` | session-manager/manager.go:359-377 | The archive has one entry for every node visited, in their order: its path with slashes, what it is, and in a file's what it holds. |
| `Export.StreamSavesTarball` | session-manager/manager.go:336-389 | There is an archive if and only if one of the two directories holds something, and it has one entry per visited node, data first. |
| `Export.KeptIffPortable` | session-manager/manager.go:359-378 | An exported node reads, at the import, as that very directory or file if and only if its path is portable: no separator in a name, and neither clutter nor below __MACOSX. |
| `Export.ExportUnpacksToThePart` | session-manager/manager.go:336-389 | Unpacking an export gives back exactly the exported part of the tree. |
| `RoundTrip.ImportIsExact` | session-manager/saves_import.go:182-271 | Whatever the archive, the saves that are there and the answers of the file system: an archive is turned down for its entries or for holding no save folder within reach, and otherwise the first of the folders of its first save root are installed, unchanged and apart, all of them on success, and every region directory that was there is as it was. |
| `RoundTrip.FoundSavesCanBeInstalled` | session-manager/saves_import.go:207-211 | The folders the search finds meet what the install loop needs. |
| `RoundTrip.FirstSaveRootIsFound` | session-manager/saves_import.go:207-207 | The directory that is first in pre-order to hold a save folder is the one found. |
| `RoundTrip.RegionsAreRenamedInOrder` | session-manager/saves_import.go:235-248 | With nothing in the way every save is installed, regions getting consecutive slots in the order of the directory and others keeping their names. |
| `RoundTrip.InstalledIffSlots` | session-manager/saves_import.go:545-550 | With nothing else in the way, every save is installed if and only if there is a slot below 10000 for every region. |
| `RoundTrip.NothingElseAppears` | session-manager/saves_import.go:234-271 | Nothing but the installed saves changes. |
| `RoundTrip.ExportThenImport` | session-manager/saves_import.go:202-271 | An export, imported where there are no saves, brings back every save folder byte for byte, regions renumbered in directory order, other names kept, and nothing else. |
| `Cookie.Base64ReadsBack` | session-manager/session.go:21-21 | Decoding an encoded payload gives the payload. |
| `Cookie.DigitsAreTheAlphabet` | session-manager/session.go:21-21 | The digits are A to Z, a to z, 0 to 9, "-" and "_", in that order. |
| `Cookie.BreaksAreIgnored` | session-manager/session.go:49-49 | CR and LF are passed over wherever they are, and nothing else is. |
| `Cookie.DecodeIsExact` | session-manager/session.go:49-52 | A text decodes to some bytes if and only if, CR and LF aside, it is digits of the alphabet, not one more than a multiple of four, that these bytes are written with, bits left over aside. |
| `Cookie.SplitIsExact` | session-manager/session.go:54-58 | The split at the first two bars is the only way to write a payload as two bar-free parts and a rest. |
| `Cookie.AcceptedIffSigned` | session-manager/session.go:44-71 | A payload is accepted for a user if and only if it is the user, a readable time at most seven days ago, and the signature of the two. |
| `Cookie.SignaturesAreMacs` | session-manager/session.go:73-77 | A signature reads back as the keyed hash of what is signed, so two payloads have the same one if and only if they have the same hash. |
| `Cookie.AcceptedCarriesItsMac` | session-manager/session.go:59-62 | What is accepted for a user carries the keyed hash of that user and that time; a signature made for another payload is accepted only where the two have the same hash. |
| `Cookie.BarInUidIsRefused` | session-manager/session.go:54-62 | A user name with a bar in it always fails the signature. |
| `Cookie.CookieReadsBackForSevenDays` | session-manager/session.go:18-31 | The cookie that is set names its user until exactly seven days after the second it was issued in, if and only if the name has no bar. |

## Left out

- HTTP plumbing, request proxies, event-stream formatting, logins, tilesets, the journal, the game's own interface and every script and page: input and output, or plain map updates that would only add easy members.
- The user store is a set of known users at startup. Deleting the user record and directory after an admin's stop is not modelled, and a container may be started between the two.
- The formats of gzip, tar and zip, the keyed hash, the patterns that classify a line, and the parsing of timestamps: archives are lists of entries, the others are parameters.
- The map of session logs, which is keyed by user and not by container: a late stopper may end the log of a newer session, and nothing is claimed about that.
- `sessionLog.stop` and the event that tells a client the session ended; the tailer's wait of up to 30 seconds for the file; read, stat and seek errors of the tailer.
- Wrap-around of the 64-bit drop counter and saturation of 64-bit durations; times and counts are unbounded integers.
- Containers in the table are identified by the string docker reports; that docker also accepts a prefix of an id is not modelled.
- The pointer a request returns to its caller, which a proxy may read after its entry has left the table.
- Errors of the file system in extraction other than a file and a directory in each other's place; errors while an export is walked, which end that half of it early.
- A directory of saves that is missing when a slot is chosen, where the program answers region1: the import creates it first.
- Modes, owners and times of files; symbolic links and other special nodes in a user's tree.
- Two imports for one user at once: the choice of a slot and the rename are not one step, and their safety is not claimed.
- The signature that tells a client whether a live snapshot was consistent, and the rest of the snapshot request.
- The upload itself, its size limit and the test of its first bytes.
- Install.Volume.InstallSaves: a removal that fails leaves an arbitrary subset of the target behind, named by the call's answer; which one is up to the file system.
