# A verified model of the 9pfsPkg client

9pfsPkg lets UEFI applications use a 9P2000.L server through the UEFI file protocol. This Dafny
project models the driver's own logic and proves what its callers rely on: the calendar arithmetic
behind file times, path walking and the life of fids over whole sessions, directory listing, chunked
file reads over a segmented TCP stream, the wire format, fragment tables and address parsing.

`dafny verify dfyconfig.toml` checks everything.

## How the pieces fit

- `Ints`, `Bytes`, `Statuses`: fixed-width integers, little-endian fields, EFI_STATUS and Rlerror.
- `Calendar`, `EfiTimes`: the Gregorian calendar one day at a time, and `EpochToEfiTime` against it.
- `Paths`: the tokeniser and the backward file-name scan as loops over CHAR16 strings, and their laws.
- `P9Strings`, `Wire`, `Messages`, `Replies`, `Transport`, `Ipv4`: strings, requests and a generic parser
  for them, replies read by offsets, fragment tables, the lock-step exchange, and the address parser.
- `Decoding`, `Server`: every message read back by the protocol's own numbers, and the server at the
  other end, which decides on what it decodes from the bytes that the driver sends.
- `Protocol`: the server as a tree and a table of fids. Every exchange meets a *fate* from a script:
  served, refused with an Rlerror, lost before the server, or lost after the server has acted. The
  theorems quantify over all scripts.
- `Walking`, `WalkLaws`, `WalkFates`: `P9Walk` as a function of the connection, its refinement of path
  resolution, its algebraic laws, and what it leaves on the server for every script of fates.
- `Operations`, `Answers`, `Directories`, `Listings`: open, close, attributes and directory reads; what
  each call returns for every script of fates; what repeated calls deliver of a listing, for any names
  and buffer sizes.
- `Volumes`, `Sessions`, `Conservation`: startup, arbitrary runs of calls, and accounting of fids for
  every script.
- `Limits`, `Wraps`: the exact conditions under which the session invariant breaks: by an Rlerror with
  code 0, for every script while the counter is at most NOFID, and by the counter coming round, for every
  counter and every script without code 0.
- `Reading`, `ReadLaws`, `Chunks`, `FileRuns`: the receive loop of `P9LRead`, what it makes of a reply cut
  anywhere into segments, `P9FileRead` as one contiguous read, and successive reads as one.
- `Files`, `Driver`: `P9_IFILE` and `P9_VOLUME` as classes, which build request buffers, pass them to the
  server and read its replies from their receive buffers. Each method is proved to compute its function,
  and each call on a volume (`P9Open`, `P9Close`, `P9Read`, `P9SetPosition`) is proved to be
  one step of the session machine, so the run theorems apply to the objects.

The server follows intro(5), walk(5), clunk(5) and read(5) of the Plan 9 manual with the 9P2000.L
messages, and these choices: a walk may start from a fid that has been opened (`P9DirRead` and
`P9Open` depend on it); newfid may equal fid, and then the binding moves; a clunk answered by an
error has removed the fid all the same; directory cookies are positions in the listing.

## What the proofs found

Where the code falls short of what its callers expect, the exact condition is proved for all inputs.

- An Rlerror with code 0 counts as success. A call breaks the session invariant if and only if it is an
  open whose path ends, by the fates of its walks, and that is answered so itself, or the first read of a
  directory whose open is answered so (`Limits.StepSafeIff`, and `Limits.RunSafeIff` over runs). The
  handle then has a fid that the server does not know, or does not have open (`Limits.OpenLiveIff`).
- When the 32-bit fid counter comes round to the very fid that a walk starts from, the server binds that
  fid anew. If the first name leads to another node, the fid is moved (`Limits.OpenKeepsIff`); if the
  walk has one step, as for `.` or `\`, the new handle shares the fid, and closing one takes it from the
  other (`Wraps.HandleSharesIff`, `Wraps.WrappedCounterSharesFid`); and a fid that was open is open no
  more. `Wraps.StepKeepsIff` and `Wraps.RunKeepsIff` say exactly which calls do harm, with no bound on
  the counter. Any other number in use, and NOFID, is refused by the server and nothing changes
  (`WalkFates.BusyFidRefused`).
- Paths such as `.\.` make `P9Walk` report success with an uninitialised fid; `Walking.TargetSetIff`
  says exactly which paths, and `Limits.UnsetTargetClunksRoot` what may follow.
- Intermediate fids of a walk, and the fid of a file whose open fails, are never clunked: over every run
  the fids that no handle holds never become fewer (`Conservation.RunLeaks`).
- `P9LRead` counts received bytes against the data count without the header. A reply shorter in total
  than the count never ends the loop, so an Rlerror to a read of more than 11 bytes waits for ever
  (`ReadLaws.ErrorReplyRead`), and so does a file read in which some chunk asks for more than 11 bytes
  beyond what is left (`Chunks.FileReadContiguous`; `Chunks.FullReadIff` gives the sizes).
- The loop stops at the first segment boundary at the count or beyond. Bytes of the reply behind it stay
  unread on the stream (`ReadLaws.CutInsideLosesSync`), and the caller gets EFI_SUCCESS, the full count
  and zeros in their place, in `P9LRead` (`ReadLaws.LReadAnyCut`) and in `P9FileRead`
  (`Chunks.FileReadAnyCut`). The delivered bytes are right if and only if the bytes cut off are zeros
  or part of the tag (`ReadLaws.LReadExactIff`).
- `P9FileRead` never sets BufferSize, so a short read of a file looks like a full one
  (`Driver.P9Volume.P9Read`).
- `P9DirRead` reports the end of a directory also in front of a name of more than 255 bytes, which does not
  fit the count that it asks for (`Answers.EndOfListingIff`); an Rlerror with code 0 to its Treaddir reads as
  an entry with an empty name (`Answers.DirReadAnswers`).
- An Rlerror with code 0 to the attach gives a root whose fid the server does not know
  (`Volumes.FirstStartIff`).
- A size that is an exact positive multiple of the unit loses its last chunk or fragment
  (`Chunks.FullReadIff`, `Transport.FragmentsTile`).
- An Rlerror to a clunk or to a walk without names does not fit the receive buffer, and a reply that
  arrives in several segments is received only up to the first: either way later exchanges read out of
  step (`Transport.LockStepAligned`).
- A listing stops for good at the first entry whose name, walked as a path, is not found
  (`Listings.ListingDelivered`, `Listings.CompleteIff`). On the root handle these are the names starting
  with `..` (`Listings.ConsistentCompleteIff`); a name with a backslash is walked as several components
  (`Listings.SeparatorsSplit`). A leading `.\` disarms the guard of the root (`WalkLaws.DotInsertion`).
- A directory whose Qid type has bits besides QTDIR can be positioned anywhere, because `P9SetPosition`
  compares the whole type where `P9Read` tests the bit (`Directories.SeekInDirectory`).
- The target of a symbolic link of 4096 bytes or more is reported as success with the text of an earlier
  read (`Directories.SymLinkDelivered`).
- After a first OpenVolume that fails, later ones report success without a root handle if and only if
  TCP had been configured (`Volumes.FailedStartLooksOpen`). A first OpenVolume that finds TCP connected
  already reports success without a root handle too (`Volumes.FirstRootIff`).
- An address setting without a port leaves the port of the TCP4 configuration uninitialised
  (`Volumes.PortsSetIff`).
- `AsciiStrToP9StringS` stays within DestMax only for sources no longer than it (`P9Strings.BoundKeptIff`).
- File times of year 65536 and later lose the year (`EfiTimes.ConversionInvertible`).
- An octet of 2^64 or more wraps around and may be accepted (`Ipv4.DottedParses`).

## Model

| member | source | states |
|---|---|---|
| EfiTimes.ChainSplitsTheDay | 9pfsDxe/9pLibGetAttr.c:48-58 | for every 64-bit input the chain splits the day number exactly into a March-based year and a day of it, and no subtraction up to there underflows |
| EfiTimes.ChainSplitsTheMonth | 9pfsDxe/9pLibGetAttr.c:59-60 | the first subtraction of d always underflows, and the modular result is still the exact day of the month |
| EfiTimes.ConversionIsCalendar | 9pfsDxe/9pLibGetAttr.c:48-75 | year (cut to 16 bits), month and day are those reached by stepping EpochSeconds/86400 days from 1970-01-01, and the time of day is the remainder |
| EfiTimes.ConversionInvertible | 9pfsDxe/9pLibGetAttr.c:48-75 | re-encoding by summing year and month lengths gives the seconds back exactly when the year fits its field |
| EfiTimes.ConversionOrdered | 9pfsDxe/9pLibGetAttr.c:48-75 | earlier seconds give lexicographically smaller times while the year fits |
| Calendar.DayNumberInverts | 9pfsDxe/9pLibGetAttr.c:21-23 | the day-by-day calendar used as specification agrees with counting whole years and months |
| Operations.InfoCarriesAttributes | 9pfsDxe/9pLibGetAttr.c:136-149 | file information carries sizes, and create, modification and access times that convert back |
| Operations.DirectoryAttribute | 9pfsDxe/9pLibGetAttr.c:148 | the directory attribute is set exactly for mode type 4, whatever the other bits |
| Driver.P9Volume.P9GetAttr | 9pfsDxe/9pLibGetAttr.c:79-163 | sends the Tgetattr for all attributes; status, Qid refresh and file information, nothing changed on errors |
| Paths.P9GetNextNameComponent | 9pfsDxe/9pLibWalk.c:11-27 | the loops put the leading component and a NUL into the buffer, touch nothing else of it, and skip all separators behind it |
| Paths.ScanInvertsSpell | 9pfsDxe/9pLibWalk.c:170-178 | tokenising the join of any components with any positive numbers of separators gives the components back |
| Paths.SpellInvertsScan | 9pfsDxe/9pLibWalk.c:11-27 | every path without leading separator is the join of its components, none of which contains a separator |
| Paths.ScanAppends | 9pfsDxe/9pLibWalk.c:170-178 | scanning p\q is scanning p and then q |
| Paths.NamesIgnoreDotsAndGaps | 9pfsDxe/9pLibWalk.c:170-182 | "." components and separator runs do not change the names walked |
| Paths.GetFileNameFromPath | 9pfsDxe/Open.c:19-39 | the backward loop returns the longest separator-free suffix |
| Paths.FileNameIsLongestSuffix | 9pfsDxe/Open.c:31-36 | that suffix has no separator and starts the path or follows one |
| Paths.BackwardMeetsForward | 9pfsDxe/Open.c:24-38 | the backward scan finds the last component of the forward scan exactly when there is no trailing separator |
| Operations.HandleNamedAfterLastComponent | 9pfsDxe/Open.c:132 | a handle is named after the last component scanned by its walk exactly when the path has no trailing separator |
| P9Strings.AsciiStrToP9StringS | 9pfsDxe/9pLib.c:212-239 | refuses a zero bound, otherwise writes length and characters in place and nothing beyond them |
| P9Strings.BoundKeptIff | 9pfsDxe/9pLib.c:226-236 | the ASCII converter stays within DestMax exactly for sources no longer than it, the Unicode one always |
| P9Strings.UnicodeStrToP9StringS | 9pfsDxe/9pLib.c:241-268 | refuses a zero or too small bound, otherwise writes length and narrowed characters and nothing beyond them |
| P9Strings.P9StringToUnicodeStrS | 9pfsDxe/9pLib.c:270-295 | widens the characters, puts the NUL at index Size, and writes nothing beyond it |
| P9Strings.UnicodeRoundTrip | 9pfsDxe/9pLib.c:241-295 | both conversions together are the identity exactly on strings of at most 65535 characters that survive CHAR8 |
| P9Strings.P9StringReadsBack | 9pfsDxe/9p.h:49-52 | a P9String reads back exactly when its length fits the 16-bit Size |
| Messages.BuildVersion | 9pfsDxe/9pLibVersion.c:25-38 | the buffer holds exactly the encoded Tversion, with the characters 9P2000.L |
| Messages.BuildAttach | 9pfsDxe/9pLibAttach.c:31-50 | the buffer holds exactly the encoded Tattach, AName right after UName, also for empty names |
| Messages.BuildWalk | 9pfsDxe/9pLibWalk.c:46-65 | the buffer holds exactly the encoded Twalk with no name or one narrowed name |
| Messages.BuildOpen | 9pfsDxe/9pLibLOpen.c:27-31 | the buffer holds exactly the encoded Tlopen |
| Messages.BuildGetAttr | 9pfsDxe/9pLibGetAttr.c:97-101 | the buffer holds exactly the encoded Tgetattr |
| Messages.BuildRead | 9pfsDxe/9pLibRead.c:93-98 | the buffer holds exactly the encoded Tread, or Treaddir as in 9pLibReadDir.c |
| Decoding.DecodeInvertsEncode | 9pfsDxe/9p.h:61-240 | a parser that knows only the protocol's message numbers reads every request back as itself with its tag, if and only if all lengths fit their fields |
| Decoding.DecodeInvertsEncodeReply | 9pfsDxe/9p.h:61-240 | the same for every reply, by message number and field widths |
| Server.Hears | 9pfsDxe/9pLib.c:176-190 | the server decides on the request that the driver has put into its bytes |
| Transport.FillFragmentTable | 9pfsDxe/9pLib.c:36-49 | the loop fills the specified table |
| Transport.FragmentsTile | 9pfsDxe/9pLib.c:36-49 | fragments are adjacent, in order and inside the buffer, and cover all of it exactly when the size is no positive multiple of 576, otherwise all but the last 576 bytes |
| Transport.Connection.DoP9 | 9pfsDxe/9pLib.c:132-210 | one request out, one receive of what has arrived, and what stays unread |
| Transport.LockStepAligned | 9pfsDxe/9pLib.c:176-204 | over any run of conforming replies in any segments the i-th receive delivers exactly the i-th reply, if and only if every reply comes in one segment and no clunk and no nameless walk gets an Rlerror |
| Replies.GetAttrReplyReadsBack | 9pfsDxe/9p.h:132-154 | the 160 bytes of an Rgetattr give back the Qid and every attribute that P9GetAttr reads, at the offsets of the packed structure |
| Replies.OpenReplyReadsBack | 9pfsDxe/9pLibLOpen.c:55-56 | the Rlopen gives back Qid and IoUnit |
| Replies.AttachReplyReadsBack | 9pfsDxe/9pLibAttach.c:75-75 | the Rattach gives back the Qid |
| Replies.WalkReplyReadsBack | 9pfsDxe/9pLibWalk.c:90-92 | the Rwalk for one name gives back its Qid |
| Statuses.P9Error | 9pfsDxe/9pLibError.c:37-63 | the size guard, the id check and the table loop compute the specified status |
| Statuses.ErrorReplyStatus | 9pfsDxe/9pLibError.c:46-62 | an Rlerror gives the status of its code, success exactly for code 0, and needs 11 bytes |
| Ipv4.StrToIpv4Addr | 9pfsDxe/9pLibConfigure.c:11-55 | the nested loops compute the specified parse and fill the address in place |
| Ipv4.DottedParses | 9pfsDxe/9pLibConfigure.c:26-41 | four dotted digit strings are accepted exactly when each value modulo 2^64 is at most 255, and delivered as those values |
| Ipv4.PortParses | 9pfsDxe/9pLibConfigure.c:43-52 | a port of any number of digits gives its value modulo 65536 |
| Ipv4.ParseInvertsPrint | 9pfsDxe/9pLibConfigure.c:26-52 | parsing undoes printing for any octets, port and leading zeros |
| Driver.P9Volume.GetFid | 9pfsDxe/9pLib.c:11-19 | the 32-bit counter, wrap-around included |
| Driver.P9Volume.DoP9Walk | 9pfsDxe/9pLibWalk.c:29-104 | sends one Twalk; status of the exchange and its NewQid |
| Driver.P9Volume.P9Walk | 9pfsDxe/9pLibWalk.c:106-199 | the loop computes Walk, writes the new handle only on success, and changes nothing else |
| Walking.WalkNamesExact | 9pfsDxe/9pLibWalk.c:170-194 | the loop succeeds exactly when the names resolve, and leaves exactly the trail of bindings of the names that do |
| Walking.TrailAdds | 9pfsDxe/9pLibWalk.c:184-191 | a trail of j steps adds exactly j consecutive fids and keeps all others |
| Walking.WalkRefinesResolve | 9pfsDxe/9pLibWalk.c:106-199 | with no errors but missing components P9Walk succeeds exactly when the path resolves past the guard; the target is bound to the resolved node, earlier bindings stay, fids used and left are counted |
| Walking.TargetSetIff | 9pfsDxe/9pLibWalk.c:170-198 | a successful result is independent of the uninitialised locals exactly for the paths characterised, otherwise it is those locals |
| WalkFates.WalkBindsExactly | 9pfsDxe/9pLibWalk.c:106-199 | for every script of fates a walk keeps all fids and binds consecutive new ones, as many as requests that the server acts on |
| WalkFates.WalkLiveIff | 9pfsDxe/9pLibWalk.c:184-198 | for every script a successful walk ends at a live fid, bound to the resolved node, exactly when its last exchange was not an Rlerror with code 0 |
| WalkFates.WalkKeepsIff | 9pfsDxe/9pLib.c:11-19 | for every counter, table and script a walk changes no binding, except exactly when its number is that of its own start fid |
| WalkFates.WalkCourse | 9pfsDxe/9pLibWalk.c:106-199 | for every script, the status of a walk is that of its first exchange that fails, by fates, tree and the fids in use, and a success ends at the fid where the course does; without code 0 for any counter |
| WalkFates.WalkBindsServed | 9pfsDxe/9pLibWalk.c:171-194 | over served exchanges the number of fids bound is that of the names that resolve |
| WalkFates.WalkAnyCounter | 9pfsDxe/9pLib.c:11-19 | with no bound on the counter a walk changes no fid but its own start, exactly when TakesStart says so, and a success ends at a fid bound to the resolved node |
| WalkFates.BusyFidRefused | 9pfsDxe/9pLibWalk.c:184-188 | any other number in use, and NOFID, changes nothing, and fails with DEVICE_ERROR, or BUFFER_TOO_SMALL without a name |
| WalkLaws.DotInsertion | 9pfsDxe/9pLibWalk.c:152-191 | inserting "." and changing separator runs gives the identical walk, except exactly where it disarms the guard |
| WalkLaws.WalkComposes | 9pfsDxe/9pLibWalk.c:106-199 | walking p and then q succeeds exactly when walking p\q does, and ends at the same node |
| WalkLaws.WalkNamesLater | 9pfsDxe/9pLibWalk.c:170-194 | for every script of fates the loop only adds bindings, and success binds a new fid to the resolved node |
| Answers.OpenAnswers | 9pfsDxe/Open.c:111-158 | the status of P9Open for every script: INVALID_PARAMETER without a name or in another mode, else that of the walk if it fails, else that of the Tlopen; a handle exactly on success |
| Answers.OpenAnswersServed | 9pfsDxe/Open.c:111-158 | over served exchanges NOT_FOUND exactly when the path does not resolve past the guard, INVALID_PARAMETER for no name, the empty one or another mode |
| Answers.OpenFailsAt | 9pfsDxe/Open.c:136-146 | the first exchange of an open that is not served decides: the status of its code, or a transport error |
| Answers.OpenedName | 9pfsDxe/Open.c:132 | a handle is named after the last component of its path if that has at most 255 characters, otherwise its name is empty |
| Answers.ClunkAnswers | 9pfsDxe/9pLibClunk.c:38-56 | the status of P9Close for every fate: any Rlerror is BUFFER_TOO_SMALL |
| Driver.P9Volume.P9LOpen | 9pfsDxe/9pLibLOpen.c:11-68 | sends the Tlopen for reading, and takes Qid and IoUnit from the answer alone |
| Driver.P9Volume.P9Clunk | 9pfsDxe/9pLibClunk.c:11-66 | sends the Tclunk, and has a 7-byte receive buffer |
| Driver.P9Volume.P9Open | 9pfsDxe/Open.c:94-159 | computes OpenFile, its handle included, and is one Open step of the session; a failure returns no handle |
| Driver.P9Volume.P9Close | 9pfsDxe/Flush.c:69-92 | is one Close step of the session: clunk unless root, and the handle is gone |
| Sessions.OpenFileLater | 9pfsDxe/Open.c:122-151 | for every script a handle is returned only for a new live fid bound to the resolved node, with that node's Qid, at position 0 |
| Sessions.StepSafe | 9pfsDxe/Flush.c:81-89 | every call keeps handles live, distinct and correctly typed, the root bound to the root, live fids below the counter, and surviving handles on their nodes |
| Sessions.RunSafe | 9pfsDxe/Open.c:122-151 | the same over whole runs of calls with arbitrary exchanges, while the counter is below NOFID |
| Sessions.RunKeepsHandle | 9pfsDxe/Flush.c:86-89 | a handle that is not closed, and the root in any case, denotes the same node at the same fid throughout a run |
| Conservation.StepConserves | 9pfsDxe/9pLibWalk.c:171-194 | for every script of fates a call changes live fids by those bound minus those closed, both read off the fates, and handles by those created minus those dropped |
| Conservation.RunConserves | 9pfsDxe/9pLibWalk.c:184-191 | the same for live fids over every run and every script |
| Conservation.RunLeaks | 9pfsDxe/Open.c:141-156 | in every safe run handles are those created minus those dropped, and fids that no handle holds never become fewer |
| Conservation.VolumeConserves | 9pfsDxe/OpenVolume.c:98-126 | from OpenVolume on, every run has one fid and one handle for the root plus the tallies, and is safe |
| Conservation.DirReadBindsServed | 9pfsDxe/ReadWrite.c:236-250 | over served exchanges a directory call binds one fid exactly when it delivers an entry |
| Limits.OpenLiveIff | 9pfsDxe/9pLibError.c:21-21 | a returned handle is live exactly without code 0 in its last walk, and open on the server exactly without code 0 in its open either |
| Limits.StepSafeIff | 9pfsDxe/9pLibError.c:46-62 | for every script, and a counter up to NOFID, a call keeps the session invariant if and only if it is not misled by code 0, as read off fates and tree |
| Limits.RunSafeIff | 9pfsDxe/9pLibError.c:46-62 | the invariant holds throughout a run if and only if none of its calls is misled |
| Limits.ZeroErrnoBreaksSafety | 9pfsDxe/9pLibError.c:21-21 | a run with code 0 whose handle has a dead fid |
| Limits.OpenKeepsIff | 9pfsDxe/9pLib.c:11-19 | for every counter, table and script an open moves no fid to another node, except exactly when its number is that of its own start fid and the first name leads elsewhere |
| Limits.WrappedCounterMovesRoot | 9pfsDxe/9pLib.c:11-19 | a wrapped counter that makes an open move the root's fid |
| Limits.UnsetTargetClunksRoot | 9pfsDxe/9pLibWalk.c:193-194 | opening `.\.` can share the root's fid, and closing it removes that fid |
| Wraps.HandleSharesIff | 9pfsDxe/Open.c:138-151 | for every counter a returned handle has a fid that was in use exactly when its walk has one step and starts from that number |
| Wraps.WrappedCounterSharesFid | 9pfsDxe/9pLibWalk.c:138-149 | opening `.` then makes two handles share a fid, and closing one takes it from the other |
| Wraps.StepKeepsIff | 9pfsDxe/9pLib.c:11-19 | for every counter and every script without code 0 a call keeps the session invariant and all bindings if and only if it does not collide, as read off counter, fates and tree |
| Wraps.RunKeepsIff | 9pfsDxe/9pLib.c:11-19 | the same for every call of a run, with no bound on the counter |
| Wraps.CollidesOnlyAtStart | 9pfsDxe/9pLib.c:11-19 | a call collides only when the counter has come round to the fid of the root or of the handle it is made on |
| Wraps.NoCollisionBelow | 9pfsDxe/9pLib.c:11-19 | no call collides before the counter has reached NOFID |
| Volumes.FirstStartAnswers | 9pfsDxe/OpenVolume.c:76-126 | status and message size of a first start, for every script, counter, table and setting |
| Volumes.FirstStartIff | 9pfsDxe/9pLibVersion.c:58-68 | a first start succeeds with a root if and only if TCP configures and connects, the answer to version starts with 9P2000.L, and the attach is served with a number other than NOFID or answered by code 0; the handle and the server's fids then |
| Driver.P9Volume.P9Version | 9pfsDxe/9pLibVersion.c:10-80 | sends the Tversion without a tag; an Rlerror is read with too small a size, the first eight characters are compared, and the message size is replaced on success |
| Driver.P9Volume.P9OpenVolume | 9pfsDxe/OpenVolume.c:25-140 | computes OpenVolume: an open volume returns its root, a first start attaches one; a new root has been asked for by one Tversion and one Tattach |
| Driver.P9Volume.ConfigureP9 | 9pfsDxe/9pLibConfigure.c:172-228 | fails without the TCP4 protocol or with an unparsable address, and otherwise hands the parsed addresses and ports to Configure |
| Volumes.ConfigureOffers | 9pfsDxe/9pLibConfigure.c:172-228 | the status is that of Configure exactly when all three addresses parse, otherwise UNSUPPORTED or INVALID_PARAMETER |
| Volumes.PrintedIsOffered | 9pfsDxe/9pLibConfigure.c:184-221 | settings printed in decimal reach the TCP4 configuration as they are |
| Volumes.PortsSetIff | 9pfsDxe/9pLibConfigure.c:212-215 | the configuration is independent of uninitialised ports exactly when both addresses come with a port |
| Volumes.OpenVolumeStartsSafely | 9pfsDxe/OpenVolume.c:98-126 | a successful first start gives a safe session with exactly one live fid, bound to the root |
| Volumes.ReopenReturnsRoot | 9pfsDxe/OpenVolume.c:76-82 | opening again returns the same root with no exchange |
| Volumes.FailedStartLooksOpen | 9pfsDxe/OpenVolume.c:76-130 | after a failed start the next one reports success at once without a root if and only if TCP was configured |
| Volumes.FirstRootIff | 9pfsDxe/OpenVolume.c:87-95 | a first start that succeeds has a root if and only if it made the connection itself |
| Answers.DirReadAnswers | 9pfsDxe/ReadWrite.c:155-265 | status, size and information of P9DirRead for every script, tree and state of the handle, by the fates of open, readdir, walks and getattr; Position moves by one entry exactly when one is delivered |
| Answers.EndOfListingIff | 9pfsDxe/ReadWrite.c:196-206 | success with size 0 if and only if the Treaddir was served on an open fid and no entry came: the end, or a name of more than 255 bytes |
| Answers.RefusedListing | 9pfsDxe/ReadWrite.c:196-200 | a Treaddir that is refused or lost gives its status, keeps the size and moves nothing |
| Answers.SymLinkAnswers | 9pfsDxe/ReadWrite.c:299-303 | a readlink that is refused or lost gives its status and keeps size and SymLinkTarget |
| Driver.P9Volume.P9LReadDir | 9pfsDxe/9pLibReadDir.c:11-76 | sends the Treaddir; the data into a zeroed buffer, and its count |
| Driver.P9Volume.P9DirRead | 9pfsDxe/ReadWrite.c:155-265 | computes DirRead, changing only the handle's Qid, IsOpened and Position |
| Directories.EntryParses | 9pfsDxe/9p.h:54-59 | an entry is laid out as Qid, offset, type and name, and parses so whatever follows it |
| Directories.EntryReadsBack | 9pfsDxe/9p.h:54-59 | offset and name of the first entry survive the wire, whatever follows it |
| Directories.DirReadDelivers | 9pfsDxe/ReadWrite.c:155-265 | the four outcomes of a call exactly: the entry and next position, the needed size with nothing changed, size 0 at the end, NOT_FOUND at the guard |
| Directories.RetryGetsTheEntry | 9pfsDxe/ReadWrite.c:208-215 | BUFFER_TOO_SMALL keeps Position, and a retry with the returned size gets the same entry |
| Listings.CallAnyName | 9pfsDxe/ReadWrite.c:155-265 | the outcome of a call for any name at its position: end, needed size, the status of a failed lookup, or the attributes of the node found |
| Listings.OneComponentFound | 9pfsDxe/ReadWrite.c:222-241 | a name of one component that the server looks up is found, unless the root guard refuses it |
| Listings.SeparatorsSplit | 9pfsDxe/9pLibWalk.c:170-191 | a listed name with a backslash is looked up as two components |
| Listings.ListingDelivered | 9pfsDxe/ReadWrite.c:179-250 | repeated calls deliver every entry once, in order, then size 0 for ever; at the first entry that is not found they stay |
| Listings.AnySizes | 9pfsDxe/ReadWrite.c:206-250 | with any mix of buffer sizes the successful calls deliver consecutive entries from the first on, never past the obstacle, and large buffers always move on |
| Listings.CompleteIff | 9pfsDxe/9pLibWalk.c:163-191 | enough calls with large buffers deliver the whole listing, each entry with its own attributes, exactly when the walk to every name finds them |
| Listings.ConsistentCompleteIff | 9pfsDxe/9pLibWalk.c:163-167 | where names are looked up as one component this fails exactly for names that the root guard refuses |
| Listings.OpenThenList | 9pfsDxe/ReadWrite.c:179-250 | opening a directory by any path that resolves and reading it delivers its whole listing in order, whatever its names |
| Listings.RewindListsAgain | 9pfsDxe/ReadWrite.c:64-81 | seeking a directory handle to 0 succeeds, and the listing is delivered again from its first entry, whatever was read before |
| Directories.SeekInDirectory | 9pfsDxe/ReadWrite.c:75-78 | seeking elsewhere is refused without effect exactly for Qid type QTDIR; with further type bits the next call delivers the entry at that position |
| Reading.ReceiveLoop | 9pfsDxe/9pLibRead.c:122-149 | the loop appends segments without gap or overlap, stops where StopAt says, and leaves the rest zero |
| Files.P9IFile.P9LRead | 9pfsDxe/9pLibRead.c:38-178 | sends bytes that decode to the Tread for the current position, and computes LRead: status, count, copied data, position |
| ReadLaws.LoopStops | 9pfsDxe/9pLibRead.c:125-149 | over non-empty segments the loop ends exactly when count bytes arrive, at the first prefix reaching them |
| ReadLaws.WholeIffCutsOutside | 9pfsDxe/9pLibRead.c:141-148 | the whole reply is taken exactly when no boundary lies at count or beyond |
| ReadLaws.LReadAnyCut | 9pfsDxe/9pLibRead.c:115-160 | however the reply is cut, a read waits for ever exactly when the reply is shorter in total than count, and otherwise reports success with the bytes taken and zeros for the others (or a status if not even the kind is taken) |
| ReadLaws.LReadExactIff | 9pfsDxe/9pLibRead.c:151-160 | the delivered data is exact if and only if the loop ends and the bytes cut off are zeros or tag bytes |
| ReadLaws.LReadExact | 9pfsDxe/9pLibRead.c:115-160 | a reply with no boundary in its last bytes is delivered exactly |
| ReadLaws.CutInsideLosesSync | 9pfsDxe/9pLibRead.c:143-148 | any other cut leaves exactly the bytes behind those taken unread |
| ReadLaws.FaultFails | 9pfsDxe/9pLibRead.c:125-139 | a TCP4 error before enough bytes fails the read and leaves Position |
| ReadLaws.ErrorReplyRead | 9pfsDxe/9pLibRead.c:123-154 | an Rlerror to a read waits for ever exactly beyond 11 bytes, and otherwise gives the status of its code, or of the low bytes of a code that is cut |
| Files.P9IFile.P9FileRead | 9pfsDxe/ReadWrite.c:98-138 | the chunk loop computes FileRead, rollback of Position included |
| Chunks.FailureRestoresPosition | 9pfsDxe/ReadWrite.c:125-129 | any failing chunk restores Position |
| Chunks.FileReadAnyCut | 9pfsDxe/ReadWrite.c:119-131 | with the last reply cut anywhere the read reports success with zeros for the bytes not taken, and delivers the file's bytes if and only if those are harmless |
| Chunks.FileReadContiguous | 9pfsDxe/ReadWrite.c:119-131 | for any counts returned and no reply cut in its last bytes, success puts file[pos..pos+T) at the front of the buffer, keeps the rest, and moves Position by T |
| Chunks.FullReadIff | 9pfsDxe/ReadWrite.c:119-133 | with full counts the call returns exactly when it asks for little beyond the end of the file, and then delivers min(asked, remaining) |
| Chunks.SuccessAsksAll | 9pfsDxe/ReadWrite.c:122-131 | a read that succeeds uses one exchange for every chunk, any other at most that |
| FileRuns.ReadsAreConsecutive | 9pfsDxe/ReadWrite.c:98-138 | successive reads deliver successive bytes of the file without gap or repetition, whatever buffers and counts |
| FileRuns.OpenThenRead | 9pfsDxe/Open.c:122-151 | a file opened by any path that resolves is delivered from its first byte on, and wholly once the counts add up to its length |
| FileRuns.SeekThenRead | 9pfsDxe/ReadWrite.c:64-81 | seeking to p on a handle that is no plain directory succeeds and moves Position only, and successive reads then deliver the file from byte p on |
| Operations.QidTypeBits | 9pfsDxe/9p.h:242-252 | P9Read's tests depend on the highest bit of the Qid type and on the second lowest alone |
| Driver.P9Volume.P9SymLinkRead | 9pfsDxe/ReadWrite.c:283-319 | computes SymLinkRead: exchange, SymLinkTarget, the size asked for, and the text put into the buffer |
| Directories.SymLinkDelivered | 9pfsDxe/ReadWrite.c:299-315 | a target of at most 4095 bytes is delivered if and only if it fits with its NUL, otherwise a second read with the returned size delivers it |
| Driver.P9Volume.P9Read | 9pfsDxe/ReadWrite.c:336-355 | dispatches by Qid type, gives what each kind of read returns, and is one Read step of the session, which uses as many exchanges as the chunks asked for |

## Left out

- TCP4 configuration, connection, polling, events, callbacks and memory allocation: firmware services; a transmit or receive that fails is a fate or a Fault, and an allocation that fails before sending acts like a request not sent.
- Driver binding, service creation and removal, protocol installation, component names: UEFI plumbing without logic of its own.
- Reading the UEFI variables of P9OpenVolume: the model starts from their strings.
- Calls that only return EFI_UNSUPPORTED, P9GetPosition, P9GetFileInfo, P9Statfs and file system information: field copying or constant results.
- NULL pointer arguments other than the file name of P9Open; Flags and Tag changes; copying file information and link text into the caller's buffer: their content is returned instead.
- AsciiStrLen, StrCpyS and the other library routines of EDK II are not part of this model; StrCpyS is taken to leave a zeroed destination unchanged when the source does not fit, and AsciiStrnToUnicodeStrS to widen each character up to the first NUL and to leave its destination unchanged when that does not fit.
- Several volumes at once: the fid counter is global in the driver and belongs to one connection here.
- Replies read out of step: once a receive buffer is too small or a reply is cut in its last bytes, Transport and ReadLaws say which bytes remain unread, and Sessions and the chunks behind such a reply do not follow what later exchanges make of them.
- Sessions.Step: takes as given where a file read leaves Position and how many exchanges it uses, because what TCP brings is not part of a session; Driver.P9Volume.P9Read and FileRuns say both.
- Limits.StepSafeIff: requires the counter to be at most NOFID, and Wraps.StepKeepsIff that no code is 0; what code 0 does once the counter has come round is left open.
- WalkFates.WalkCourse: requires that no code is 0 or that the counter has not come round, and so do Answers.OpenAnswers and Answers.DirReadAnswers; with both, a fid taken for bound may be that of an older handle.
- Driver.P9Volume.P9Walk: requires each component to fit the 4096-character ComponentName, because the driver writes to that buffer without a check.
- Driver.P9Volume.P9OpenVolume: requires user name and exported tree of at most 65535 characters, because the length field of a longer one is cut and the request no longer says what was meant.
- Driver.P9Volume.P9LReadLink: takes the text of the target from the tree; only the kind of the reply is read from its bytes.
- Driver.P9Volume.P9Open: requires the same of the file name, for the same reason.
- Reading.ReceiveLoop: requires the stream not to exceed the receive buffer, because the driver posts each receive without regard to the room that is left.
- Driver.P9Volume.P9Close: does not say which status closing the root returns, because the driver leaves it unset; it is a parameter.
- Files.P9IFile.P9FileRead: requires the same of every chunk as P9LRead of its reply.
- Files.P9IFile.P9LRead: requires the stream not to exceed the receive buffer and the server's count not to exceed the request, because the driver copies without checking either.
- Listings.ListingDelivered: requires listed names to set the target of their walk, which leaves out names made of dots and backslashes only, for which P9Walk hands out an uninitialised fid.
- Directories.DirReadDelivers: gives the resulting table for names that are looked up as one component; Listings.CallAnyName covers the others without it.
