# f2b in Dafny

f2b watches sources of log lines, scores the hosts they mention, bans the ones that reach a limit and
releases them later. This project models the four parts of it that carry state and proves what they
promise. Wherever the program updates something in place, the model has a class or an array that is
updated in place, and every such method is proved to compute a function on values; the properties over
whole histories are proved about those functions.

**The jail.** `Matches`, `Hosts`, `Jail` and `Settings` give the value of a jail: a list of hosts with
their scored histories, the ban set of its backend, a state file, counters, settings. `JailInvariant`,
`JailRuns`, `JailRestart`, `JailBans` and `JailDecision` prove what holds over every run of start, pass,
operator command, setting, stop and start again, under a clock that does not go back; `JailSteps` says
field by field and in numbers what each step changes; `JailExamples` are runs on which a jail does not
do what one would expect. `Chain`, `MatchStore`, `HostRecord`, `JailDaemon`, `JailControl` and `JailSetup`
are the linked lists and the jail object, relinked and updated in place; `JailLifetime` takes one such
object through a whole run. `StateFile` is the printer and the parser of the state file.

**Streaming MD5.** `Rfc1321` writes down sections 3.1 to 3.5 of RFC 1321 on 32-bit words. `Md5` is the
transform with its words in 64-bit lanes, masked only before each rotation; `Md5Context` is the buffered
context. `Bits` defines machine words and the bitwise operators digit by digit, `MachineWords` proves that
they are those of 32-bit vectors, and with `Md5Operations` the definitions are worked out on vectors as far
as two digests of the test suite of RFC 1321, section A.5 (`Md5Vectors`).

**The control socket.** `Buffers` is the byte buffer, `Framing` the cutting of the byte stream into
lines, `Commands` the command table and its language, `CommandParser` the tokenizer and the chain of
comparisons, `Sessions` what a connection does with its lines, `Connection` the connection object.
`Text` and `Sequences` hold the C string helpers and concatenation.

**Smaller parts.** `Fnv` (the FNV-1a hash in shift-and-add form), `SharedBackends` (usage counters and
hooks of shared exec backends), `Configs`, `ConfigText`, `ConfigParser`, `ConfigLoader`, `JailConfig`
and `JailModules` (the configuration file with its linked lists, and how a jail gets its settings and
modules from it).

What comes from outside is a parameter: the clock, the events of source and filter (address text, source
and filter tags, score), the address check of the platform (any predicate on texts of at most 47
hexadecimal digits, dots and colons), the random text of each challenge, the answers of the daemon to
commands, and `atof`.

Results that may surprise:

- The duration `findtime` is passed where a point in time is expected (`src/jail.c:353`), so what decides
  a ban is the whole retained history; the window is the one of the preceding expiry, `findtime + 600`
  seconds. `JailDecision.DecisionWindow` is the exact statement.
- The score is narrowed to 16 bits. `JailDecision.MisjudgedWhen` says for every history, every sign of the
  scores and every limit exactly when a due ban is lost and when an undue one comes;
  `JailExamples.LostBan` and `JailExamples.UndueBan` are runs that end in one and the other. A history
  short enough for its scores is always judged right (`JailDecision.FewMatchesExact`). So is every host that
  was never banned and not restored from the file, as long as the settings stay fixed, the clock is past
  `findtime`, no score is negative, and the limit plus the largest score is at most 32768
  (`JailDecision.DecisionExact`, `JailDecision.QuietSinceStart`).
- An operator's ban of a listed host is not saved, and neither is a release: a restart before the
  next save forgets both (`JailRestart.CommandForgotten`, `JailExamples.ForgottenBan`). Such a ban counts from when the host was
  last seen (`JailBans.OperatorBanOutlives`).
- The number of bans is not saved either, so the first ban after a restart is as long as a first ban
  (`JailBans.CountedSinceStart`).
- A module value without an init string leaves the init string of an earlier value
  (`JailModules.ModuleDecided`).
- A shared exec backend with only one of its hooks loses count (`SharedBackends.BalancedExactlyWhen`).
- A list that has become empty is not written, so the old file stays; times come back from the file
  modulo 2^32.
- `state = no` in the configuration switches the state file on (`JailConfig.FlagsStick`), and settings
  missing from a reloaded file keep the value that the defaults held before (`JailConfig.JailSetting`).
- `log events` works without authorization, and a password that is not a single token can never be given
  in plain (`Sessions.PlainPossible`).

## Model

| member | source | states |
|---|---|---|
| Matches.NewerIsSubsequence | src/matches.c:55-67 | expiry leaves exactly the matches newer than the limit |
| Matches.NewerIsSorted | src/matches.c:55-67 | a history sorted newest first stays so through expiry |
| Matches.NewerIsPrefix | src/matches.c:55-67 | on a sorted history expiry keeps a front part of the list, in order |
| Matches.ScoreIsTotalOfRecent | src/matches.c:77-82 | on a sorted history the score that stops early equals the sum over all matches not older than the limit |
| Matches.ScoreOfRecentList | src/matches.c:77-82 | when no match is older than the limit, the score is the sum of the whole list |
| Matches.LatestTimeIsMaximum | src/matches.c:42 | the latest time kept beside a history is the maximum over its matches |
| Matches.PrependKeepsSound | src/matches.c:35-43 | a match that is not older than the clock keeps the history sorted, counted, and with its latest time |
| Matches.ExpireKeepsSound | src/matches.c:46-71 | so does expiry |
| MatchStore.MatchList.Flush | src/matches.c:21-32 | the linked list, its counter and its latest time are reset |
| MatchStore.MatchList.Prepend | src/matches.c:35-43 | the node goes in front of the linked list, and counter and latest time follow |
| MatchStore.MatchList.Expire | src/matches.c:46-71 | unlinking in place leaves the value that expiry of the history asks for, and no foreign node |
| MatchStore.MatchList.Score | src/matches.c:74-85 | the pointer loop computes the early-exit score of the list |
| Chain.Unlink | src/jail.c:386-396 | taking one node out of a chain, at its head or after its predecessor, leaves the other nodes linked in order |
| Chain.Append | src/config.c:98-101 | a node goes behind the last one |
| Hosts.LookupFinds | src/ipaddr.c:94-106 | lookup finds the first host of the text, and fails only if there is none |
| Hosts.RemovedGone | src/ipaddr.c:109-130 | in a list without repeated texts, removal takes out the host of the text and no other |
| Hosts.RemoveUndoesAdd | src/ipaddr.c:86-130 | removing the text of a host just put in front gives back the list |
| JailDaemon.JailObj.LookupNode | src/ipaddr.c:94-106 | the node found is the one of the first host with the text |
| JailDaemon.JailObj.AddHost | src/ipaddr.c:86-91 | the list gains one new host in front, apart from all others |
| JailDaemon.JailObj.RemoveHost | src/ipaddr.c:109-130 | the relinked list holds the remaining hosts in order |
| StateFile.ScanPrinted | src/statefile.c:76 | a time printed in decimal reads back as itself modulo 2^32, whatever follows it |
| StateFile.NumberScanned | src/statefile.c:57-79 | a number of the file, with any blanks and sign, is held in 64 bits with wrap-around or its largest value, and stored in 32 |
| StateFile.ParsePrinted | src/statefile.c:76-87 | the line printed for a host with a valid address reads back as its record |
| StateFile.LineRead | src/statefile.c:70-88 | a line of an address and two numbers, with any blanks and signs and anything behind, is their record exactly if the address is one |
| StateFile.NoRecord | src/statefile.c:71-79 | blank lines and lines marked as comments hold no record |
| StateFile.PrintOneMore | src/statefile.c:115-119 | the hosts are printed in list order, and only the banned ones |
| StateFile.FileLooks | src/statefile.c:97-119 | a file of one host, character by character |
| StateFile.UnsignedExact | src/statefile.c:97 | a time is printed modulo 2^64 |
| StateFile.RecordInFront | src/statefile.c:70-89 | a file is loaded line by line, and each record goes in front of the earlier ones |
| StateFile.ReversedJoin | src/statefile.c:87-88 | so the records of a saved list come in the opposite order |
| Text.LineLengthExact | src/statefile.c:70 | a line ends at the first newline, at the size of the line buffer, or at the end of the file |
| StateFile.HeaderIsComment | src/statefile.c:72-75 | the header line of the file is skipped |
| StateFile.LoadPrinted | src/statefile.c:70-90 | reading the printed hosts puts the records of the banned ones in front, last host first |
| StateFile.RoundTrip | src/statefile.c:55-129 | loading a saved list yields exactly the banned hosts, in reverse order, with their texts and times modulo 2^32 |
| JailControl.Render | src/statefile.c:114-119 | the loop over the linked list writes the file that printing the host values gives |
| JailControl.SaveFile | src/statefile.c:96-129 | the file is replaced, unless the list is empty |
| JailControl.LoadFile | src/statefile.c:55-93 | the linked list built line by line holds a banned host for each record of the file, none sharing memory |
| JailDaemon.JailObj.Ban | src/jail.c:198-230 | the host's history is empty, its ban times and count are set, the backend bans its text, the ban is counted |
| JailDaemon.JailObj.Unban | src/jail.c:233-249 | the host's ban is cleared and the backend no longer bans its text |
| JailDaemon.JailObj.HostMatch | src/jail.c:331-361 | one match: recorded, history trimmed, host banned and save asked for exactly when the narrowed score reaches the limit |
| JailDaemon.JailObj.OnMatch | src/jail.c:324-361 | the host is found or added, and only that host changes |
| JailDaemon.JailObj.ReadSource | src/jail.c:312-362 | the source loop takes in the events in order |
| JailDaemon.JailObj.SweepWalk | src/jail.c:364-397 | one walk releases what is over and unlinks what has expired, keeping the order and counting what stays |
| JailDaemon.JailObj.Sweep | src/jail.c:364-398 | the jail after the walk, with its host count equal to the list length |
| JailControl.Process | src/jail.c:289-406 | one whole pass on the linked lists computes the pass on values: source, sweep, save |
| JailSteps.Unmatched | src/jail.c:316-318 | a line that the filter does not match leaves no trace |
| JailSteps.Recorded | src/jail.c:319-361 | what a line records of its host, field by field: source and filter tag and score, or tag 0 and score 10 without a filter; the history kept; the fields of a new ban |
| JailSteps.Books | src/jail.c:327-361 | what a line leaves in counters, backend and the mark of a due save |
| JailSteps.Placed | src/jail.c:324-330 | a known host keeps its place, a new one goes in front |
| JailSteps.EventsInOrder | src/jail.c:312-362 | the lines of a pass are taken in one after the other, in the order of the source |
| JailSteps.FirstEventFirst | src/jail.c:312-362 | the first line takes effect before the others |
| JailSteps.SweepBooks | src/jail.c:364-398 | what the walk over the list leaves in counters, backend and file |
| JailSteps.Stays | src/jail.c:367-378 | a host stays as it was, or with its ban taken off once the release time has passed |
| JailSteps.DroppedAtOnce | src/jail.c:367-378 | a host whose ban is over and that was not seen for the expiry time goes in the same pass |
| JailSteps.SaveExact | src/jail.c:400-403 | a pass writes the file exactly if a save is due and the list is not empty, and the file then holds the banned hosts |
| JailSteps.StartExact | src/jail.c:502-540 | a start lists a host for each record, banned if its release time has not come, and starts the counters again |
| JailSteps.StopExact | src/jail.c:544-587 | a stop frees every banned host of the list and nothing else, and leaves the file |
| JailSteps.NewBan | src/jail.c:669-699 | a ban of an address that is not listed: the host in front, banned from now for a first ban, the backend, the counters, the due save, the reply |
| JailSteps.KnownBan | src/jail.c:198-228 | a ban of a listed host, field by field; the other hosts stay and no save becomes due |
| JailSteps.KnownRelease | src/jail.c:231-249 | a release of a listed host, field by field |
| JailSteps.StatusShown | src/jail.c:692-695 | a status changes nothing and shows the fields of the host |
| JailSteps.Refusals | src/jail.c:662-690 | exactly when a command is refused and how; a refusal changes nothing |
| JailControl.SettleBans | src/jail.c:512-518 | loaded bans whose time has come are dropped, and the hosts counted |
| JailControl.RestoreBans | src/jail.c:521-535 | the backend bans exactly the texts still banned, besides what it banned before, whether or not it can check |
| JailControl.Start | src/jail.c:502-540 | starting computes the started jail from the state file |
| JailControl.ReleaseAll | src/jail.c:563-569 | the backend loses exactly the texts of the banned hosts |
| JailControl.Stop | src/jail.c:543-584 | the list is gone, the backend is released, the state file is untouched |
| JailControl.Operate | src/jail.c:655-701 | ban, status and release by the operator, with every refusal, change what the value model says and nothing else |
| JailSetup.SetParameter | src/jail.c:69-126 | exactly the known names are accepted, and each changes its own setting; deprecated names change none |
| JailSetup.ApplyConfig | src/jail.c:129-162 | the parameters of a section take effect in list order: settings, flags, and the names and init strings of the modules |
| Settings.SetParamSane | src/jail.c:83-111 | no value, however malformed, makes a time non-positive or the score limit zero |
| Settings.NumberSets | src/jail.c:83-106 | what a number as a user writes it gives for each time and for the score limit, with the defaults 3600, 300, 14400 and 50 |
| Settings.TextSets | src/jail.c:83-106 | text that is no number gives the defaults |
| Settings.OthersSet | src/jail.c:75-125 | only `yes` enables a jail; the factors are the values; other names change nothing |
| Settings.ParameterNames | src/jail.c:75-124 | the names of the parameters |
| Settings.Int16Range | src/jail.c:101-106 | the narrowed number is the 16-bit one that differs by a multiple of 2^16 |
| JailInvariant.OnMatchConsistent | src/jail.c:324-361 | a match keeps list and backend in agreement, texts unique and histories sound |
| JailInvariant.MatchExact | src/jail.c:324-361 | what one match does to its host: seen now; if banned, only the match is added; else banned from now with an empty history exactly if the score triggers, or trimmed to what is recent |
| JailInvariant.MatchElsewhere | src/jail.c:324-361 | and to every other host: nothing |
| JailInvariant.SweepExact | src/jail.c:369-375 | exactly the hosts stay whose last sight or release is within the expiry time |
| JailInvariant.SweepConcat | src/jail.c:364-397 | the sweep works host by host, so what stays keeps its order |
| JailInvariant.BannedNeverExpires | src/jail.c:366-375 | with a positive expiry time no host still flagged banned is dropped |
| JailInvariant.SweepAgreed | src/jail.c:364-397 | the sweep keeps list and backend in agreement |
| JailInvariant.ProcessConsistent | src/jail.c:289-406 | so does a whole pass, for every list of events with valid addresses |
| JailInvariant.StartConsistent | src/jail.c:502-540 | a start from a file without repeated texts bans in the backend exactly what the list flags |
| JailInvariant.OperateConsistent | src/jail.c:655-701 | so does every operator command |
| JailRuns.StepKeepsInvariant | src/jail.c:289-701 | every step keeps agreement, unique texts, sound histories and the host count; stop leaves nothing banned |
| JailRuns.RunKeepsInvariant | src/jail.c:289-701 | hence every run does |
| JailRuns.ScoresExactInRuns | src/jail.c:353 | in every run the early-exit score of every listed host is the sum over its recent matches |
| JailRuns.ProcessDurable | src/jail.c:400-403 | after a pass every ban of the list is on file and no save is due |
| JailRuns.RunDurable | src/jail.c:359-360 | over every run without an operator's ban of a listed host, each ban is on file or a save is due |
| JailRuns.RebanDurable | src/jail.c:667-699 | an operator's ban of a listed host keeps that exactly when a save is due anyway or the file happens to hold the new record |
| JailRestart.RestartBackend | src/jail.c:502-584 | after a stop and a start the backend bans exactly the texts that the file holds in force, whatever was listed |
| JailRestart.CommandForgotten | src/jail.c:667-699 | an operator's ban or release of a listed host takes effect at once, and after a restart the host is banned exactly if the file held it in force before the command |
| JailExamples.ForgottenBan | src/jail.c:667-699 | a legal run: an operator's ban for an hour, a restart within the hour, and the host is free |
| JailRestart.RunCurrent | src/jail.c:359-403 | over every run without an operator's ban or release of a listed host, each record of the file is over or is the one of a banned host |
| JailRuns.RestartRestores | src/jail.c:502-584 | after a pass, stop and start bring back every ban with its times modulo 2^32, in force exactly if that release time has not come |
| JailRuns.RestartExact | src/jail.c:502-584 | with times below 2^32 and before the release, the ban comes back exactly, in the list and in the backend |
| JailRestart.RestartBringsBack | src/jail.c:502-584 | in such runs, what a stop and a start after a pass bring back is exactly the bans of the list whose release time, modulo 2^32, has not come |
| JailLifetime.Serve | src/jail.c:289-701 | the jail object, taken through any passes, commands and settings, is in the state the run on values reaches |
| JailLifetime.Live | src/jail.c:502-584 | started on an idle backend, served and stopped, the object leaves the backend with no ban |
| JailBans.PassOnBan | src/jail.c:344-373 | whatever matches arrive, a pass up to the release time keeps a ban and its times, and a later pass ends it |
| JailBans.BanHolds | src/jail.c:344-373 | over every run of passes and settings up to the release time the host stays listed and banned |
| JailBans.BanEnds | src/jail.c:366-367 | the first later pass releases it |
| JailBans.OperatorBanOutlives | src/jail.c:203-214 | an operator's ban of a listed host outlives a quiet pass exactly while last sight plus ban length has not passed |
| JailBans.BanTimeValue | src/jail.c:207-211 | a ban lasts bantime times one plus bancount times bantime_extend, rounded down |
| JailBans.BanTimeFixed | src/jail.c:208-212 | without an extension factor every ban lasts bantime |
| JailBans.BanTimeMonotone | src/jail.c:207-211 | more earlier bans never shorten a ban, and none is shorter than bantime |
| JailBans.FindTimeValue | src/jail.c:350 | the history goes back findtime times one plus bancount times findtime_extend, rounded toward zero, whatever the signs |
| JailBans.BansDoNotShrink | src/jail.c:203-214 | over every run that keeps a host listed, with fixed settings, its later bans are at least as long as a ban of the length its count asks for |
| JailBans.CountedSinceStart | src/jail.c:203-214 | in every run of passes and commands from a start on, every host with bans on its count is banned for as long as that count asks, the first time for as long as a first ban |
| JailBans.LaterBansNotShorter | src/jail.c:203-214 | hence in every such run the successive bans of a host that stays listed do not get shorter |
| JailDecision.DecisionWindow | src/jail.c:350-353 | the score that decides counts exactly the matches of the last findtime plus 600 seconds, save those timed below findtime itself |
| JailDecision.DecisionExact | src/jail.c:349-356 | for a host without earlier bans, scores that are not negative, and limit plus largest score at most 32768: the 16-bit score is exact and the decision right, and an unbanned host stays below the limit |
| JailDecision.NarrowingExactWhen | src/jail.c:302 | for every sum and every 16-bit limit, exactly when the narrowed comparison is the exact one |
| JailDecision.MisjudgedWhen | src/jail.c:350-356 | for every history, every sign of its scores and every limit: a due ban is lost exactly on sums above 16 bits that wrap below the limit, an undue ban comes exactly on sums below 16 bits that wrap to the limit or above |
| JailDecision.FewMatchesExact | src/jail.c:350-356 | while the number of matches on record times the largest score fits 16 bits, every match is judged by the exact sum, whatever the signs and the bans before |
| JailExamples.LostBan | src/jail.c:341-356 | a legal run (banned, matches while banned, released, one more match) after which a host with a sum of 33000 is not banned at a limit of 50 |
| JailExamples.UndueBan | src/jail.c:341-356 | a legal run that bans a host never banned before, with a sum of -33000 at a limit of 50 |
| JailDecision.RunQuiet | src/jail.c:349-359 | over every run of passes and commands with fixed settings and such scores, hosts not restored and never banned hold less than the score limit between steps |
| JailDecision.QuietSinceStart | src/jail.c:349-359 | so it is in every such run from a start on, for every host that the state file did not restore |
| Rfc1321.PadAligned | src/md5.c:154-167 | padding fills whole blocks |
| Rfc1321.PadLayout | src/md5.c:150-174 | behind the message come the mark byte, zeros, and the length in bits modulo 2^64, low byte first |
| Rfc1321.BlocksInOrder | src/md5.c:116-128 | blocks are taken in from the front, each on top of the ones before it |
| Rfc1321.AuxiliaryDigit | src/md5.c:190-194 | the truth table of the auxiliary function of each round |
| Md5Operations.TableF | src/md5.c:222-237 | message word, rotation and constant of each operation of the first round |
| Md5Operations.TableG | src/md5.c:239-254 | the same for the second round |
| Md5Operations.TableH | src/md5.c:256-271 | the same for the third round |
| Md5Operations.TableI | src/md5.c:273-288 | the same for the fourth round |
| Md5Operations.NumMixed | src/md5.c:197-198 | an operation on 32-bit vectors is the operation on numbers |
| MachineWords.NumSum | src/md5.c:197-198 | addition of 32-bit vectors is addition modulo 2^32 |
| MachineWords.NumTurn | src/md5.c:198 | so is rotation, for the rotation of words |
| Md5Vectors.EmptyDigest | src/md5.c:69-184 | the digest of the empty message is d41d8cd98f00b204e9800998ecf8427e |
| Md5Vectors.AbcDigest | src/md5.c:69-184 | the digest of "abc" is 900150983cd24fb0d6963f7d28e17f72 |
| Md5.LowF1 | src/md5.c:191 | the optimized selection on wide lanes is F of section 3.4 of RFC 1321 on the low words |
| Md5.LowF2 | src/md5.c:192 | the same for G |
| Md5.LowF3 | src/md5.c:193 | the same for H |
| Md5.LowF4 | src/md5.c:194 | the same for I |
| Md5.LowRotation | src/md5.c:197-198 | the masked rotation in a wide lane rotates the low word, whatever the high bits were |
| Md5.RotateDigit | src/md5.c:198 | the rotation is circular: each binary digit comes from the one s places below, around the word |
| Md5.LowStep | src/md5.c:197-198 | one step of the macro is one operation of section 3.4 on the low words |
| Md5.GetWordValue | src/md5.c:47-52 | four bytes join to the little-endian word |
| Md5.Transform | src/md5.c:206-294 | all 64 steps and the final additions on wide lanes leave the compression of section 3.4 in the low words |
| Md5Context.PutWord | src/md5.c:55-63 | the four bytes written are those of the low word; no high bit gets out |
| Md5Context.BitCount | src/md5.c:98-101 | for lengths below 2^32 the carry test and the shifted length advance the two-word bit count exactly |
| Md5Context.BitsModulo | src/md5.c:98-101 | the two words are eight times the byte count modulo 2^64 |
| Md5Context.TailLength | src/md5.c:103 | the shifted and masked count is the number of bytes waiting in the buffer |
| Md5Context.PadOneBlock | src/md5.c:164-166 | up to 55 waiting bytes leave room for mark and length in one block |
| Md5Context.PadTwoBlocks | src/md5.c:158-163 | from 56 waiting bytes on, padding takes two blocks |
| Md5Context.Context.Update | src/md5.c:89-133 | the context that stood for a message stands for the message with the new bytes appended |
| Md5Context.Context.Final | src/md5.c:140-184 | the digest and its hexadecimal form are those of the message |
| Md5Context.HashChunks | src/md5.c:69-184 | however a message is cut into updates, the digest is the one of RFC 1321 for the whole |
| Buffers.Buf.Append | src/buf.c:26-41 | what fits is appended behind the contents, the rest dropped, and the terminator follows |
| Buffers.Buf.Extract | src/buf.c:49-72 | the text in front of the first delimiter comes out and is gone with the delimiter; a NUL ends the search |
| Buffers.Buf.Splice | src/buf.c:75-88 | the front goes and the rest moves down in place |
| Framing.LinesSpell | src/csocket.c:177-205 | the lines taken out, each with its newline, and what stays in the buffer spell the text |
| Framing.LinesHaveNoBreak | src/csocket.c:177-205 | neither a line nor the rest holds a newline |
| Framing.CleanExactly | src/csocket.c:169-174 | what passes the check: codes 9 to 13 and 32 to 126 |
| Framing.UncleanDrops | src/csocket.c:169-174 | any other character before the first NUL of a chunk drops the connection, and none of the chunk is handled |
| Framing.CutTwice | src/csocket.c:174-205 | cutting what has come, then the rest with the next part, is cutting it all |
| Framing.OverflowStep | src/csocket.c:207-210 | the buffer fills up exactly when a buffer's worth of bytes without a newline is complete |
| Framing.SlicesDoNotMatter | src/csocket.c:153-211 | however a clean stream is cut within the offered room: its terminated segments in order, its rest in the buffer, and a drop exactly on a full buffer's worth of bytes without a newline |
| Commands.RowsDisjoint | src/commands.c:18-104 | no line is a command of two rows of the table |
| Commands.ParsedInWords | src/commands.c:17-102 | a line stands for a command exactly if its words say so, for all sixteen commands |
| Commands.PhrasesDisjoint | src/commands.c:18-104 | no token list fits two rows |
| Commands.AcceptedLength | src/commands.c:198-236 | an accepted line has as many tokens as its row |
| Commands.TooManyTokens | src/commands.c:189-194 | six or more tokens are never a command |
| Commands.TokensOfRendered | src/commands.c:186-194 | tokens joined with single blanks split into the same tokens |
| Commands.RenderThenParse | src/commands.c:135-244 | an accepted command rendered with single blanks is recognized as the same kind with the same arguments |
| CommandParser.NextToken | src/commands.c:187-190 | the token is cut out of the memory in place, and the text in front of it and behind it stays |
| CommandParser.Tokenize | src/commands.c:186-194 | the argument strings are the first six tokens of the line |
| CommandParser.Classify | src/commands.c:196-238 | the chain of comparisons finds the row the tokens fit, and fails only if they fit none |
| CommandParser.Parse | src/commands.c:161-244 | exactly the lines of the table are accepted; one-word commands carry nothing behind them |
| CommandParser.Create | src/commands.c:135-151 | the whole recognizer agrees with the table |
| Sessions.CalledExactly | src/csocket.c:188-202 | the daemon is called for a line exactly when the connection is authorized and the command is neither auth nor log events |
| Sessions.LineAuth | src/csocket.c:102-127 | a line leaves the connection authorized exactly if it was, or the line is `auth plain` with the password, or `auth challenge` with the MD5 of the challenge in force and the password |
| Sessions.AuthReplies | src/csocket.c:96-132 | what an authorization line is answered and what it changes: already authorized, proved, or refused with a new challenge |
| Sessions.EventReplies | src/csocket.c:134-145 | events are switched on by three words and off by any other, with or without authorization |
| Sessions.OtherReplies | src/csocket.c:187-206 | what any other line is answered: the daemon, the unknown command, the refusal with the challenge in force |
| Sessions.RequestOfLine | src/csocket.c:182-187 | a carriage return at the end of a line makes no difference |
| Sessions.AcceptedFresh | src/csocket.c:486-494 | a new connection is authorized exactly if it is local, and has a first challenge |
| Sessions.KnownHashes | src/csocket.c:115-118 | the hash of two known texts |
| Sessions.LineChallenge | src/csocket.c:129-131 | a failed attempt puts a new challenge in force, and nothing else does |
| Sessions.AuthorizedExactly | src/csocket.c:96-132 | over every sequence of lines: authorized exactly if trusted at the start or one line gave the password, or the hash of the challenge in force with the password; never revoked |
| Sessions.ChallengePerFailure | src/csocket.c:78-93 | the challenge in force is always the latest issued, and as many were issued as attempts failed |
| Sessions.RunsAfterAuthorization | src/csocket.c:188-206 | what the daemon runs is every command behind the authorizing line, in order, and none before it |
| Sessions.PlainPossible | src/csocket.c:107-113 | some line can give the password in plain exactly when the password is a single token |
| Sessions.OnLinesAppend | src/csocket.c:177-206 | lines handled in two batches have the effect and the replies of one batch |
| Sessions.StreamDecides | src/csocket.c:148-211 | authorization, commands run, replies and the drop depend on the clean byte stream, not on how it was cut |
| Connection.Conn.constructor | src/csocket.c:486-513 | a new connection is trusted only if local, and has its first challenge |
| Connection.Conn.UpdateChallenge | src/csocket.c:78-86 | the challenge is the MD5 of the next random text |
| Connection.Conn.CheckAuth | src/csocket.c:96-132 | with both hash and comparison computed as in the program: authorization, reply and new challenge |
| Connection.Conn.SwitchEvents | src/csocket.c:135-145 | on, yes and true switch events on, anything else off |
| Connection.Conn.HandleLine | src/csocket.c:178-204 | a trailing carriage return is dropped and the line has its effect and reply |
| Connection.Conn.HandleLines | src/csocket.c:177-206 | all complete lines are handled in order, and the rest stays in the buffer |
| Connection.Conn.Receive | src/csocket.c:155-212 | received bytes are checked, buffered and handled, and the connection is kept or dropped |
| Connection.Conn.Flush | src/csocket.c:214-224 | what the system took leaves the send buffer |
| Connection.FlushedParts | src/csocket.c:214-224 | what was sent and what stays make up the buffer, and exactly when a failure drops the connection |
| Connection.ArrivalEffects | src/csocket.c:159-165 | a closed peer and an error drop the connection |
| Connection.Conn.Process | src/csocket.c:148-226 | closed and failing connections are dropped, received bytes handled, and what is left to send is sent |
| Fnv.ShiftAdd | src/fnv32a.c:98 | the shifts and additions multiply by 0x01000193 modulo 2^32 |
| Fnv.HashBuf | src/fnv32a.c:81-104 | the loop computes the FNV-1a hash of the buffer |
| Fnv.HashStr | src/fnv32a.c:120-142 | the loop computes the hash of what precedes the first zero byte |
| Fnv.HashConcat | src/fnv32a.c:81-104 | hashing a concatenation is hashing the parts in sequence |
| Fnv.HashOfOctet | src/fnv32a.c:88-99 | an octet is taken in before the multiplication |
| Fnv.KnownHash | src/fnv32a.c:81-104 | the hash of "a" from the usual initial state is 0xe40c292c |
| Fnv.StrIsBuf | src/fnv32a.c:120-142 | on text without zero bytes the two forms agree |
| Fnv.StepPermutes | src/fnv32a.c:88-99 | taking in an octet is a permutation of the 32-bit states |
| Fnv.OneByteChangesHash | src/fnv32a.c:81-104 | two texts of one length that differ in exactly one byte never share a hash |
| SharedBackends.Registry.Increment | src/backends/backend.c:18-37 | the counter of the id grows by one, made in front of the list if need be, and is returned |
| SharedBackends.Registry.Decrement | src/backends/backend.c:40-56 | the counter of the id shrinks by one if it is not zero, and is returned |
| SharedBackends.IncCounts | src/backends/backend.c:18-37 | no other id's counter changes |
| SharedBackends.DecCounts | src/backends/backend.c:40-56 | no other id's counter changes |
| SharedBackends.PrivateHooks | src/backends/exec.c:211-235 | an instance with hooks of its own runs them every time and touches no counter |
| SharedBackends.SharedHooks | src/backends/exec.c:211-235 | a shared instance runs its start hook if its id is not in use, its stop hook if it is in use at most once |
| SharedBackends.Exec.DoStart | src/backends/exec.c:212-222 | the start hook runs unless another user of a shared id is up |
| SharedBackends.Exec.DoStop | src/backends/exec.c:225-235 | the stop hook runs unless another user of a shared id is still up |
| SharedBackends.Exec.Configure | src/backends/exec.c:186-209 | each hook keeps all its commands in file order; the last value given decides sharing; unknown keys are refused |
| SharedBackends.ValuesInOrder | src/backends/exec.c:93-106 | the commands of a hook stay in file order |
| SharedBackends.PairRestores | src/backends/exec.c:212-235 | a start and a stop leave the counter as it was exactly when both hooks or none are configured, or nothing was counted |
| SharedBackends.ActRuns | src/backends/exec.c:212-235 | with both hooks configured, hooks run exactly when the counter leaves zero or comes back to it |
| SharedBackends.AlwaysBalanced | src/backends/exec.c:212-235 | with both hooks configured on shared instances, over every interleaving the counter of an id is its number of started instances, and its hooks alternate, start first |
| SharedBackends.BalancedExactlyWhen | src/backends/exec.c:212-235 | that holds for every interleaving exactly when every shared instance has both hooks |
| ConfigText.CutsJoin | src/config.c:41-44 | cutting at one comment mark after the other is cutting at the first of them all |
| ConfigText.ParamReadBack | src/config.c:14-69 | a key and a value written with any blanks around the equals sign and any comment behind read back as they were, and are refused exactly if the key has more than 31 characters or the value more than 191 |
| ConfigText.NoEquals | src/config.c:27-28 | a line without an equals sign is no parameter |
| ConfigText.NoKey | src/config.c:22-33 | with nothing in front of the equals sign there is no parameter, except behind two or more blanks |
| ConfigText.HeaderTypes | src/config.c:105-178 | the type and the name of a section by what its header starts with, the name cut to 31 characters |
| ConfigText.NoSection | src/config.c:115-181 | any other header names no section |
| ConfigText.LineKinds | src/config.c:238-274 | what a line is by its first character behind the blanks, whatever its end |
| ConfigText.FirstLineFirst | src/config.c:234-237 | a file is read line by line from its front |
| ConfigParser.CreateParam | src/config.c:14-69 | cutting the line in place yields the key and value of the line, or nothing, with all length limits |
| Configs.HeaderFaithful | src/config.c:184-215 | a section header makes its section current, keeping what an earlier section of the name holds |
| Configs.PairFaithful | src/config.c:82-102 | an assignment goes to the current section and to no other |
| Configs.ParamPlaced | src/config.c:82-102 | a repeated key that replaces keeps its place; any other assignment goes to the end |
| Configs.SectionPlaced | src/config.c:184-214 | a section named for the first time goes in front of the others of its type |
| Configs.CurrentExactly | src/config.c:258-274 | the section in force is the one of the last header, if that names one |
| Configs.OneMore | src/config.c:258-281 | an assignment counts for the section in force at its line, and for no other |
| Configs.LoadIsFaithful | src/config.c:236-286 | one section per type and name, holding every assignment made to it in file order, merged in main and defaults |
| Configs.MergedIsLast | src/config.c:91-96 | where repeated keys replace, each key appears once, with its last value |
| ConfigLoader.SectionRec.Append | src/config.c:82-102 | in the linked list a repeated key is overwritten where it stands, or a node goes to the end |
| ConfigLoader.ConfigObj.Enter | src/config.c:184-215 | the section of the name is found in the linked list of its type, or made in front of it |
| ConfigLoader.ConfigObj.Assign | src/config.c:274-278 | a parameter changes the section it is given in, and no other of any list |
| ConfigLoader.ConfigObj.HandleLine | src/config.c:240-284 | a line of the file has the effect of the line it reads as |
| ConfigLoader.LoadFile | src/config.c:218-286 | loading a file yields the sections that its lines ask for |
| JailConfig.LastDecides | src/jail.c:129-162 | the last assignment to a setting decides it, and without one it stays |
| JailConfig.JailSetting | src/jail.c:252-265 | a setting of a jail is the last assignment in its section, else the last one in defaults, else what the defaults held before |
| JailConfig.FirstNumbers | src/jail.c:28-33 | from the lines of the first file read to the times, the score limit and the enabled flag of a jail, with their defaults |
| JailConfig.FlagsStick | src/jail.c:136-155 | state and module flags are set by any assignment and never cleared |
| JailSetup.ParseCompound | src/jail.c:46-66 | a value splits at its first colon into name and init string; what it does not give, or gives too long a name for, stays |
| JailModules.CompoundReadBack | src/jail.c:46-66 | a name and an init string joined by a colon come apart again, the init string cut to 191 characters; a name of more than 31 characters changes nothing |
| JailModules.NameAlone | src/jail.c:49-53 | a value without a colon gives a name, cut to 31 characters, and leaves the init string |
| JailModules.ModuleNames | src/jail.c:141-155 | each of three names sets its own module, and any other name none |
| JailModules.ModuleDecided | src/jail.c:140-155 | the name of a module is the last one given, and its init string, decided apart, the last one given |

## Left out

- Socket set-up, `select`, `accept` and client slots of `src/csocket.c`, event broadcast, and the client program: operating-system input and output.
- The loading of modules in `src/source.c`, `src/filter.c` and `src/backend.c`, the regular expressions, ipset and redis: sources and filters are the events they yield, a backend is a set of texts.
- `src/daemon.c`, `src/log.c`, `src/event.c`, `src/appconfig.c`: process set-up, logging and formatting. Of the reload only its effect on jail settings is modelled.
- The text of status replies and of the help; the status of a host is its fields, without the listing of its matches.
- Running the commands of exec hooks and the splitting of hook commands into arguments: a hook leaves a trace when it runs. What the check, ban and unban hooks do is the ban set of the jail model.
- Failing allocations, files and backends: all of them succeed. The memory of hosts and matches that leave a list is not tracked further.
- The address check itself (`inet_pton`) and addresses that it refuses: events carry valid addresses in the theorems over runs (`src/jail.c:326-327` does not check).
- Jails without a backend in the theorems over runs.
- Floating point: bantime_extend and findtime_extend are reals with truncation, without rounding. Times and counters do not overflow, except for the 16-bit score and limit and the 32-bit times of the state file; `atoi` is not limited to the range of an int.
- Buffers have one more cell than the program gives them, for the terminator that it writes behind a full buffer (`src/buf.c:39`, `src/csocket.c:168`, `src/config.c:52`). Searching back from an equals sign at the very start of a line (`src/config.c:31`) is modelled as an index of minus one.
- Delimiters of more than one character in `f2b_buf_extract`: only the newline is used.
- The search for included files; they read as one file in which a line without a valid header ends each part.
- NUL characters inside the lines of a state file.
- The clock going backwards, and collision resistance of MD5.
- JailRuns.RunDurable: does not cover an operator's ban of a listed host, because there it is false; JailRuns.RebanDurable has the exact condition.
- JailRestart.RestartBringsBack: does not cover runs with an operator's ban or release of a listed host, because there it is false; JailRestart.RestartBackend holds for all runs.
- JailDecision.DecisionExact: does not cover negative scores and larger ones, because there it is false; JailDecision.MisjudgedWhen has the exact condition.
- Settings.SetParamSane: does not say that the score limit is positive, because a negative one is accepted.
