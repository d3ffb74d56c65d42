# AirPlay 2 Lite: a verified model of its codec, tables and volume path

This project models four components of the AirPlay 2 receiver in Dafny and proves what they keep,
call by call and over whole runs.

- **Base64** (`src/crypto_utils.c`). `Bits.dfy` and `Base64Spec.dfy` describe section 4 of RFC 4648
  on bit strings, without triples, tables or buffers; `Base64Theorems.dfy` proves the round trips
  and the image of the encoder; `Base64.dfy` holds the loops over arrays, with 32-bit and `size_t`
  arithmetic reduced explicitly, and proves them against that description. `SIZE_MAX` is any
  value C allows.
- **Multiroom table** (`src/multiroom.c`). `RoomTable.dfy` is the table as an ordered list and each
  function's work under the mutex; `RoomMemory.dfy` is the static arrays byte for byte and the
  proof that they represent that list; `Multiroom.dfy` is the sequential program on arrays;
  `RoomLaws.dfy` states what each function does room by room and log by log, with no other
  behaviour left; `RoomRuns.dfy` proves what holds over every run; `Interleaving.dfy` cuts the functions into
  single writes, `Threads.dfy` interleaves any number of threads, the unlocked reads of
  `is_running` and `room_count` included, and `Progress.dfy` shows which calls return.
- **Client slots** (`src/airplay_server.c`). `ClientTable.dfy` is the list of slots,
  `ClientRuns.dfy` its invariants and runs, `ClientLaws.dfy` what each function does slot by slot
  and log by log, `AirplayServer.dfy` the scanning loops.
- **Volume** (`src/volume_control.c`, `src/audio_output.c`). `VolumeModel.dfy` and
  `VolumeControl.dfy`, over exact reals: C `float` rounding and NaN are idealised away.

`Descriptors.dfy` is the operating system's part: the set of descriptors a module was given and has
not closed, logs of closes, sends and receives, and a count of faults, which are closes and uses of
a descriptor the module does not hold open. A system call's result is a parameter constrained by
what the kernel guarantees: a new descriptor is not one already open, and `select` reports a subset
of what it was asked. `CStrings.dfy` has the libc string functions on fixed-size rows.

Four properties one might expect of the code are false of it, and are stated as they are:

- Encoding a decoded string returns the string exactly when it was canonical (`EncodeDecode`); the
  decoder accepts others, such as `AA=A`, `====` and `AB==` (`AcceptedNotCanonical`).
- Stored room names stay distinct exactly when the stored, possibly truncated, form of each new name
  is new (`AddKeepsNamesDistinct`). A name of 32 characters or more never matches a row, so while
  there is room it can be added again and again, and a remove by the full name always fails; a
  remove by the 31 characters that were stored works (`LongNamesEscapeTheCheck`,
  `LongNamesCollide`).
- A `multiroom_cleanup` that gets the mutex can return exactly when the table is not running then,
  that is when every start that took effect has had a stop since (`CleanupReturnsIff`), and then
  does so within eleven steps of its own (`CleanupReturnsWhenStopped`). Otherwise its nested stop
  waits for the mutex its own thread holds, and no section ever completes again
  (`DeadlockIsForever`). After every execution some continuation gets there, whether or not
  multiroom is enabled: `multiroom_set_config` can enable it (`HangAlwaysReachable`).
- Over every run of a server from its creation, a stop or destroy closes only what the server holds,
  unless there was no start and no stop yet, or the last start came after the last stop and failed
  past `socket()` (`StopMissesIff`). So when the first start fails that way, the destroy in
  `src/main.c:117` closes a descriptor twice (`DestroyAfterStart`).

## Model

| member | source | states |
|---|---|---|
| Base64.Encode | src/crypto_utils.c:107-135 | the buffer receives the RFC 4648 encoding of the first bytes, one NUL, and nothing beyond; a null argument is refused with nothing written |
| Base64.EncodeInto | src/crypto_utils.c:112-134 | the length arithmetic does not wrap and writes stay within indices 0 to the encoded length |
| Base64.EncodeBlocks | src/crypto_utils.c:115-126 | the first loop ends with its output index at the encoded length, having written the sextets of the zero-completed input |
| Base64.PadAndTerminate | src/crypto_utils.c:128-133 | the second loop turns exactly the last pad-count characters into `=` and the next into NUL |
| Base64.PackBytes | src/crypto_utils.c:116-120 | the packed word is below 2^24, so no 32-bit addition wraps |
| Base64.PackSextets | src/crypto_utils.c:162-167 | the same for four sextets |
| Base64.TableIsAlphabet | src/crypto_utils.c:104-105 | the lookup table lists the alphabet of RFC 4648 by value |
| Base64.StrChrIsValueOf | src/crypto_utils.c:162-165 | searching the table with `strchr` inverts it |
| Base64.EncodeBlock | src/crypto_utils.c:120-125 | four shift-and-mask lookups spell the 24 bits of three bytes |
| Base64.DecodeBlock | src/crypto_utils.c:162-171 | three shift-and-mask stores spell the 24 bits of four characters, pads as zero |
| Base64.Decode | src/crypto_utils.c:137-175 | succeeds exactly on non-null arguments, a length divisible by four and enough room; then stores the length and writes exactly that many bytes, the first bits of the sextets; otherwise changes nothing |
| Base64.DecodeBlocks | src/crypto_utils.c:161-172 | the loop stops storing at the decoded length, wherever that falls in a block |
| Base64.EncodedBufferDecodes | src/crypto_utils.c:107-175 | the buffer the encoder leaves is a C string the decoder accepts, and for every capacity of at least the input length it decodes to the input |
| Base64.Rfc4648Vectors | src/crypto_utils.c:104-135 | encodings given in section 10 of RFC 4648, and one each for the last two characters of the alphabet |
| Base64.DecodesBlock | src/crypto_utils.c:137-175 | four characters, canonical or not, decode to as many first bytes of their packed sextets as three less the pads among the last two |
| Base64.NonCanonicalDecodes | src/crypto_utils.c:137-175 | the bytes of `AB=D`, `====`, `AB==` and `=AAB` |
| Base64Theorems.DecodedLengthCountsPads | src/crypto_utils.c:150-157 | the decoded length is three for each four characters less the pads among the last two, wherever they stand |
| Base64Theorems.FlattenDecode | src/crypto_utils.c:137-175 | the bits of the decoded bytes are the first bits of the sextets, for every accepted string |
| Base64Theorems.EncodeIsTheBitStream | src/crypto_utils.c:112-133 | the six-bit values of the data characters, concatenated, are the input bits padded with zeros to a multiple of six; the rest is (3 - n mod 3) mod 3 pads |
| Base64Theorems.DecodeEncode | src/crypto_utils.c:107-175 | decoding an encoding gives back every non-empty input and its length |
| Base64Theorems.EncodeDecode | src/crypto_utils.c:107-175 | for every non-empty string over alphabet and pad with length divisible by four, encoding its decoding gives it back if and only if it is canonical |
| Base64Theorems.AcceptedNotCanonical | src/crypto_utils.c:137-175 | `AA=A`, `====` and `AB==` are decoded, and encoding the result gives another string |
| Base64Theorems.EncoderImage | src/crypto_utils.c:107-135 | the encodings of non-empty inputs are exactly the non-empty canonical strings |
| Base64Theorems.EncodeConcat | src/crypto_utils.c:115-126 | an input of whole blocks encodes independently of what follows it |
| Base64Theorems.EncodeByBlocks | src/crypto_utils.c:115-131 | encoding completed blocks and overwriting the end with pads equals the bit-string definition |
| RoomMemory.NameRowText | src/multiroom.c:209-211 | a row holds the name, cut to 31 characters, and a NUL within 32 bytes |
| RoomMemory.NameRowBytes | src/multiroom.c:209-211 | every byte of a written row: at most 31 characters of the name, then NULs to the end |
| CStrings.StrCpyBytes | src/multiroom.c:267 | `strcpy` writes the text and its NUL, and leaves the target's later bytes |
| RoomMemory.AddRefines | src/multiroom.c:209-226 | filling the first vacant slot appends one room and keeps the arrays valid, whether or not a socket was created |
| RoomMemory.ShiftEffect | src/multiroom.c:265-270 | the compaction loop moves text, socket and address of each later room down one slot, whatever bytes `strcpy` leaves behind the NUL |
| RoomMemory.RemoveRefines | src/multiroom.c:260-277 | the table is already the list without that room when the count is decremented, and clearing the last slot keeps it and restores validity |
| RoomMemory.DropRefines | src/multiroom.c:157-163 | sweeping all eight entries closes exactly the listed rooms' live sockets, in order |
| RoomMemory.SyncRefines | src/multiroom.c:320-328 | the send loop sends the table's datagrams and changes no array |
| RoomMemory.InitRefines | src/multiroom.c:40-46 | initialisation turns any array contents, zeroed sockets included, into a valid empty table |
| Multiroom.Multiroom.Init | src/multiroom.c:31-52 | an empty valid table; no socket is closed |
| Multiroom.Multiroom.Cleanup | src/multiroom.c:54-78 | when not running, closes every live socket once and keeps the rooms |
| Multiroom.Multiroom.Start | src/multiroom.c:106-147 | the new state and return value in all five outcomes; the bound socket stays open outside the table |
| Multiroom.Multiroom.Stop | src/multiroom.c:149-171 | closes the live sockets of a running table and stops it |
| Multiroom.Multiroom.AddRoom | src/multiroom.c:187-237 | appends one room or returns -1 unchanged on a missing or empty name, a full table or a listed name |
| Multiroom.Multiroom.RemoveRoom | src/multiroom.c:239-288 | deletes the first room of that name, survivors in order, its socket closed; -1 unchanged when absent |
| Multiroom.Multiroom.GetRoomList | src/multiroom.c:297-311 | one row per room, in order, each byte its name's or NUL, the other rows untouched |
| Multiroom.Multiroom.GetRoomCount | src/multiroom.c:290-295 | the number of listed rooms |
| Multiroom.Multiroom.SyncAudio | src/multiroom.c:313-337 | sends to each live room in order, or returns -1 with nothing sent |
| Multiroom.Multiroom.SendToRooms | src/multiroom.c:320-328 | the loop performs the sends of the first `room_count` entries and changes nothing else |
| RoomLaws.SectionIsLaw | src/multiroom.c:31-337 | in every reachable table each function has exactly the effect of its law: rooms one by one, both flags, return value, and the logs of sockets, closes and sends |
| RoomRuns.StepKeeps | src/multiroom.c:31-337 | every section keeps live sockets distinct and open, nothing closed twice, and accounts for every descriptor left open outside the table |
| RoomRuns.SocketAccounting | src/multiroom.c:54-277 | over every run: no fault, and opened minus closed is the live entries plus one for each successful start plus what repeated initialisation forgot |
| RoomRuns.Provenance | src/multiroom.c:209-277 | each listed room comes from one successful add of its own, in order of addition, with the name it stored, its socket or none, and that add's port in its address if it got a socket, an all-zero address otherwise |
| RoomRuns.NeverReopened | src/multiroom.c:149-277 | between any two moments of a run a room that stays listed keeps name and address, and a dropped socket stays dropped |
| RoomRuns.AddKeepsNamesDistinct | src/multiroom.c:200-211 | a successful add keeps stored names distinct if and only if the stored form is new, which it is for names of at most 31 characters |
| RoomRuns.LongNamesEscapeTheCheck | src/multiroom.c:200-258 | in every reachable table a name of 32 characters or more matches no row: adding it succeeds if and only if there is room, and makes stored names collide when its stored form was listed; removing it by the full name returns -1 unchanged, by the stored form succeeds |
| RoomRuns.LongNamesCollide | src/multiroom.c:187-258 | from every initial table, adding one name of 32 characters or more twice lists its stored form twice, and a remove by the name fails |
| RoomRuns.ShortNamesStayDistinct | src/multiroom.c:187-288 | over every run that adds names of 1 to 31 characters, stored names are distinct and non-empty |
| RoomRuns.AddThenRemove | src/multiroom.c:187-288 | adding a fresh fitting name and removing it restores rooms and open descriptors exactly, the new socket closed |
| RoomRuns.SyncSends | src/multiroom.c:320-328 | a sync adds one datagram per live room, in table order, each on an open socket to that room's address |
| RoomRuns.RunSends | src/multiroom.c:313-337 | over every run the log of sends is exactly those of its syncs |
| RoomRuns.SendsReachTheirPorts | src/multiroom.c:187-337 | over every run, whatever was sent carries the data of some sync and went, on the socket of an earlier successful add, to the port that add was given |
| RoomRuns.EnabledIsLastConfigured | src/multiroom.c:80-93 | after every run the enabled flag is the argument of the last configuration |
| RoomRuns.RunningIff | src/multiroom.c:106-171 | after every run the table is running if and only if some start that took effect has had no stop since |
| RoomRuns.StoppedIff | src/multiroom.c:106-171 | a table once running is not running later if and only if a stop in between found it running and no start has taken effect since |
| RoomRuns.StopDisconnects | src/multiroom.c:149-171 | a stop closes each live socket once, in order, keeps names and addresses, and is idempotent |
| RoomRuns.CleanupDisconnects | src/multiroom.c:54-78 | a cleanup closes each live socket once, in order, leaves no room with one, and keeps names, addresses, count and both flags |
| RoomRuns.SyncAfterStop | src/multiroom.c:149-337 | a sync whose section comes right after a stop's sends nothing |
| RoomRuns.StoppedRoomsStaySilent | src/multiroom.c:54-277 | over every run, a room listed at a stop of a running table or at a cleanup has no socket for as long as it stays listed |
| RoomRuns.SyncAfterStopSendsToLater | src/multiroom.c:54-337 | so a sync at any later point of the run sends only to rooms added after that stop or cleanup |
| Interleaving.MicroProceeds | src/multiroom.c:31-337 | every single step under the mutex either leaves count and running flag alone or completes its section with the list operation's table and return value |
| Threads.NextKeeps | src/multiroom.c:31-337 | every step of every thread keeps the interleaving invariant |
| Threads.Linearization | src/multiroom.c:31-337 | in every execution with any number of threads, whenever the mutex is free the memory represents the table of the completed sections run in lock-acquisition order, and every section's status is the one its operation returns there |
| Threads.CallTakesEffectOnce | src/multiroom.c:31-337 | between a call's asking for the mutex and its return exactly one section of its thread completes; it is that call's, and the call returns what its operation returns there; a list copies the names of the table at that moment, and the count it reads after unlocking is that of the same or a later table, equal to the names copied when nothing completed in between |
| Threads.RealTimeOrder | src/multiroom.c:31-337 | a call finished before another asks for the mutex takes effect before it |
| Threads.CallsTakeEffectApart | src/multiroom.c:31-337 | calls of different threads never take effect at the same section |
| Threads.HistoryObeysLaws | src/multiroom.c:31-337 | in every execution each completed section has the effect and the return value of its law |
| Threads.CleanupLeavesNoSocket | src/multiroom.c:54-78 | a cleanup that has returned closed every socket live when it took effect, in order, and left no room with one |
| Threads.TestSeesTable | src/multiroom.c:314 | the unlocked test lets a sync go on if and only if the table of the sections completed so far is running |
| Threads.SyncAfterTest | src/multiroom.c:313-337 | a sync that passed the test takes effect on a stopped table if and only if a stop took effect in between and no start since, and then sends only to rooms added after that stop |
| Threads.SyncSendsOncePerLiveRoom | src/multiroom.c:313-337 | in every state of every execution nothing was sent or closed on a descriptor not open, and the sends are one per live room of each completed sync, followed by those to the rooms a sync under way has already served, whoever holds the mutex |
| Threads.NestedStopNeverLocks | src/multiroom.c:54-59 | the stop nested in a cleanup, which locks the mutex like any other, never gets it: its own thread holds it |
| Progress.BlockedIff | src/multiroom.c:31-337 | in every state of every execution a thread has no next step if and only if it waits for a mutex that is held, or hangs in a cleanup's nested stop |
| Progress.SectionEnds | src/multiroom.c:31-337 | a thread that holds the mutex and makes eleven more steps has finished its call, whatever the others do, or hangs in a cleanup that found the table running |
| Progress.CanFinish | src/multiroom.c:31-337 | every call that got the mutex can be finished, unless it is a cleanup that found the table running |
| Threads.ExecutionsStart | src/multiroom.c:14-52 | for every number of threads there is an execution that starts with all of them idle in the memory that one initialisation makes of zeroed arrays, enabled or not |
| Progress.DeadlockIsForever | src/multiroom.c:54-59 | once a cleanup got the mutex of a running table, it never releases it, and the arrays and the history never change again |
| Progress.CleanupReturnsWhenStopped | src/multiroom.c:54-78 | a cleanup that found the table stopped has returned 0 after eleven more steps of its own |
| Progress.CleanupReturnsIff | src/multiroom.c:54-78 | after every execution that brings a cleanup into its section, some continuation lets it return if and only if the table is not running; it is running if and only if some start that took effect has had no stop since |
| Progress.HangAlwaysReachable | src/multiroom.c:54-147 | after every execution with a thread in it, some continuation hangs, whatever the configuration was |
| AirplayServer.AirplayServer.constructor | src/airplay_server.c:65-79 | a zeroed server: no client, not running, and descriptor 0 in every field |
| AirplayServer.AirplayServer.Start | src/airplay_server.c:81-133 | the outcome of each stage; a failure closes the socket and keeps its number |
| AirplayServer.AirplayServer.Stop | src/airplay_server.c:135-176 | closes connected clients in slot order, then the listener |
| AirplayServer.AirplayServer.Process | src/airplay_server.c:178-267 | one call is the abstract step; not running, EINTR, error and timeout change nothing |
| AirplayServer.AirplayServer.AcceptClient | src/airplay_server.c:222-251 | the two scans store the client in the first free slot or close it |
| AirplayServer.AirplayServer.HandleClientRequest | src/airplay_server.c:269-294 | one receive; -1 exactly when it returned 0 or less |
| AirplayServer.AirplayServer.IsConnected | src/airplay_server.c:440-451 | true if and only if some slot is connected |
| ClientRuns.RescanIsExact | src/airplay_server.c:222-251 | the search by descriptor finds the new client if and only if there was a free slot, despite stale fields |
| ClientRuns.ProcessKeeps | src/airplay_server.c:178-267 | open descriptors stay exactly the listener and the connected clients, all different, nothing is missed, and listener and running flag stay |
| ClientRuns.ProcessServesOnce | src/airplay_server.c:216-264 | clients connected at entry and ready are each served once in slot order, a newcomer is not, a slot is freed exactly when its receive returned 0 or less and keeps its number and peer, and one answer goes out per answered request |
| ClientRuns.NewcomerIsNotDue | src/airplay_server.c:216-256 | a client accepted in a call is not among the descriptors reported ready in it |
| ClientLaws.ProcessIsLaw | src/airplay_server.c:178-294 | in every reachable state a call has exactly the effect of its law; not running, a failed `select`, EINTR and a timeout change nothing, and the status is 0 exactly when running and timed out, interrupted or served |
| ClientLaws.StartIsLaw | src/airplay_server.c:81-133 | a start has exactly the effect of its law: status, listener, running flag and logs in every outcome |
| ClientLaws.StopIsLaw | src/airplay_server.c:135-176 | a stop has exactly the effect of its law: slots, listener, closes in order |
| ClientLaws.MainContinuesIff | src/main.c:115-129 | after every run a start returns 0 if and only if all its calls succeeded, -1 otherwise, and main goes on exactly when the server runs and listens on the new, open descriptor |
| ClientLaws.IdleCallsChangeNothing | src/airplay_server.c:178-214 | over every run a call with nothing to do leaves the whole server as it was |
| ClientLaws.TurnedAwayIffFour | src/airplay_server.c:222-251 | after every run the client a call accepts is closed in it if and only if four are connected |
| ClientLaws.AskedIsOpen | src/airplay_server.c:185-198 | while running, `select` is asked about exactly the open descriptors |
| ClientRuns.DescriptorConservation | src/airplay_server.c:65-267 | over every run from creation, failed starts included, each descriptor is open, as the listener of a running server or in exactly one connected slot, or closed as often as handed out, but for the closes of stale stops, which are the only faults |
| ClientRuns.StopClosesEverything | src/airplay_server.c:135-169 | a stop closes each client once, then the number in `socket_fd`, and leaves nothing open; only that last close can miss, exactly when the server was not running |
| ClientRuns.StopIsIdempotent | src/airplay_server.c:135-169 | stopping twice is stopping once |
| ClientRuns.ShutdownClosesAll | src/main.c:136-137 | stop then destroy after every run leaves nothing open, and closes exactly what was handed out if and only if no stop came at a stale moment |
| ClientRuns.MainIsNeverStale | src/main.c:115-137 | a run of one successful start and then only processing has no stale stop and is not stale |
| ClientRuns.StopMissesIff | src/airplay_server.c:81-169 | after every run a stop misses exactly one close if there was no start and no stop yet or the last start came after the last stop and failed past `socket`, and none otherwise |
| ClientRuns.DestroyAfterStart | src/main.c:115-117 | destroying after a first start is clean if and only if the start succeeded or failed in `socket` itself; otherwise the descriptor is closed twice |
| ClientRuns.DestroyUnstarted | src/airplay_server.c:65-176 | destroying a server never started closes descriptor 0 |
| VolumeModel.RunStaysInRange | src/volume_control.c:41-143 | over every run the volume and every pushed value are in range, and the last pushed value is 0 if muted and otherwise the volume |
| VolumeModel.LevelIsLastSetAndSteps | src/volume_control.c:41-143 | over every run the level is the last accepted set followed by the clamped steps after it, and the mute flag the last mute |
| VolumeModel.PushIsLevelOrSilence | src/volume_control.c:41-143 | every command but a refused set pushes once: 0 while muted, the new level otherwise |
| VolumeModel.StepsUp | src/volume_control.c:97-119 | n steps up from v give min(1, v + n/20) |
| VolumeModel.StepsDown | src/volume_control.c:121-143 | n steps down from v give max(0, v - n/20) |
| VolumeModel.StepDownUndoesStepUp | src/volume_control.c:97-143 | a step down undoes a step up if and only if the step up was not cut short |
| VolumeModel.MutedRunIsSilent | src/volume_control.c:41-143 | while muted every push is 0, and unmuting gives the state the same commands reach unmuted |
| VolumeModel.MixerMonotone | src/audio_output.c:297-299 | the mixer level is in range and monotone in the volume |
| VolumeModel.MixerScale | src/audio_output.c:297-335 | 0 and 1 are the ends of the mixer both ways, and its levels read back equally far apart |
| VolumeModel.MixerReadBack | src/audio_output.c:297-335 | the value read back is at most the one set, by less than one mixer step, equal exactly when the scaled value is whole, and setting it again keeps the level |
| VolumeControl.AudioOutput.SetVolume | src/audio_output.c:273-310 | refuses exactly the values out of range and otherwise sets the mapped level |
| VolumeControl.AudioOutput.GetVolume | src/audio_output.c:312-345 | the level mapped back, or one half without a hardware mixer |
| VolumeControl.VolumeControl.constructor | src/volume_control.c:13-29 | starts at one half, not muted, with nothing pushed |
| VolumeControl.VolumeControl.SetVolume | src/volume_control.c:41-62 | a value out of range is refused with no change and no push; otherwise that value is the volume, it or the 0 of a mute is pushed and shown by the mixer, and the mute flag stays |
| VolumeControl.VolumeControl.SetMute | src/volume_control.c:71-88 | the flag is stored, the volume stays, and 0 or the volume is pushed |
| VolumeControl.VolumeControl.StepUp | src/volume_control.c:97-119 | the volume rises by 0.05, to 1 at most, and 0 or the volume is pushed |
| VolumeControl.VolumeControl.StepDown | src/volume_control.c:121-143 | the volume falls by 0.05, to 0 at least, and 0 or the volume is pushed |

## Left out

- Base64.Decode: the empty string, which the source reads before its start, and characters outside the alphabet and `=`, for which `strchr` returns NULL, are preconditions; so is a length whose triple fits `size_t`.
- Multiroom.Multiroom.Init: a repeated initialisation is modelled, and the sockets it forgets are counted, not excluded.
- Threads.Linearization: the two unlocked reads are taken as atomic; C calls them data races. Executions start right after the first initialisation; of `multiroom_set_config` only the enabled flag is modelled, and the getters that read one field under the mutex are no calls.
- Progress.SectionEnds: a step is one write under the mutex; the search loops of add and remove count as part of one step, and system calls are taken to return.
- AirplayServer.AirplayServer.Start: starting a server that is already running, which drops its listener, is not part of the runs.
- AirplayServer.AirplayServer.Process: descriptors at or above `FD_SETSIZE`, and the content of requests and responses; `session_id` is always zero and is not a field.
- VolumeControl.AudioOutput.SetVolume: C `float` rounding and NaN, and a mixer whose minimum and maximum coincide.
- The module pairs a row copy with its libc function (`strcpy`, `strncpy`) as one update of the row, not character by character.
- SHA-1, HMAC, AES and random bytes in `src/crypto_utils.c`: wrappers over OpenSSL.
- mDNS callbacks, `src/network_utils.c`, socket options and binding details: foreign calls.
- ALSA setup, PCM writes and the ring buffer of `src/audio_output.c`: device behaviour, and positions that nothing advances.
- `src/playback_control.c`, the getters and setters of configuration and sync delay, callback registration and callback bodies: single branches, or code outside these files.
- Repeated `volume_control_init`, which resets the volume without pushing it: only the first one is modelled.
- `src/main.c` beyond its order of start, stop and destroy; logging, signals, configuration and build files.
