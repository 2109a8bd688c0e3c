# Client patching for a 3.3.5a authentication server, in Dafny

This project models the client-patching system of an AzerothCore authentication server and
proves properties of that model. A client whose build is below the server's minimum build is
not rejected. Instead, the server sends it an MPQ archive through the XFER protocol of the
login connection. The archive holds an installer, and the installer rewrites the client's
build number. Four parts are modelled.

- **The server** (`PatchMgr`, `AuthSession_patch.cpp`):
  - The registry of payload files, named `<locale><build>.mpq`, and how a payload is chosen
    for a client (an exact build first, else a build-0 fallback of the locale).
  - The XFER_INITIATE / XFER_DATA wire layouts.
  - The per-session transfer jobs: accept, resume, cancel, one chunk per update, and reaping
    of finished jobs.
  - The session handlers that drive all of the above.
- **The installer** (`installer.c`): the patch.cfg reader, the MD5 context and the check of
  the content patch's `.md5` file, locale detection, the choice of the next free
  `patch-<locale>-N.MPQ` slot, and the in-place edits of the client executable (the 16-bit
  build number and the four ASCII display strings).
- **The client patcher** (`patch_wow_client.py`): reading and rewriting the build number,
  the signature-check bypass at a given hexadecimal offset or found by pattern search, and
  the scans for byte patterns, function prologues and references to an address.
- **The archive builder** (`create_patch_mpq.py`): the text of patch.cfg, prepatch.lst and
  the `.md5` file, the archive's file table, and `main`'s naming and defaults.

Layout:

- `wrappers.dfy`: `Option`.
- `bytes.dfy`: fixed-width integers and little-endian encodings.
- `text.dfy`: ASCII case folding, decimal, `atoi`, lower-case hex.
- `patch_types.dfy`: the records and packed packets of `PatchMgr.h`.
- `patch_registry.dfy`: directory scan and payload choice.
- `transfer_spec.dfy`: the job logic as functions on job values.
- `patch_mgr.dfy`: the `PatchMgr` class, proved against `transfer_spec.dfy`.
- `auth_session_patch.dfy`: the `AuthSession` class.
- `md5_context.dfy`: `MD5_CTX` as a class over its 64-byte buffer.
- `installer.dfy`: config, `.md5` check, locale, slots.
- `installer_patch.dfy`: the edits to the executable.
- `client_patcher.dfy`: the client patcher.
- `patch_packager.dfy`: the archive builder, and the lemmas that tie what it writes to what
  the installer and the server read.

How the outside world is represented:

- Files are their contents: a `seq<byte>`, or an `array<byte>` where the source changes them
  in place.
- Whether a file or directory exists, whether an open, seek, read or write fails, and the
  MD5 compression function are all parameters.

## Model

| member | source | states |
|---|---|---|
| PatchTypes.DefaultPatchInfo | src/server/apps/authserver/Patcher/PatchMgr.h:41 | a new PatchInfo has build 0, size 0, empty locale and path, nothing cached |
| PatchTypes.DefaultPatchJob | src/server/apps/authserver/Patcher/PatchMgr.h:54 | a new job has no session or patch, a closed stream, position 0, is inactive, has logged nothing |
| PatchTypes.EncodeInitiate | src/server/apps/authserver/Patcher/PatchMgr.h:58-67 | the packed initiate packet is 31 bytes: Cmd, StrSize, the 5 name bytes at 2..7, the MD5 at 15..31 |
| PatchTypes.DecodeInitiate | src/server/apps/authserver/Patcher/PatchMgr.h:58-67 | exactly 31-byte inputs decode, into well-sized packets |
| PatchTypes.InitiateRoundTrip | src/server/apps/authserver/Patcher/PatchMgr.h:58-67 | decoding the encoding of any well-sized initiate packet gives it back, file size included |
| PatchTypes.InitiatePacketFor | src/server/apps/authserver/Patcher/PatchMgr.cpp:215-224 | the packet InitiatePatch builds (opcode 0x30, name "Patch", size and MD5 of the payload) is well-sized |
| PatchTypes.EncodeDataHeader | src/server/apps/authserver/Patcher/PatchMgr.h:70-77 | the data header is 3 bytes, opcode first |
| PatchTypes.DecodeDataHeader | src/server/apps/authserver/Patcher/PatchMgr.h:70-77 | a header is read from any input of at least 3 bytes |
| PatchTypes.DataHeaderRoundTrip | src/server/apps/authserver/Patcher/PatchMgr.h:70-77 | the header is read back exactly whatever payload follows it |
| PatchTypes.DataMessagePayload | src/server/apps/authserver/Patcher/PatchMgr.cpp:396-400 | an XFER_DATA message is 3 + n bytes and carries the payload after the header |
| PatchTypes.DataMessageHeader | src/server/apps/authserver/Patcher/PatchMgr.cpp:396-400 | the header of an XFER_DATA message reads back as (0x31, n) |
| PatchRegistry.PatchNameScan | src/server/apps/authserver/Patcher/PatchMgr.cpp:103 | on an accepted name the digit run ends exactly at the ".mpq" extension |
| PatchRegistry.ParsePatchName | src/server/apps/authserver/Patcher/PatchMgr.cpp:102-130 | a name matches iff it is 4 letters, ≥1 digit, ".mpq" in any case; a matching name whose digits exceed ULONG_MAX makes std::stoul throw; otherwise the locale is the lower-cased letters and the build is the digits' value mod 2^32 |
| PatchRegistry.LowerOfLetters | src/server/apps/authserver/Patcher/PatchMgr.cpp:129-130 | lower-casing four letters gives four lower-case letters |
| PatchRegistry.LoadEntry | src/server/apps/authserver/Patcher/PatchMgr.cpp:108-137 | an entry is kept iff it is a regular file, its name matches with a build std::stoul can read and its digest can be computed; a regular file whose build is out of range throws; the record has the parsed locale and build, that digest and the entry's size |
| PatchRegistry.LoadAll | src/server/apps/authserver/Patcher/PatchMgr.cpp:108-144 | the scan keeps at most one record per entry, all with stored (lower-case) locales, and stops at the first entry whose build makes std::stoul throw |
| PatchRegistry.LoadAllSnoc | src/server/apps/authserver/Patcher/PatchMgr.cpp:108-144 | scanning one more entry appends what is kept of it, unless the scan has already thrown |
| PatchRegistry.LoadAllStops | src/server/apps/authserver/Patcher/PatchMgr.cpp:108-144 | once an entry throws, the records loaded before it are all the registry holds and later entries are not looked at |
| PatchRegistry.LoadAllThrows | src/server/apps/authserver/Patcher/PatchMgr.cpp:108-144 | the scan throws iff some entry is a regular file whose build std::stoul cannot read |
| PatchRegistry.LoadAllKeeps | src/server/apps/authserver/Patcher/PatchMgr.cpp:108-144 | when the scan does not throw, every accepted entry is in the registry |
| PatchRegistry.LoadAllFromEntries | src/server/apps/authserver/Patcher/PatchMgr.cpp:108-144 | every record in the registry is LoadEntry of some entry of the listing |
| PatchRegistry.LoadAllExactly | src/server/apps/authserver/Patcher/PatchMgr.cpp:108-144 | every record comes from some entry; the scan throws iff some entry's build is out of range; without a throw every accepted entry is in the registry |
| PatchRegistry.FirstExact | src/server/apps/authserver/Patcher/PatchMgr.cpp:182-189 | the least index with the locale and exactly the build, or none when there is none |
| PatchRegistry.FirstFallback | src/server/apps/authserver/Patcher/PatchMgr.cpp:191-195 | the least index with the locale and build 0, or none when there is none |
| PatchRegistry.FindFrom | src/server/apps/authserver/Patcher/PatchMgr.cpp:178-204 | the single pass returns an exact entry with no earlier exact one, else the first fallback when no exact entry exists, else none |
| PatchRegistry.FindPatch | src/server/apps/authserver/Patcher/PatchMgr.cpp:169-205 | disabled or empty gives none; a result has the lower-cased locale and is exact or build 0; exact entries are preferred, and the earliest is chosen |
| PatchRegistry.FindPatchIsExactThenFallback | src/server/apps/authserver/Patcher/PatchMgr.cpp:169-205 | the lookup equals "first exact entry, else first build-0 entry of the locale" |
| PatchRegistry.ExactWins | src/server/apps/authserver/Patcher/PatchMgr.cpp:185-189 | when any exact entry exists the lookup returns an exact entry |
| TransferSpec.ReadAt | src/server/apps/authserver/Patcher/PatchMgr.cpp:386-387 | a read of n bytes into the zeroed chunk buffer yields n bytes |
| TransferSpec.ReadAtSplit | src/server/apps/authserver/Patcher/PatchMgr.cpp:386-387 | reading the bytes from pos up to end is reading a bytes and then the bytes from pos + a up to end |
| TransferSpec.ReadAtInFile | src/server/apps/authserver/Patcher/PatchMgr.cpp:386-387 | inside the file a read yields exactly the file's bytes |
| TransferSpec.ChunkLen | src/server/apps/authserver/Patcher/PatchMgr.cpp:379-380 | the chunk is at most the chunk size, and min(chunk size, bytes left) while the job is inside its file |
| TransferSpec.ProgressAtMost100 | src/server/apps/authserver/Patcher/PatchMgr.cpp:406 | inside the file, without 64-bit overflow, the percentage is at most 100 |
| TransferSpec.Progress | src/server/apps/authserver/Patcher/PatchMgr.cpp:406 | the progress percentage is at most 100 inside the file |
| TransferSpec.NextLogged | src/server/apps/authserver/Patcher/PatchMgr.cpp:408-412 | the logged progress only moves to a higher ten-percent band |
| TransferSpec.ChunkStep | src/server/apps/authserver/Patcher/PatchMgr.cpp:374-413 | one SendPatchChunk keeps session, patch and file content; a sent chunk leaves activity and stream alone; no chunk leaves position and log band; the log band never falls |
| TransferSpec.ChunkStaysInFile | src/server/apps/authserver/Patcher/PatchMgr.cpp:379-403 | inside the file, a read that does not fail sends exactly the next min(chunk, left) file bytes and advances the position by that much |
| TransferSpec.ChunkReadError | src/server/apps/authserver/Patcher/PatchMgr.cpp:389-394 | a failed read sends nothing, deactivates the job, keeps its position and marks the stream failed |
| TransferSpec.ChunkKeepsInFile | src/server/apps/authserver/Patcher/PatchMgr.cpp:374-403 | whatever the read does, a job inside its file stays inside it |
| TransferSpec.ChunkAdvances | src/server/apps/authserver/Patcher/PatchMgr.cpp:379-403 | before the end of the file a readable SendPatchChunk sends a data packet and strictly advances, staying in the same file and stream |
| TransferSpec.DrainStep | src/server/apps/authserver/Patcher/PatchMgr.cpp:379-403 | if the chunks from pos + n cover the bytes from there to size, then the chunk at pos followed by them covers pos..size |
| TransferSpec.DrainIsReadAt | src/server/apps/authserver/Patcher/PatchMgr.cpp:379-403 | cutting bytes pos..size into chunks and concatenating them gives the read of those bytes |
| TransferSpec.DeliveredIsDrain | src/server/apps/authserver/Patcher/PatchMgr.cpp:374-413 | repeated SendPatchChunk delivers the chunked bytes from the position to the file size |
| TransferSpec.DeliveredIsRestOfFile | src/server/apps/authserver/Patcher/PatchMgr.cpp:374-413 | a transfer started or resumed at K delivers exactly bytes K..FileSize |
| TransferSpec.DeliveredStep | src/server/apps/authserver/Patcher/PatchMgr.cpp:379-403 | if the transfer from K + n delivers the rest of the file, then the transfer from K (one chunk of n bytes, then that) delivers bytes K..FileSize |
| TransferSpec.DeliveredWholeFile | src/server/apps/authserver/Patcher/PatchMgr.cpp:374-413 | for a file of the registered size that is the file's content from K to its end |
| TransferSpec.TickJob | src/server/apps/authserver/Patcher/PatchMgr.cpp:351-355 | only an active job with an open stream sends, at most one packet, to its own session; any other job is unchanged |
| TransferSpec.Tick | src/server/apps/authserver/Patcher/PatchMgr.cpp:349-356 | the send pass keeps the number of jobs, sends at most one packet per job and keeps every job's patch |
| TransferSpec.TickPerJob | src/server/apps/authserver/Patcher/PatchMgr.cpp:349-356 | every job leaves the send pass as a single step on it leaves it |
| TransferSpec.TickSendsToActive | src/server/apps/authserver/Patcher/PatchMgr.cpp:349-356 | every packet of the send pass goes to a session in ActiveSessions of the jobs |
| TransferSpec.ActiveSessionsOf | src/server/apps/authserver/Patcher/PatchMgr.cpp:349-356 | a session is in ActiveSessions exactly when some active job belongs to it, so every packet goes to the session of an active job |
| TransferSpec.TickSnoc | src/server/apps/authserver/Patcher/PatchMgr.cpp:349-356 | the send pass over one more job extends the pass over the earlier jobs |
| TransferSpec.Reap | src/server/apps/authserver/Patcher/PatchMgr.cpp:358-371 | exactly the jobs whose position has not reached their file size are kept |
| TransferSpec.RemoveSession | src/server/apps/authserver/Patcher/PatchMgr.cpp:325-340 | exactly the jobs of other sessions are kept |
| TransferSpec.RemoveSessionIdempotent | src/server/apps/authserver/Patcher/PatchMgr.cpp:316-340 | cancelling twice is cancelling once |
| TransferSpec.DistinctAppend | src/server/apps/authserver/Patcher/PatchMgr.cpp:235-244 | adding a job of a session that has none keeps one job per session |
| TransferSpec.ReplaceKeepsShape | src/server/apps/authserver/Patcher/PatchMgr.cpp:349-356 | updating a job in place keeps one job per session and every job inside its file |
| TransferSpec.ReapKeepsDistinct | src/server/apps/authserver/Patcher/PatchMgr.cpp:358-371 | reaping keeps one job per session |
| TransferSpec.RemoveKeepsDistinct | src/server/apps/authserver/Patcher/PatchMgr.cpp:325-340 | removing keeps one job per session |
| TransferSpec.FindJob | src/server/apps/authserver/Patcher/PatchMgr.cpp:281-283 | the first job of the session, or none when it has none |
| TransferSpec.AcceptStep | src/server/apps/authserver/Patcher/PatchMgr.cpp:259-269 | accept succeeds iff the stream was closed and opens; then the job restarts at 0, active; otherwise position and activity are kept |
| TransferSpec.ResumeAsWritten | src/server/apps/authserver/Patcher/PatchMgr.cpp:287-308 | as written: succeeds iff the stream opens, has not failed and the seek is not refused; then the job takes the position and is active |
| TransferSpec.OpenIfClosed | src/server/apps/authserver/Patcher/PatchMgr.cpp:287-296 | an open stream is kept as it is, failed or not; a closed one is opened fresh and unfailed exactly when the file can be opened |
| TransferSpec.ResumeStep | src/server/apps/authserver/Patcher/PatchMgr.cpp:277-314 | resume succeeds iff the as-written resume does and the offset is within the file; on success the same job results; on failure position and activity are kept |
| TransferSpec.ResumeStepKeepsDefined | src/server/apps/authserver/Patcher/PatchMgr.cpp:277-314 | after the corrected resume a job is still inside its file, so SendPatchChunk never divides by a zero file size |
| TransferSpec.EmptyResumeDividesByZero | src/server/apps/authserver/Patcher/PatchMgr.cpp:298-308 | as written, resuming an empty payload at any offset past 0 succeeds with an active readable job, a non-empty chunk and a zero file size to divide by; the corrected resume refuses it |
| TransferSpec.ResumeDeliversRest | src/server/apps/authserver/Patcher/PatchMgr.cpp:298-308 | a resumed job is inside its file and readable, and the transfer then delivers exactly the bytes from the offset to the end |
| TransferSpec.ResumePastEndSendsZeros | src/server/apps/authserver/Patcher/PatchMgr.cpp:298-308 | as written, resuming at 2000 in a 1000-byte file is accepted and the next chunk is 1500 zero bytes; the corrected resume refuses it |
| PatchManager.ScanPatchDirectory | src/server/apps/authserver/Patcher/PatchMgr.cpp:108-144 | the directory loop produces exactly LoadAll of the entries: the records and whether std::out_of_range left the loop |
| PatchManager.PatchMgr.constructor | src/server/apps/authserver/Patcher/PatchMgr.cpp:45-51 | min build 12340, disabled, "ClientPatches", 1500-byte chunks, no patches or jobs |
| PatchManager.PatchMgr.SetMinBuild | src/server/apps/authserver/Patcher/PatchMgr.h:112 | sets the minimum build and nothing else |
| PatchManager.PatchMgr.SetEnabled | src/server/apps/authserver/Patcher/PatchMgr.h:118 | sets the enabled flag and nothing else |
| PatchManager.PatchMgr.Initialize | src/server/apps/authserver/Patcher/PatchMgr.cpp:60-89 | takes the options, clamps the chunk size to 100..65535, loads the registry only when enabled (reporting a std::out_of_range from LoadPatches), keeps the jobs |
| PatchManager.PatchMgr.LoadPatches | src/server/apps/authserver/Patcher/PatchMgr.cpp:91-147 | a missing directory gives an empty registry; otherwise registry and exception are LoadAll of the listing |
| PatchManager.PatchMgr.GetMinBuild | src/server/apps/authserver/Patcher/PatchMgr.h:109 | returns the configured minimum build |
| PatchManager.PatchMgr.IsEnabled | src/server/apps/authserver/Patcher/PatchMgr.h:115 | returns whether patching is enabled |
| PatchManager.PatchMgr.FindPatchForClient | src/server/apps/authserver/Patcher/PatchMgr.cpp:169-205 | none when disabled or empty; a result is a registry entry of the lower-cased locale with the build or build 0; an exact entry wins; any fallback gives a result |
| PatchManager.PatchMgr.RemoveJob | src/server/apps/authserver/Patcher/PatchMgr.cpp:325-340 | the jobs become RemoveSession of the old jobs, invariant kept |
| PatchManager.PatchMgr.InitiatePatch | src/server/apps/authserver/Patcher/PatchMgr.cpp:207-247 | fails iff the session or patch is missing; otherwise sends the encoded initiate packet and replaces the session's jobs by one pending job at 0 |
| PatchManager.PatchMgr.HandleXferAccept | src/server/apps/authserver/Patcher/PatchMgr.cpp:249-275 | no job of the session: false, unchanged; otherwise AcceptStep applied to the session's first job |
| PatchManager.PatchMgr.HandleXferResume | src/server/apps/authserver/Patcher/PatchMgr.cpp:277-314 | no job of the session: false, unchanged; otherwise ResumeStep applied to the session's first job |
| PatchManager.PatchMgr.HandleXferCancel | src/server/apps/authserver/Patcher/PatchMgr.cpp:316-323 | always true; no job of the session remains and every other job is kept |
| PatchManager.PatchMgr.SendPatchChunk | src/server/apps/authserver/Patcher/PatchMgr.cpp:374-413 | the job becomes ChunkStep of it and the chunk, if any, is sent to its session as an XFER_DATA message |
| PatchManager.PatchMgr.SendData | src/server/apps/authserver/Patcher/PatchMgr.cpp:396-413 | after a successful read the job becomes ChunkStep of it and exactly one XFER_DATA packet with the read bytes goes to its session |
| PatchManager.PatchMgr.UpdateJobs | src/server/apps/authserver/Patcher/PatchMgr.cpp:342-372 | disabled: nothing changes; otherwise jobs = Reap of the send pass and the sent packets are the pass's packets; no remaining job is finished |
| PatchManager.PatchMgr.SendChunks | src/server/apps/authserver/Patcher/PatchMgr.cpp:349-356 | the first loop turns the jobs into Tick's jobs and sends Tick's packets |
| PatchManager.PatchMgr.TickAt | src/server/apps/authserver/Patcher/PatchMgr.cpp:351-355 | one iteration applies TickJob to job i |
| PatchManager.PatchMgr.ReapFinished | src/server/apps/authserver/Patcher/PatchMgr.cpp:358-371 | the second pass leaves Reap of the jobs, all strictly inside their files |
| AuthSessionPatch.XferHandler | src/server/apps/authserver/Patcher/AuthSession_patch.cpp:24-27 | exactly the three XFER opcodes have handlers, all in STATUS_XFER; resume needs 9 bytes |
| AuthSessionPatch.ResumeRequest | src/server/apps/authserver/Patcher/AuthSession_patch.cpp:81-84 | a resume request is 9 bytes starting with the opcode |
| AuthSessionPatch.ResumeRequestRoundTrip | src/server/apps/authserver/Patcher/AuthSession_patch.cpp:81-84 | the handler reads back the client's offset, and a request of the table's size is never refused as short |
| AuthSessionPatch.AuthSession.CheckAndInitiatePatch | src/server/apps/authserver/Patcher/AuthSession_patch.cpp:106-130 | a transfer starts iff enabled, build below the minimum and a payload exists; then pending payload, STATUS_XFER and the manager's new job and packet; otherwise nothing changes |
| AuthSessionPatch.AuthSession.OnUnsupportedVersion | src/server/apps/authserver/Patcher/AuthSession_patch.cpp:137-148 | the connection stays open iff a transfer was started |
| AuthSessionPatch.AuthSession.HandleXferAccept | src/server/apps/authserver/Patcher/AuthSession_patch.cpp:50-67 | refused without a pending payload; otherwise the manager's accept on the session's job |
| AuthSessionPatch.AuthSession.HandleXferResume | src/server/apps/authserver/Patcher/AuthSession_patch.cpp:69-93 | refused without a pending payload or with fewer than 9 bytes; otherwise the manager's resume at the uint64 after the opcode |
| AuthSessionPatch.AuthSession.HandleXferCancel | src/server/apps/authserver/Patcher/AuthSession_patch.cpp:95-104 | returns false (close), forgets the payload, STATUS_CLOSED, no job of the session remains |
| AuthSessionPatch.AuthSession.Destroy | src/server/apps/authserver/Patcher/AuthSession_patch.cpp:34-42 | a pending transfer is cancelled and forgotten; without one the jobs are unchanged |
| Text.ToLower | src/server/apps/authserver/Patcher/PatchMgr.cpp:130 | letters map to lower-case letters, non-upper-case characters are kept |
| Text.LowerAt | src/server/apps/authserver/Patcher/PatchMgr.cpp:129-130 | lower-casing a string lower-cases each character in place |
| Text.LowerIdempotent | src/server/apps/authserver/Patcher/PatchMgr.cpp:176 | lower-casing twice changes nothing more |
| Text.NatToDecimal | tools/create_patch_mpq.py:125-126 | decimal text is at least one digit, without a leading zero |
| Text.DigitsValueOfDecimal | tools/create_patch_mpq.py:125-126 | the value of the decimal text of n is n |
| Text.DigitRun | src/server/apps/authserver/Patcher/PatchMgr.cpp:103 | the longest run of leading digits |
| Text.AtoiOfDecimal | tools/patch_installer/installer.c:558 | atoi of a printed integer followed by a non-digit is that integer, clamped to the C int range |
| Text.AtoiSigned | tools/patch_installer/installer.c:558 | atoi of a minus sign and digits is the negated value, clamped to the C int range |
| Text.SaturateInt | tools/patch_installer/installer.c:558 | the value atoi returns lies in INT_MIN..INT_MAX, and a value already in that range is returned unchanged |
| Text.Atoi | tools/patch_installer/installer.c:558 | atoi's result always lies in the C int range INT_MIN..INT_MAX |
| Text.EqualsIgnoreCase | tools/patch_installer/installer.c:557-560 | _stricmp reports equality iff the strings have the same length and agree character by character after lower-casing |
| Text.HexLower | tools/patch_installer/installer.c:348-350 | two lower-case hex characters per byte, no upper case, no white space |
| Bytes.LE16RoundTrip | tools/patch_wow_client.py:107-108 | storing a value as two little-endian bytes and reading it back gives it mod 2^16 |
| Bytes.LE64RoundTrip | src/server/apps/authserver/Patcher/PatchMgr.h:64 | a uint64 field reads back exactly |
| Bytes.Overwrite | tools/patch_wow_client.py:435-436 | storing bytes at an offset keeps the length, puts them in their window and changes nothing else |
| Installer.Find | tools/patch_installer/installer.c:532 | the index of the first occurrence of the character (strchr), or the length |
| Installer.FgetsLen | tools/patch_installer/installer.c:530 | fgets takes at most the buffer's capacity, at least one character, and stops after the first newline |
| Installer.Lines | tools/patch_installer/installer.c:529-530 | the successive fgets results; none exactly for an empty text |
| Installer.LinesOfShortLine | tools/patch_installer/installer.c:529-530 | a newline-terminated line shorter than the buffer is read whole, and reading continues after it |
| Installer.BlankRun | tools/patch_installer/installer.c:555 | the number of leading blanks (space or tab) |
| Installer.KeyEnd | tools/patch_installer/installer.c:551-552 | the key trim cuts trailing blanks but never the first character |
| Installer.SkipBlanksLoop | tools/patch_installer/installer.c:555 | the value-start loop stops after the leading blanks |
| Installer.TrimKeyEndLoop | tools/patch_installer/installer.c:551-552 | the key-end loop keeps exactly KeyEnd characters |
| Installer.CutLine | tools/patch_installer/installer.c:531-535 | the line is cut to a prefix at the first newline and then the first carriage return |
| Installer.ParseCut | tools/patch_installer/installer.c:537-547 | empty, comment ('#' or ';') and '='-less lines give nothing; a value never starts with a blank |
| Installer.ParseLine | tools/patch_installer/installer.c:531-555 | the key=value pair of a line; a value never starts with a blank |
| Installer.CutLineOfPlain | tools/patch_installer/installer.c:531-535 | a line without newline, CR or NUL is not cut |
| Installer.ParseLineOf | tools/patch_installer/installer.c:541-555 | a plain non-comment line splits at its first '=' into the trimmed key and the value after blanks |
| Installer.ApplyLine | tools/patch_installer/installer.c:557-563 | an ignored line changes nothing, and one line changes at most one build |
| Installer.ParseConfigLine | tools/patch_installer/installer.c:530-555 | the per-line code computes ParseLine |
| Installer.ReadConfig | tools/patch_installer/installer.c:516-568 | a missing file gives the defaults 12340/12341 and false; otherwise true and the configuration the lines give in order |
| Installer.KeyNamesDiffer | tools/patch_installer/installer.c:557-560 | OLD_BUILD and NEW_BUILD differ even ignoring case |
| Installer.ApplyLineKey | tools/patch_installer/installer.c:557-563 | a line that sets a key gives it (WORD)atoi of its value; other keys are untouched |
| Installer.BuildValue | tools/patch_installer/installer.c:558 | (WORD)atoi keeps atoi's value modulo 2^16, and a value that fits 16 bits unchanged |
| Installer.ConfigOf | tools/patch_installer/installer.c:516-568 | an empty patch.cfg leaves the defaults 12340/12341 |
| Installer.ApplyLinesAppend | tools/patch_installer/installer.c:530-564 | reading a + b is reading a then b |
| Installer.ApplyLinesUnset | tools/patch_installer/installer.c:530-564 | lines that do not set a key leave it as it was |
| Installer.LastSettingWins | tools/patch_installer/installer.c:530-564 | the last line that sets a key decides its value |
| Installer.IgnoredLines | tools/patch_installer/installer.c:537-543 | comments and lines without '=' change nothing |
| Installer.KeyLine | tools/patch_installer/installer.c:549-557 | keys in any case, with blanks around the key and after '=', are accepted |
| Installer.KeyHead | tools/patch_installer/installer.c:549-552 | blanks, a key, blanks: trimmed back to the key |
| Installer.KeyChars | tools/patch_installer/installer.c:557-560 | a key equal to OLD_BUILD/NEW_BUILD up to case is nine plain characters |
| Installer.SkipBlanksPrefix | tools/patch_installer/installer.c:555 | skipping blanks before a non-blank start leaves that start |
| Installer.TrimKeyEndSuffix | tools/patch_installer/installer.c:551-552 | trailing blanks after a key ending in a non-blank are cut back to the key |
| Installer.HashEnd | tools/patch_installer/installer.c:378-380 | the trim loop cuts exactly the trailing newlines, CRs and spaces |
| Installer.TrimHashLoop | tools/patch_installer/installer.c:378-380 | the trim loop computes TrimHash |
| Installer.TrimHash | tools/patch_installer/installer.c:378-380 | the trimmed hash is a prefix of the text, ends in no trim character, and only trim characters were cut |
| Installer.VerifyContentPatchMD5 | tools/patch_installer/installer.c:359-400 | no .md5 file passes; an empty one fails; otherwise it passes iff the patch can be hashed and its hex MD5 equals the trimmed first line ignoring case |
| Installer.DetectClientLocale | tools/patch_installer/installer.c:647-674 | none iff no Data\<locale> folder exists; otherwise the first known locale, in list order, whose folder exists |
| Installer.FindNextPatchNumber | tools/patch_installer/installer.c:684-700 | -1 iff slots 2..9 all exist; otherwise the least free slot in 2..9 |
| Md5Context.BlocksIff | tools/patch_installer/installer.c:246 | a whole number of blocks means a length divisible by 64 |
| Md5Context.AbsorbAppend | tools/patch_installer/installer.c:243-247 | compressing x then y is compressing x + y |
| Md5Context.AbsorbBlock | tools/patch_installer/installer.c:245 | one more block is one more MD5Transform |
| Md5Context.BitLen | tools/patch_installer/installer.c:239-241 | the bit count is below 2^64 and a multiple of 8 |
| Md5Context.PadLen | tools/patch_installer/installer.c:264-265 | the padding is 1..64 bytes and brings the length to 56 mod 64 |
| Md5Context.Padded | tools/patch_installer/installer.c:264-267 | the padded message is input + padding + 8 bytes long |
| Md5Context.PaddedBlocks | tools/patch_installer/installer.c:264-267 | the padded message is a whole number of blocks |
| Md5Context.PaddedShape | tools/patch_installer/installer.c:193-198 | the padded message is the input, 0x80, zeros, then the 64-bit bit count little-endian |
| Md5Context.DigestBytes | tools/patch_installer/installer.c:269-274 | the digest is 16 bytes |
| Md5Context.Md5 | tools/patch_installer/installer.c:255-274 | the MD5 of a message is 16 bytes |
| Md5Context.LowWordIndex | tools/patch_installer/installer.c:238 | (count[0] >> 3) & 0x3F is the byte count mod 64 |
| Md5Context.CounterAdd | tools/patch_installer/installer.c:239-241 | the two-word update with carry adds 8 * len to the 64-bit counter mod 2^64 |
| Md5Context.CounterAddWords | tools/patch_installer/installer.c:239-241 | adding a value given as a high word and a low word, with the low-word carry, adds it to the 64-bit counter mod 2^64 |
| Md5Context.BitLenAdd | tools/patch_installer/installer.c:239-241 | adding the bits of b bytes to those of a bytes is the bit count of a + b bytes |
| Md5Context.CounterStep | tools/patch_installer/installer.c:239-241 | the counter lines take the bit count of n bytes to that of n + len |
| Md5Context.Md5Ctx.LowWordIsCount | tools/patch_installer/installer.c:238 | count[0] is the low word of the bit count |
| Md5Context.Md5Ctx.IndexIsBuffered | tools/patch_installer/installer.c:238 | the index computed from count[0] is the number of buffered bytes, the input length mod 64 |
| Md5Context.Md5Ctx.AllAbsorbed | tools/patch_installer/installer.c:243-252 | at a block boundary the state is the compression of all input |
| Md5Context.Md5Ctx.Init | tools/patch_installer/installer.c:228-234 | the initial words of RFC 1321, a zero count, no input |
| Md5Context.Md5Ctx.CopyIn | tools/patch_installer/installer.c:244 | memcpy into the buffer after the kept prefix |
| Md5Context.Md5Ctx.Update | tools/patch_installer/installer.c:236-253 | the input grows by the data, the counter by 8 * len mod 2^64, the index by len mod 64 |
| Md5Context.Md5Ctx.Feed | tools/patch_installer/installer.c:242-252 | the buffer lines absorb the data and keep the counter |
| Md5Context.Md5Ctx.FillBlock | tools/patch_installer/installer.c:243-245 | topping up and compressing the buffered block |
| Md5Context.Md5Ctx.CompressRest | tools/patch_installer/installer.c:246-247 | the block loop compresses every complete block and leaves fewer than 64 bytes |
| Md5Context.Md5Ctx.Stash | tools/patch_installer/installer.c:252 | the trailing bytes are buffered |
| Md5Context.Md5Ctx.AddBits | tools/patch_installer/installer.c:239-241 | the counter lines add the bits of len bytes |
| Md5Context.Md5Ctx.Final | tools/patch_installer/installer.c:255-275 | the digest is Md5 of everything given to Update |
| Md5Context.CalculateFileMD5 | tools/patch_installer/installer.c:327-354 | none iff the file cannot be opened; otherwise the 32-character lower-case hex MD5 of its content |
| InstallerPatch.Window | tools/patch_installer/installer.c:784-799 | a read that delivers all bytes yields n bytes |
| InstallerPatch.BuildPatch | tools/patch_installer/installer.c:762-839 | length kept; failure leaves the file; success iff open and a 2-byte read work; then the offset holds newBuild and nothing else changed; newBuild already there is not rewritten |
| InstallerPatch.PatchBuildNumber | tools/patch_installer/installer.c:762-839 | the method's result and the executable are BuildPatch of the old bytes |
| InstallerPatch.BuildPatchIdempotent | tools/patch_installer/installer.c:803-809 | a second run after a successful one succeeds and leaves the file as the first left it |
| InstallerPatch.DisplayPatch | tools/patch_installer/installer.c:849-914 | success iff equal lengths, open and a full read; then the window holds newStr; nothing outside changes; already-patched is not rewritten |
| InstallerPatch.DisplayPatchIgnoresOldString | tools/patch_installer/installer.c:897-900 | only the old string's length matters; a mismatch is only a warning |
| InstallerPatch.PatchDisplayString | tools/patch_installer/installer.c:849-914 | the method's result and the executable are DisplayPatch of the old bytes |
| InstallerPatch.BuildString | tools/patch_installer/installer.c:921-922 | "%d" of a 16-bit build is 1..5 digits |
| InstallerPatch.DisplayPatches | tools/patch_installer/installer.c:926-931 | the count is at most the number of offsets and the length is kept |
| InstallerPatch.DisplayPatchesNone | tools/patch_installer/installer.c:926-934 | with no success the file is unchanged; strings of different lengths never succeed |
| InstallerPatch.DisplayPatchesFrame | tools/patch_installer/installer.c:926-931 | a byte outside every window keeps its value |
| InstallerPatch.DisplayPatchesAll | tools/patch_installer/installer.c:926-931 | with disjoint windows and no failures every window holds the new string and the count is the number of offsets |
| InstallerPatch.PatchAllDisplayStrings | tools/patch_installer/installer.c:919-935 | the executable is DisplayPatches over the four offsets; true iff at least one succeeded |
| InstallerPatch.AllDisplayStringsPatched | tools/patch_installer/installer.c:41-46 | on a large enough executable with no failures, all four display strings become the new build |
| InstallerPatch.DisplayWidthChange | tools/patch_installer/installer.c:850-855 | a new build with a different digit count patches no display string and the result is false |
| ClientPatcher.CurrentBuild | tools/patch_wow_client.py:83-87 | the little-endian 16-bit value at the build offset |
| ClientPatcher.StoredLowWord | tools/patch_wow_client.py:107-108 | the two stored bytes hold new_build mod 2^16 |
| ClientPatcher.BuildNumberRun | tools/patch_wow_client.py:89-112 | missing file: False; short file: IndexError; else True; written iff the build differs; then the offset holds new_build mod 2^16 and nothing else changed |
| ClientPatcher.BuildNumberTwice | tools/patch_wow_client.py:102-104 | a second run leaves the file as the first left it |
| ClientPatcher.PatchBuildNumber | tools/patch_wow_client.py:89-112 | the method's outcome and the executable are BuildNumberRun of the old bytes |
| ClientPatcher.HexNumeral | tools/patch_wow_client.py:143 | `{n:X}` is a non-empty string of hex digits |
| ClientPatcher.HexNumeralValue | tools/patch_wow_client.py:143 | the printed offset's digits have the offset's value |
| ClientPatcher.ParseHexOfNumeral | tools/patch_wow_client.py:130-134 | int(s, 16) reads back a printed offset, with or without "0x", and a negated one |
| ClientPatcher.ParseHex | tools/patch_wow_client.py:130-136 | a parsed value is negative only after a leading '-', never negative otherwise, and the text ends in a hex digit; empty text is a ValueError |
| ClientPatcher.PyWrites | tools/patch_wow_client.py:182-183 | the stores keep the length |
| ClientPatcher.PyWritesOutside | tools/patch_wow_client.py:182-183 | a byte no store reaches keeps its value |
| ClientPatcher.PyWritesAt | tools/patch_wow_client.py:182-183 | byte i lands at Python's position of offset + i |
| ClientPatcher.PyWritesForward | tools/patch_wow_client.py:182-183 | from a non-negative offset the stores are one contiguous overwrite |
| ClientPatcher.PyWritesWrap | tools/patch_wow_client.py:182-183 | from offset -n the first n bytes land at the end and the rest at the start |
| ClientPatcher.SignatureRunAsWritten | tools/patch_wow_client.py:114-189 | as written: length kept, written only on True |
| ClientPatcher.ParseMinusFive | tools/patch_wow_client.py:130-134 | int("-5", 16) is -5 |
| ClientPatcher.NegativeOffsetSplitsPatch | tools/patch_wow_client.py:142-144 | as written, offset "-5" on a file over 20 bytes writes the patch split between the file's end and start |
| ClientPatcher.SignatureRun | tools/patch_wow_client.py:114-189 | written iff the file exists and the offset parses into [0, len - 20); then exactly those 20 bytes become the patch; never IndexError |
| ClientPatcher.SignatureRunAgrees | tools/patch_wow_client.py:142-144 | on non-negative or unparsable offsets the corrected run equals the run as written |
| ClientPatcher.WriteBytes | tools/patch_wow_client.py:182-183 | the store loop overwrites the window and nothing else |
| ClientPatcher.PatchSignatureVerification | tools/patch_wow_client.py:114-189 | the method's outcome and the executable are SignatureRun of the old bytes |
| ClientPatcher.FindPattern | tools/patch_wow_client.py:197-212 | exactly the starts in [0, len - plen) where the masked pattern matches, ascending |
| ClientPatcher.FirstSignature | tools/patch_wow_client.py:345-377 | the result is -1 or a start in the searched range |
| ClientPatcher.FirstSignatureLeast | tools/patch_wow_client.py:330-379 | the offset found is the least matching start, and -1 means no start matches |
| ClientPatcher.FindSignaturePattern | tools/patch_wow_client.py:330-379 | the method returns SignatureOffset |
| ClientPatcher.FindWithSuffix | tools/patch_wow_client.py:339-365 | the suffix loop returns SignatureOffset |
| ClientPatcher.FindMasked | tools/patch_wow_client.py:367-377 | the mask-only loop returns SignatureOffset |
| ClientPatcher.FirstFound | tools/patch_wow_client.py:400-409 | the first pattern in dict order that is found, with its offset; none iff no pattern is found |
| ClientPatcher.SignatureAutoRun | tools/patch_wow_client.py:381-446 | length kept, written only on True |
| ClientPatcher.SignatureAutoPatches | tools/patch_wow_client.py:419-438 | on True the first found pattern's replacement is at the found offset and nothing else differs; written iff it was not there and fits |
| ClientPatcher.PatchSignatureAuto | tools/patch_wow_client.py:381-446 | the method's outcome and the executable are SignatureAutoRun of the old bytes |
| ClientPatcher.FindFunctionStart | tools/patch_wow_client.py:258-283 | the first prologue report scanning down from offset to above max(0, offset - max_search); none iff there is none |
| ClientPatcher.FindXrefsToAddress | tools/patch_wow_client.py:214-256 | exactly the starts in [code_start, min(code_end, len - 5)) loading the target, with their kind, ascending |
| PatchPackager.JoinTerminated | tools/create_patch_mpq.py:93 | "\r\n".join(lines) + "\r\n" ends every line with CRLF |
| PatchPackager.TerminatedAppend | tools/create_patch_mpq.py:420-421 | CRLF-terminated texts concatenate line-wise |
| PatchPackager.CreatePatchConfig | tools/create_patch_mpq.py:115-129 | the comment line and OLD_BUILD=/NEW_BUILD= in decimal, each CRLF-terminated |
| PatchPackager.DecimalIsPlain | tools/create_patch_mpq.py:125-126 | a decimal build holds no character the installer cuts at and does not start with a blank |
| PatchPackager.ParseLineCrlf | tools/patch_installer/installer.c:531-535 | the installer parses a CRLF line as the bare line |
| PatchPackager.BuildLineBare | tools/create_patch_mpq.py:125-126 | a KEY=value line sets that key to value |
| PatchPackager.KeyLineCrlf | tools/create_patch_mpq.py:125-126 | with CRLF it still sets that key, and no other |
| PatchPackager.BuildLine | tools/create_patch_mpq.py:125-126 | the OLD_BUILD/NEW_BUILD line of x sets its key to x as atoi clamps it, mod 2^16, and no other key |
| PatchPackager.CrlfLine | tools/patch_installer/installer.c:529-530 | fgets hands over a short CRLF line whole |
| PatchPackager.ThreeLines | tools/patch_installer/installer.c:529-530 | a three-line CRLF text is read as its three lines |
| PatchPackager.ConfigOfThree | tools/patch_installer/installer.c:530-564 | a comment, an OLD_BUILD and a NEW_BUILD line give those two values |
| Text.DecimalLength | tools/create_patch_mpq.py:125-126 | a number below 10^k has at most k digits |
| PatchPackager.BuildsAreShort | tools/patch_installer/installer.c:529 | every 32-bit build fits a patch.cfg line |
| PatchPackager.ConfigRoundTrip | tools/create_patch_mpq.py:115-129 | the installer reads the builds the builder wrote, each clamped to the C int range and then mod 2^16 |
| PatchPackager.DefaultNewBuild | tools/create_patch_mpq.py:348-349 | without --new-build the installer reads build and build + 1, both mod 2^16, for a build in INT_MIN..INT_MAX-1; from INT_MAX on it reads 65535 for both, and below INT_MIN 0 for both |
| PatchPackager.DefaultBuildsAgree | tools/create_patch_mpq.py:336-349 | the installer reads exactly its own defaults 12340 and 12341 iff --build is 12340 mod 2^16 and in INT_MIN..INT_MAX-1 |
| PatchPackager.NewBuild | tools/create_patch_mpq.py:348-349 | an explicit --new-build is used as given; without it the new build is the one after --build |
| PatchPackager.PrepatchLines | tools/create_patch_mpq.py:76-90 | extract config first; the content patch and its .md5 only when present, .md5 only with the patch; extract then execute the installer last |
| PatchPackager.CreatePrepatchLst | tools/create_patch_mpq.py:62-94 | the content is PrepatchLines, each CRLF-terminated |
| PatchPackager.PrepatchText | tools/create_patch_mpq.py:76-93 | the text starts with the config extraction and ends with extracting and executing the installer |
| PatchPackager.UserCommandsFirst | tools/create_patch_mpq.py:418-421 | the user's commands come first, each on its own CRLF line, then the generated ones |
| PatchPackager.WithCommands | tools/create_patch_mpq.py:418-421 | the generated text is kept whole at the end; with commands it is preceded by them joined and ended by `\r\n` |
| PatchPackager.PrepatchFor | tools/create_patch_mpq.py:415-421 | whatever the commands and content patch, prepatch.lst ends with the line that executes the installer |
| PatchPackager.EndsWithExecute | tools/create_patch_mpq.py:415-421 | whatever commands come first, a text whose last generated line executes a file ends with that line and its CRLF |
| PatchPackager.TerminatedEndsWithLast | tools/create_patch_mpq.py:91 | the text of a non-empty list of lines ends with its last line and `\r\n` |
| PatchPackager.HexLowerDigits | tools/create_patch_mpq.py:410-411 | the hex digest is digits and a..f |
| PatchPackager.Md5PayloadRoundTrip | tools/create_patch_mpq.py:408-412 | the installer reads back exactly the digest text the builder wrote |
| PatchPackager.Md5Payload | tools/create_patch_mpq.py:410-411 | the .md5 file is two lower-case, non-blank hex characters per digest byte followed by `\r\n` |
| PatchPackager.InstallerAcceptsPayload | tools/create_patch_mpq.py:408-413 | the installer accepts a content patch whose .md5 was written from the same bytes |
| PatchPackager.AllLocalesAreLetters | tools/create_patch_mpq.py:32 | the builder's locales are four letters each and the installer's list, in the same order |
| PatchPackager.OutputNameParses | tools/create_patch_mpq.py:391 | a generated name matches iff the build is non-negative; up to ULONG_MAX the server reads (lower-cased locale, build mod 2^32), above it std::stoul throws |
| PatchPackager.OutputTarget | tools/create_patch_mpq.py:386-391 | the --output path is used as given iff it is non-empty and only one locale is built; otherwise the generated name, in --output's directory exactly when --output is given |
| PatchPackager.AllLocalesNamesParse | tools/create_patch_mpq.py:367-391 | with --all-locales every name is generated; each is accepted for a build up to ULONG_MAX and makes loading throw above it |
| PatchPackager.ArchiveName | tools/create_patch_mpq.py:165 | the name keeps its length |
| PatchPackager.ArchiveNameAt | tools/create_patch_mpq.py:165 | every '/' becomes a backslash, every other character stays |
| PatchPackager.ArchiveNameNormal | tools/create_patch_mpq.py:165 | archive names hold no '/', and converting twice changes nothing more |
| PatchPackager.ArchiveNameOfPlain | tools/create_patch_mpq.py:165 | a name without '/' is stored under itself |
| PatchPackager.Add | tools/create_patch_mpq.py:156-177 | ValueError iff neither data nor path; FileNotFoundError iff only a missing path; errors change nothing; otherwise only the converted name changes, to the data or the path |
| PatchPackager.ReAddOverwrites | tools/create_patch_mpq.py:165-168 | adding again under a name that converts the same replaces the earlier entry |
| PatchPackager.MpqCreator.constructor | tools/create_patch_mpq.py:153 | the file table starts empty |
| PatchPackager.MpqCreator.AddFile | tools/create_patch_mpq.py:156-177 | the error and the new table are Add of the old table |
| PatchPackager.StoredNames | tools/create_patch_mpq.py:396-426 | the five names main stores are their own archive names |
| PatchPackager.PackageLocale | tools/create_patch_mpq.py:395-426 | the table holds patch.cfg, prepatch.lst and installer.exe, plus content-patch.mpq/.md5 exactly when a content patch is given, with their contents |

## Left out

- Logging, the mutex around the job list, the `PatchMgr::Instance` singleton, the
  destructor, and the `Data` cache of `PatchInfo`. None of them affects which bytes are
  sent. The model runs the handlers one at a time, so it shows no interleaving.
- Directory I/O: `fs::exists`, `create_directories` and the directory listing are
  parameters (`Option<seq<DirEntry>>`), as are opening, seeking and reading the payload
  files. `PatchMgr::CalculateMD5` is a digest function parameter, because the server's MD5
  library (`Acore::Crypto::MD5`) is not part of this model.
- The configuration reader (`sConfigMgr`) is not part of this model. Its four options are a
  `PatchingConfig` value.
- `AuthSession.h`, the handler dispatcher and the rest of the logon sequence are not part of
  this model. The session states and the handler table entries are the values the patching
  code uses.
- `MD5Transform`: the 64 rounds are a function parameter of `Md5Ctx`. The model proves the
  bookkeeping of MD5Init/Update/Final (counter, buffer, padding, byte order), not the round
  constants.
- Windows process control, the progress window, rollback and backup, cache clearing,
  `InstallContentPatch`, `LaunchWow`, `SelfDelete` and `WinMain` are left out: they are I/O
  around the modelled functions.
- Python: `create_backup`, `read_file`/`write_file` (the array is the file),
  `show_info`, `disassemble_bytes`, `find_string_offset` and argument parsing are left out.
  So are `MPQCreator.save`, `_run_mpqeditor`, `find_mpqeditor`, the temporary files, and
  `calculate_file_md5`, whose digest is a parameter of `PackageLocale`.
- `encode('ascii')` is the identity on the strings modelled. A non-ASCII command would make
  Python raise; the model does not.
- Text.Atoi: clamps a value outside INT_MIN..INT_MAX to the nearer bound, as the Microsoft
  C runtime the installer is built with does. The C standard leaves such a value undefined,
  and other runtimes are not modelled.
- PatchRegistry.ParsePatchName: ULONG_MAX is 2^64 - 1, the width of `unsigned long` on
  LP64 targets. Where `unsigned long` has 32 bits (Windows), `std::stoul` already throws
  above 2^32 - 1; that width is not modelled.
- PatchManager.PatchMgr.LoadPatches: the `std::out_of_range` of `std::stoul` is reported as
  `outOfRange` and leaves the records loaded before it; how the caller of `Initialize`
  ends the process is not part of this model.
- PatchManager.PatchMgr.LoadPatches: jobs hold a `PatchInfo*` into `_patches`, and
  clearing `_patches` leaves a running job's pointer dangling. The model copies the record
  into the job, so a reload neither invalidates nor changes a running transfer.
- TransferSpec.ChunkStep: requires ProgressDefined, so the division by a zero file size
  after a read past the end of an empty payload is not modelled. As written, a resume
  reaches that state (TransferSpec.EmptyResumeDividesByZero, under Findings); the corrected
  resume does not (TransferSpec.ResumeStepKeepsDefined).
- TransferSpec.ChunkStep: the end-of-file and fail bits that a short read sets on
  `std::ifstream` are not kept. A read in the model is never short inside the file; after
  a read past the end (possible only as written), C++ would fail a later seek on that
  stream, which the model does not.
- TransferSpec.TickJob: requires ProgressDefined, for the reason given under
  TransferSpec.ChunkStep.
- PatchManager.PatchMgr.HandleXferResume: models the corrected resume
  (TransferSpec.ResumeStep), which refuses an offset past the end of the file. The code as
  written is TransferSpec.ResumeAsWritten; see Findings.
- ClientPatcher.PatchSignatureVerification: models the corrected offset check
  (ClientPatcher.SignatureRun), which also refuses a negative offset. The code as written
  is ClientPatcher.SignatureRunAsWritten; see Findings.
- ClientPatcher.ParseHex: does not accept the surrounding white space or the `_` digit
  separators that Python's `int(s, 16)` also allows.
- ClientPatcher.FindPattern: requires a mask at least as long as the pattern. A shorter,
  non-empty mask makes Python raise IndexError, which is not modelled.
- ClientPatcher.FindFunctionStart: requires `offset < len(data)`. A larger offset makes
  Python raise IndexError on the first access.
- ClientPatcher.FindXrefsToAddress: `code_start` is a `nat` and `target_va` a 32-bit value.
  A negative start (Python's negative indexing) and an address that `to_bytes(4)` rejects
  are not modelled.
- ClientPatcher.FindPattern and ClientPatcher.FindSignaturePattern, as written, never try
  the last start `len(data) - len(pattern)`. The model keeps that, and their contracts say
  so.
- PatchPackager.MpqCreator.AddFile: the existence check of a source path is a parameter
  (`sourceExists`), and the printed size is left out.
- PatchPackager.OutputTarget: `os.path.dirname`/`os.path.join` of `--output` are kept
  symbolic (the `Target` datatype). The RuntimeError that `MPQCreator` raises when
  MPQEditor is missing is not modelled.
- PatchPackager.ConfigRoundTrip: requires builds of at most 243 decimal characters. A longer
  line is split by the installer's 255-character `fgets`. BuildsAreShort shows that every
  32-bit build fits its line; the value the installer then reads is clamped by `atoi` (see
  Text.Atoi).
- PatchPackager.PackageLocale: starts after `main` has checked that the installer and the
  content patch exist (the `sys.exit(1)` paths are not modelled), and before `save`.
- InstallerPatch.PatchBuildNumber: the verifying read-back after the write is taken to
  return what was written.

## Findings

| source | as written | input that shows it | evidently intended | confidence | as-written member | corrected member |
|---|---|---|---|---|---|---|
| src/server/apps/authserver/Patcher/PatchMgr.cpp:298-308 | `HandleXferResume` accepts any offset that `seekg` accepts, including one past the end of the file. `SendPatchChunk` then computes `FileSize - Position` with a wrapped 64-bit subtraction and sends a full chunk of zero bytes from beyond the file. | A client resumes at 2000 in a 1000-byte payload, with 1500-byte chunks. | Refuse an offset past the end of the file, so that a resumed transfer sends exactly the bytes from the offset to the end. | medium, not executed | TransferSpec.ResumePastEndSendsZeros | TransferSpec.ResumeStep |
| tools/patch_wow_client.py:142-144 | The offset is checked only against `len(data) - 20`. A negative offset passes, and the 20 stores use Python's negative indexing: part of the routine lands at the end of the file and the rest at its start. | Offset "-5" on any executable longer than 20 bytes. | Reject negative offsets, so that exactly `data[offset:offset+20]` is replaced. | high, not executed | ClientPatcher.NegativeOffsetSplitsPatch | ClientPatcher.SignatureRun |
| src/server/apps/authserver/Patcher/PatchMgr.cpp:379-406 | `HandleXferResume` accepts a resume past the end of an empty payload. `remaining` wraps, so a full chunk is read; the read comes back short, and the progress `Position * 100 / FileSize` divides by the file size 0. | A client resumes at 5 in a 0-byte payload. | Refuse an offset past the end of the file, so that `FileSize` is never 0 while data is sent. | medium, not executed | TransferSpec.EmptyResumeDividesByZero | TransferSpec.ResumeStepKeepsDefined |
