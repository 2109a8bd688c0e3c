/** PatchMgr (PatchMgr.cpp, PatchMgr.h): configuration, the registry of payloads and the
    table of transfer jobs, as one object whose operations run one at a time. Packets handed
    to AuthSession::SendPacket are appended to `sent`. */
module PatchManager {
  import opened Wrappers
  import opened Bytes
  import opened Text
  import opened PatchTypes
  import opened PatchRegistry
  import opened TransferSpec

  /** The Patching.* options Initialize reads from the configuration. */
  datatype PatchingConfig = PatchingConfig(Enabled: bool, MinBuild: u32, Directory: string, ChunkSize: u32)

  const MIN_CHUNK: u32 := 100
  const MAX_CHUNK: u32 := 65535

  lemma UpdateAtSeam<T>(a: seq<T>, b: seq<T>, x: T)
    requires b != []
    ensures (a + b)[|a| := x] == a + [x] + b[1..]
  {
  }

  lemma Associative<T>(a: seq<T>, b: seq<T>, c: seq<T>)
    ensures a + b + c == a + (b + c)
  {
  }

  /** The job list and the packets after the send pass has handled one more job. */
  lemma TickStep(start: seq<PatchJob>, i: nat, chunkSize: u32, failing: set<SessionId>)
    requires AllDefined(start) && i < |start|
    ensures AllDefined(start[..i]) && AllDefined(start[..i + 1])
    ensures var t := Tick(start[..i], chunkSize, failing);
      var u := TickJob(start[i], chunkSize, failing);
      && |t.0| == i && (t.0 + start[i..])[i] == start[i]
      && (t.0 + start[i..])[i := u.0] == Tick(start[..i + 1], chunkSize, failing).0 + start[i + 1..]
      && t.1 + u.1 == Tick(start[..i + 1], chunkSize, failing).1
  {
    var t := Tick(start[..i], chunkSize, failing);
    var u := TickJob(start[i], chunkSize, failing);
    TickSnoc(start, i, chunkSize, failing);
    UpdateAtSeam(t.0, start[i..], u.0);
    assert start[i..][1..] == start[i + 1..];
  }

  /** The directory loop of LoadPatches: visit the entries in directory order and keep, in
      that order, the registry entry of every one that LoadEntry accepts, until std::stoul
      throws; `outOfRange` is true when its std::out_of_range leaves the loop. */
  method ScanPatchDirectory(dir: string, entries: seq<DirEntry>, digest: seq<byte> -> Digest)
    returns (loaded: seq<PatchInfo>, outOfRange: bool)
    ensures Scan(loaded, outOfRange) == LoadAll(dir, entries, digest)
  {
    loaded := [];
    outOfRange := false;
    var i := 0;
    while i < |entries|
      invariant 0 <= i <= |entries|
      invariant Scan(loaded, false) == LoadAll(dir, entries[..i], digest)
    {
      var entry := entries[i];
      LoadAllSnoc(dir, entries, i, digest);
      if entry.isRegular {
        match ParsePatchName(entry.name)
        case NoMatch =>
        case BuildOutOfRange =>
          LoadAllStops(dir, entries, i, digest);
          outOfRange := true;
          return;
        case Matched(locale, build) =>
          if entry.content.Some? {
            LowerOfLetters(entry.name[..4]);
            loaded := loaded + [PatchInfo(build, locale, entry.size, digest(entry.content.value),
                                          dir + "/" + entry.name, false)];
          }
      }
      i := i + 1;
    }
    assert entries[..|entries|] == entries;
  }

  class PatchMgr {
    var patches: seq<PatchInfo>
    var jobs: seq<PatchJob>
    var minBuild: u32
    var enabled: bool
    var patchDir: string
    var chunkSize: u32
    /** Every packet handed to a session, oldest first. */
    var sent: seq<Outgoing>

    /** The chunk size fits a uint16 and is never zero, registry locales are stored
        lower-case, no session has two jobs, and no job is past the end of its file. */
    ghost predicate Valid()
      reads this
    {
      && MIN_CHUNK <= chunkSize <= MAX_CHUNK
      && (forall p :: p in patches ==> IsStoredLocale(p.Locale))
      && SessionsDistinct(jobs)
      && AllInFile(jobs)
    }

    /** The defaults of PatchMgr(): minimum build 12340, disabled, directory
        "ClientPatches", chunks of 1500 bytes, no patches and no jobs. */
    constructor()
      ensures Valid()
      ensures patches == [] && jobs == [] && sent == []
      ensures minBuild == 12340 && !enabled && patchDir == "ClientPatches" && chunkSize == 1500
    {
      patches := [];
      jobs := [];
      sent := [];
      minBuild := 12340;
      enabled := false;
      patchDir := "ClientPatches";
      chunkSize := 1500;
    }

    function GetMinBuild(): (r: u32)
      reads this
      ensures r == minBuild
    {
      minBuild
    }

    method SetMinBuild(build: u32)
      modifies this
      ensures GetMinBuild() == build
      ensures patches == old(patches) && jobs == old(jobs) && sent == old(sent)
      ensures enabled == old(enabled) && patchDir == old(patchDir) && chunkSize == old(chunkSize)
    {
      minBuild := build;
    }

    function IsEnabled(): (r: bool)
      reads this
      ensures r == enabled
    {
      enabled
    }

    method SetEnabled(on: bool)
      modifies this
      ensures IsEnabled() == on
      ensures patches == old(patches) && jobs == old(jobs) && sent == old(sent)
      ensures minBuild == old(minBuild) && patchDir == old(patchDir) && chunkSize == old(chunkSize)
    {
      enabled := on;
    }

    /** Initialize: take the options, clamp the chunk size to 100..65535, and load the
        registry when patching is enabled. `listing` is the patch directory's entries, None
        when the directory does not exist. `outOfRange` is true when std::out_of_range from
        LoadPatches leaves Initialize. */
    method Initialize(cfg: PatchingConfig, listing: Option<seq<DirEntry>>, digest: seq<byte> -> Digest)
      returns (outOfRange: bool)
      modifies this
      requires Valid()
      ensures Valid()
      ensures enabled == cfg.Enabled && minBuild == cfg.MinBuild && patchDir == cfg.Directory
      ensures MIN_CHUNK <= cfg.ChunkSize <= MAX_CHUNK ==> chunkSize == cfg.ChunkSize
      ensures cfg.ChunkSize < MIN_CHUNK ==> chunkSize == MIN_CHUNK
      ensures cfg.ChunkSize > MAX_CHUNK ==> chunkSize == MAX_CHUNK
      ensures cfg.Enabled && listing.None? ==> patches == [] && !outOfRange
      ensures cfg.Enabled && listing.Some? ==> Scan(patches, outOfRange) == LoadAll(cfg.Directory, listing.value, digest)
      ensures !cfg.Enabled ==> patches == old(patches) && !outOfRange
      ensures jobs == old(jobs) && sent == old(sent)
    {
      enabled := cfg.Enabled;
      minBuild := cfg.MinBuild;
      patchDir := cfg.Directory;
      chunkSize := cfg.ChunkSize;
      if chunkSize < MIN_CHUNK {
        chunkSize := MIN_CHUNK;
      }
      if chunkSize > MAX_CHUNK {
        chunkSize := MAX_CHUNK;
      }
      outOfRange := false;
      if enabled {
        outOfRange := LoadPatches(listing, digest);
      }
    }

    /** LoadPatches: clear the registry; when the directory exists, keep every regular file
        whose whole name matches the pattern and whose digest can be computed, in directory
        order. A build std::stoul cannot hold ends the scan with std::out_of_range
        (`outOfRange`), leaving the records loaded before it. */
    method LoadPatches(listing: Option<seq<DirEntry>>, digest: seq<byte> -> Digest)
      returns (outOfRange: bool)
      modifies this
      requires Valid()
      ensures Valid()
      ensures listing.None? ==> patches == [] && !outOfRange
      ensures listing.Some? ==> Scan(patches, outOfRange) == LoadAll(patchDir, listing.value, digest)
      ensures jobs == old(jobs) && sent == old(sent)
      ensures minBuild == old(minBuild) && enabled == old(enabled)
      ensures patchDir == old(patchDir) && chunkSize == old(chunkSize)
    {
      patches := [];
      outOfRange := false;
      if listing.None? {
        return;
      }
      patches, outOfRange := ScanPatchDirectory(patchDir, listing.value, digest);
    }

    /** FindPatchForClient: nothing when disabled or when the registry is empty; otherwise a
        registry entry of the lower-cased locale, exact in build when one is exact, else the
        locale's first build-0 entry. */
    function FindPatchForClient(build: u32, locale: string): (r: Option<PatchInfo>)
      reads this
      ensures !enabled || patches == [] ==> r.None?
      ensures r.Some? ==> r.value in patches && r.value.Locale == Lower(locale)
      ensures r.Some? ==> r.value.Build == build || r.value.Build == 0
      ensures enabled && (exists k :: 0 <= k < |patches| && ExactAt(patches, k, build, Lower(locale))) ==>
        r.Some? && r.value.Build == build
      ensures enabled && (exists k :: 0 <= k < |patches| && FallbackAt(patches, k, Lower(locale))) ==>
        r.Some?
    {
      match FindPatch(enabled, patches, build, locale)
      case None => None
      case Some(k) => Some(patches[k])
    }

    /** RemoveJob: drop every job of the session (closing its stream); keep the rest in
        order. */
    method RemoveJob(s: SessionId)
      modifies this
      requires Valid()
      ensures Valid()
      ensures jobs == RemoveSession(old(jobs), s)
      ensures patches == old(patches) && sent == old(sent)
      ensures minBuild == old(minBuild) && enabled == old(enabled)
      ensures patchDir == old(patchDir) && chunkSize == old(chunkSize)
    {
      var kept: seq<PatchJob> := [];
      var i := 0;
      while i < |jobs|
        invariant 0 <= i <= |jobs|
        invariant kept == RemoveSession(jobs[..i], s)
      {
        assert jobs[..i + 1][..i] == jobs[..i];
        if jobs[i].Session != Some(s) {
          kept := kept + [jobs[i]];
        }
        i := i + 1;
      }
      assert jobs[..|jobs|] == jobs;
      RemoveKeepsDistinct(jobs, s);
      jobs := kept;
    }

    /** InitiatePatch: fail on a missing session or patch; otherwise send the XFER_INITIATE
        packet and replace the session's jobs by one pending job at position 0. */
    method InitiatePatch(session: Option<SessionId>, patch: Option<PatchInfo>) returns (ok: bool)
      modifies this
      requires Valid()
      ensures Valid()
      ensures ok <==> session.Some? && patch.Some?
      ensures !ok ==> jobs == old(jobs) && sent == old(sent)
      ensures ok ==> sent == old(sent) + [Outgoing(session.value, EncodeInitiate(InitiatePacketFor(patch.value)))]
      ensures ok ==> jobs == RemoveSession(old(jobs), session.value) + [PatchJob(session, patch, None, 0, false, 0)]
      ensures ok ==> forall i :: 0 <= i < |jobs| - 1 ==> jobs[i].Session != session
      ensures ok ==> forall j :: j in old(jobs) && j.Session != session ==> j in jobs
      ensures patches == old(patches)
      ensures minBuild == old(minBuild) && enabled == old(enabled)
      ensures patchDir == old(patchDir) && chunkSize == old(chunkSize)
    {
      if session.None? || patch.None? {
        return false;
      }
      var pkt := InitiatePacketFor(patch.value);
      sent := sent + [Outgoing(session.value, EncodeInitiate(pkt))];
      RemoveJob(session.value);
      var job := DefaultPatchJob();
      job := job.(Session := session, Patch := patch, Position := 0, Active := false);
      forall x | x in jobs ensures x.Session != job.Session {
      }
      DistinctAppend(jobs, job);
      jobs := jobs + [job];
      ok := true;
    }

    /** HandleXferAccept: find the session's job; open its file; on success restart it at
        position 0 and make it active. */
    method HandleXferAccept(s: SessionId, onOpen: Option<seq<byte>>) returns (ok: bool)
      modifies this
      requires Valid()
      ensures Valid()
      ensures FindJob(old(jobs), s, 0).None? ==> !ok && jobs == old(jobs)
      ensures FindJob(old(jobs), s, 0).Some? ==>
        var k := FindJob(old(jobs), s, 0).value;
        var r := AcceptStep(old(jobs)[k], onOpen);
        ok == r.0 && jobs == old(jobs)[k := r.1]
      ensures patches == old(patches) && sent == old(sent)
      ensures minBuild == old(minBuild) && enabled == old(enabled)
      ensures patchDir == old(patchDir) && chunkSize == old(chunkSize)
    {
      var i := 0;
      while i < |jobs|
        invariant 0 <= i <= |jobs|
        invariant FindJob(jobs, s, 0) == FindJob(jobs, s, i)
      {
        if jobs[i].Session == Some(s) {
          var job := jobs[i];
          if job.File.Some? {
            jobs := jobs[i := job.(File := Some(job.File.value.(Failed := true)))];
            return false;
          }
          if onOpen.None? {
            return false;
          }
          jobs := jobs[i := job.(File := Some(Stream(onOpen.value, false)), Position := 0, Active := true)];
          return true;
        }
        i := i + 1;
      }
      return false;
    }

    /** HandleXferResume: find the session's job; open its file if it is closed; refuse an
        offset past the end of the file; seek; on success take the offset and make the job
        active. */
    method HandleXferResume(s: SessionId, position: u64, onOpen: Option<seq<byte>>, seekFails: bool) returns (ok: bool)
      modifies this
      requires Valid()
      ensures Valid()
      ensures FindJob(old(jobs), s, 0).None? ==> !ok && jobs == old(jobs)
      ensures FindJob(old(jobs), s, 0).Some? ==>
        var k := FindJob(old(jobs), s, 0).value;
        var r := ResumeStep(old(jobs)[k], position, onOpen, seekFails);
        ok == r.0 && jobs == old(jobs)[k := r.1]
      ensures patches == old(patches) && sent == old(sent)
      ensures minBuild == old(minBuild) && enabled == old(enabled)
      ensures patchDir == old(patchDir) && chunkSize == old(chunkSize)
    {
      var i := 0;
      while i < |jobs|
        invariant 0 <= i <= |jobs|
        invariant FindJob(jobs, s, 0) == FindJob(jobs, s, i)
      {
        if jobs[i].Session == Some(s) {
          var job := jobs[i];
          if job.File.None? {
            if onOpen.None? {
              return false;
            }
            job := job.(File := Some(Stream(onOpen.value, false)));
          }
          if position > job.Patch.value.FileSize {
            jobs := jobs[i := job];
            return false;
          }
          if job.File.value.Failed || seekFails {
            jobs := jobs[i := job.(File := Some(job.File.value.(Failed := true)))];
            return false;
          }
          jobs := jobs[i := job.(Position := position, Active := true)];
          return true;
        }
        i := i + 1;
      }
      return false;
    }

    /** HandleXferCancel: drop the session's job, whatever its state; always succeeds. */
    method HandleXferCancel(s: SessionId) returns (ok: bool)
      modifies this
      requires Valid()
      ensures Valid()
      ensures ok
      ensures jobs == RemoveSession(old(jobs), s)
      ensures forall j :: j in jobs ==> j.Session != Some(s)
      ensures forall j :: j in old(jobs) && j.Session != Some(s) ==> j in jobs
      ensures patches == old(patches) && sent == old(sent)
      ensures minBuild == old(minBuild) && enabled == old(enabled)
      ensures patchDir == old(patchDir) && chunkSize == old(chunkSize)
    {
      RemoveJob(s);
      ok := true;
    }

    /** SendPatchChunk on the job at index i, whose stream is open. */
    method SendPatchChunk(i: nat, readFails: bool)
      modifies this
      requires Valid() && i < |jobs| && jobs[i].File.Some?
      ensures Valid()
      ensures ProgressDefined(old(jobs)[i])
      ensures var r := ChunkStep(old(jobs)[i], chunkSize, readFails);
        && jobs == old(jobs)[i := r.0]
        && sent == old(sent) + (if r.1.Some? then [Outgoing(old(jobs)[i].Session.value, r.1.value)] else [])
      ensures patches == old(patches)
      ensures minBuild == old(minBuild) && enabled == old(enabled)
      ensures patchDir == old(patchDir) && chunkSize == old(chunkSize)
    {
      var job := jobs[i];
      ChunkKeepsInFile(job, chunkSize, readFails);
      ghost var step := ChunkStep(job, chunkSize, readFails);
      ReplaceKeepsShape(jobs, i, step.0);
      if job.Session.None? || job.Patch.None? {
        return;
      }
      var fileSize := job.Patch.value.FileSize;
      var remaining := (fileSize - job.Position) % U64;
      var n := Min(chunkSize, remaining) % 0x1_0000;
      assert n == ChunkLen(chunkSize, job);
      if n == 0 {
        return;
      }
      if readFails || job.File.value.Failed {
        jobs := jobs[i := job.(Active := false, File := Some(job.File.value.(Failed := true)))];
        return;
      }
      SendData(i, n);
    }

    /** The part of SendPatchChunk after a read of n > 0 bytes succeeded: send them as one
        data packet, advance the position and log the progress when it enters a higher band. */
    method SendData(i: nat, n: nat)
      modifies this
      requires i < |jobs| && jobs[i].File.Some? && !jobs[i].File.value.Failed
      requires jobs[i].Session.Some? && jobs[i].Patch.Some? && ProgressDefined(jobs[i])
      requires 0 < n == ChunkLen(chunkSize, jobs[i])
      ensures var r := ChunkStep(old(jobs)[i], chunkSize, false);
        && r.1.Some?
        && jobs == old(jobs)[i := r.0]
        && sent == old(sent) + [Outgoing(old(jobs)[i].Session.value, r.1.value)]
      ensures patches == old(patches)
      ensures minBuild == old(minBuild) && enabled == old(enabled)
      ensures patchDir == old(patchDir) && chunkSize == old(chunkSize)
    {
      var job := jobs[i];
      ChunkStepSends(job, chunkSize);
      var fileSize := job.Patch.value.FileSize;
      var data := ReadAt(job.File.value.Content, job.Position, n);
      var packet := [XFER_DATA] + LE16(n) + data;
      assert packet == DataMessage(data);
      sent := sent + [Outgoing(job.Session.value, packet)];
      var pos := (job.Position + n) % U64;
      var percent := (pos * 100) % U64 / fileSize;
      var progress := if percent < U32 then percent else percent % U32;
      assert progress == Progress(pos, fileSize);
      var logged := job.LastLoggedProgress;
      if progress / 10 > logged / 10 {
        logged := progress;
      }
      assert logged == NextLogged(job.LastLoggedProgress, progress);
      jobs := jobs[i := job.(Position := pos, LastLoggedProgress := logged)];
    }

    /** UpdateJobs: nothing while disabled; otherwise one chunk for every active job with an
        open stream, in order, then every job that reached the end of its file is dropped.
        `failing` names the sessions whose read fails this time. */
    method UpdateJobs(failing: set<SessionId>)
      modifies this
      requires Valid()
      ensures Valid()
      ensures !enabled ==> jobs == old(jobs) && sent == old(sent)
      ensures enabled ==> AllDefined(old(jobs))
      ensures enabled ==>
        var t := Tick(old(jobs), chunkSize, failing);
        jobs == Reap(t.0) && sent == old(sent) + t.1
      ensures enabled ==> forall i :: 0 <= i < |jobs| ==> jobs[i].Position < jobs[i].Patch.value.FileSize
      ensures patches == old(patches)
      ensures minBuild == old(minBuild) && enabled == old(enabled)
      ensures patchDir == old(patchDir) && chunkSize == old(chunkSize)
    {
      if !enabled {
        return;
      }
      SendChunks(failing);
      ReapFinished();
    }

    /** The first loop of UpdateJobs. */
    method SendChunks(failing: set<SessionId>)
      modifies this
      requires Valid()
      ensures Valid()
      ensures AllDefined(old(jobs))
      ensures var t := Tick(old(jobs), chunkSize, failing);
        jobs == t.0 && sent == old(sent) + t.1
      ensures patches == old(patches)
      ensures minBuild == old(minBuild) && enabled == old(enabled)
      ensures patchDir == old(patchDir) && chunkSize == old(chunkSize)
    {
      ghost var start := jobs;
      ghost var sent0 := sent;
      assert AllDefined(start);
      var i := 0;
      while i < |jobs|
        invariant 0 <= i <= |jobs| == |start|
        invariant Valid()
        invariant jobs == Tick(start[..i], chunkSize, failing).0 + start[i..]
        invariant sent == sent0 + Tick(start[..i], chunkSize, failing).1
        invariant patches == old(patches)
        invariant minBuild == old(minBuild) && enabled == old(enabled)
        invariant patchDir == old(patchDir) && chunkSize == old(chunkSize)
      {
        ghost var t := Tick(start[..i], chunkSize, failing);
        ghost var u := TickJob(start[i], chunkSize, failing);
        TickStep(start, i, chunkSize, failing);
        assert jobs[i] == start[i];
        TickAt(i, failing);
        assert jobs == (t.0 + start[i..])[i := u.0];
        Associative(sent0, t.1, u.1);
        i := i + 1;
      }
      assert start[..|start|] == start;
    }

    /** One step of the first loop of UpdateJobs: a chunk for the job at index i when it is
        active and its stream is open. */
    method TickAt(i: nat, failing: set<SessionId>)
      modifies this
      requires Valid() && i < |jobs|
      ensures Valid()
      ensures ProgressDefined(old(jobs)[i])
      ensures var u := TickJob(old(jobs)[i], chunkSize, failing);
        jobs == old(jobs)[i := u.0] && sent == old(sent) + u.1
      ensures patches == old(patches)
      ensures minBuild == old(minBuild) && enabled == old(enabled)
      ensures patchDir == old(patchDir) && chunkSize == old(chunkSize)
    {
      if jobs[i].Active && jobs[i].File.Some? {
        SendPatchChunk(i, jobs[i].Session.value in failing);
      } else {
        assert jobs == jobs[i := jobs[i]];
      }
    }

    /** The second pass of UpdateJobs: erase every job whose position reached its file size. */
    method ReapFinished()
      modifies this
      requires Valid()
      ensures Valid()
      ensures jobs == Reap(old(jobs))
      ensures forall i :: 0 <= i < |jobs| ==> jobs[i].Position < jobs[i].Patch.value.FileSize
      ensures patches == old(patches) && sent == old(sent)
      ensures minBuild == old(minBuild) && enabled == old(enabled)
      ensures patchDir == old(patchDir) && chunkSize == old(chunkSize)
    {
      var kept: seq<PatchJob> := [];
      var k := 0;
      while k < |jobs|
        invariant 0 <= k <= |jobs|
        invariant kept == Reap(jobs[..k])
      {
        assert jobs[..k + 1][..k] == jobs[..k];
        if jobs[k].Position < jobs[k].Patch.value.FileSize {
          kept := kept + [jobs[k]];
        }
        k := k + 1;
      }
      assert jobs[..|jobs|] == jobs;
      ReapKeepsDistinct(jobs);
      forall i | 0 <= i < |kept|
        ensures InFile(kept[i]) && kept[i].Position < kept[i].Patch.value.FileSize
      {
        assert kept[i] in Reap(jobs);
        var j :| 0 <= j < |jobs| && jobs[j] == kept[i];
      }
      jobs := kept;
    }
  }
}
