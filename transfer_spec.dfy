/** The per-job transfer logic of PatchMgr.cpp as functions on job values: one call of
    SendPatchChunk, the send pass and the reaping pass of UpdateJobs, the filter of
    RemoveJob, and the job update of HandleXferResume. The PatchMgr class is proved
    against these. */
module TransferSpec {
  import opened Wrappers
  import opened Bytes
  import opened PatchTypes

  /** A packet handed to AuthSession::SendPacket. */
  datatype Outgoing = Outgoing(to: SessionId, bytes: seq<byte>)

  function Min(a: nat, b: nat): nat { if a <= b then a else b }

  /** What a read of n bytes at `pos` leaves in the zero-initialised chunk buffer: the file's
      bytes while there are any, zeros after its end. */
  function ReadAt(content: seq<byte>, pos: nat, n: nat): (r: seq<byte>)
    ensures |r| == n
  {
    seq(n, i requires 0 <= i < n => if pos + i < |content| then content[pos + i] else 0)
  }

  /** Reading up to `end` is reading `a` bytes and then the bytes from pos + a up to `end`. */
  lemma ReadAtSplit(content: seq<byte>, pos: nat, a: nat, end: nat)
    requires pos + a <= end
    ensures ReadAt(content, pos, end - pos)
      == ReadAt(content, pos, a) + ReadAt(content, pos + a, end - (pos + a))
  {
    var l := ReadAt(content, pos, end - pos);
    var r := ReadAt(content, pos, a) + ReadAt(content, pos + a, end - (pos + a));
    assert forall i :: 0 <= i < end - pos ==> l[i] == r[i];
  }

  /** Inside the file a read returns exactly the file's bytes. */
  lemma ReadAtInFile(content: seq<byte>, pos: nat, n: nat)
    requires pos + n <= |content|
    ensures ReadAt(content, pos, n) == content[pos..pos + n]
  {
  }

  /** SendPatchChunk divides by FileSize once it has data to send; a job that is past the end
      of an empty file would divide by zero. */
  predicate ProgressDefined(job: PatchJob)
  {
    job.Patch.Some? && job.Patch.value.FileSize == 0 ==> job.Position == 0
  }

  /** The chunk length: `remaining` is FileSize - Position in uint64 arithmetic, and the
      smaller of it and the configured chunk size is cast to uint16. */
  function ChunkLen(chunkSize: u32, job: PatchJob): (n: u16)
    requires job.Patch.Some?
    ensures n <= chunkSize
    ensures job.Position <= job.Patch.value.FileSize && chunkSize < 0x1_0000 ==>
      n == Min(chunkSize, job.Patch.value.FileSize - job.Position)
  {
    var remaining := (job.Patch.value.FileSize - job.Position) % U64;
    Min(chunkSize, remaining) % 0x1_0000
  }

  lemma DivAtMost(a: nat, b: nat, k: nat)
    requires b > 0 && a <= k * b
    ensures a / b <= k
  {
    if a / b > k {
      MulMono(b, a / b, k + 1);
    }
  }

  lemma MulMono(b: nat, x: nat, y: nat)
    requires x >= y
    ensures b * x >= b * y
  {
    assert b * x == b * y + b * (x - y);
  }

  /** Dividing by a positive divisor never makes a natural number larger. */
  lemma DivNoLarger(a: nat, b: nat)
    requires b > 0
    ensures 0 <= a / b <= a
  {
    var q := a / b;
    assert a == b * q + a % b;
    MulMono(q, b, 1);
    assert q * b == b * q;
  }

  lemma ProgressAtMost100(position: u64, fileSize: u64)
    requires fileSize > 0
    ensures 0 <= ((position * 100) % U64) / fileSize < U64
    ensures position <= fileSize && fileSize * 100 < U64 ==>
      ((position * 100) % U64) / fileSize <= 100
  {
    DivNoLarger((position * 100) % U64, fileSize);
    if position <= fileSize && fileSize * 100 < U64 {
      assert (position * 100) % U64 == position * 100;
      DivAtMost(position * 100, fileSize, 100);
    }
  }

  /** The progress percentage SendPatchChunk computes after advancing: Position * 100 in
      uint64 arithmetic, divided by FileSize, cast to uint32. It stays within 0..100 while
      the position is inside the file and the product cannot wrap. */
  function Progress(position: u64, fileSize: u64): (p: u32)
    requires fileSize > 0
    ensures position <= fileSize && fileSize * 100 < U64 ==> p <= 100
  {
    ProgressAtMost100(position, fileSize);
    var q := ((position * 100) % U64) / fileSize;
    if q < U32 then q else q % U32
  }

  /** The logged progress only ever moves to a higher band of ten percent. */
  function NextLogged(last: u32, progress: u32): (r: u32)
    ensures r / 10 >= last / 10
    ensures r != last ==> r / 10 > last / 10
  {
    if progress / 10 > last / 10 then progress else last
  }

  /** The stream is open and has not failed. */
  predicate Readable(job: PatchJob)
  {
    job.File.Some? && !job.File.value.Failed
  }

  /** One call of SendPatchChunk on a job whose stream is open (UpdateJobs calls it for no
      other). `readFails` stands for a read that fails before reaching the end of the file;
      a stream that failed earlier fails the read as well. The result is the job after the
      call and the XFER_DATA packet sent, if any. */
  function ChunkStep(job: PatchJob, chunkSize: u32, readFails: bool): (r: (PatchJob, Option<seq<byte>>))
    requires job.File.Some? && ProgressDefined(job)
    ensures r.0.Session == job.Session && r.0.Patch == job.Patch
    ensures r.0.File.Some? && r.0.File.value.Content == job.File.value.Content
    ensures r.1.Some? ==> job.Session.Some? && job.Patch.Some? && r.0.Active == job.Active && r.0.File == job.File
    ensures r.1.None? ==> r.0.Position == job.Position && r.0.LastLoggedProgress == job.LastLoggedProgress
    ensures r.0.LastLoggedProgress / 10 >= job.LastLoggedProgress / 10
  {
    if job.Session.None? || job.Patch.None? then (job, None)
    else
      var n := ChunkLen(chunkSize, job);
      if n == 0 then (job, None)
      else if readFails || job.File.value.Failed then
        (job.(Active := false, File := Some(job.File.value.(Failed := true))), None)
      else
        var data := ReadAt(job.File.value.Content, job.Position, n);
        var pos := (job.Position + n) % U64;
        var progress := Progress(pos, job.Patch.value.FileSize);
        (job.(Position := pos, LastLoggedProgress := NextLogged(job.LastLoggedProgress, progress)),
         Some(DataMessage(data)))
  }

  /** The step SendPatchChunk takes once a read of ChunkLen > 0 bytes succeeded. */
  lemma ChunkStepSends(job: PatchJob, chunkSize: u32)
    requires job.File.Some? && !job.File.value.Failed && ProgressDefined(job)
    requires job.Session.Some? && job.Patch.Some? && ChunkLen(chunkSize, job) > 0
    ensures job.Patch.value.FileSize > 0
    ensures var n := ChunkLen(chunkSize, job);
      var pos := (job.Position + n) % U64;
      ChunkStep(job, chunkSize, false)
      == (job.(Position := pos,
               LastLoggedProgress := NextLogged(job.LastLoggedProgress, Progress(pos, job.Patch.value.FileSize))),
          Some(DataMessage(ReadAt(job.File.value.Content, job.Position, n))))
  {
  }

  /** A job that carries its session and patch and has not passed the end of its file. */
  predicate InFile(job: PatchJob)
  {
    job.Session.Some? && job.Patch.Some? && job.Position <= job.Patch.value.FileSize
  }

  /** Inside the file, a successful SendPatchChunk sends exactly min(chunk size, bytes left)
      bytes, taken from the stream at the job's position, advances by that much and so never
      passes the end of the file; at the end it sends nothing. */
  lemma ChunkStaysInFile(job: PatchJob, chunkSize: u32)
    requires InFile(job) && Readable(job)
    requires 0 < chunkSize < 0x1_0000
    ensures ProgressDefined(job)
    ensures var r := ChunkStep(job, chunkSize, false);
      var n := Min(chunkSize, job.Patch.value.FileSize - job.Position);
      && InFile(r.0)
      && r.0.Position == job.Position + n
      && r.0.Active == job.Active
      && r.0.File == job.File
      && (r.1.Some? <==> job.Position < job.Patch.value.FileSize)
      && (r.1.Some? ==>
            DecodeDataHeader(r.1.value) == Some(TransferDataPacket(XFER_DATA, n))
            && r.1.value[3..] == ReadAt(job.File.value.Content, job.Position, n))
  {
    var size := job.Patch.value.FileSize;
    var n := ChunkLen(chunkSize, job);
    assert n == Min(chunkSize, size - job.Position);
    if job.Position < size {
      var data := ReadAt(job.File.value.Content, job.Position, n);
      assert (job.Position + n) % U64 == job.Position + n;
      var r := ChunkStep(job, chunkSize, false);
      assert r.0.Position == job.Position + n;
      assert r.1 == Some(DataMessage(data));
      DataMessagePayload(data);
      DataMessageHeader(data);
    }
  }

  /** A failed read deactivates the job, leaves its position and marks the stream failed;
      nothing is sent. */
  lemma ChunkReadError(job: PatchJob, chunkSize: u32)
    requires InFile(job) && job.File.Some? && 0 < chunkSize < 0x1_0000
    requires job.Position < job.Patch.value.FileSize
    ensures ProgressDefined(job)
    ensures var r := ChunkStep(job, chunkSize, true);
      r.1.None? && !r.0.Active && r.0.Position == job.Position && !Readable(r.0)
  {
  }

  /** Whatever the read does, a job inside its file stays inside it. */
  lemma ChunkKeepsInFile(job: PatchJob, chunkSize: u32, readFails: bool)
    requires InFile(job) && job.File.Some? && chunkSize < 0x1_0000
    ensures ProgressDefined(job)
    ensures InFile(ChunkStep(job, chunkSize, readFails).0)
  {
    var n := ChunkLen(chunkSize, job);
    assert job.Position + n <= job.Patch.value.FileSize;
    assert (job.Position + n) % U64 == job.Position + n;
  }

  /** The payload bytes a client receives when SendPatchChunk runs on the job until it reaches
      the end of its file without a read error. */
  function Delivered(job: PatchJob, chunkSize: u32): (d: seq<byte>)
    requires InFile(job) && Readable(job)
    requires 0 < chunkSize < 0x1_0000
    decreases job.Patch.value.FileSize - job.Position
  {
    if job.Position == job.Patch.value.FileSize then []
    else
      ChunkAdvances(job, chunkSize);
      var r := ChunkStep(job, chunkSize, false);
      r.1.value[3..] + Delivered(r.0, chunkSize)
  }

  /** Before the end of the file a successful SendPatchChunk sends a packet carrying the next
      min(chunk size, bytes left) bytes and moves forward by that much in the same stream. */
  lemma ChunkAdvances(job: PatchJob, chunkSize: u32)
    requires InFile(job) && Readable(job) && job.Position < job.Patch.value.FileSize
    requires 0 < chunkSize < 0x1_0000
    ensures var r := ChunkStep(job, chunkSize, false);
      var n := Min(chunkSize, job.Patch.value.FileSize - job.Position);
      && r.1.Some? && |r.1.value| >= 3
      && r.1.value[3..] == ReadAt(job.File.value.Content, job.Position, n)
      && AheadBy(r.0, job, n)
  {
    ChunkStaysInFile(job, chunkSize);
  }

  /** A job at position K + n inside the same file and stream as `job`. */
  predicate AheadBy(next: PatchJob, job: PatchJob, n: nat)
  {
    && InFile(next) && Readable(next)
    && next.File == job.File && next.Patch == job.Patch && next.Position == job.Position + n
  }

  /** The bytes K..size of the stream, cut into chunks of at most chunkSize bytes. */
  function Drain(content: seq<byte>, pos: nat, size: nat, chunkSize: nat): (d: seq<byte>)
    requires chunkSize > 0
    decreases size - pos
  {
    if pos >= size then []
    else
      var n := Min(chunkSize, size - pos);
      ReadAt(content, pos, n) + Drain(content, pos + n, size, chunkSize)
  }

  /** One chunk of the drain: the read at the position, then the rest. */
  lemma DrainStep(content: seq<byte>, pos: nat, size: nat, chunkSize: nat)
    requires chunkSize > 0 && pos < size
    requires var n := Min(chunkSize, size - pos);
      Drain(content, pos + n, size, chunkSize) == ReadAt(content, pos + n, size - (pos + n))
    ensures Drain(content, pos, size, chunkSize) == ReadAt(content, pos, size - pos)
  {
    var n := Min(chunkSize, size - pos);
    assert Drain(content, pos, size, chunkSize) == ReadAt(content, pos, n) + Drain(content, pos + n, size, chunkSize);
    ReadAtSplit(content, pos, n, size);
  }

  lemma {:induction false} DrainIsReadAt(content: seq<byte>, pos: nat, size: nat, chunkSize: nat)
    requires chunkSize > 0 && pos <= size
    ensures Drain(content, pos, size, chunkSize) == ReadAt(content, pos, size - pos)
    decreases size - pos
  {
    if pos < size {
      DrainIsReadAt(content, pos + Min(chunkSize, size - pos), size, chunkSize);
      DrainStep(content, pos, size, chunkSize);
    }
  }

  lemma {:induction false} DeliveredIsDrain(job: PatchJob, chunkSize: u32)
    requires InFile(job) && Readable(job)
    requires 0 < chunkSize < 0x1_0000
    ensures Delivered(job, chunkSize)
      == Drain(job.File.value.Content, job.Position, job.Patch.value.FileSize, chunkSize)
  {
    DeliveredIsRestOfFile(job, chunkSize);
    DrainIsReadAt(job.File.value.Content, job.Position, job.Patch.value.FileSize, chunkSize);
  }


  /** One chunk of a transfer inside its file: the bytes at the position, then the rest. */
  lemma {:induction false} DeliveredStep(job: PatchJob, chunkSize: u32)
    requires InFile(job) && Readable(job) && job.Position < job.Patch.value.FileSize
    requires 0 < chunkSize < 0x1_0000
    requires var n := Min(chunkSize, job.Patch.value.FileSize - job.Position);
      forall next {:trigger AheadBy(next, job, n)} :: AheadBy(next, job, n) ==>
        Delivered(next, chunkSize)
        == ReadAt(job.File.value.Content, job.Position + n, job.Patch.value.FileSize - (job.Position + n))
    ensures Delivered(job, chunkSize)
      == ReadAt(job.File.value.Content, job.Position, job.Patch.value.FileSize - job.Position)
  {
    var n := Min(chunkSize, job.Patch.value.FileSize - job.Position);
    ChunkAdvances(job, chunkSize);
    ReadAtSplit(job.File.value.Content, job.Position, n, job.Patch.value.FileSize);
  }

  /** A transfer started or resumed at position K delivers exactly the bytes K..FileSize of
      the stream, in order. */
  lemma {:induction false} DeliveredIsRestOfFile(job: PatchJob, chunkSize: u32)
    requires InFile(job) && Readable(job)
    requires 0 < chunkSize < 0x1_0000
    ensures Delivered(job, chunkSize)
      == ReadAt(job.File.value.Content, job.Position, job.Patch.value.FileSize - job.Position)
    decreases job.Patch.value.FileSize - job.Position
  {
    if job.Position < job.Patch.value.FileSize {
      var n := Min(chunkSize, job.Patch.value.FileSize - job.Position);
      forall next {:trigger AheadBy(next, job, n)} | AheadBy(next, job, n)
        ensures Delivered(next, chunkSize)
          == ReadAt(job.File.value.Content, job.Position + n, job.Patch.value.FileSize - (job.Position + n))
      {
        DeliveredIsRestOfFile(next, chunkSize);
      }
      DeliveredStep(job, chunkSize);
    }
  }

  /** For a file of the registered size, that is the rest of the file from K. */
  lemma {:induction false} DeliveredWholeFile(job: PatchJob, chunkSize: u32)
    requires InFile(job) && Readable(job)
    requires 0 < chunkSize < 0x1_0000
    requires |job.File.value.Content| == job.Patch.value.FileSize
    ensures Delivered(job, chunkSize) == job.File.value.Content[job.Position..]
  {
    DeliveredIsRestOfFile(job, chunkSize);
    ReadAtInFile(job.File.value.Content, job.Position, job.Patch.value.FileSize - job.Position);
  }

  // ------------------------------------------------------------ UpdateJobs

  /** The send pass of UpdateJobs on one job: only an active job with an open stream gets a
      chunk; `failing` names the sessions whose read fails this time. */
  function TickJob(job: PatchJob, chunkSize: u32, failing: set<SessionId>): (r: (PatchJob, seq<Outgoing>))
    requires ProgressDefined(job)
    ensures r.0.Session == job.Session && r.0.Patch == job.Patch
    ensures |r.1| <= 1
    ensures r.1 != [] ==> job.Active && job.File.Some? && job.Session == Some(r.1[0].to)
    ensures !job.Active || job.File.None? ==> r.0 == job
  {
    if !job.Active || job.File.None? then (job, [])
    else
      var (j, m) := ChunkStep(job, chunkSize, job.Session.Some? && job.Session.value in failing);
      (j, if m.Some? then [Outgoing(job.Session.value, m.value)] else [])
  }

  predicate AllDefined(jobs: seq<PatchJob>)
  {
    forall i :: 0 <= i < |jobs| ==> ProgressDefined(jobs[i])
  }

  /** The send pass over the job list in order: each job is advanced on its own, and the
      packets go out in job order, at most one per job. */
  function Tick(jobs: seq<PatchJob>, chunkSize: u32, failing: set<SessionId>): (r: (seq<PatchJob>, seq<Outgoing>))
    requires AllDefined(jobs)
    ensures |r.0| == |jobs| && |r.1| <= |jobs|
    ensures HasPatches(jobs) ==> HasPatches(r.0)
    decreases |jobs|
  {
    if jobs == [] then ([], [])
    else
      var prefix := jobs[..|jobs| - 1];
      assert forall i :: 0 <= i < |prefix| ==> prefix[i] == jobs[i];
      var (a, s) := Tick(prefix, chunkSize, failing);
      var (j, o) := TickJob(jobs[|jobs| - 1], chunkSize, failing);
      assert forall i :: 0 <= i < |prefix| ==> (a + [j])[i] == a[i];
      (a + [j], s + o)
  }

  /** Every job comes out of the send pass as TickJob leaves it. */
  lemma {:induction false} TickPerJob(jobs: seq<PatchJob>, chunkSize: u32, failing: set<SessionId>)
    requires AllDefined(jobs)
    ensures forall i :: 0 <= i < |jobs| ==>
      Tick(jobs, chunkSize, failing).0[i] == TickJob(jobs[i], chunkSize, failing).0
    decreases |jobs|
  {
    if jobs != [] {
      var prefix := jobs[..|jobs| - 1];
      assert forall i :: 0 <= i < |prefix| ==> prefix[i] == jobs[i];
      TickPerJob(prefix, chunkSize, failing);
      var a := Tick(prefix, chunkSize, failing).0;
      var j := TickJob(jobs[|jobs| - 1], chunkSize, failing).0;
      assert Tick(jobs, chunkSize, failing).0 == a + [j];
      assert forall i :: 0 <= i < |prefix| ==> (a + [j])[i] == a[i];
    }
  }

  /** The sessions of the active jobs, collected in the order of the send pass. */
  function ActiveSessions(jobs: seq<PatchJob>): set<SessionId>
    decreases |jobs|
  {
    if jobs == [] then {}
    else
      var last := jobs[|jobs| - 1];
      ActiveSessions(jobs[..|jobs| - 1])
        + (if last.Active && last.Session.Some? then {last.Session.value} else {})
  }

  /** A session is in ActiveSessions exactly when some active job belongs to it. */
  lemma {:induction false} ActiveSessionsOf(jobs: seq<PatchJob>, s: SessionId)
    ensures s in ActiveSessions(jobs)
      <==> exists i :: 0 <= i < |jobs| && jobs[i].Active && jobs[i].Session == Some(s)
    decreases |jobs|
  {
    if jobs != [] {
      var prefix := jobs[..|jobs| - 1];
      var last := jobs[|jobs| - 1];
      ActiveSessionsOf(prefix, s);
      if s in ActiveSessions(jobs) {
        if s in ActiveSessions(prefix) {
          var i :| 0 <= i < |prefix| && prefix[i].Active && prefix[i].Session == Some(s);
          assert jobs[i] == prefix[i];
        } else {
          assert last.Active && last.Session == Some(s);
        }
      }
      if exists i :: 0 <= i < |jobs| && jobs[i].Active && jobs[i].Session == Some(s) {
        var i :| 0 <= i < |jobs| && jobs[i].Active && jobs[i].Session == Some(s);
        if i < |prefix| {
          assert prefix[i] == jobs[i];
        }
      }
    }
  }

  /** Every packet of the send pass goes to the session of an active job. */
  lemma {:induction false} TickSendsToActive(jobs: seq<PatchJob>, chunkSize: u32, failing: set<SessionId>)
    requires AllDefined(jobs)
    ensures forall k :: 0 <= k < |Tick(jobs, chunkSize, failing).1| ==>
      Tick(jobs, chunkSize, failing).1[k].to in ActiveSessions(jobs)
    decreases |jobs|
  {
    if jobs != [] {
      var prefix := jobs[..|jobs| - 1];
      assert forall i :: 0 <= i < |prefix| ==> prefix[i] == jobs[i];
      TickSendsToActive(prefix, chunkSize, failing);
      var s := Tick(prefix, chunkSize, failing).1;
      var o := TickJob(jobs[|jobs| - 1], chunkSize, failing).1;
      var out := Tick(jobs, chunkSize, failing).1;
      assert out == s + o;
      forall k | 0 <= k < |out|
        ensures out[k].to in ActiveSessions(jobs)
      {
        if k < |s| {
          assert out[k] == s[k];
        } else {
          assert out[k] == o[0];
        }
      }
    }
  }

  /** The send pass over one more job extends the pass over the jobs before it. */
  lemma TickSnoc(jobs: seq<PatchJob>, i: nat, chunkSize: u32, failing: set<SessionId>)
    requires AllDefined(jobs) && i < |jobs|
    ensures AllDefined(jobs[..i]) && AllDefined(jobs[..i + 1])
    ensures var t := Tick(jobs[..i], chunkSize, failing);
      var u := TickJob(jobs[i], chunkSize, failing);
      Tick(jobs[..i + 1], chunkSize, failing) == (t.0 + [u.0], t.1 + u.1)
  {
    assert jobs[..i + 1][..i] == jobs[..i];
  }

  predicate HasPatches(jobs: seq<PatchJob>)
  {
    forall i :: 0 <= i < |jobs| ==> jobs[i].Patch.Some?
  }

  predicate Finished(job: PatchJob)
    requires job.Patch.Some?
  {
    job.Position >= job.Patch.value.FileSize
  }

  /** The reaping pass of UpdateJobs: every job whose position reached its file size is
      dropped, every other job is kept, in order. */
  function Reap(jobs: seq<PatchJob>): (r: seq<PatchJob>)
    requires HasPatches(jobs)
    ensures |r| <= |jobs|
    ensures forall j :: j in r <==> j in jobs && !Finished(j)
    decreases |jobs|
  {
    if jobs == [] then []
    else
      var rest := Reap(jobs[..|jobs| - 1]);
      assert forall j :: j in jobs <==> j in jobs[..|jobs| - 1] || j == jobs[|jobs| - 1];
      if Finished(jobs[|jobs| - 1]) then rest else rest + [jobs[|jobs| - 1]]
  }

  /** RemoveJob: every job of the session is dropped, every other job is kept, in order. */
  function RemoveSession(jobs: seq<PatchJob>, s: SessionId): (r: seq<PatchJob>)
    ensures |r| <= |jobs|
    ensures forall j :: j in r <==> j in jobs && j.Session != Some(s)
    decreases |jobs|
  {
    if jobs == [] then []
    else
      var rest := RemoveSession(jobs[..|jobs| - 1], s);
      assert forall j :: j in jobs <==> j in jobs[..|jobs| - 1] || j == jobs[|jobs| - 1];
      if jobs[|jobs| - 1].Session == Some(s) then rest else rest + [jobs[|jobs| - 1]]
  }

  /** No two jobs belong to the same session. */
  predicate SessionsDistinct(jobs: seq<PatchJob>)
  {
    forall i, k :: 0 <= i < k < |jobs| ==> jobs[i].Session != jobs[k].Session
  }

  lemma DistinctAppend(jobs: seq<PatchJob>, j: PatchJob)
    requires SessionsDistinct(jobs)
    requires forall x :: x in jobs ==> x.Session != j.Session
    ensures SessionsDistinct(jobs + [j])
  {
    var js := jobs + [j];
    forall i, k | 0 <= i < k < |js| ensures js[i].Session != js[k].Session {
      if k == |jobs| {
        assert js[i] in jobs;
      }
    }
  }

  /** No job has a position past the end of its file. */
  predicate AllInFile(jobs: seq<PatchJob>)
  {
    forall k :: 0 <= k < |jobs| ==> InFile(jobs[k])
  }

  /** Replacing a job by one of the same session that is still inside its file keeps the
      table free of duplicate sessions and of jobs past the end of their file. */
  lemma ReplaceKeepsShape(jobs: seq<PatchJob>, i: nat, j: PatchJob)
    requires SessionsDistinct(jobs) && AllInFile(jobs)
    requires i < |jobs| && j.Session == jobs[i].Session && InFile(j)
    ensures SessionsDistinct(jobs[i := j]) && AllInFile(jobs[i := j])
  {
  }

  /** Reaping keeps at most one job per session. */
  lemma {:induction false} ReapKeepsDistinct(jobs: seq<PatchJob>)
    requires HasPatches(jobs) && SessionsDistinct(jobs)
    ensures SessionsDistinct(Reap(jobs))
    decreases |jobs|
  {
    if jobs != [] {
      var init := jobs[..|jobs| - 1];
      var last := jobs[|jobs| - 1];
      ReapKeepsDistinct(init);
      if !Finished(last) {
        forall x | x in Reap(init) ensures x.Session != last.Session {
          var i :| 0 <= i < |init| && init[i] == x;
        }
        DistinctAppend(Reap(init), last);
      }
    }
  }

  /** RemoveJob keeps at most one job per session and leaves none for the removed one. */
  lemma {:induction false} RemoveKeepsDistinct(jobs: seq<PatchJob>, s: SessionId)
    requires SessionsDistinct(jobs)
    ensures SessionsDistinct(RemoveSession(jobs, s))
    decreases |jobs|
  {
    if jobs != [] {
      var init := jobs[..|jobs| - 1];
      var last := jobs[|jobs| - 1];
      RemoveKeepsDistinct(init, s);
      if last.Session != Some(s) {
        forall x | x in RemoveSession(init, s) ensures x.Session != last.Session {
          var i :| 0 <= i < |init| && init[i] == x;
        }
        DistinctAppend(RemoveSession(init, s), last);
      }
    }
  }

  /** The job the handlers loop to: the first one of the session. */
  function FindJob(jobs: seq<PatchJob>, s: SessionId, from: nat): (r: Option<nat>)
    requires from <= |jobs|
    ensures r.Some? ==> from <= r.value < |jobs| && jobs[r.value].Session == Some(s)
    ensures r.Some? ==> forall j :: from <= j < r.value ==> jobs[j].Session != Some(s)
    ensures r.None? ==> forall j :: from <= j < |jobs| ==> jobs[j].Session != Some(s)
    decreases |jobs| - from
  {
    if from == |jobs| then None
    else if jobs[from].Session == Some(s) then Some(from)
    else FindJob(jobs, s, from + 1)
  }

  /** Cancelling twice is the same as cancelling once. */
  lemma {:induction false} RemoveSessionIdempotent(jobs: seq<PatchJob>, s: SessionId)
    ensures RemoveSession(RemoveSession(jobs, s), s) == RemoveSession(jobs, s)
    decreases |jobs|
  {
    if jobs != [] {
      var init := jobs[..|jobs| - 1];
      var last := jobs[|jobs| - 1];
      RemoveSessionIdempotent(init, s);
      var r := RemoveSession(init, s);
      if last.Session != Some(s) {
        assert (r + [last])[..|r + [last]| - 1] == r;
      }
    }
  }

  // ------------------------------------------------------------ HandleXferAccept / HandleXferResume

  /** What HandleXferAccept does to the session's job; `onOpen` is the file's content when
      opening it succeeds. Opening a stream that is already open fails and leaves it failed. */
  function AcceptStep(job: PatchJob, onOpen: Option<seq<byte>>): (r: (bool, PatchJob))
    ensures r.1.Session == job.Session && r.1.Patch == job.Patch
    ensures r.0 <==> job.File.None? && onOpen.Some?
    ensures r.0 ==> r.1 == job.(File := Some(Stream(onOpen.value, false)), Position := 0, Active := true)
    ensures !r.0 ==> r.1.Position == job.Position && r.1.Active == job.Active
  {
    if job.File.Some? then (false, job.(File := Some(job.File.value.(Failed := true))))
    else if onOpen.None? then (false, job)
    else (true, job.(File := Some(Stream(onOpen.value, false)), Position := 0, Active := true))
  }

  /** The stream HandleXferResume works on: the open one, or a newly onOpen one. */
  function OpenIfClosed(job: PatchJob, onOpen: Option<seq<byte>>): (f: Option<Stream>)
    ensures job.File.Some? ==> f == job.File
    ensures job.File.None? ==> (f.Some? <==> onOpen.Some?)
    ensures job.File.None? && f.Some? ==> f.value == Stream(onOpen.value, false)
  {
    if job.File.Some? then job.File
    else if onOpen.Some? then Some(Stream(onOpen.value, false))
    else None
  }

  /** HandleXferResume as written: open the stream if it is closed, seek, and on success take
      the position and become active. `seekFails` stands for an offset the stream refuses;
      an offset past the end of the file is not one of them. */
  function ResumeAsWritten(job: PatchJob, position: u64, onOpen: Option<seq<byte>>, seekFails: bool): (r: (bool, PatchJob))
    ensures r.1.Session == job.Session && r.1.Patch == job.Patch
    ensures r.0 <==> OpenIfClosed(job, onOpen).Some? && !OpenIfClosed(job, onOpen).value.Failed && !seekFails
    ensures r.0 ==> r.1.Position == position && r.1.Active
  {
    var file := OpenIfClosed(job, onOpen);
    if file.None? then (false, job)
    else if file.value.Failed || seekFails then (false, job.(File := Some(file.value.(Failed := true))))
    else (true, job.(File := file, Position := position, Active := true))
  }

  /** HandleXferResume as this model has it: the same, except that an offset past the end of
      the file is refused once the stream is open and before seeking, so a resumed job is always inside its file. */
  function ResumeStep(job: PatchJob, position: u64, onOpen: Option<seq<byte>>, seekFails: bool): (r: (bool, PatchJob))
    requires job.Patch.Some?
    ensures r.1.Session == job.Session && r.1.Patch == job.Patch
    ensures r.0 <==> ResumeAsWritten(job, position, onOpen, seekFails).0 && position <= job.Patch.value.FileSize
    ensures r.0 ==> r.1 == ResumeAsWritten(job, position, onOpen, seekFails).1
    ensures !r.0 ==> r.1.Position == job.Position && r.1.Active == job.Active
  {
    var file := OpenIfClosed(job, onOpen);
    if file.None? then (false, job)
    else if position > job.Patch.value.FileSize then (false, job.(File := file))
    else if file.value.Failed || seekFails then (false, job.(File := Some(file.value.(Failed := true))))
    else (true, job.(File := file, Position := position, Active := true))
  }

  /** A resumed job is inside its file with a readable stream, so from there the transfer
      delivers exactly the bytes from the resume offset to the end of the file. */
  lemma {:induction false} ResumeDeliversRest(job: PatchJob, position: u64, onOpen: Option<seq<byte>>, chunkSize: u32)
    requires InFile(job) && 0 < chunkSize < 0x1_0000
    requires ResumeStep(job, position, onOpen, false).0
    ensures var j := ResumeStep(job, position, onOpen, false).1;
      && InFile(j) && Readable(j) && j.Position == position
      && Delivered(j, chunkSize) == ReadAt(j.File.value.Content, position, job.Patch.value.FileSize - position)
  {
    var j := ResumeStep(job, position, onOpen, false).1;
    DeliveredIsRestOfFile(j, chunkSize);
  }

  /** As written, a client that resumes at 2000 in a 1000-byte file is accepted, and the next
      SendPatchChunk computes `remaining` with a wrapped subtraction and sends a full
      1500-byte chunk of zeros from beyond the end of the file. The corrected resume refuses
      that offset. */
  lemma ResumePastEndSendsZeros()
    ensures var patch := PatchInfo(12340, "enus", 1000, [0, 0, 0, 0, 0, 0, 0, 0, 0, 0, 0, 0, 0, 0, 0, 0], "ClientPatches/enUS12340.mpq", false);
      var job := PatchJob(Some(7), Some(patch), None, 0, false, 0);
      var onOpen := Some(seq(1000, _ => 7));
      var resumed := ResumeAsWritten(job, 2000, onOpen, false);
      && resumed.0
      && resumed.1.File.Some? && ProgressDefined(resumed.1)
      && var r := ChunkStep(resumed.1, 1500, false);
      && r.1.Some?
      && r.1.value[3..] == seq(1500, _ => 0)
      && r.0.Position == 3500 > patch.FileSize
      && !ResumeStep(job, 2000, onOpen, false).0
  {
    var patch := PatchInfo(12340, "enus", 1000, [0, 0, 0, 0, 0, 0, 0, 0, 0, 0, 0, 0, 0, 0, 0, 0], "ClientPatches/enUS12340.mpq", false);
    var job := PatchJob(Some(7), Some(patch), None, 0, false, 0);
    var resumed := ResumeAsWritten(job, 2000, Some(seq(1000, _ => 7)), false).1;
    assert ChunkLen(1500, resumed) == 1500;
    var data := ReadAt(seq(1000, _ => 7), 2000, 1500);
    assert data == seq(1500, _ => 0);
  }

  /** A resume never leaves a job in a state where SendPatchChunk would divide by zero:
      it succeeds only inside the file, and otherwise keeps the position. */
  lemma ResumeStepKeepsDefined(job: PatchJob, position: u64, onOpen: Option<seq<byte>>, seekFails: bool)
    requires InFile(job)
    ensures InFile(ResumeStep(job, position, onOpen, seekFails).1)
    ensures ProgressDefined(ResumeStep(job, position, onOpen, seekFails).1)
  {
  }

  /** As written, resuming the transfer of an empty patch at any offset past 0 is accepted:
      the job is active with a readable stream, the wrapped `remaining` gives a chunk of
      more than zero bytes, and the progress SendPatchChunk then computes divides by the
      file size 0. The corrected resume refuses the offset. */
  lemma EmptyResumeDividesByZero(job: PatchJob, position: u64, content: seq<byte>, chunkSize: u32)
    requires job.Session.Some? && job.Patch.Some? && job.Patch.value.FileSize == 0
    requires job.File.None? && 0 < position && 0 < chunkSize < 0x1_0000
    ensures var r := ResumeAsWritten(job, position, Some(content), false);
      && r.0 && r.1.Active && Readable(r.1)
      && !ProgressDefined(r.1)
      && ChunkLen(chunkSize, r.1) > 0
    ensures !ResumeStep(job, position, Some(content), false).0
  {
    var j := ResumeAsWritten(job, position, Some(content), false).1;
    assert (0 - position) % U64 == U64 - position;
    assert j.Position == position;
    assert (j.Patch.value.FileSize - j.Position) % U64 == U64 - position > 0;
  }
}
