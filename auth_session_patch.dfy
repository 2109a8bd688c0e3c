/** The patching glue of an authentication session (AuthSession_patch.cpp): the gate that
    decides whether a client below the minimum build is patched, the XFER_* handlers and the
    clean-up on destruction. The session talks to one PatchMgr object; its read buffer is a
    parameter of the handler that reads it. */
module AuthSessionPatch {
  import opened Wrappers
  import opened Bytes
  import opened PatchTypes
  import opened TransferSpec
  import opened PatchManager

  /** The states of an authentication session, with STATUS_XFER for a session that is
      downloading a patch. AuthSession.h, which declares them, is not part of this model. */
  datatype AuthStatus = Challenge | LogonProof | ReconnectProof | Authed | WaitingForRealmList | Xfer | Closed

  /** One entry of the handler table: the state the session must be in and the least number
      of buffered bytes before the handler runs. */
  datatype HandlerEntry = HandlerEntry(Status: AuthStatus, MinSize: nat)

  /** The three entries added to InitHandlers. */
  function XferHandler(cmd: byte): (h: Option<HandlerEntry>)
    ensures h.Some? <==> cmd in {XFER_ACCEPT, XFER_RESUME, XFER_CANCEL}
    ensures h.Some? ==> h.value.Status == Xfer && h.value.MinSize >= 1
    ensures h.Some? && cmd == XFER_RESUME ==> h.value.MinSize == 1 + 8
  {
    if cmd == XFER_ACCEPT then Some(HandlerEntry(Xfer, 1))
    else if cmd == XFER_RESUME then Some(HandlerEntry(Xfer, 9))
    else if cmd == XFER_CANCEL then Some(HandlerEntry(Xfer, 1))
    else None
  }

  /** The XFER_RESUME request a client sends: the opcode, then the offset it already holds
      as a little-endian uint64. */
  function ResumeRequest(position: u64): (m: seq<byte>)
    ensures |m| == 9 && m[0] == XFER_RESUME
  {
    [XFER_RESUME] + LE64(position)
  }

  /** The handler reads back the offset the client wrote, and a request the table lets
      through is never refused for being short. */
  lemma ResumeRequestRoundTrip(position: u64)
    ensures ReadLE64(ResumeRequest(position), 1) == position
    ensures XferHandler(XFER_RESUME).Some? && |ResumeRequest(position)| >= XferHandler(XFER_RESUME).value.MinSize
  {
    var m := ResumeRequest(position);
    assert m[1..9] == LE64(position);
    LE64RoundTrip(position);
    assert LE64(position)[0..8] == LE64(position);
  }

  class AuthSession {
    const id: SessionId
    const mgr: PatchMgr
    var build: u32
    var localizationName: string
    /** The registry entry being sent; None when no transfer was started. */
    var pendingPatch: Option<PatchInfo>
    var status: AuthStatus

    ghost predicate Valid()
      reads this, mgr
    {
      mgr.Valid()
    }

    /** A session of the given client that has not asked for anything yet. */
    constructor(id: SessionId, mgr: PatchMgr, build: u32, localizationName: string)
      requires mgr.Valid()
      ensures Valid()
      ensures this.id == id && this.mgr == mgr && this.build == build
      ensures this.localizationName == localizationName
      ensures pendingPatch.None? && status == Challenge
    {
      this.id := id;
      this.mgr := mgr;
      this.build := build;
      this.localizationName := localizationName;
      pendingPatch := None;
      status := Challenge;
    }

    /** CheckAndInitiatePatch: only when patching is enabled, the client is older than the
        minimum build and a payload exists for it. Then the session remembers the payload,
        enters STATUS_XFER and the manager starts the transfer; otherwise nothing changes. */
    method CheckAndInitiatePatch() returns (ok: bool)
      modifies this, mgr
      requires Valid()
      ensures Valid()
      ensures var p := old(mgr.FindPatchForClient(build, localizationName));
        var start := old(mgr.enabled) && build < old(mgr.minBuild) && p.Some?;
        && ok == start
        && (!start ==> pendingPatch == old(pendingPatch) && status == old(status)
                       && mgr.jobs == old(mgr.jobs) && mgr.sent == old(mgr.sent))
        && (start ==> pendingPatch == p && status == Xfer
                      && mgr.jobs == RemoveSession(old(mgr.jobs), id) + [PatchJob(Some(id), p, None, 0, false, 0)]
                      && mgr.sent == old(mgr.sent) + [Outgoing(id, EncodeInitiate(InitiatePacketFor(p.value)))])
      ensures build == old(build) && localizationName == old(localizationName)
      ensures mgr.patches == old(mgr.patches)
      ensures mgr.minBuild == old(mgr.minBuild) && mgr.enabled == old(mgr.enabled)
      ensures mgr.patchDir == old(mgr.patchDir) && mgr.chunkSize == old(mgr.chunkSize)
    {
      if !mgr.IsEnabled() {
        return false;
      }
      if build >= mgr.GetMinBuild() {
        return false;
      }
      var patch := mgr.FindPatchForClient(build, localizationName);
      if patch.None? {
        return false;
      }
      pendingPatch := patch;
      status := Xfer;
      ok := mgr.InitiatePatch(Some(id), patch);
    }

    /** The check added to HandleLogonProof when the client's version is not supported: the
        connection stays open exactly when a transfer was started. */
    method OnUnsupportedVersion() returns (keepOpen: bool)
      modifies this, mgr
      requires Valid()
      ensures Valid()
      ensures keepOpen <==> old(mgr.enabled) && build < old(mgr.minBuild)
                            && old(mgr.FindPatchForClient(build, localizationName)).Some?
      ensures keepOpen ==> status == Xfer && pendingPatch.Some?
      ensures !keepOpen ==> status == old(status) && mgr.jobs == old(mgr.jobs) && mgr.sent == old(mgr.sent)
    {
      keepOpen := CheckAndInitiatePatch();
    }

    /** HandleXferAccept: refused without a pending payload; otherwise the manager's accept. */
    method HandleXferAccept(onOpen: Option<seq<byte>>) returns (ok: bool)
      modifies mgr
      requires Valid()
      ensures Valid()
      ensures old(pendingPatch).None? ==> !ok && mgr.jobs == old(mgr.jobs)
      ensures old(pendingPatch).Some? && FindJob(old(mgr.jobs), id, 0).None? ==> !ok && mgr.jobs == old(mgr.jobs)
      ensures old(pendingPatch).Some? && FindJob(old(mgr.jobs), id, 0).Some? ==>
        var k := FindJob(old(mgr.jobs), id, 0).value;
        var r := AcceptStep(old(mgr.jobs)[k], onOpen);
        ok == r.0 && mgr.jobs == old(mgr.jobs)[k := r.1]
      ensures mgr.sent == old(mgr.sent) && mgr.patches == old(mgr.patches)
      ensures mgr.minBuild == old(mgr.minBuild) && mgr.enabled == old(mgr.enabled)
      ensures mgr.patchDir == old(mgr.patchDir) && mgr.chunkSize == old(mgr.chunkSize)
    {
      if pendingPatch.None? {
        return false;
      }
      ok := mgr.HandleXferAccept(id, onOpen);
    }

    /** HandleXferResume: refused without a pending payload or when fewer than 9 bytes are
        buffered; otherwise the offset is the uint64 after the opcode byte and the manager
        resumes from it. */
    method HandleXferResume(packet: seq<byte>, onOpen: Option<seq<byte>>, seekFails: bool) returns (ok: bool)
      modifies mgr
      requires Valid()
      ensures Valid()
      ensures old(pendingPatch).None? || |packet| < 9 ==> !ok && mgr.jobs == old(mgr.jobs)
      ensures old(pendingPatch).Some? && |packet| >= 9 ==>
        var position := ReadLE64(packet, 1);
        match FindJob(old(mgr.jobs), id, 0)
        case None => !ok && mgr.jobs == old(mgr.jobs)
        case Some(k) =>
          var r := ResumeStep(old(mgr.jobs)[k], position, onOpen, seekFails);
          ok == r.0 && mgr.jobs == old(mgr.jobs)[k := r.1]
      ensures mgr.sent == old(mgr.sent) && mgr.patches == old(mgr.patches)
      ensures mgr.minBuild == old(mgr.minBuild) && mgr.enabled == old(mgr.enabled)
      ensures mgr.patchDir == old(mgr.patchDir) && mgr.chunkSize == old(mgr.chunkSize)
    {
      if pendingPatch.None? {
        return false;
      }
      if |packet| < 9 {
        return false;
      }
      var position := ReadLE64(packet, 1);
      ok := mgr.HandleXferResume(id, position, onOpen, seekFails);
    }

    /** HandleXferCancel: the manager drops the job, the session forgets its payload and
        closes; the handler always answers false so that the connection is closed. */
    method HandleXferCancel() returns (ok: bool)
      modifies this, mgr
      requires Valid()
      ensures Valid()
      ensures !ok
      ensures pendingPatch.None? && status == Closed
      ensures mgr.jobs == RemoveSession(old(mgr.jobs), id)
      ensures forall j :: j in mgr.jobs ==> j.Session != Some(id)
      ensures build == old(build) && localizationName == old(localizationName)
      ensures mgr.sent == old(mgr.sent) && mgr.patches == old(mgr.patches)
      ensures mgr.minBuild == old(mgr.minBuild) && mgr.enabled == old(mgr.enabled)
      ensures mgr.patchDir == old(mgr.patchDir) && mgr.chunkSize == old(mgr.chunkSize)
    {
      var _ := mgr.HandleXferCancel(id);
      pendingPatch := None;
      status := Closed;
      return false;
    }

    /** ~AuthSession: a session that still has a pending payload cancels its transfer. */
    method Destroy()
      modifies this, mgr
      requires Valid()
      ensures Valid()
      ensures pendingPatch.None? && status == old(status)
      ensures old(pendingPatch).Some? ==> mgr.jobs == RemoveSession(old(mgr.jobs), id)
      ensures old(pendingPatch).None? ==> mgr.jobs == old(mgr.jobs)
      ensures mgr.sent == old(mgr.sent) && mgr.patches == old(mgr.patches)
      ensures mgr.minBuild == old(mgr.minBuild) && mgr.enabled == old(mgr.enabled)
      ensures mgr.patchDir == old(mgr.patchDir) && mgr.chunkSize == old(mgr.chunkSize)
    {
      if pendingPatch.Some? {
        var _ := mgr.HandleXferCancel(id);
        pendingPatch := None;
      }
    }
  }
}
