/** The records and wire layouts declared in PatchMgr.h, and the XFER opcodes of PatchMgr.cpp. */
module PatchTypes {
  import opened Wrappers
  import opened Bytes

  /** The identity of an AuthSession; the C++ code compares session pointers. */
  type SessionId = nat

  /** An MD5 digest (Acore::Crypto::MD5::Digest is a 16-byte array). */
  type Digest = s: seq<byte> | |s| == 16
    witness [0, 0, 0, 0, 0, 0, 0, 0, 0, 0, 0, 0, 0, 0, 0, 0]

  // XferCmd opcodes
  const XFER_INITIATE: byte := 0x30
  const XFER_DATA: byte := 0x31
  const XFER_ACCEPT: byte := 0x32
  const XFER_RESUME: byte := 0x33
  const XFER_CANCEL: byte := 0x34

  /** One payload file of the registry. The unused in-memory cache `Data` is not modelled. */
  datatype PatchInfo = PatchInfo(
    Build: u32,          // client build the patch is for; 0 = any build of the locale
    Locale: string,      // lower-cased by LoadPatches
    FileSize: u64,
    MD5: Digest,
    FilePath: string,
    DataLoaded: bool)

  /** PatchInfo(): build and size zero, nothing cached. The constructor leaves the digest
      array uninitialised, so its bytes are a parameter here. */
  function DefaultPatchInfo(garbage: Digest): (p: PatchInfo)
    ensures p.Build == 0 && p.FileSize == 0 && !p.DataLoaded
    ensures p.Locale == [] && p.FilePath == []
  {
    PatchInfo(0, [], 0, garbage, [], false)
  }

  /** An open std::ifstream: the file's bytes as they were when it was opened, and whether
      the stream has failed (a second open, a refused seek or a read error) so that every
      later seek or read on it fails too. */
  datatype Stream = Stream(Content: seq<byte>, Failed: bool)

  /** One transfer in flight. `File` is None while the stream is closed. */
  datatype PatchJob = PatchJob(
    Session: Option<SessionId>,
    Patch: Option<PatchInfo>,
    File: Option<Stream>,
    Position: u64,
    Active: bool,
    LastLoggedProgress: u32)

  /** PatchJob(): no session, no patch, closed stream, position 0, inactive, nothing logged. */
  function DefaultPatchJob(): (j: PatchJob)
    ensures j.Session.None? && j.Patch.None? && j.File.None?
    ensures j.Position == 0 && !j.Active && j.LastLoggedProgress == 0
  {
    PatchJob(None, None, None, 0, false, 0)
  }

  // ------------------------------------------------------------ wire layouts (#pragma pack 1)

  /** TransferInitiatePacket: Cmd, StrSize, Name[5], FileSize (uint64), MD5[16]. */
  datatype TransferInitiatePacket = TransferInitiatePacket(
    Cmd: byte, StrSize: byte, Name: seq<byte>, FileSize: u64, MD5: seq<byte>)
  {
    predicate WellSized() { |Name| == 5 && |MD5| == 16 }
  }

  /** The packed layout, fields in declaration order, multi-byte fields little-endian. */
  function EncodeInitiate(p: TransferInitiatePacket): (b: seq<byte>)
    requires p.WellSized()
    ensures |b| == 1 + 1 + 5 + 8 + 16 == 31
    ensures b[0] == p.Cmd && b[1] == p.StrSize && b[2..7] == p.Name
    ensures b[15..31] == p.MD5
  {
    [p.Cmd, p.StrSize] + p.Name + LE64(p.FileSize) + p.MD5
  }

  function DecodeInitiate(b: seq<byte>): (r: Option<TransferInitiatePacket>)
    ensures r.Some? <==> |b| == 31
    ensures r.Some? ==> r.value.WellSized()
  {
    if |b| != 31 then None
    else Some(TransferInitiatePacket(b[0], b[1], b[2..7], ReadLE64(b, 7), b[15..31]))
  }

  /** Every well-sized initiate packet is read back exactly from its 31 bytes. */
  lemma InitiateRoundTrip(p: TransferInitiatePacket)
    requires p.WellSized()
    ensures DecodeInitiate(EncodeInitiate(p)) == Some(p)
  {
    var b := EncodeInitiate(p);
    assert b[7..15] == LE64(p.FileSize);
    LE64RoundTrip(p.FileSize);
    assert LE64(p.FileSize)[0..8] == LE64(p.FileSize);
    LEOfFromLE(b[7..15]);
    Pow256Values();
    LERoundTrip(p.FileSize, 8);
  }

  /** The name field "Patch". */
  const PATCH_NAME: seq<byte> := [0x50, 0x61, 0x74, 0x63, 0x68]

  /** The XFER_INITIATE packet InitiatePatch builds for a patch. */
  function InitiatePacketFor(patch: PatchInfo): (p: TransferInitiatePacket)
    ensures p.WellSized()
  {
    TransferInitiatePacket(XFER_INITIATE, 5, PATCH_NAME, patch.FileSize, patch.MD5)
  }

  /** TransferDataPacket header: Cmd, then a uint16 chunk length. */
  datatype TransferDataPacket = TransferDataPacket(Cmd: byte, ChunkSize: u16)

  function EncodeDataHeader(h: TransferDataPacket): (b: seq<byte>)
    ensures |b| == 1 + 2 == 3 && b[0] == h.Cmd
  {
    [h.Cmd] + LE16(h.ChunkSize)
  }

  function DecodeDataHeader(b: seq<byte>): (r: Option<TransferDataPacket>)
    ensures r.Some? <==> |b| >= 3
  {
    if |b| < 3 then None else Some(TransferDataPacket(b[0], ReadLE16(b, 1)))
  }

  /** The 3-byte header is read back exactly, whatever follows it. */
  lemma DataHeaderRoundTrip(h: TransferDataPacket, payload: seq<byte>)
    ensures DecodeDataHeader(EncodeDataHeader(h) + payload) == Some(h)
  {
    var b := EncodeDataHeader(h) + payload;
    LE16RoundTrip(h.ChunkSize);
    assert b[1..3] == LE16(h.ChunkSize) == LE16(h.ChunkSize)[0..2];
  }

  /** An XFER_DATA message: the header followed by the payload bytes. */
  function DataMessage(payload: seq<byte>): (m: seq<byte>)
    requires |payload| < 0x1_0000
  {
    EncodeDataHeader(TransferDataPacket(XFER_DATA, |payload|)) + payload
  }

  /** An XFER_DATA message is 3 + n bytes and carries the payload after its header. */
  lemma DataMessagePayload(payload: seq<byte>)
    requires |payload| < 0x1_0000
    ensures |DataMessage(payload)| == 3 + |payload| && DataMessage(payload)[3..] == payload
  {
    var m := DataMessage(payload);
    assert m == EncodeDataHeader(TransferDataPacket(XFER_DATA, |payload|)) + payload;
  }

  /** The header of an XFER_DATA message reads back as XFER_DATA and the payload length. */
  lemma DataMessageHeader(payload: seq<byte>)
    requires |payload| < 0x1_0000
    ensures DecodeDataHeader(DataMessage(payload)) == Some(TransferDataPacket(XFER_DATA, |payload|))
  {
    DataHeaderRoundTrip(TransferDataPacket(XFER_DATA, |payload|), payload);
  }
}
