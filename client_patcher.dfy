/** The client-side patch tool (tools/patch_wow_client.py). It rewrites the build number of
    a 3.3.5a executable and bypasses its MPQ signature check, either at an offset given in
    hexadecimal or by searching for a known byte pattern. It also searches the image for
    function prologues and for instructions that load a given address.

    The executable's content is an array of bytes. The tool reads it into a bytearray,
    changes bytes in place and writes the whole bytearray back. The model changes the array
    itself, but only on the paths where the tool reaches write_file: when Python raises
    IndexError first, the file on disk, and so the array, is left as it was. Whether the
    file exists is a parameter. */
module ClientPatcher {
  import opened Wrappers
  import opened Bytes
  import opened Text

  /** Where a 3.3.5a executable keeps its build number, as a little-endian 16-bit value. */
  const BUILD_NUMBER_OFFSET: nat := 0x4C99F0

  /** How a command ends: it returns True or False, or Python raises IndexError because
      the executable is too short for an index the tool uses. */
  datatype Outcome = Returned(ok: bool) | IndexError

  /** One run of a patching command: how it ends, the executable afterwards, and whether
      write_file was reached. */
  datatype Run = Run(outcome: Outcome, file: seq<byte>, written: bool)

  /** What every command promises about the file: its length is kept, it is written only
      by a run that returns True, and a run that does not write it leaves it as it was. */
  predicate Keeps(f: seq<byte>, r: Run)
  {
    && |r.file| == |f|
    && (r.written ==> r.outcome == Returned(true))
    && (!r.written ==> r.file == f)
  }

  // ---------------------------------------------------------------- build number

  /** get_current_build: the low byte OR the high byte shifted left by eight; the two
      have no bit in common, so the OR is their sum. */
  function CurrentBuild(f: seq<byte>): (b: int)
    requires BUILD_NUMBER_OFFSET + 2 <= |f|
    ensures 0 <= b < 0x1_0000 && b == ReadLE16(f, BUILD_NUMBER_OFFSET)
  {
    f[BUILD_NUMBER_OFFSET] as int + (f[BUILD_NUMBER_OFFSET + 1] as int) * 0x100
  }

  /** Python's `x & 0xFF` and `(x >> 8) & 0xFF` are x mod 256 and floor(x / 256) mod 256
      for every integer, negative ones included; together they store x mod 65536. */
  lemma StoredLowWord(x: int)
    ensures x % 0x100 + 0x100 * ((x / 0x100) % 0x100) == x % 0x1_0000
  {
    var q, m := x / 0x1_0000, x % 0x1_0000;
    assert x == 0x100 * (0x100 * q + m / 0x100) + m % 0x100;
    ModUnique(x, 0x100, 0x100 * q + m / 0x100, m % 0x100);
    ModUnique(x / 0x100, 0x100, q, m / 0x100);
  }

  /** patch_build_number: a missing file gives False; an executable too short to hold the
      build number raises IndexError in get_current_build; a build already equal to the
      requested one gives True without writing; otherwise the two bytes are stored and
      written back. The requested build is any Python int. */
  function BuildNumberRun(f: seq<byte>, present: bool, newBuild: int): (r: Run)
    ensures Keeps(f, r)
    ensures r.outcome == IndexError <==> present && |f| < BUILD_NUMBER_OFFSET + 2
    ensures r.outcome == Returned(true) <==> present && BUILD_NUMBER_OFFSET + 2 <= |f|
    ensures r.written <==>
      present && BUILD_NUMBER_OFFSET + 2 <= |f| && CurrentBuild(f) != newBuild
    ensures r.written ==> ReadLE16(r.file, BUILD_NUMBER_OFFSET) == newBuild % 0x1_0000
    ensures forall i :: 0 <= i < |f| && i != BUILD_NUMBER_OFFSET && i != BUILD_NUMBER_OFFSET + 1 ==>
      r.file[i] == f[i]
  {
    if !present then Run(Returned(false), f, false)
    else if |f| < BUILD_NUMBER_OFFSET + 2 then Run(IndexError, f, false)
    else if CurrentBuild(f) == newBuild then Run(Returned(true), f, false)
    else
      var lo := newBuild % 0x100;
      var hi := (newBuild / 0x100) % 0x100;
      StoredLowWord(newBuild);
      Run(Returned(true), f[BUILD_NUMBER_OFFSET := lo][BUILD_NUMBER_OFFSET + 1 := hi], true)
  }

  /** Running the command twice leaves the file as the first run left it. The second run
      writes again exactly when the requested build does not fit in 16 bits, because the
      value read back is then never equal to it. */
  lemma {:induction false} BuildNumberTwice(f: seq<byte>, newBuild: int)
    requires BUILD_NUMBER_OFFSET + 2 <= |f|
    ensures var r := BuildNumberRun(f, true, newBuild);
      && BuildNumberRun(r.file, true, newBuild).file == r.file
      && (BuildNumberRun(r.file, true, newBuild).written <==> !(0 <= newBuild < 0x1_0000))
  {
    var r := BuildNumberRun(f, true, newBuild);
    var s := BuildNumberRun(r.file, true, newBuild);
    if r.written {
      assert CurrentBuild(r.file) == newBuild % 0x1_0000;
      if s.written {
        assert s.file[BUILD_NUMBER_OFFSET] == r.file[BUILD_NUMBER_OFFSET];
        assert s.file[BUILD_NUMBER_OFFSET + 1] == r.file[BUILD_NUMBER_OFFSET + 1];
        assert forall i :: 0 <= i < |f| ==> s.file[i] == r.file[i];
      }
    }
  }

  method PatchBuildNumber(data: array<byte>, present: bool, newBuild: int) returns (outcome: Outcome, written: bool)
    modifies data
    ensures Run(outcome, data[..], written) == BuildNumberRun(old(data[..]), present, newBuild)
  {
    if !present {
      return Returned(false), false;
    }
    if data.Length < BUILD_NUMBER_OFFSET + 2 {
      return IndexError, false;
    }
    var currentBuild := CurrentBuild(data[..]);
    if currentBuild == newBuild {
      return Returned(true), false;
    }
    data[BUILD_NUMBER_OFFSET] := newBuild % 0x100;
    data[BUILD_NUMBER_OFFSET + 1] := (newBuild / 0x100) % 0x100;
    return Returned(true), true;
  }

  // ---------------------------------------------------------------- hexadecimal offsets

  predicate IsHexDigit(c: char) { IsDigit(c) || 'a' <= c <= 'f' || 'A' <= c <= 'F' }

  predicate AllHexDigits(s: string) { forall i :: 0 <= i < |s| ==> IsHexDigit(s[i]) }

  function HexDigitValue(c: char): (d: nat)
    requires IsHexDigit(c)
    ensures d < 16
  {
    if IsDigit(c) then c as int - '0' as int
    else if 'a' <= c <= 'f' then c as int - 'a' as int + 10
    else c as int - 'A' as int + 10
  }

  /** The value of hexadecimal digits, most significant first. */
  function HexValue(s: string): (v: nat)
    requires AllHexDigits(s)
  {
    if s == [] then 0 else 16 * HexValue(s[..|s| - 1]) + HexDigitValue(s[|s| - 1])
  }

  /** Python's int(s, 16): an optional sign, an optional 0x or 0X prefix, then at least one
      hexadecimal digit; anything else is a ValueError (None). */
  function ParseHex(s: string): (r: Option<int>)
    ensures r.Some? ==> |s| > 0 && (r.value < 0 ==> s[0] == '-')
    ensures r.Some? && s[0] != '-' ==> r.value >= 0
    ensures r.Some? ==> IsHexDigit(s[|s| - 1])
  {
    var negative := |s| > 0 && s[0] == '-';
    var unsigned := if |s| > 0 && (s[0] == '-' || s[0] == '+') then s[1..] else s;
    var digits :=
      if |unsigned| >= 2 && unsigned[0] == '0' && (unsigned[1] == 'x' || unsigned[1] == 'X')
      then unsigned[2..] else unsigned;
    if digits != [] && AllHexDigits(digits) then
      var value: int := HexValue(digits);
      Some(if negative then -value else value)
    else None
  }

  /** Upper-case hexadecimal without leading zeros, as the format `{n:X}` writes it. */
  function HexNumeral(n: nat): (r: string)
    ensures r != [] && AllHexDigits(r)
  {
    var d := n % 16;
    var c := if d < 10 then DigitChar(d) else ('A' as int + (d - 10)) as char;
    if n < 16 then [c] else HexNumeral(n / 16) + [c]
  }

  lemma {:induction false} HexNumeralValue(n: nat)
    ensures HexValue(HexNumeral(n)) == n
    decreases n
  {
    var r := HexNumeral(n);
    assert HexDigitValue(r[|r| - 1]) == n % 16;
    if n >= 16 {
      assert r[..|r| - 1] == HexNumeral(n / 16);
      HexNumeralValue(n / 16);
    } else {
      assert r[..|r| - 1] == [];
    }
  }

  /** The offsets the tool prints as `0x{offset:X}` parse back to themselves. */
  lemma ParseHexOfNumeral(n: nat)
    ensures ParseHex("0x" + HexNumeral(n)) == Some(n)
    ensures ParseHex(HexNumeral(n)) == Some(n)
    ensures ParseHex("-0x" + HexNumeral(n)) == Some(-(n as int))
  {
    HexNumeralValue(n);
    var h := HexNumeral(n);
    assert ("0x" + h)[2..] == h;
    assert ("-0x" + h)[1..] == "0x" + h;
    if |h| >= 2 && h[0] == '0' {
      // HexNumeral writes no leading zero, so a digit string never looks like a prefix.
      assert h[1] != 'x' && h[1] != 'X';
    }
  }

  // ---------------------------------------------------------------- signature patch at an offset

  /** mov edx, [esp+8]; mov dword ptr [edx], 5; mov eax, 1; ret 0x18; nop; nop. */
  const SIGNATURE_PATCH: seq<byte> :=
    [0x8B, 0x54, 0x24, 0x08, 0xC7, 0x02, 0x05, 0x00, 0x00, 0x00,
     0xB8, 0x01, 0x00, 0x00, 0x00, 0xC2, 0x18, 0x00, 0x90, 0x90]

  /** Python's position for index k of a sequence of length n: negative indices count
      from the end. */
  function PyIndex(n: nat, k: int): int { if k < 0 then n + k else k }

  /** `data[offset + i] = bytes[i]` for each i in turn, with Python's negative indexing. */
  function PyWrites(f: seq<byte>, offset: int, bytes: seq<byte>): (r: seq<byte>)
    requires -|f| <= offset && offset + |bytes| <= |f|
    ensures |r| == |f|
    decreases |bytes|
  {
    if bytes == [] then f
    else PyWrites(f[PyIndex(|f|, offset) := bytes[0]], offset + 1, bytes[1..])
  }

  lemma {:induction false} PyWritesOutside(f: seq<byte>, offset: int, bytes: seq<byte>, j: nat)
    requires -|f| <= offset && offset + |bytes| <= |f| && j < |f|
    requires forall k :: offset <= k < offset + |bytes| ==> PyIndex(|f|, k) != j
    ensures PyWrites(f, offset, bytes)[j] == f[j]
    decreases |bytes|
  {
    if bytes != [] {
      PyWritesOutside(f[PyIndex(|f|, offset) := bytes[0]], offset + 1, bytes[1..], j);
    }
  }

  /** When the bytes are no longer than the sequence, byte i lands at Python's position
      for offset + i. */
  lemma {:induction false} PyWritesAt(f: seq<byte>, offset: int, bytes: seq<byte>, i: nat)
    requires -|f| <= offset && offset + |bytes| <= |f| && |bytes| <= |f| && i < |bytes|
    ensures PyWrites(f, offset, bytes)[PyIndex(|f|, offset + i)] == bytes[i]
    decreases |bytes|
  {
    var g := f[PyIndex(|f|, offset) := bytes[0]];
    if i == 0 {
      PyWritesOutside(g, offset + 1, bytes[1..], PyIndex(|f|, offset));
    } else {
      PyWritesAt(g, offset + 1, bytes[1..], i - 1);
    }
  }

  /** From a non-negative offset the writes are one contiguous overwrite. */
  lemma {:induction false} PyWritesForward(f: seq<byte>, offset: nat, bytes: seq<byte>)
    requires offset + |bytes| <= |f|
    ensures PyWrites(f, offset, bytes) == Overwrite(f, offset, bytes)
    decreases |bytes|
  {
    if bytes != [] {
      var g := f[offset := bytes[0]];
      PyWritesForward(g, offset + 1, bytes[1..]);
      var r, o := Overwrite(g, offset + 1, bytes[1..]), Overwrite(f, offset, bytes);
      assert forall j :: 0 <= j < |f| ==> r[j] == o[j] by {
        forall j | 0 <= j < |f| ensures r[j] == o[j] {
          if offset < j < offset + |bytes| {
            assert r[j] == bytes[1..][j - offset - 1] == bytes[j - offset] == o[j];
          }
        }
      }
    }
  }

  /** patch_signature_verification as written: the offset is rejected only when it is at
      least len(data) - 20. A negative offset passes; when it is below -len(data) the first
      store raises IndexError, otherwise the stores use Python's negative indexing. */
  function SignatureRunAsWritten(f: seq<byte>, present: bool, hexOffset: string): (r: Run)
    ensures Keeps(f, r)
  {
    if !present then Run(Returned(false), f, false)
    else match ParseHex(hexOffset)
      case None => Run(Returned(false), f, false)
      case Some(offset) =>
        if offset >= |f| - 20 then Run(Returned(false), f, false)
        else if offset < -|f| then Run(IndexError, f, false)
        else Run(Returned(true), PyWrites(f, offset, SIGNATURE_PATCH), true)
  }

  /** Writing from offset -n puts the first n bytes at the end of the sequence and the rest
      at its start. */
  lemma PyWritesWrap(f: seq<byte>, n: nat, bytes: seq<byte>)
    requires n <= |bytes| <= |f| && n <= |f|
    ensures PyWrites(f, -(n as int), bytes)[|f| - n..] == bytes[..n]
    ensures PyWrites(f, -(n as int), bytes)[..|bytes| - n] == bytes[n..]
  {
    var g := PyWrites(f, -(n as int), bytes);
    forall i | 0 <= i < n
      ensures g[|f| - n..][i] == bytes[..n][i]
    {
      PyWritesAt(f, -(n as int), bytes, i);
      assert PyIndex(|f|, -(n as int) + i) == |f| - n + i;
    }
    forall i | 0 <= i < |bytes| - n
      ensures g[..|bytes| - n][i] == bytes[n..][i]
    {
      PyWritesAt(f, -(n as int), bytes, i + n);
      assert PyIndex(|f|, -(n as int) + (i + n)) == i;
    }
  }

  lemma ParseMinusFive()
    ensures ParseHex("-5") == Some(-5)
  {
    assert "-5"[1..] == "5";
    assert HexValue("5") == 5 by { assert "5"[..0] == []; }
  }

  /** On any file longer than 20 bytes the offset "-5" is accepted: the first five patch
      bytes land on the last five bytes of the file and the other fifteen on its first
      fifteen, so the 20-byte routine is split in two. */
  lemma NegativeOffsetSplitsPatch(f: seq<byte>)
    requires |f| > 20
    ensures var r := SignatureRunAsWritten(f, true, "-5");
      && r.written
      && r.file[|f| - 5..] == SIGNATURE_PATCH[..5]
      && r.file[..15] == SIGNATURE_PATCH[5..]
  {
    ParseMinusFive();
    assert SignatureRunAsWritten(f, true, "-5") == Run(Returned(true), PyWrites(f, -5, SIGNATURE_PATCH), true);
    PyWritesWrap(f, 5, SIGNATURE_PATCH);
  }

  /** patch_signature_verification with the offset also required to be non-negative:
      False for a missing file, an offset that is not hexadecimal or one outside
      [0, len(data) - 20); otherwise exactly data[offset:offset+20] becomes the patch. */
  function SignatureRun(f: seq<byte>, present: bool, hexOffset: string): (r: Run)
    ensures Keeps(f, r)
    ensures r.outcome != IndexError
    ensures r.written <==>
      present && ParseHex(hexOffset).Some? && 0 <= ParseHex(hexOffset).value < |f| - 20
    ensures r.written ==>
      var offset := ParseHex(hexOffset).value;
      && r.file[offset..offset + 20] == SIGNATURE_PATCH
      && forall j :: 0 <= j < |f| && !(offset <= j < offset + 20) ==> r.file[j] == f[j]
  {
    if !present then Run(Returned(false), f, false)
    else match ParseHex(hexOffset)
      case None => Run(Returned(false), f, false)
      case Some(offset) =>
        if offset >= |f| - 20 || offset < 0 then Run(Returned(false), f, false)
        else Run(Returned(true), Overwrite(f, offset, SIGNATURE_PATCH), true)
  }

  /** The two differ only on negative offsets. */
  lemma SignatureRunAgrees(f: seq<byte>, present: bool, hexOffset: string)
    requires ParseHex(hexOffset).None? || ParseHex(hexOffset).value >= 0
    ensures SignatureRun(f, present, hexOffset) == SignatureRunAsWritten(f, present, hexOffset)
  {
    if present && ParseHex(hexOffset).Some? && ParseHex(hexOffset).value < |f| - 20 {
      PyWritesForward(f, ParseHex(hexOffset).value, SIGNATURE_PATCH);
    }
  }

  /** The store loop shared by both signature patches. */
  method WriteBytes(data: array<byte>, offset: nat, bytes: seq<byte>)
    requires offset + |bytes| <= data.Length
    modifies data
    ensures data[..] == Overwrite(old(data[..]), offset, bytes)
  {
    ghost var before := data[..];
    for i := 0 to |bytes|
      invariant forall j :: 0 <= j < data.Length ==>
        data[j] == (if offset <= j < offset + i then bytes[j - offset] else before[j])
    {
      data[offset + i] := bytes[i];
    }
    var after := Overwrite(before, offset, bytes);
    assert forall j :: 0 <= j < data.Length ==> data[..][j] == after[j];
  }

  method PatchSignatureVerification(data: array<byte>, present: bool, hexOffset: string)
    returns (outcome: Outcome, written: bool)
    modifies data
    ensures Run(outcome, data[..], written) == SignatureRun(old(data[..]), present, hexOffset)
  {
    if !present {
      return Returned(false), false;
    }
    var parsed := ParseHex(hexOffset);
    if parsed.None? {
      return Returned(false), false;
    }
    var offset := parsed.value;
    if offset >= data.Length - 20 || offset < 0 {
      return Returned(false), false;
    }
    WriteBytes(data, offset, SIGNATURE_PATCH);
    return Returned(true), true;
  }

  // ---------------------------------------------------------------- masked pattern search

  /** Position j of the pattern is a wildcard when a non-empty mask has '?' there. */
  predicate Wild(mask: Option<string>, j: nat)
  {
    mask.Some? && mask.value != [] && j < |mask.value| && mask.value[j] == '?'
  }

  /** A non-empty mask must be as long as the pattern, or the lookup `mask[j]` raises. */
  predicate MaskCovers(pattern: seq<byte>, mask: Option<string>)
  {
    mask.None? || mask.value == [] || |pattern| <= |mask.value|
  }

  predicate MaskedMatch(f: seq<byte>, pattern: seq<byte>, mask: Option<string>, i: nat)
    requires i + |pattern| <= |f|
  {
    forall j :: 0 <= j < |pattern| ==> Wild(mask, j) || f[i + j] == pattern[j]
  }

  /** find_pattern: every start in [0, len(data) - len(pattern)) where the pattern
      matches, in ascending order. The last possible start, len(data) - len(pattern), is
      never tried. */
  method FindPattern(data: array<byte>, pattern: seq<byte>, mask: Option<string>) returns (results: seq<int>)
    requires MaskCovers(pattern, mask)
    ensures forall k :: 0 <= k < |results| ==>
      0 <= results[k] < data.Length - |pattern| && MaskedMatch(data[..], pattern, mask, results[k])
    ensures forall k, l :: 0 <= k < l < |results| ==> results[k] < results[l]
    ensures forall i :: 0 <= i < data.Length - |pattern| && MaskedMatch(data[..], pattern, mask, i) ==>
      i in results
  {
    results := [];
    var stop := if data.Length - |pattern| > 0 then data.Length - |pattern| else 0;
    for i := 0 to stop
      invariant forall k :: 0 <= k < |results| ==>
        0 <= results[k] < i && MaskedMatch(data[..], pattern, mask, results[k])
      invariant forall k, l :: 0 <= k < l < |results| ==> results[k] < results[l]
      invariant forall i' :: 0 <= i' < i && MaskedMatch(data[..], pattern, mask, i') ==> i' in results
    {
      var matched := true;
      var j := 0;
      while j < |pattern|
        invariant 0 <= j <= |pattern|
        invariant forall j' :: 0 <= j' < j ==> Wild(mask, j') || data[i + j'] == pattern[j']
      {
        if mask.Some? && mask.value != [] && mask.value[j] == '?' {
          j := j + 1;
          continue;
        }
        if data[i + j] != pattern[j] {
          matched := false;
          break;
        }
        j := j + 1;
      }
      if matched {
        results := results + [i];
      }
    }
  }

  // ---------------------------------------------------------------- known signature patterns

  /** One entry of SIGNATURE_PATTERNS. The mask defaults to 'x' for every search byte;
      a pattern with a suffix has wildcards between the search bytes and the suffix. */
  datatype PatternInfo = PatternInfo(
    description: string,
    search: seq<byte>,
    searchMask: Option<string>,
    searchSuffix: Option<seq<byte>>,
    replace: seq<byte>)

  function Mask(p: PatternInfo): string
  {
    if p.searchMask.Some? then p.searchMask.value else seq(|p.search|, _ => 'x')
  }

  /** The prefix and the suffix fit in the mask's length, so every comparison stays
      inside the window searched. */
  predicate WellFormed(p: PatternInfo)
  {
    p.searchSuffix.Some? ==> |p.search| <= |Mask(p)| && |p.searchSuffix.value| <= |Mask(p)|
  }

  /** The patterns in the order the dict lists them. */
  const SIGNATURE_PATTERNS: seq<PatternInfo> := [
    PatternInfo(
      "Windows WoW 3.3.5a (12340)",
      [0x55, 0x8B, 0xEC, 0x8B, 0x45, 0x1C, 0x8B, 0x4D, 0x18, 0x8B, 0x55, 0x14, 0x53, 0x68],
      Some("xxxxxxxxxxxxxx????"),
      None,
      [0x55, 0x8B, 0xEC, 0xB9, 0x05, 0x00, 0x00, 0x00, 0x8B, 0x45, 0x0C, 0x89, 0x08, 0xB8,
       0x01, 0x00, 0x00, 0x00, 0x5D, 0xC2, 0x18, 0x00]),
    PatternInfo(
      "OSX WoW (15689)",
      [0xC7, 0x44, 0x24, 0x18],
      Some("xxxx????xxxxxxxxxx"),
      Some([0x8B, 0x45, 0x1C, 0x89, 0x44, 0x24, 0x14, 0x8B, 0x45, 0x18]),
      [0xB9, 0x05, 0x00, 0x00, 0x00, 0x8B, 0x55, 0x0C, 0x89, 0x0A, 0xB8, 0x01, 0x00, 0x00,
       0x00, 0xC9, 0xC3])
  ]

  /** Whether the pattern matches at i: with a suffix, the search bytes at i and the suffix
      bytes after the wildcards; without one, every 'x' position of the mask that has a
      search byte. */
  predicate SignatureAt(f: seq<byte>, p: PatternInfo, i: nat)
    requires WellFormed(p) && i + |Mask(p)| <= |f|
  {
    if p.searchSuffix.Some? then
      var suffix := p.searchSuffix.value;
      var wildcards := |Mask(p)| - |p.search| - |suffix|;
      var suffixStart := |p.search| + wildcards;
      && (forall j :: 0 <= j < |p.search| ==> f[i + j] == p.search[j])
      && (forall j :: 0 <= j < |suffix| ==> f[i + suffixStart + j] == suffix[j])
    else
      forall j :: 0 <= j < |Mask(p)| && Mask(p)[j] == 'x' && j < |p.search| ==> f[i + j] == p.search[j]
  }

  /** The first start from i on, below len(data) - len(mask), where the pattern matches,
      or -1. */
  function FirstSignature(f: seq<byte>, p: PatternInfo, i: nat): (r: int)
    requires WellFormed(p)
    ensures r == -1 || i <= r < |f| - |Mask(p)|
    decreases |f| - |Mask(p)| - i
  {
    if i >= |f| - |Mask(p)| then -1
    else if SignatureAt(f, p, i) then i
    else FirstSignature(f, p, i + 1)
  }

  /** find_signature_pattern's result. */
  function SignatureOffset(f: seq<byte>, p: PatternInfo): (r: int)
    requires WellFormed(p)
  {
    FirstSignature(f, p, 0)
  }

  /** The offset found is the least matching start, and -1 means no start matches. */
  lemma {:induction false} FirstSignatureLeast(f: seq<byte>, p: PatternInfo, i: nat)
    requires WellFormed(p)
    ensures var r := FirstSignature(f, p, i);
      && (r == -1 <==> forall k :: i <= k < |f| - |Mask(p)| ==> !SignatureAt(f, p, k))
      && (r != -1 ==> SignatureAt(f, p, r) && forall k :: i <= k < r ==> !SignatureAt(f, p, k))
    decreases |f| - |Mask(p)| - i
  {
    if i < |f| - |Mask(p)| && !SignatureAt(f, p, i) {
      FirstSignatureLeast(f, p, i + 1);
    }
  }

  /** find_signature_pattern: one loop per kind of pattern. */
  method FindSignaturePattern(data: array<byte>, p: PatternInfo) returns (offset: int)
    requires WellFormed(p)
    ensures offset == SignatureOffset(data[..], p)
  {
    if p.searchSuffix.Some? {
      offset := FindWithSuffix(data, p);
    } else {
      offset := FindMasked(data, p);
    }
  }

  /** The loop for a pattern with a suffix: the search bytes first, then the suffix after
      the wildcards. */
  method FindWithSuffix(data: array<byte>, p: PatternInfo) returns (offset: int)
    requires WellFormed(p) && p.searchSuffix.Some?
    ensures offset == SignatureOffset(data[..], p)
  {
    var mask := Mask(p);
    var prefixLen := |p.search|;
    var suffix := p.searchSuffix.value;
    var wildcards := |mask| - prefixLen - |suffix|;
    var stop := if data.Length - |mask| > 0 then data.Length - |mask| else 0;
    for i := 0 to stop
      invariant FirstSignature(data[..], p, 0) == FirstSignature(data[..], p, i)
    {
      var prefixMatch := true;
      for j := 0 to prefixLen
        invariant forall j' :: 0 <= j' < j ==> data[i + j'] == p.search[j']
      {
        if data[i + j] != p.search[j] {
          prefixMatch := false;
          break;
        }
      }
      if !prefixMatch {
        continue;
      }
      var suffixStart := prefixLen + wildcards;
      var suffixMatch := true;
      for j := 0 to |suffix|
        invariant forall j' :: 0 <= j' < j ==> data[i + suffixStart + j'] == suffix[j']
      {
        if data[i + suffixStart + j] != suffix[j] {
          suffixMatch := false;
          break;
        }
      }
      if suffixMatch {
        return i;
      }
    }
    return -1;
  }

  /** The loop for a pattern without a suffix: every 'x' of the mask that has a search
      byte. */
  method FindMasked(data: array<byte>, p: PatternInfo) returns (offset: int)
    requires WellFormed(p) && p.searchSuffix.None?
    ensures offset == SignatureOffset(data[..], p)
  {
    var mask := Mask(p);
    var stop := if data.Length - |mask| > 0 then data.Length - |mask| else 0;
    for i := 0 to stop
      invariant FirstSignature(data[..], p, 0) == FirstSignature(data[..], p, i)
    {
      var matched := true;
      for j := 0 to |mask|
        invariant forall j' :: 0 <= j' < j && mask[j'] == 'x' && j' < |p.search| ==>
          data[i + j'] == p.search[j']
      {
        if mask[j] == 'x' {
          if j < |p.search| && data[i + j] != p.search[j] {
            matched := false;
            break;
          }
        }
      }
      if matched {
        return i;
      }
    }
    return -1;
  }

  // ---------------------------------------------------------------- automatic signature patch

  /** The first pattern, from index k on in dict order, that find_signature_pattern finds,
      with the offset found. */
  function FirstFound(f: seq<byte>, k: nat): (r: Option<(nat, int)>)
    requires k <= |SIGNATURE_PATTERNS|
    ensures r.Some? ==>
      && k <= r.value.0 < |SIGNATURE_PATTERNS|
      && r.value.1 == SignatureOffset(f, SIGNATURE_PATTERNS[r.value.0]) != -1
      && forall k' :: k <= k' < r.value.0 ==> SignatureOffset(f, SIGNATURE_PATTERNS[k']) == -1
    ensures r.None? ==>
      forall k' :: k <= k' < |SIGNATURE_PATTERNS| ==> SignatureOffset(f, SIGNATURE_PATTERNS[k']) == -1
    decreases |SIGNATURE_PATTERNS| - k
  {
    if k == |SIGNATURE_PATTERNS| then None
    else if SignatureOffset(f, SIGNATURE_PATTERNS[k]) != -1 then Some((k, SignatureOffset(f, SIGNATURE_PATTERNS[k])))
    else FirstFound(f, k + 1)
  }

  /** Python slicing f[a:b] from a non-negative start: both ends are clipped to the length. */
  function PySlice(f: seq<byte>, a: nat, b: nat): seq<byte>
  {
    var lo := if a < |f| then a else |f|;
    var hi := if b < lo then lo else if b < |f| then b else |f|;
    f[lo..hi]
  }

  /** patch_signature_auto: a missing file gives False; get_current_build raises on a
      short executable; no pattern found gives False; replacement bytes already in place
      give True without writing; a replacement running past the end raises IndexError in
      the store loop, before write_file; otherwise the replacement is stored and written. */
  function SignatureAutoRun(f: seq<byte>, present: bool): (r: Run)
    ensures Keeps(f, r)
  {
    if !present then Run(Returned(false), f, false)
    else if |f| < BUILD_NUMBER_OFFSET + 2 then Run(IndexError, f, false)
    else match FirstFound(f, 0)
      case None => Run(Returned(false), f, false)
      case Some((k, offset)) =>
        var replace := SIGNATURE_PATTERNS[k].replace;
        if PySlice(f, offset, offset + |replace|) == replace then Run(Returned(true), f, false)
        else if offset + |replace| > |f| then Run(IndexError, f, false)
        else Run(Returned(true), Overwrite(f, offset, replace), true)
  }

  /** g is f with `replace` stored at offset and nothing else changed. */
  predicate PatchedAt(f: seq<byte>, g: seq<byte>, offset: int, replace: seq<byte>)
  {
    && |g| == |f| && 0 <= offset && offset + |replace| <= |f|
    && g[offset..offset + |replace|] == replace
    && forall j :: 0 <= j < |f| && !(offset <= j < offset + |replace|) ==> g[j] == f[j]
  }

  /** On True the replacement bytes of the first pattern found are at the offset found
      and nothing else differs; the file is written exactly when they were not already
      there and fit before the end. */
  lemma SignatureAutoPatches(f: seq<byte>, present: bool)
    ensures var r := SignatureAutoRun(f, present);
      r.outcome == Returned(true) ==>
        && FirstFound(f, 0).Some?
        && PatchedAt(f, r.file, FirstFound(f, 0).value.1, SIGNATURE_PATTERNS[FirstFound(f, 0).value.0].replace)
    ensures var r := SignatureAutoRun(f, present);
      r.written <==>
        && present && BUILD_NUMBER_OFFSET + 2 <= |f| && FirstFound(f, 0).Some?
        && var replace := SIGNATURE_PATTERNS[FirstFound(f, 0).value.0].replace;
           var offset := FirstFound(f, 0).value.1;
           offset + |replace| <= |f| && f[offset..offset + |replace|] != replace
  {
    if present && BUILD_NUMBER_OFFSET + 2 <= |f| && FirstFound(f, 0).Some? {
      var (k, offset) := FirstFound(f, 0).value;
      var replace := SIGNATURE_PATTERNS[k].replace;
      if offset + |replace| <= |f| {
        assert PySlice(f, offset, offset + |replace|) == f[offset..offset + |replace|];
      } else {
        assert |PySlice(f, offset, offset + |replace|)| < |replace|;
      }
    }
  }

  method PatchSignatureAuto(data: array<byte>, present: bool) returns (outcome: Outcome, written: bool)
    modifies data
    ensures Run(outcome, data[..], written) == SignatureAutoRun(old(data[..]), present)
  {
    if !present {
      return Returned(false), false;
    }
    if data.Length < BUILD_NUMBER_OFFSET + 2 {
      return IndexError, false;
    }
    ghost var f := data[..];
    var foundIndex, foundOffset := 0, -1;
    var k := 0;
    while k < |SIGNATURE_PATTERNS|
      invariant 0 <= k <= |SIGNATURE_PATTERNS| && foundOffset == -1 && data[..] == f
      invariant FirstFound(f, 0) == FirstFound(f, k)
    {
      var offset := FindSignaturePattern(data, SIGNATURE_PATTERNS[k]);
      if offset != -1 {
        foundIndex, foundOffset := k, offset;
        break;
      }
      k := k + 1;
    }
    if foundOffset == -1 {
      return Returned(false), false;
    }
    assert FirstFound(f, 0) == Some((foundIndex, foundOffset));
    var replace := SIGNATURE_PATTERNS[foundIndex].replace;
    if PySlice(data[..], foundOffset, foundOffset + |replace|) == replace {
      assert SignatureAutoRun(f, present) == Run(Returned(true), f, false);
      return Returned(true), false;
    }
    if foundOffset + |replace| > data.Length {
      assert SignatureAutoRun(f, present) == Run(IndexError, f, false);
      return IndexError, false;
    }
    assert SignatureAutoRun(f, present) == Run(Returned(true), Overwrite(f, foundOffset, replace), true);
    WriteBytes(data, foundOffset, replace);
    return Returned(true), true;
  }

  // ---------------------------------------------------------------- function prologues

  /** What the backward scan reports at i: i for push ebp followed by mov ebp, esp in
      either encoding; i + 1 for a push ebp after int 3 padding or after a ret. */
  function Prologue(f: seq<byte>, i: nat): (r: Option<nat>)
    requires i < |f|
  {
    if f[i] == 0x55 && i + 2 < |f| && ((f[i + 1] == 0x8B && f[i + 2] == 0xEC) || (f[i + 1] == 0x89 && f[i + 2] == 0xE5)) then Some(i)
    else if f[i] == 0xCC && i + 1 < |f| && f[i + 1] == 0x55 then Some(i + 1)
    else if (f[i] == 0xC3 || f[i] == 0xC2) && i + 1 < |f| && f[i + 1] == 0x55 then Some(i + 1)
    else None
  }

  /** find_function_start: scans i = offset, offset - 1, ... down to, but not including,
      max(0, offset - max_search), and returns the first report. */
  method FindFunctionStart(data: array<byte>, offset: int, maxSearch: int) returns (start: Option<nat>)
    requires offset < data.Length
    ensures start.Some? ==>
      start.value < data.Length && data[start.value] == 0x55 &&
      offset - maxSearch < start.value <= offset + 1
    ensures start.Some? ==> exists i ::
      0 < i <= offset && offset - maxSearch < i && Prologue(data[..], i) == start &&
      forall i' :: i < i' <= offset ==> Prologue(data[..], i').None?
    ensures start.None? ==>
      forall i :: 0 < i <= offset && offset - maxSearch < i ==> Prologue(data[..], i).None?
  {
    var stop := if offset - maxSearch > 0 then offset - maxSearch else 0;
    var i := offset;
    while i > stop
      invariant i <= offset && (stop <= i || i == offset)
      invariant forall i' :: i < i' <= offset ==> Prologue(data[..], i').None?
    {
      assert Prologue(data[..], i) == Prologue(data[..], i);
      if data[i] == 0x55 && i + 2 < data.Length {
        if data[i + 1] == 0x8B && data[i + 2] == 0xEC {
          return Some(i);
        }
        if data[i + 1] == 0x89 && data[i + 2] == 0xE5 {
          return Some(i);
        }
      }
      if data[i] == 0xCC && i + 1 < data.Length && data[i + 1] == 0x55 {
        return Some(i + 1);
      }
      if (data[i] == 0xC3 || data[i] == 0xC2) && i + 1 < data.Length && data[i + 1] == 0x55 {
        return Some(i + 1);
      }
      i := i - 1;
    }
    return None;
  }

  // ---------------------------------------------------------------- references to an address

  /** The instruction kinds find_xrefs_to_address reports; its text labels carry the same
      register or displacement. */
  datatype XrefKind = Push | MovReg(register: string) | MovEsp(displacement: byte) | MovEbp(displacement: byte) | MovMem

  const REGISTERS: seq<string> := ["eax", "ecx", "edx", "ebx", "esp", "ebp", "esi", "edi"]

  /** The instruction at i, if it loads the four target bytes: push imm32, mov reg, imm32,
      or mov to [esp+disp8], [ebp+disp8] or an absolute address. */
  function XrefAt(f: seq<byte>, target: seq<byte>, i: nat): Option<XrefKind>
    requires i + 5 < |f|
  {
    if f[i] == 0x68 && f[i + 1..i + 5] == target then Some(Push)
    else if 0xB8 <= f[i] <= 0xBF && f[i + 1..i + 5] == target then Some(MovReg(REGISTERS[f[i] - 0xB8]))
    else if f[i] == 0xC7 && i + 7 < |f| then
      if f[i + 1] == 0x44 && f[i + 2] == 0x24 then
        if f[i + 4..i + 8] == target then Some(MovEsp(f[i + 3])) else None
      else if f[i + 1] == 0x45 then
        if f[i + 3..i + 7] == target then Some(MovEbp(f[i + 2])) else None
      else if f[i + 1] == 0x05 then
        if PySlice(f, i + 6, i + 10) == target then Some(MovMem) else None
      else None
    else None
  }

  function Min(a: int, b: int): int { if a < b then a else b }

  /** find_xrefs_to_address: every i in [code_start, min(code_end, len(data) - 5)) with a
      reference to the little-endian address, in ascending order. */
  method FindXrefsToAddress(data: array<byte>, targetVa: u32, codeStart: nat, codeEnd: int)
    returns (results: seq<(nat, XrefKind)>)
    ensures forall k :: 0 <= k < |results| ==>
      && codeStart <= results[k].0 < Min(codeEnd, data.Length - 5)
      && XrefAt(data[..], LE32(targetVa), results[k].0) == Some(results[k].1)
    ensures forall k, l :: 0 <= k < l < |results| ==> results[k].0 < results[l].0
    ensures forall i :: codeStart <= i < Min(codeEnd, data.Length - 5) && XrefAt(data[..], LE32(targetVa), i).Some? ==>
      (i, XrefAt(data[..], LE32(targetVa), i).value) in results
  {
    results := [];
    var target := LE32(targetVa);
    var searchEnd := Min(codeEnd, data.Length - 5);
    var i := codeStart;
    while i < searchEnd
      invariant codeStart <= i
      invariant forall k :: 0 <= k < |results| ==>
        && codeStart <= results[k].0 < i && results[k].0 < searchEnd
        && XrefAt(data[..], target, results[k].0) == Some(results[k].1)
      invariant forall k, l :: 0 <= k < l < |results| ==> results[k].0 < results[l].0
      invariant forall i' :: codeStart <= i' < i && i' < searchEnd && XrefAt(data[..], target, i').Some? ==>
        (i', XrefAt(data[..], target, i').value) in results
    {
      var found: Option<XrefKind> := None;
      if data[i] == 0x68 && data[i + 1..i + 5] == target {
        found := Some(Push);
      } else if 0xB8 <= data[i] <= 0xBF && data[i + 1..i + 5] == target {
        found := Some(MovReg(REGISTERS[data[i] - 0xB8]));
      } else if data[i] == 0xC7 && i + 7 < data.Length {
        if data[i + 1] == 0x44 && data[i + 2] == 0x24 {
          if data[i + 4..i + 8] == target {
            found := Some(MovEsp(data[i + 3]));
          }
        } else if data[i + 1] == 0x45 {
          if data[i + 3..i + 7] == target {
            found := Some(MovEbp(data[i + 2]));
          }
        } else if data[i + 1] == 0x05 {
          if PySlice(data[..], i + 6, i + 10) == target {
            found := Some(MovMem);
          }
        }
      }
      assert found == XrefAt(data[..], target, i);
      if found.Some? {
        results := results + [(i, found.value)];
      }
      i := i + 1;
    }
  }
}
