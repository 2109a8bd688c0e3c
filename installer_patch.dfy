/** The in-place edits the patch installer makes to the client executable (installer.c): the
    16-bit build number and the ASCII build strings shown in the user interface. The
    executable is an array of bytes; whether CreateFileA and WriteFile succeed is decided
    outside the program and comes in as a flag. */
module InstallerPatch {
  import opened Bytes
  import opened Text

  /** Where the client keeps its build number, as a little-endian 16-bit value. */
  const BUILD_NUMBER_OFFSET: u32 := 0x4C99F0

  /** The four places where the build number is shown as text. */
  const DISPLAY_STRING_OFFSETS: seq<u32> := [0x005F3A00, 0x005E1231, 0x0062F3EC, 0x00636F58]

  /** The size of the `currentStr` buffer PatchDisplayString reads into. */
  const DISPLAY_BUFFER: nat := 16

  // ---------------------------------------------------------------- file access

  /** SetFilePointer with FILE_BEGIN and no high word reads the distance as a signed 32-bit
      value, so an offset at or above 2^31 is a negative position and the seek fails. */
  predicate SeekOk(offset: u32)
  {
    offset < 0x8000_0000
  }

  /** Seeking to offset and reading n bytes delivers all n of them; past the end of the
      file ReadFile delivers fewer. */
  predicate CanRead(f: seq<byte>, offset: u32, n: nat)
  {
    SeekOk(offset) && (n == 0 || offset + n <= |f|)
  }

  /** The n bytes such a read delivers. */
  function Window(f: seq<byte>, offset: u32, n: nat): (w: seq<byte>)
    requires CanRead(f, offset, n)
    ensures |w| == n
  {
    if n == 0 then [] else f[offset..offset + n]
  }

  // ---------------------------------------------------------------- build number

  /** The outcome of PatchBuildNumber and the file it leaves: nothing is written when the
      file cannot be opened, the offset cannot be reached or two bytes cannot be read there,
      or when the value found differs from oldBuild but already equals newBuild; otherwise
      the two bytes are overwritten with newBuild, whatever value was found, and the result
      is whether reading them back gives newBuild. */
  function BuildPatch(f: seq<byte>, offset: u32, oldBuild: u16, newBuild: u16, openFails: bool, writeFails: bool)
    : (r: (bool, seq<byte>))
    ensures |r.1| == |f|
    ensures !r.0 ==> r.1 == f
    ensures r.0 <==> !openFails && CanRead(f, offset, 2)
                     && ((ReadLE16(f, offset) != oldBuild && ReadLE16(f, offset) == newBuild) || !writeFails)
    ensures r.0 ==> ReadLE16(r.1, offset) == newBuild
    ensures forall j :: 0 <= j < |f| && j != offset && j != offset + 1 ==> r.1[j] == f[j]
    ensures CanRead(f, offset, 2) && ReadLE16(f, offset) == newBuild && oldBuild != newBuild ==> r.1 == f
  {
    if openFails || !CanRead(f, offset, 2) then (false, f)
    else
      var current := ReadLE16(f, offset);
      if current != oldBuild && current == newBuild then (true, f)
      else if writeFails then (false, f)
      else
        var g := Overwrite(f, offset, [newBuild % 256, newBuild / 256]);
        (ReadLE16(g, offset) == newBuild, g)
  }

  /** PatchBuildNumber on the executable's bytes. */
  method PatchBuildNumber(exe: array<byte>, offset: u32, oldBuild: u16, newBuild: u16, openFails: bool, writeFails: bool)
    returns (ok: bool)
    modifies exe
    ensures (ok, exe[..]) == BuildPatch(old(exe[..]), offset, oldBuild, newBuild, openFails, writeFails)
  {
    if openFails {
      return false;
    }
    if !SeekOk(offset) {
      return false;
    }
    if offset + 2 > exe.Length {
      return false;
    }
    var currentBuild := exe[offset] as int + 256 * (exe[offset + 1] as int);
    if currentBuild != oldBuild && currentBuild == newBuild {
      return true;
    }
    if writeFails {
      return false;
    }
    ghost var before := exe[..];
    exe[offset] := newBuild % 256;
    exe[offset + 1] := newBuild / 256;
    assert exe[..] == Overwrite(before, offset, [newBuild % 256, newBuild / 256]);
    var verifyBuild := exe[offset] as int + 256 * (exe[offset + 1] as int);
    ok := verifyBuild == newBuild;
  }

  /** Running the installer again after a successful patch finds newBuild in place: it
      succeeds and changes nothing (when the two builds are equal it rewrites the same two
      bytes, so then the write must go through). */
  lemma {:induction false} BuildPatchIdempotent(f: seq<byte>, offset: u32, oldBuild: u16, newBuild: u16,
                                                openFails: bool, writeFails: bool, writeFailsAgain: bool)
    requires BuildPatch(f, offset, oldBuild, newBuild, openFails, writeFails).0
    requires oldBuild != newBuild || !writeFailsAgain
    ensures var g := BuildPatch(f, offset, oldBuild, newBuild, openFails, writeFails).1;
      BuildPatch(g, offset, oldBuild, newBuild, false, writeFailsAgain) == (true, g)
  {
    var g := BuildPatch(f, offset, oldBuild, newBuild, openFails, writeFails).1;
    if oldBuild == newBuild {
      ModUnique(ReadLE16(g, offset), 256, g[offset + 1], g[offset]);
      var h := Overwrite(g, offset, [newBuild % 256, newBuild / 256]);
      assert h == g by {
        forall j | 0 <= j < |g| ensures h[j] == g[j] {
          if j == offset || j == offset + 1 {
            assert h[offset..offset + 2][j - offset] == h[j];
          }
        }
      }
    }
  }

  // ---------------------------------------------------------------- display strings

  /** The outcome of PatchDisplayString and the file it leaves. The strings must have equal
      lengths; nothing is written when the file cannot be opened or len bytes cannot be read
      at offset, or when they already spell newStr; otherwise newStr is written there, and
      a mismatch with oldStr changes nothing about that. */
  function DisplayPatch(f: seq<byte>, offset: u32, oldStr: seq<byte>, newStr: seq<byte>, openFails: bool, writeFails: bool)
    : (r: (bool, seq<byte>))
    requires |oldStr| <= DISPLAY_BUFFER || |newStr| != |oldStr|
    ensures |r.1| == |f|
    ensures !r.0 ==> r.1 == f
    ensures r.0 <==> |newStr| == |oldStr| && !openFails && CanRead(f, offset, |newStr|)
                     && (Window(f, offset, |newStr|) == newStr || !writeFails)
    ensures r.0 && |newStr| > 0 ==> offset + |newStr| <= |f| && r.1[offset..offset + |newStr|] == newStr
    ensures forall j :: 0 <= j < |f| && !(offset <= j < offset + |newStr|) ==> r.1[j] == f[j]
    ensures CanRead(f, offset, |newStr|) && Window(f, offset, |newStr|) == newStr ==> r.1 == f
  {
    var len := |oldStr|;
    if |newStr| != len || openFails || !CanRead(f, offset, len) then (false, f)
    else if Window(f, offset, len) == newStr then (true, f)
    else if writeFails then (false, f)
    else (true, Overwrite(f, offset, newStr))
  }

  /** Only the length of oldStr matters: finding something else than oldStr is a warning. */
  lemma DisplayPatchIgnoresOldString(f: seq<byte>, offset: u32, oldStr: seq<byte>, otherOld: seq<byte>,
                                     newStr: seq<byte>, openFails: bool, writeFails: bool)
    requires |oldStr| <= DISPLAY_BUFFER && |otherOld| == |oldStr|
    ensures DisplayPatch(f, offset, oldStr, newStr, openFails, writeFails)
         == DisplayPatch(f, offset, otherOld, newStr, openFails, writeFails)
  {
  }

  /** PatchDisplayString on the executable's bytes. */
  method PatchDisplayString(exe: array<byte>, offset: u32, oldStr: seq<byte>, newStr: seq<byte>,
                            openFails: bool, writeFails: bool)
    returns (ok: bool)
    requires |oldStr| <= DISPLAY_BUFFER || |newStr| != |oldStr|
    modifies exe
    ensures (ok, exe[..]) == DisplayPatch(old(exe[..]), offset, oldStr, newStr, openFails, writeFails)
  {
    var len := |oldStr|;
    if |newStr| != len {
      return false;
    }
    if openFails {
      return false;
    }
    if !SeekOk(offset) {
      return false;
    }
    if len > 0 && offset + len > exe.Length {
      return false;
    }
    var currentStr := if len == 0 then [] else exe[offset..offset + len];
    if currentStr == newStr {
      return true;
    }
    if writeFails {
      return false;
    }
    ghost var before := exe[..];
    forall i | 0 <= i < len {
      exe[offset + i] := newStr[i];
    }
    assert exe[..] == Overwrite(before, offset, newStr);
    ok := true;
  }

  /** The ASCII bytes of a string whose characters all fit in a byte. */
  function Ascii(s: string): (r: seq<byte>)
    requires forall i :: 0 <= i < |s| ==> s[i] as int < 256
    ensures |r| == |s|
    ensures forall i :: 0 <= i < |s| ==> r[i] == s[i] as int
  {
    if s == [] then [] else [s[0] as int] + Ascii(s[1..])
  }

  /** snprintf(buf, 16, "%d", build) as bytes. */
  function BuildString(build: u16): (r: seq<byte>)
    ensures 1 <= |r| <= 5
    ensures forall i :: 0 <= i < |r| ==> '0' as int <= r[i] <= '9' as int
  {
    assert Pow10(5) == 100000;
    DecimalLength(build, 5);
    Ascii(NatToDecimal(build))
  }

  /** The display patches applied one after the other: how many succeeded and the file they
      leave. */
  function DisplayPatches(f: seq<byte>, offsets: seq<u32>, oldStr: seq<byte>, newStr: seq<byte>,
                          openFails: seq<bool>, writeFails: seq<bool>)
    : (r: (nat, seq<byte>))
    requires |openFails| == |offsets| && |writeFails| == |offsets|
    requires |oldStr| <= DISPLAY_BUFFER || |newStr| != |oldStr|
    ensures r.0 <= |offsets| && |r.1| == |f|
    decreases |offsets|
  {
    if offsets == [] then (0, f)
    else
      var first := DisplayPatch(f, offsets[0], oldStr, newStr, openFails[0], writeFails[0]);
      var rest := DisplayPatches(first.1, offsets[1..], oldStr, newStr, openFails[1..], writeFails[1..]);
      ((if first.0 then 1 else 0) + rest.0, rest.1)
  }

  /** When no patch succeeds the file is unchanged, and strings of different lengths
      make every patch fail. */
  lemma {:induction false} DisplayPatchesNone(f: seq<byte>, offsets: seq<u32>, oldStr: seq<byte>, newStr: seq<byte>,
                                              openFails: seq<bool>, writeFails: seq<bool>)
    requires |openFails| == |offsets| && |writeFails| == |offsets|
    requires |oldStr| <= DISPLAY_BUFFER || |newStr| != |oldStr|
    ensures var r := DisplayPatches(f, offsets, oldStr, newStr, openFails, writeFails);
      (r.0 == 0 ==> r.1 == f) && (|newStr| != |oldStr| ==> r == (0, f))
    decreases |offsets|
  {
    if offsets != [] {
      var first := DisplayPatch(f, offsets[0], oldStr, newStr, openFails[0], writeFails[0]);
      DisplayPatchesNone(first.1, offsets[1..], oldStr, newStr, openFails[1..], writeFails[1..]);
    }
  }

  /** A byte outside every window keeps its value. */
  lemma {:induction false} DisplayPatchesFrame(f: seq<byte>, offsets: seq<u32>, oldStr: seq<byte>, newStr: seq<byte>,
                                               openFails: seq<bool>, writeFails: seq<bool>, j: nat)
    requires |openFails| == |offsets| && |writeFails| == |offsets|
    requires |oldStr| <= DISPLAY_BUFFER || |newStr| != |oldStr|
    requires j < |f| && forall i :: 0 <= i < |offsets| ==> !(offsets[i] <= j < offsets[i] + |newStr|)
    ensures DisplayPatches(f, offsets, oldStr, newStr, openFails, writeFails).1[j] == f[j]
    decreases |offsets|
  {
    if offsets != [] {
      var first := DisplayPatch(f, offsets[0], oldStr, newStr, openFails[0], writeFails[0]);
      assert !(offsets[0] <= j < offsets[0] + |newStr|);
      forall i | 0 <= i < |offsets[1..]| ensures !(offsets[1..][i] <= j < offsets[1..][i] + |newStr|) {
        assert offsets[1..][i] == offsets[i + 1];
      }
      DisplayPatchesFrame(first.1, offsets[1..], oldStr, newStr, openFails[1..], writeFails[1..], j);
    }
  }

  /** PatchAllDisplayStrings: every display offset is patched in turn, and the result is
      whether at least one succeeded. */
  method PatchAllDisplayStrings(exe: array<byte>, oldBuild: u16, newBuild: u16, openFails: seq<bool>, writeFails: seq<bool>)
    returns (ok: bool)
    requires |openFails| == |DISPLAY_STRING_OFFSETS| && |writeFails| == |DISPLAY_STRING_OFFSETS|
    modifies exe
    ensures var r := DisplayPatches(old(exe[..]), DISPLAY_STRING_OFFSETS, BuildString(oldBuild), BuildString(newBuild),
                                    openFails, writeFails);
      ok == (r.0 > 0) && exe[..] == r.1
  {
    var oldStr := BuildString(oldBuild);
    var newStr := BuildString(newBuild);
    ghost var start := exe[..];
    var successCount := 0;
    var i := 0;
    while i < |DISPLAY_STRING_OFFSETS|
      invariant i <= |DISPLAY_STRING_OFFSETS|
      invariant Remaining(exe[..], i, successCount, oldStr, newStr, openFails, writeFails)
             == DisplayPatches(start, DISPLAY_STRING_OFFSETS, oldStr, newStr, openFails, writeFails)
    {
      ghost var here := exe[..];
      var patched := PatchDisplayString(exe, DISPLAY_STRING_OFFSETS[i], oldStr, newStr, openFails[i], writeFails[i]);
      RemainingStep(here, i, successCount, oldStr, newStr, openFails, writeFails);
      if patched {
        successCount := successCount + 1;
      }
      i := i + 1;
    }
    assert Remaining(exe[..], i, successCount, oldStr, newStr, openFails, writeFails) == (successCount, exe[..]);
    ok := successCount > 0;
  }

  /** What is left of PatchAllDisplayStrings once the first i offsets are done, with count
      successes so far and the file in state f. */
  ghost function Remaining(f: seq<byte>, i: nat, count: nat, oldStr: seq<byte>, newStr: seq<byte>,
                        openFails: seq<bool>, writeFails: seq<bool>): (nat, seq<byte>)
    requires i <= |DISPLAY_STRING_OFFSETS|
    requires |openFails| == |DISPLAY_STRING_OFFSETS| && |writeFails| == |DISPLAY_STRING_OFFSETS|
    requires |oldStr| <= DISPLAY_BUFFER || |newStr| != |oldStr|
  {
    var r := DisplayPatches(f, DISPLAY_STRING_OFFSETS[i..], oldStr, newStr, openFails[i..], writeFails[i..]);
    (count + r.0, r.1)
  }

  lemma RemainingStep(f: seq<byte>, i: nat, count: nat, oldStr: seq<byte>, newStr: seq<byte>,
                   openFails: seq<bool>, writeFails: seq<bool>)
    requires i < |DISPLAY_STRING_OFFSETS|
    requires |openFails| == |DISPLAY_STRING_OFFSETS| && |writeFails| == |DISPLAY_STRING_OFFSETS|
    requires |oldStr| <= DISPLAY_BUFFER || |newStr| != |oldStr|
    ensures var step := DisplayPatch(f, DISPLAY_STRING_OFFSETS[i], oldStr, newStr, openFails[i], writeFails[i]);
      Remaining(f, i, count, oldStr, newStr, openFails, writeFails)
      == Remaining(step.1, i + 1, count + (if step.0 then 1 else 0), oldStr, newStr, openFails, writeFails)
  {
    DisplayPatchesStep(f, DISPLAY_STRING_OFFSETS, i, oldStr, newStr, openFails, writeFails);
  }

  /** Unfolding DisplayPatches at position i of the offsets. */
  lemma DisplayPatchesStep(f: seq<byte>, offsets: seq<u32>, i: nat, oldStr: seq<byte>, newStr: seq<byte>,
                           openFails: seq<bool>, writeFails: seq<bool>)
    requires i < |offsets| && |openFails| == |offsets| && |writeFails| == |offsets|
    requires |oldStr| <= DISPLAY_BUFFER || |newStr| != |oldStr|
    ensures var step := DisplayPatch(f, offsets[i], oldStr, newStr, openFails[i], writeFails[i]);
      var rest := DisplayPatches(step.1, offsets[i + 1..], oldStr, newStr, openFails[i + 1..], writeFails[i + 1..]);
      DisplayPatches(f, offsets[i..], oldStr, newStr, openFails[i..], writeFails[i..])
      == ((if step.0 then 1 else 0) + rest.0, rest.1)
  {
    assert offsets[i..][0] == offsets[i] && offsets[i..][1..] == offsets[i + 1..];
    assert openFails[i..][0] == openFails[i] && openFails[i..][1..] == openFails[i + 1..];
    assert writeFails[i..][0] == writeFails[i] && writeFails[i..][1..] == writeFails[i + 1..];
  }

  /** Offsets whose windows of n bytes do not overlap. */
  predicate Apart(offsets: seq<u32>, n: nat)
  {
    forall i, j :: 0 <= i < j < |offsets| ==> offsets[i] + n <= offsets[j] || offsets[j] + n <= offsets[i]
  }

  /** Every open and write succeeds and every window lies in the file. */
  predicate AllClear(f: seq<byte>, offsets: seq<u32>, n: nat, openFails: seq<bool>, writeFails: seq<bool>)
    requires |openFails| == |offsets| && |writeFails| == |offsets|
  {
    forall i :: 0 <= i < |offsets| ==>
      !openFails[i] && !writeFails[i] && SeekOk(offsets[i]) && offsets[i] + n <= |f|
  }

  /** Every window holds s. */
  predicate AllHold(g: seq<byte>, offsets: seq<u32>, s: seq<byte>)
  {
    forall i :: 0 <= i < |offsets| ==> offsets[i] + |s| <= |g| && g[offsets[i]..offsets[i] + |s|] == s
  }

  /** When every open and write succeeds and every window lies in the file, all patches
      succeed and every window ends up holding the new string. */
  lemma {:induction false} DisplayPatchesAll(f: seq<byte>, offsets: seq<u32>, oldStr: seq<byte>, newStr: seq<byte>,
                                             openFails: seq<bool>, writeFails: seq<bool>)
    requires |openFails| == |offsets| && |writeFails| == |offsets|
    requires 1 <= |oldStr| <= DISPLAY_BUFFER && |newStr| == |oldStr|
    requires Apart(offsets, |newStr|) && AllClear(f, offsets, |newStr|, openFails, writeFails)
    ensures var r := DisplayPatches(f, offsets, oldStr, newStr, openFails, writeFails);
      r.0 == |offsets| && AllHold(r.1, offsets, newStr)
    decreases |offsets|
  {
    if offsets != [] {
      var n := |newStr|;
      assert !openFails[0] && !writeFails[0] && SeekOk(offsets[0]) && offsets[0] + n <= |f|;
      var first := DisplayPatch(f, offsets[0], oldStr, newStr, openFails[0], writeFails[0]);
      var g := first.1;
      assert first.0 && g[offsets[0]..offsets[0] + n] == newStr;
      var tail := offsets[1..];
      ApartTail(offsets, n);
      assert AllClear(g, tail, n, openFails[1..], writeFails[1..]) by {
        forall i | 0 <= i < |tail|
          ensures !openFails[1..][i] && !writeFails[1..][i] && SeekOk(tail[i]) && tail[i] + n <= |g|
        {
          assert tail[i] == offsets[i + 1];
          assert openFails[1..][i] == openFails[i + 1] && writeFails[1..][i] == writeFails[i + 1];
        }
      }
      DisplayPatchesAll(g, tail, oldStr, newStr, openFails[1..], writeFails[1..]);
      var r := DisplayPatches(g, tail, oldStr, newStr, openFails[1..], writeFails[1..]);
      var total := DisplayPatches(f, offsets, oldStr, newStr, openFails, writeFails);
      assert total == (1 + r.0, r.1);
      FirstWindowKept(g, offsets, oldStr, newStr, openFails[1..], writeFails[1..]);
      AllHoldCons(r.1, offsets, newStr);
    }
  }

  lemma AllHoldCons(g: seq<byte>, offsets: seq<u32>, s: seq<byte>)
    requires |offsets| >= 1 && offsets[0] + |s| <= |g| && g[offsets[0]..offsets[0] + |s|] == s
    requires AllHold(g, offsets[1..], s)
    ensures AllHold(g, offsets, s)
  {
    forall i | 1 <= i < |offsets| ensures offsets[i] + |s| <= |g| && g[offsets[i]..offsets[i] + |s|] == s {
      assert offsets[i] == offsets[1..][i - 1];
    }
  }

  /** The patches at the later offsets leave the first window alone. */
  lemma FirstWindowKept(g: seq<byte>, offsets: seq<u32>, oldStr: seq<byte>, newStr: seq<byte>,
                        openFails: seq<bool>, writeFails: seq<bool>)
    requires |offsets| >= 1 && |openFails| == |offsets| - 1 && |writeFails| == |offsets| - 1
    requires |oldStr| <= DISPLAY_BUFFER || |newStr| != |oldStr|
    requires Apart(offsets, |newStr|) && offsets[0] + |newStr| <= |g|
    ensures var r := DisplayPatches(g, offsets[1..], oldStr, newStr, openFails, writeFails);
      r.1[offsets[0]..offsets[0] + |newStr|] == g[offsets[0]..offsets[0] + |newStr|]
  {
    var n := |newStr|;
    var r := DisplayPatches(g, offsets[1..], oldStr, newStr, openFails, writeFails);
    forall j | offsets[0] <= j < offsets[0] + n ensures r.1[j] == g[j] {
      OutsideTail(offsets, n, j);
      DisplayPatchesFrame(g, offsets[1..], oldStr, newStr, openFails, writeFails, j);
    }
  }

  lemma ApartTail(offsets: seq<u32>, n: nat)
    requires |offsets| >= 1 && Apart(offsets, n)
    ensures Apart(offsets[1..], n)
  {
    var tail := offsets[1..];
    forall i, j | 0 <= i < j < |tail| ensures tail[i] + n <= tail[j] || tail[j] + n <= tail[i] {
      assert tail[i] == offsets[i + 1] && tail[j] == offsets[j + 1];
    }
  }

  /** A byte of the first window lies in none of the later windows. */
  lemma OutsideTail(offsets: seq<u32>, n: nat, j: int)
    requires |offsets| >= 1 && Apart(offsets, n) && offsets[0] <= j < offsets[0] + n
    ensures forall k :: 0 <= k < |offsets[1..]| ==> !(offsets[1..][k] <= j < offsets[1..][k] + n)
  {
    forall k | 0 <= k < |offsets[1..]| ensures !(offsets[1..][k] <= j < offsets[1..][k] + n) {
      assert offsets[1..][k] == offsets[k + 1];
    }
  }

  /** The four display offsets are far apart, so with every open and write succeeding, an
      executable that holds all four windows and builds with as many digits as each other,
      PatchAllDisplayStrings patches all four and each window then spells the new build. */
  lemma AllDisplayStringsPatched(f: seq<byte>, oldBuild: u16, newBuild: u16, openFails: seq<bool>, writeFails: seq<bool>)
    requires |openFails| == |DISPLAY_STRING_OFFSETS| && |writeFails| == |DISPLAY_STRING_OFFSETS|
    requires forall i :: 0 <= i < |DISPLAY_STRING_OFFSETS| ==> !openFails[i] && !writeFails[i]
    requires |f| >= 0x00636F58 + DISPLAY_BUFFER
    requires |BuildString(oldBuild)| == |BuildString(newBuild)|
    ensures var r := DisplayPatches(f, DISPLAY_STRING_OFFSETS, BuildString(oldBuild), BuildString(newBuild),
                                    openFails, writeFails);
      r.0 == |DISPLAY_STRING_OFFSETS| && AllHold(r.1, DISPLAY_STRING_OFFSETS, BuildString(newBuild))
  {
    var n := |BuildString(newBuild)|;
    assert Apart(DISPLAY_STRING_OFFSETS, n);
    DisplayPatchesAll(f, DISPLAY_STRING_OFFSETS, BuildString(oldBuild), BuildString(newBuild), openFails, writeFails);
  }

  /** A new build with a different number of digits (9999 to 10000, say) patches no display
      string and leaves the file as it was. */
  lemma DisplayWidthChange(f: seq<byte>, oldBuild: u16, newBuild: u16, openFails: seq<bool>, writeFails: seq<bool>)
    requires |openFails| == |DISPLAY_STRING_OFFSETS| && |writeFails| == |DISPLAY_STRING_OFFSETS|
    requires |BuildString(oldBuild)| != |BuildString(newBuild)|
    ensures DisplayPatches(f, DISPLAY_STRING_OFFSETS, BuildString(oldBuild), BuildString(newBuild), openFails, writeFails)
         == (0, f)
  {
    DisplayPatchesNone(f, DISPLAY_STRING_OFFSETS, BuildString(oldBuild), BuildString(newBuild), openFails, writeFails);
  }
}
