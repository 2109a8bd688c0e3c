/** The read surface of the patch registry: how LoadPatches turns directory entries into
    PatchInfo records (PatchMgr.cpp, LoadPatches and CalculateMD5) and how
    FindPatchForClient picks the payload for a client. */
module PatchRegistry {
  import opened Wrappers
  import opened Bytes
  import opened Text
  import opened PatchTypes

  predicate AllLetters(s: string)
  {
    forall i :: 0 <= i < |s| ==> IsLetter(s[i])
  }

  /** The shape the pattern ([a-zA-Z]{4})(\d+)\.mpq accepts when it must match the whole
      name, ignoring case: four letters, at least one digit, then ".mpq" in any case. */
  predicate IsPatchFileName(name: string)
  {
    && |name| >= 9
    && AllLetters(name[..4])
    && AllDigits(name[4..|name| - 4])
    && Lower(name[|name| - 4..]) == ".mpq"
  }

  lemma LowerIsDot(c: char)
    requires ToLower(c) == '.'
    ensures c == '.'
  {
  }

  /** On a name of the accepted shape, the digit scan stops exactly before the extension. */
  lemma PatchNameScan(name: string)
    ensures IsPatchFileName(name) ==>
      var k := DigitRun(name[4..]);
      k == |name| - 8 && Lower(name[4..][k..]) == ".mpq"
  {
    if IsPatchFileName(name) {
      var rest := name[4..];
      var digits := name[4..|name| - 4];
      var ext := name[|name| - 4..];
      assert rest == digits + ext;
      LowerAt(ext, 0);
      LowerIsDot(ext[0]);
      DigitRunPrefix(digits, ext);
      assert rest[|digits|..] == ext;
    }
  }

  /** The largest value std::stoul returns: unsigned long is 64 bits on the LP64 targets
      the server is built for. */
  const ULONG_MAX: nat := 0xFFFF_FFFF_FFFF_FFFF

  /** What LoadPatches makes of a file name: no match, a locale and a build, or a digit run
      too large for std::stoul, which throws std::out_of_range. */
  datatype NameMatch = NoMatch | Matched(locale: string, build: u32) | BuildOutOfRange

  /** The regular-expression match: scan four letters, the longest run of digits, and require
      the rest to be ".mpq" ignoring case. The result is the lower-cased locale and the
      build, which std::stoul reads and the uint32 field truncates. */
  function ParsePatchName(name: string): (r: NameMatch)
    ensures r.NoMatch? <==> !IsPatchFileName(name)
    ensures r.BuildOutOfRange? <==> IsPatchFileName(name) && DigitsValue(name[4..|name| - 4]) > ULONG_MAX
    ensures r.Matched? ==> r.locale == Lower(name[..4])
    ensures r.Matched? ==> r.build == DigitsValue(name[4..|name| - 4]) % 0x1_0000_0000
  {
    PatchNameScan(name);
    if |name| < 4 || !AllLetters(name[..4]) then
      NoMatch
    else
      var rest := name[4..];
      var k := DigitRun(rest);
      if k == 0 || Lower(rest[k..]) != ".mpq" then
        NoMatch
      else
        assert |rest[k..]| == 4;
        assert rest[..k] == name[4..|name| - 4];
        var value := DigitsValue(rest[..k]);
        if value > ULONG_MAX then BuildOutOfRange
        else Matched(Lower(name[..4]), value % 0x1_0000_0000)
  }

  /** A locale as the registry stores it: four lower-case letters. */
  predicate IsStoredLocale(l: string)
  {
    |l| == 4 && forall i :: 0 <= i < 4 ==> IsLowerLetter(l[i])
  }

  lemma {:induction false} LowerOfLetters(s: string)
    requires AllLetters(s)
    ensures forall i :: 0 <= i < |s| ==> IsLowerLetter(Lower(s)[i])
  {
    forall i | 0 <= i < |s| ensures IsLowerLetter(Lower(s)[i]) {
      LowerAt(s, i);
    }
  }

  /** One directory entry as LoadPatches sees it. `content` is None when the file cannot be
      opened for hashing. */
  datatype DirEntry = DirEntry(name: string, isRegular: bool, size: u64, content: Option<seq<byte>>)

  /** What LoadPatches does with one entry: skip it, keep a record, or let std::stoul's
      exception end the scan. */
  datatype Loaded = Skipped | Kept(info: PatchInfo) | StoulThrows

  /** What LoadPatches makes of one entry: nothing for a non-regular file, a name that does
      not match, or a file whose digest cannot be computed; the exception for a matching name
      whose build std::stoul cannot hold, before the digest is attempted. */
  function LoadEntry(dir: string, e: DirEntry, digest: seq<byte> -> Digest): (r: Loaded)
    ensures r.Kept? <==> e.isRegular && ParsePatchName(e.name).Matched? && e.content.Some?
    ensures r.StoulThrows? <==> e.isRegular && ParsePatchName(e.name).BuildOutOfRange?
    ensures r.Kept? ==> IsStoredLocale(r.info.Locale) && r.info.MD5 == digest(e.content.value)
    ensures r.Kept? ==> r.info.FileSize == e.size && !r.info.DataLoaded
    ensures r.Kept? ==> r.info.Locale == ParsePatchName(e.name).locale && r.info.Build == ParsePatchName(e.name).build
  {
    if !e.isRegular then Skipped
    else match ParsePatchName(e.name)
      case NoMatch => Skipped
      case BuildOutOfRange => StoulThrows
      case Matched(locale, build) =>
        if e.content.None? then Skipped
        else
          LowerOfLetters(e.name[..4]);
          Kept(PatchInfo(build, locale, e.size, digest(e.content.value), dir + "/" + e.name, false))
  }

  /** The registry after a scan, and whether std::out_of_range ended it. */
  datatype Scan = Scan(patches: seq<PatchInfo>, threw: bool)

  /** The scan after one more entry: an exception ends it for good. */
  function ScanStep(s: Scan, l: Loaded): Scan
  {
    if s.threw then s
    else match l
      case Skipped => s
      case Kept(p) => Scan(s.patches + [p], false)
      case StoulThrows => Scan(s.patches, true)
  }

  /** The registry after scanning the entries in directory order. */
  function LoadAll(dir: string, es: seq<DirEntry>, digest: seq<byte> -> Digest): (r: Scan)
    ensures |r.patches| <= |es|
    ensures forall p :: p in r.patches ==> IsStoredLocale(p.Locale)
  {
    if es == [] then Scan([], false)
    else ScanStep(LoadAll(dir, es[..|es| - 1], digest), LoadEntry(dir, es[|es| - 1], digest))
  }

  /** Scanning one more entry is one more ScanStep. */
  lemma LoadAllSnoc(dir: string, es: seq<DirEntry>, i: nat, digest: seq<byte> -> Digest)
    requires i < |es|
    ensures LoadAll(dir, es[..i + 1], digest) == ScanStep(LoadAll(dir, es[..i], digest), LoadEntry(dir, es[i], digest))
  {
    assert es[..i + 1][..i] == es[..i];
  }

  /** Once an entry throws, the rest of the directory is not looked at: the registry keeps
      what was loaded before that entry. */
  lemma {:induction false} LoadAllStops(dir: string, es: seq<DirEntry>, i: nat, digest: seq<byte> -> Digest)
    requires i < |es| && LoadEntry(dir, es[i], digest).StoulThrows?
    requires !LoadAll(dir, es[..i], digest).threw
    ensures LoadAll(dir, es, digest) == Scan(LoadAll(dir, es[..i], digest).patches, true)
    decreases |es|
  {
    var init := es[..|es| - 1];
    if i == |es| - 1 {
      assert init == es[..i];
    } else {
      assert init[..i] == es[..i];
      LoadAllStops(dir, init, i, digest);
    }
  }

  /** Every loaded record comes from an entry of the directory. */
  lemma {:induction false} LoadAllFromEntries(dir: string, es: seq<DirEntry>, digest: seq<byte> -> Digest)
    ensures forall p :: p in LoadAll(dir, es, digest).patches ==>
      exists e :: e in es && LoadEntry(dir, e, digest) == Kept(p)
  {
    if es != [] {
      var init := es[..|es| - 1];
      var last := es[|es| - 1];
      LoadAllFromEntries(dir, init, digest);
      var s := LoadAll(dir, init, digest);
      forall p | p in LoadAll(dir, es, digest).patches
        ensures exists e :: e in es && LoadEntry(dir, e, digest) == Kept(p)
      {
        if p in s.patches {
          var e :| e in init && LoadEntry(dir, e, digest) == Kept(p);
          assert e in es;
        } else {
          assert LoadEntry(dir, last, digest) == Kept(p);
          assert last in es;
        }
      }
    }
  }

  /** The scan throws exactly when some entry makes std::stoul throw. */
  lemma {:induction false} LoadAllThrows(dir: string, es: seq<DirEntry>, digest: seq<byte> -> Digest)
    ensures LoadAll(dir, es, digest).threw <==> exists e :: e in es && LoadEntry(dir, e, digest).StoulThrows?
  {
    if es != [] {
      var init := es[..|es| - 1];
      var last := es[|es| - 1];
      LoadAllThrows(dir, init, digest);
      assert forall e :: e in es <==> e in init || e == last;
      if LoadAll(dir, init, digest).threw {
        var e :| e in init && LoadEntry(dir, e, digest).StoulThrows?;
        assert e in es;
      }
    }
  }

  /** When the scan does not throw, every entry that LoadPatches accepts is loaded. */
  lemma {:induction false} LoadAllKeeps(dir: string, es: seq<DirEntry>, digest: seq<byte> -> Digest)
    ensures !LoadAll(dir, es, digest).threw ==>
      forall e :: e in es && LoadEntry(dir, e, digest).Kept? ==> LoadEntry(dir, e, digest).info in LoadAll(dir, es, digest).patches
  {
    if es != [] {
      var init := es[..|es| - 1];
      var last := es[|es| - 1];
      LoadAllKeeps(dir, init, digest);
      var r := LoadAll(dir, es, digest);
      if !r.threw {
        forall e | e in es && LoadEntry(dir, e, digest).Kept?
          ensures LoadEntry(dir, e, digest).info in r.patches
        {
          if e != last {
            assert e in init;
          }
        }
      }
    }
  }

  /** Every loaded record comes from an entry of the directory; the scan throws exactly when
      some entry makes std::stoul throw; and when it does not, every entry that LoadPatches
      accepts is loaded. */
  lemma LoadAllExactly(dir: string, es: seq<DirEntry>, digest: seq<byte> -> Digest)
    ensures forall p :: p in LoadAll(dir, es, digest).patches ==>
      exists e :: e in es && LoadEntry(dir, e, digest) == Kept(p)
    ensures LoadAll(dir, es, digest).threw <==> exists e :: e in es && LoadEntry(dir, e, digest).StoulThrows?
    ensures !LoadAll(dir, es, digest).threw ==>
      forall e :: e in es && LoadEntry(dir, e, digest).Kept? ==> LoadEntry(dir, e, digest).info in LoadAll(dir, es, digest).patches
  {
    LoadAllFromEntries(dir, es, digest);
    LoadAllThrows(dir, es, digest);
    LoadAllKeeps(dir, es, digest);
  }

  // ------------------------------------------------------------ FindPatchForClient

  predicate ExactAt(ps: seq<PatchInfo>, j: nat, build: u32, locale: string)
    requires j < |ps|
  {
    ps[j].Locale == locale && ps[j].Build == build
  }

  predicate FallbackAt(ps: seq<PatchInfo>, j: nat, locale: string)
    requires j < |ps|
  {
    ps[j].Locale == locale && ps[j].Build == 0
  }

  /** The first entry of the locale with exactly the given build. */
  function FirstExact(ps: seq<PatchInfo>, build: u32, locale: string, i: nat): (r: Option<nat>)
    requires i <= |ps|
    ensures r.Some? ==> i <= r.value < |ps| && ExactAt(ps, r.value, build, locale)
    ensures r.Some? ==> forall j :: i <= j < r.value ==> !ExactAt(ps, j, build, locale)
    ensures r.None? ==> forall j :: i <= j < |ps| ==> !ExactAt(ps, j, build, locale)
    decreases |ps| - i
  {
    if i == |ps| then None
    else if ExactAt(ps, i, build, locale) then Some(i)
    else FirstExact(ps, build, locale, i + 1)
  }

  /** The first build-0 entry of the locale. */
  function FirstFallback(ps: seq<PatchInfo>, locale: string, i: nat): (r: Option<nat>)
    requires i <= |ps|
    ensures r.Some? ==> i <= r.value < |ps| && FallbackAt(ps, r.value, locale)
    ensures r.Some? ==> forall j :: i <= j < r.value ==> !FallbackAt(ps, j, locale)
    ensures r.None? ==> forall j :: i <= j < |ps| ==> !FallbackAt(ps, j, locale)
    decreases |ps| - i
  {
    if i == |ps| then None
    else if FallbackAt(ps, i, locale) then Some(i)
    else FirstFallback(ps, locale, i + 1)
  }

  /** The single pass of FindPatchForClient from index i: return the first exact entry at
      once, and remember the first build-0 entry of the locale in `fallback` on the way. */
  function FindFrom(ps: seq<PatchInfo>, build: u32, locale: string, i: nat, fallback: Option<nat>): (r: Option<nat>)
    requires i <= |ps|
    requires forall j :: 0 <= j < i ==> !ExactAt(ps, j, build, locale)
    requires fallback.Some? ==> fallback.value < i && FallbackAt(ps, fallback.value, locale)
    requires fallback.Some? ==> forall j :: 0 <= j < fallback.value ==> !FallbackAt(ps, j, locale)
    requires fallback.None? ==> forall j :: 0 <= j < i ==> !FallbackAt(ps, j, locale)
    ensures r.Some? ==> r.value < |ps| && ps[r.value].Locale == locale
    ensures r.Some? && ps[r.value].Build == build ==>
      forall j :: 0 <= j < r.value ==> !ExactAt(ps, j, build, locale)
    ensures r.Some? && ps[r.value].Build != build ==>
      && ps[r.value].Build == 0
      && (forall j :: 0 <= j < |ps| ==> !ExactAt(ps, j, build, locale))
      && (forall j :: 0 <= j < r.value ==> !FallbackAt(ps, j, locale))
    ensures r.None? ==>
      forall j :: 0 <= j < |ps| ==> !ExactAt(ps, j, build, locale) && !FallbackAt(ps, j, locale)
    decreases |ps| - i
  {
    if i == |ps| then fallback
    else if ps[i].Locale == locale && ps[i].Build == build then Some(i)
    else if ps[i].Locale == locale && ps[i].Build == 0 && fallback.None? then
      FindFrom(ps, build, locale, i + 1, Some(i))
    else
      FindFrom(ps, build, locale, i + 1, fallback)
  }

  /** FindPatchForClient as an index into the registry: nothing when patching is disabled or
      the registry is empty; otherwise the first entry of the lower-cased locale with exactly
      the client's build, else the first build-0 entry of that locale, else nothing. */
  function FindPatch(enabled: bool, ps: seq<PatchInfo>, build: u32, locale: string): (r: Option<nat>)
    ensures !enabled || ps == [] ==> r.None?
    ensures r.Some? ==> r.value < |ps| && ps[r.value].Locale == Lower(locale)
    ensures r.Some? ==> ExactAt(ps, r.value, build, Lower(locale)) || FallbackAt(ps, r.value, Lower(locale))
    ensures r.Some? && ps[r.value].Build == build ==>
      forall j :: 0 <= j < r.value ==> !ExactAt(ps, j, build, Lower(locale))
    ensures r.Some? && ps[r.value].Build != build ==>
      && ps[r.value].Build == 0
      && (forall j :: 0 <= j < |ps| ==> !ExactAt(ps, j, build, Lower(locale)))
      && (forall j :: 0 <= j < r.value ==> !FallbackAt(ps, j, Lower(locale)))
    ensures enabled && ps != [] && r.None? ==>
      forall j :: 0 <= j < |ps| ==>
        !ExactAt(ps, j, build, Lower(locale)) && !FallbackAt(ps, j, Lower(locale))
  {
    if !enabled || ps == [] then None
    else FindFrom(ps, build, Lower(locale), 0, None)
  }

  /** The single pass agrees with the plain reading "the first exact entry, else the first
      build-0 entry of the locale". */
  lemma FindPatchIsExactThenFallback(ps: seq<PatchInfo>, build: u32, locale: string)
    requires ps != []
    ensures FindPatch(true, ps, build, locale) ==
      match FirstExact(ps, build, Lower(locale), 0)
      case Some(k) => Some(k)
      case None => FirstFallback(ps, Lower(locale), 0)
  {
    var l := Lower(locale);
    var r := FindPatch(true, ps, build, locale);
    match FirstExact(ps, build, l, 0)
    case Some(k) =>
      assert ExactAt(ps, k, build, l);
      assert r.Some? && ps[r.value].Build == build;
      assert ExactAt(ps, r.value, build, l);
    case None =>
      match FirstFallback(ps, l, 0)
      case Some(k) =>
        assert FallbackAt(ps, k, l);
        assert r.Some? && !ExactAt(ps, r.value, build, l);
        assert FallbackAt(ps, r.value, l);
      case None =>
        assert forall j :: 0 <= j < |ps| ==> !ExactAt(ps, j, build, l) && !FallbackAt(ps, j, l);
        assert r.None?;
  }

  /** An exact entry, when one exists, always wins over any fallback. */
  lemma ExactWins(ps: seq<PatchInfo>, build: u32, locale: string, k: nat)
    requires k < |ps| && ExactAt(ps, k, build, Lower(locale))
    ensures FindPatch(true, ps, build, locale).Some?
    ensures ExactAt(ps, FindPatch(true, ps, build, locale).value, build, Lower(locale))
  {
  }
}
