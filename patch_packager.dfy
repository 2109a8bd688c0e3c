/** The archive builder (tools/create_patch_mpq.py): the text of patch.cfg and prepatch.lst,
    the .md5 file of a content patch, the table of files an archive is given, and how main
    names each archive. The texts are written with `\r\n` line ends and read back by the
    installer and the server; the lemmas here join the two sides. Every text main queues is
    ASCII, so the bytes `.encode('ascii')` gives are modelled as the text itself. */
module PatchPackager {
  import opened Wrappers
  import opened Text
  import Bytes
  import Installer
  import PatchRegistry
  import Md5Context

  /** The locales an archive is built for with --all-locales, in this order. */
  const ALL_LOCALES: seq<string> :=
    ["frFR", "enUS", "enGB", "deDE", "esES", "esMX", "ruRU", "zhCN", "zhTW", "koKR", "ptBR", "itIT"]

  // ---------------------------------------------------------------- CRLF text

  /** "\r\n".join(lines) */
  function Join(lines: seq<string>): string
  {
    if |lines| == 0 then ""
    else if |lines| == 1 then lines[0]
    else lines[0] + "\r\n" + Join(lines[1..])
  }

  /** Every line followed by its own `\r\n`. */
  function Terminated(lines: seq<string>): string
  {
    if lines == [] then "" else lines[0] + "\r\n" + Terminated(lines[1..])
  }

  /** "\r\n".join(lines) + "\r\n", the form both generators return, ends every line of a
      non-empty list with `\r\n`. */
  lemma {:induction false} JoinTerminated(lines: seq<string>)
    requires lines != []
    ensures Join(lines) + "\r\n" == Terminated(lines)
  {
    if |lines| > 1 {
      JoinTerminated(lines[1..]);
      assert Join(lines) + "\r\n" == lines[0] + "\r\n" + (Join(lines[1..]) + "\r\n");
    } else {
      assert lines[1..] == [];
    }
  }

  lemma {:induction false} TerminatedAppend(a: seq<string>, b: seq<string>)
    ensures Terminated(a + b) == Terminated(a) + Terminated(b)
  {
    if a != [] {
      assert (a + b)[0] == a[0] && (a + b)[1..] == a[1..] + b;
      TerminatedAppend(a[1..], b);
    } else {
      assert a + b == b;
    }
  }

  /** The text of a non-empty list of lines ends with its last line and `\r\n`. */
  lemma {:induction false} TerminatedEndsWithLast(lines: seq<string>)
    requires lines != []
    ensures var last := lines[|lines| - 1] + "\r\n";
      |Terminated(lines)| >= |last| && Terminated(lines)[|Terminated(lines)| - |last|..] == last
  {
    if |lines| > 1 {
      TerminatedEndsWithLast(lines[1..]);
    }
  }

  /** Python's truth value of an optional name: present and not empty. */
  predicate Truthy(name: Option<string>)
  {
    name.Some? && name.value != ""
  }

  // ---------------------------------------------------------------- patch.cfg

  const CONFIG_HEADER: string := "# WoW Patch Configuration"

  function ConfigLines(oldBuild: int, newBuild: int): seq<string>
  {
    [CONFIG_HEADER, "OLD_BUILD" + "=" + IntToDecimal(oldBuild), "NEW_BUILD" + "=" + IntToDecimal(newBuild)]
  }

  /** create_patch_config: a comment line and the two builds in decimal, each line ended
      by `\r\n`. */
  function CreatePatchConfig(oldBuild: int, newBuild: int): (text: string)
    ensures text == Terminated(ConfigLines(oldBuild, newBuild))
  {
    JoinTerminated(ConfigLines(oldBuild, newBuild));
    Join(ConfigLines(oldBuild, newBuild)) + "\r\n"
  }

  /** A decimal number holds no character a patch.cfg line is cut at and does not start
      with a blank. */
  lemma DecimalIsPlain(x: int)
    ensures Installer.Plain(IntToDecimal(x)) && !Installer.IsBlank(IntToDecimal(x)[0])
  {
    var n: nat := if x < 0 then -x else x;
    var d := NatToDecimal(n);
    assert forall i :: 0 <= i < |d| ==> IsDigit(d[i]);
    if x < 0 {
      assert IntToDecimal(x) == "-" + d;
      assert forall i :: 1 <= i < |IntToDecimal(x)| ==> IntToDecimal(x)[i] == d[i - 1];
    }
  }

  /** fgets leaves the `\r` on a CRLF line, and the installer cuts it off again. */
  lemma ParseLineCrlf(l: string)
    requires Installer.Plain(l)
    ensures Installer.ParseLine(l + "\r\n") == Installer.ParseLine(l)
  {
    var s := l + "\r\n";
    assert s == (l + "\r") + ['\n'] + [];
    assert forall i :: 0 <= i < |s| ==> s[i] != '\0';
    Installer.BeforeAbsent(s, '\0');
    Installer.BeforeFirst(l + "\r", '\n', []);
    assert l + "\r" == l + ['\r'] + [];
    Installer.BeforeFirst(l, '\r', []);
    Installer.CutLineOfPlain(l);
  }

  /** Empty padding around the key and after "=" leaves the line as it is. */
  lemma EmptyPads(key: string, value: string)
    ensures [] + key + [] + "=" + [] + value == key + "=" + value
  {
    assert [] + key + [] == key;
  }

  /** The line `OLD_BUILD=<x>` or `NEW_BUILD=<x>`, before its CRLF, sets key k to the
      text of x. */
  lemma BuildLineBare(key: string, value: string, k: Installer.ConfigKey)
    requires EqualsIgnoreCase(key, Installer.KeyName(k))
    requires Installer.Plain(value) && value != [] && !Installer.IsBlank(value[0])
    ensures Installer.Plain(key + "=" + value)
    ensures Installer.Sets(key + "=" + value, k)
    ensures Installer.ParseLine(key + "=" + value).value.1 == value
  {
    Installer.KeyLine([], key, [], [], value, k);
    EmptyPads(key, value);
    Installer.KeyChars(key, k);
  }

  /** With its CRLF the line still sets key k to the same text, and sets no other key. */
  lemma KeyLineCrlf(key: string, value: string, k: Installer.ConfigKey)
    requires EqualsIgnoreCase(key, Installer.KeyName(k))
    requires Installer.Plain(value) && value != [] && !Installer.IsBlank(value[0])
    ensures Installer.Sets(key + "=" + value + "\r\n", k)
    ensures Installer.ParseLine(key + "=" + value + "\r\n").value.1 == value
    ensures forall k' :: k' != k ==> !Installer.Sets(key + "=" + value + "\r\n", k')
  {
    BuildLineBare(key, value, k);
    ParseLineCrlf(key + "=" + value);
    Installer.KeyNamesDiffer();
  }

  /** `OLD_BUILD=<x>` or `NEW_BUILD=<x>` with its CRLF sets key k, in the installer, to x
      as atoi reads it (clamped to the C int range) mod 2^16, and sets no other key. */
  lemma BuildLine(x: int, k: Installer.ConfigKey)
    ensures Installer.Sets(Installer.KeyName(k) + "=" + IntToDecimal(x) + "\r\n", k)
    ensures Installer.BuildValue(Installer.ParseLine(Installer.KeyName(k) + "=" + IntToDecimal(x) + "\r\n").value.1)
      == SaturateInt(x) % 0x1_0000
    ensures forall k' :: k' != k ==> !Installer.Sets(Installer.KeyName(k) + "=" + IntToDecimal(x) + "\r\n", k')
  {
    DecimalIsPlain(x);
    KeyLineCrlf(Installer.KeyName(k), IntToDecimal(x), k);
    AtoiOfDecimal(x, "");
    assert IntToDecimal(x) + "" == IntToDecimal(x);
  }

  /** A build whose decimal text keeps its patch.cfg line within the installer's 255-character
      fgets buffer. */
  predicate ShortDecimal(x: int)
  {
    |IntToDecimal(x)| <= 243
  }

  lemma TerminatedThree(a: string, b: string, c: string)
    ensures Terminated([a, b, c]) == a + "\r\n" + (b + "\r\n" + (c + "\r\n" + []))
  {
    assert [a, b, c][1..] == [b, c] && [b, c][1..] == [c] && [c][1..] == [];
    assert Terminated([c]) == c + "\r\n" + [];
    assert Terminated([b, c]) == b + "\r\n" + Terminated([c]);
  }

  /** fgets hands the installer a CRLF line that fits its buffer whole. */
  lemma CrlfLine(a: string, rest: string)
    requires Installer.Plain(a) && |a| + 1 < Installer.CONFIG_LINE_CAP
    ensures Installer.Lines(a + "\r\n" + rest, Installer.CONFIG_LINE_CAP)
      == [a + "\r\n"] + Installer.Lines(rest, Installer.CONFIG_LINE_CAP)
  {
    assert a + "\r\n" + rest == (a + "\r") + "\n" + rest;
    assert a + "\r\n" == (a + "\r") + "\n";
    assert '\n' !in a + "\r";
    Installer.LinesOfShortLine(a + "\r", rest, Installer.CONFIG_LINE_CAP);
  }

  /** fgets hands the installer three CRLF lines one by one when each fits its buffer. */
  lemma ThreeLines(a: string, b: string, c: string)
    requires Installer.Plain(a) && Installer.Plain(b) && Installer.Plain(c)
    requires |a| + 1 < Installer.CONFIG_LINE_CAP && |b| + 1 < Installer.CONFIG_LINE_CAP
    requires |c| + 1 < Installer.CONFIG_LINE_CAP
    ensures Installer.Lines(a + "\r\n" + (b + "\r\n" + (c + "\r\n" + [])), Installer.CONFIG_LINE_CAP)
      == [a + "\r\n", b + "\r\n", c + "\r\n"]
  {
    CrlfLine(c, []);
    CrlfLine(b, c + "\r\n" + []);
    CrlfLine(a, b + "\r\n" + (c + "\r\n" + []));
    ThreeNested(a + "\r\n", b + "\r\n", c + "\r\n");
  }

  lemma ThreeNested<T>(a: T, b: T, c: T)
    ensures [a] + ([b] + ([c] + [])) == [a, b, c]
  {
  }

  lemma ThreeItems<T>(a: T, b: T, c: T)
    ensures [a] + [b] + [c] == [a, b, c] && [a, b] + [c] + [] == [a, b, c]
  {
  }

  /** A patch.cfg of three lines, the second setting the old build and the third the new
      build (and not the old one), reads as those two values. */
  lemma ConfigOfThree(text: string, c: string, o: string, n: string)
    requires Installer.Lines(text, Installer.CONFIG_LINE_CAP) == [c, o, n]
    requires Installer.Sets(o, Installer.OldBuild) && !Installer.Sets(n, Installer.OldBuild)
    requires Installer.Sets(n, Installer.NewBuild)
    ensures Installer.ConfigOf(text) == Installer.PatchConfig(
      Installer.BuildValue(Installer.ParseLine(o).value.1), Installer.BuildValue(Installer.ParseLine(n).value.1))
  {
    var cfg := Installer.DEFAULT_CONFIG;
    Installer.LastSettingWins(cfg, [c], o, [n], Installer.OldBuild);
    Installer.LastSettingWins(cfg, [c, o], n, [], Installer.NewBuild);
    ThreeItems(c, o, n);
    var r := Installer.ConfigOf(text);
    assert r == Installer.PatchConfig(Installer.Get(r, Installer.OldBuild), Installer.Get(r, Installer.NewBuild));
  }

  /** Every build a 32-bit field can hold fits a patch.cfg line. */
  lemma BuildsAreShort(x: int)
    requires 0 <= x < 0x1_0000_0000
    ensures ShortDecimal(x)
  {
    assert Pow10(10) == 10_000_000_000;
    DecimalLength(x, 10);
  }

  /** What the installer's ReadConfig reads from the patch.cfg this tool writes: the two
      builds, each as atoi reads it (clamped to the C int range) modulo 2^16. */
  lemma ConfigRoundTrip(oldBuild: int, newBuild: int)
    requires ShortDecimal(oldBuild) && ShortDecimal(newBuild)
    ensures Installer.ConfigOf(CreatePatchConfig(oldBuild, newBuild))
      == Installer.PatchConfig(SaturateInt(oldBuild) % 0x1_0000, SaturateInt(newBuild) % 0x1_0000)
  {
    var o := "OLD_BUILD" + "=" + IntToDecimal(oldBuild);
    var n := "NEW_BUILD" + "=" + IntToDecimal(newBuild);
    DecimalIsPlain(oldBuild);
    DecimalIsPlain(newBuild);
    assert Installer.Plain(CONFIG_HEADER);
    TerminatedThree(CONFIG_HEADER, o, n);
    ThreeLines(CONFIG_HEADER, o, n);
    BuildLine(oldBuild, Installer.OldBuild);
    BuildLine(newBuild, Installer.NewBuild);
    ConfigOfThree(CreatePatchConfig(oldBuild, newBuild), CONFIG_HEADER + "\r\n", o + "\r\n", n + "\r\n");
  }

  /** main's build to patch to: --new-build, or the build after --build. */
  function NewBuild(build: int, newBuild: Option<int>): (r: int)
    ensures newBuild.Some? ==> r == newBuild.value
    ensures newBuild.None? ==> r > build && r - build == 1
  {
    if newBuild.None? then build + 1 else newBuild.value
  }

  /** Without --new-build the installer reads the following build, wrapping from 65535
      to 0, for a --build in INT_MIN..INT_MAX-1. From INT_MAX on atoi clamps both builds to
      INT_MAX, and below INT_MIN it clamps both to INT_MIN. */
  lemma DefaultNewBuild(build: int)
    requires ShortDecimal(build) && ShortDecimal(build + 1)
    ensures INT_MIN <= build < INT_MAX ==>
      Installer.ConfigOf(CreatePatchConfig(build, NewBuild(build, None)))
      == Installer.PatchConfig(build % 0x1_0000, (build + 1) % 0x1_0000)
    ensures build >= INT_MAX ==>
      Installer.ConfigOf(CreatePatchConfig(build, NewBuild(build, None)))
      == Installer.PatchConfig(0xFFFF, 0xFFFF)
    ensures build < INT_MIN ==>
      Installer.ConfigOf(CreatePatchConfig(build, NewBuild(build, None)))
      == Installer.PatchConfig(0, 0)
  {
    ConfigRoundTrip(build, build + 1);
    if build >= INT_MAX {
      assert SaturateInt(build) == INT_MAX && SaturateInt(build + 1) == INT_MAX;
      assert INT_MAX % 0x1_0000 == 0xFFFF;
    } else if build < INT_MIN {
      assert SaturateInt(build) == INT_MIN && SaturateInt(build + 1) == INT_MIN;
      assert INT_MIN % 0x1_0000 == 0;
    } else {
      assert SaturateInt(build) == build && SaturateInt(build + 1) == build + 1;
    }
  }

  /** main's default --build. */
  const DEFAULT_BUILD: int := 12340

  /** Without --new-build, the installer reads the builds it would also assume without any
      patch.cfg exactly when --build is the default modulo 2^16 and lies in the C int range
      below INT_MAX; outside it atoi's clamping breaks the agreement. */
  lemma DefaultBuildsAgree(build: int)
    requires ShortDecimal(build) && ShortDecimal(build + 1)
    ensures Installer.ConfigOf(CreatePatchConfig(build, NewBuild(build, None))) == Installer.DEFAULT_CONFIG
      <==> INT_MIN <= build < INT_MAX && build % 0x1_0000 == DEFAULT_BUILD
  {
    ConfigRoundTrip(build, build + 1);
    assert NewBuild(build, None) == build + 1;
    assert Installer.DEFAULT_CONFIG == Installer.PatchConfig(12340, 12341);
    if build >= INT_MAX {
      assert SaturateInt(build + 1) == INT_MAX;
      assert INT_MAX % 0x1_0000 == 0xFFFF;
    } else if build < INT_MIN {
      assert SaturateInt(build) == INT_MIN;
      assert INT_MIN % 0x1_0000 == 0;
    } else {
      assert SaturateInt(build) == build && SaturateInt(build + 1) == build + 1;
      if build % 0x1_0000 == DEFAULT_BUILD {
        Bytes.ModUnique(build + 1, 0x1_0000, build / 0x1_0000, 12341);
      }
    }
  }

  // ---------------------------------------------------------------- prepatch.lst

  /** The optional lines: the content patch, and its .md5 only alongside it. */
  function ContentLines(contentPatchName: Option<string>, contentPatchMd5Name: Option<string>): seq<string>
  {
    if Truthy(contentPatchName) then
      ["extract " + contentPatchName.value]
        + (if Truthy(contentPatchMd5Name) then ["extract " + contentPatchMd5Name.value] else [])
    else []
  }

  /** The command lines of prepatch.lst, in order. */
  function PrepatchLines(installerName: string, configName: string,
                         contentPatchName: Option<string>, contentPatchMd5Name: Option<string>): (lines: seq<string>)
    ensures |lines| == 3 + (if Truthy(contentPatchName) then 1 else 0)
                         + (if Truthy(contentPatchName) && Truthy(contentPatchMd5Name) then 1 else 0)
    ensures lines[0] == "extract " + configName
    ensures lines[|lines| - 2] == "extract " + installerName
    ensures lines[|lines| - 1] == "execute " + installerName
    ensures Truthy(contentPatchName) ==> lines[1] == "extract " + contentPatchName.value
    ensures Truthy(contentPatchName) && Truthy(contentPatchMd5Name) ==>
      lines[2] == "extract " + contentPatchMd5Name.value
  {
    ["extract " + configName] + ContentLines(contentPatchName, contentPatchMd5Name)
      + ["extract " + installerName, "execute " + installerName]
  }

  /** create_prepatch_lst: the list built with append and extend, joined with `\r\n`. */
  method CreatePrepatchLst(installerName: string, configName: string,
                           contentPatchName: Option<string>, contentPatchMd5Name: Option<string>)
    returns (content: string)
    ensures content == Terminated(PrepatchLines(installerName, configName, contentPatchName, contentPatchMd5Name))
  {
    var lines := ["extract " + configName];
    if Truthy(contentPatchName) {
      lines := lines + ["extract " + contentPatchName.value];
      if Truthy(contentPatchMd5Name) {
        lines := lines + ["extract " + contentPatchMd5Name.value];
      }
    }
    lines := lines + ["extract " + installerName, "execute " + installerName];
    assert lines == PrepatchLines(installerName, configName, contentPatchName, contentPatchMd5Name);
    JoinTerminated(lines);
    content := Join(lines) + "\r\n";
  }

  /** The text starts by extracting the configuration and ends by extracting and then
      executing the installer; in between come only the content patch lines. */
  lemma PrepatchText(installerName: string, configName: string,
                     contentPatchName: Option<string>, contentPatchMd5Name: Option<string>)
    ensures Terminated(PrepatchLines(installerName, configName, contentPatchName, contentPatchMd5Name))
      == "extract " + configName + "\r\n"
         + Terminated(ContentLines(contentPatchName, contentPatchMd5Name))
         + "extract " + installerName + "\r\n" + "execute " + installerName + "\r\n"
  {
    var first := ["extract " + configName];
    var middle := ContentLines(contentPatchName, contentPatchMd5Name);
    var last := ["extract " + installerName, "execute " + installerName];
    TerminatedAppend(first + middle, last);
    TerminatedAppend(first, middle);
    assert first[1..] == [] && last[1..][1..] == [];
  }

  /** main's prepatch.lst: the --prepatch-commands, when there are any, joined the same
      way and placed before the generated text. */
  function WithCommands(commands: seq<string>, generated: string): (r: string)
    ensures |r| >= |generated| && r[|r| - |generated|..] == generated
    ensures commands == [] ==> r == generated
    ensures commands != [] ==> |r| >= |Join(commands)| + 2 && r[..|Join(commands)| + 2] == Join(commands) + "\r\n"
  {
    if commands != [] then Join(commands) + "\r\n" + generated else generated
  }

  /** The user's commands come first, each on its own `\r\n` line, then the generated ones. */
  lemma UserCommandsFirst(commands: seq<string>, generated: seq<string>)
    ensures WithCommands(commands, Terminated(generated)) == Terminated(commands + generated)
  {
    TerminatedAppend(commands, generated);
    if commands != [] {
      JoinTerminated(commands);
    } else {
      assert commands + generated == generated;
    }
  }

  // ---------------------------------------------------------------- content patch .md5

  /** The .md5 file main writes for a content patch: its lower-case hex digest and `\r\n`. */
  function Md5Payload(digest: seq<Bytes.byte>): (r: string)
    ensures |r| == 2 * |digest| + 2 && r[2 * |digest|..] == "\r\n"
    ensures forall i :: 0 <= i < 2 * |digest| ==> !IsUpper(r[i]) && !IsCSpace(r[i])
  {
    HexLower(digest) + "\r\n"
  }

  lemma {:induction false} HexLowerDigits(bs: seq<Bytes.byte>)
    ensures forall i :: 0 <= i < |HexLower(bs)| ==> IsDigit(HexLower(bs)[i]) || 'a' <= HexLower(bs)[i] <= 'f'
  {
    if bs != [] {
      HexLowerDigits(bs[1..]);
      var h := [HexDigit(bs[0] / 16), HexDigit(bs[0] % 16)];
      assert HexLower(bs) == h + HexLower(bs[1..]);
    }
  }

  /** The installer's reading of that file gives the digest text back exactly. */
  lemma Md5PayloadRoundTrip(digest: seq<Bytes.byte>)
    requires |digest| == 16
    ensures Installer.ExpectedHash(Md5Payload(digest)) == HexLower(digest)
  {
    var hex := HexLower(digest);
    var text := Md5Payload(digest);
    HexLowerDigits(digest);
    assert |hex| == 32;
    assert text == (hex + "\r") + "\n" + [];
    assert '\n' !in hex + "\r" by {
      assert forall i :: 0 <= i < 32 ==> (hex + "\r")[i] == hex[i];
    }
    Installer.FgetsOfLine(hex + "\r", [], Installer.MD5_LINE_CAP);
    assert text[..34] == text;
    assert forall i :: 0 <= i < |text| ==> text[i] != '\0';
    Installer.BeforeAbsent(text, '\0');
    assert text[31] == hex[31] && !Installer.IsHashTrim(text[31]);
    assert Installer.HashEnd(text) == 32;
    assert text[..32] == hex;
  }

  /** The installer accepts a content patch whose .md5 file this tool wrote from the same
      bytes. */
  lemma InstallerAcceptsPayload(transform: Md5Context.Transform, content: seq<Bytes.byte>)
    ensures EqualsIgnoreCase(
      Installer.ExpectedHash(Md5Payload(Md5Context.Md5(transform, content))),
      HexLower(Md5Context.Md5(transform, content)))
  {
    Md5PayloadRoundTrip(Md5Context.Md5(transform, content));
  }

  // ---------------------------------------------------------------- archive names

  /** `f"{locale}{build}.mpq"` */
  function OutputName(locale: string, build: int): string
  {
    locale + IntToDecimal(build) + ".mpq"
  }

  /** Where main writes the archive of one locale: the --output path when it is given and
      only one locale is built; otherwise the generated name, in the directory of --output
      when one is given and in "." otherwise. */
  datatype Target = Given(path: string) | Generated(directoryOf: Option<string>, name: string)

  function OutputTarget(output: Option<string>, allLocales: bool, locale: string, build: int): (t: Target)
    ensures t.Given? <==> Truthy(output) && !allLocales
    ensures t.Given? ==> t.path == output.value
    ensures t.Generated? ==> t.name == OutputName(locale, build) && (t.directoryOf.Some? <==> Truthy(output))
  {
    if Truthy(output) && !allLocales then Given(output.value)
    else Generated(if Truthy(output) then output else None, OutputName(locale, build))
  }

  /** The locales main builds archives for. */
  function Locales(allLocales: bool, locale: string): seq<string>
  {
    if allLocales then ALL_LOCALES else [locale]
  }

  /** Every locale the builder knows is four letters, and they are the installer's list. */
  lemma AllLocalesAreLetters()
    ensures forall l :: l in ALL_LOCALES ==> |l| == 4 && PatchRegistry.AllLetters(l)
    ensures ALL_LOCALES == Installer.KNOWN_LOCALES
  {
    forall i | 0 <= i < |ALL_LOCALES|
      ensures |ALL_LOCALES[i]| == 4 && PatchRegistry.AllLetters(ALL_LOCALES[i])
    {
    }
  }

  /** A generated name is accepted by the server's LoadPatches exactly when the build is
      not negative: it yields the lower-cased locale and the build std::stoul reads, cut to
      32 bits, up to ULONG_MAX, and above that std::stoul throws. */
  lemma OutputNameParses(locale: string, build: int)
    requires |locale| == 4 && PatchRegistry.AllLetters(locale)
    ensures 0 <= build <= PatchRegistry.ULONG_MAX ==>
      PatchRegistry.ParsePatchName(OutputName(locale, build))
      == PatchRegistry.Matched(Lower(locale), build % 0x1_0000_0000)
    ensures build > PatchRegistry.ULONG_MAX ==>
      PatchRegistry.ParsePatchName(OutputName(locale, build)).BuildOutOfRange?
    ensures build < 0 ==> PatchRegistry.ParsePatchName(OutputName(locale, build)).NoMatch?
  {
    var name := OutputName(locale, build);
    var d := IntToDecimal(build);
    assert name[..4] == locale;
    assert name[4..|name| - 4] == d;
    assert name[|name| - 4..] == ".mpq";
    LowerOfNoUpper(".mpq");
    if build >= 0 {
      DigitsValueOfDecimal(build);
    } else {
      assert d[0] == '-' && !IsDigit(d[0]);
    }
  }

  /** The name main gives one locale's archive with --all-locales, as the server reads it. */
  predicate GeneratedNameLoads(output: Option<string>, l: string, build: nat)
  {
    && OutputTarget(output, true, l, build).Generated?
    && (build <= PatchRegistry.ULONG_MAX ==>
          PatchRegistry.ParsePatchName(OutputTarget(output, true, l, build).name)
          == PatchRegistry.Matched(Lower(l), build % 0x1_0000_0000))
    && (build > PatchRegistry.ULONG_MAX ==>
          PatchRegistry.ParsePatchName(OutputTarget(output, true, l, build).name).BuildOutOfRange?)
  }

  /** With --all-locales every archive gets a generated name; for a build std::stoul can
      hold the server accepts each one, and for a larger build loading throws on each. */
  lemma AllLocalesNamesParse(output: Option<string>, build: nat)
    ensures forall l :: l in Locales(true, "") ==> GeneratedNameLoads(output, l, build)
  {
    AllLocalesAreLetters();
    forall l | l in Locales(true, "")
      ensures GeneratedNameLoads(output, l, build)
    {
      assert |l| == 4 && PatchRegistry.AllLetters(l);
      OutputNameParses(l, build);
    }
  }

  // ---------------------------------------------------------------- the archive's file table

  /** What add_file queues under a name: bytes held in memory, or a path read at save time. */
  datatype Entry = Data(content: string) | OnDisk(path: string)

  /** The exceptions add_file raises. */
  datatype AddError = FileNotFoundError | ValueError

  /** `mpq_filename.replace('/', '\\')` */
  function ArchiveName(name: string): (r: string)
    ensures |r| == |name|
  {
    seq(|name|, i requires 0 <= i < |name| => if name[i] == '/' then '\\' else name[i])
  }

  /** Every '/' of the name becomes a backslash; every other character stays. */
  lemma ArchiveNameAt(name: string)
    ensures forall i :: 0 <= i < |name| ==> ArchiveName(name)[i] == (if name[i] == '/' then '\\' else name[i])
  {
  }

  /** Archive names hold no '/', and converting twice changes nothing more. */
  lemma ArchiveNameNormal(name: string)
    ensures '/' !in ArchiveName(name)
    ensures ArchiveName(ArchiveName(name)) == ArchiveName(name)
  {
    var r := ArchiveName(name);
    ArchiveNameAt(name);
    ArchiveNameAt(r);
    assert forall i :: 0 <= i < |r| ==> r[i] != '/';
    assert forall i :: 0 <= i < |r| ==> ArchiveName(r)[i] == r[i];
  }

  /** A name without '/' is stored under itself. */
  lemma ArchiveNameOfPlain(name: string)
    requires '/' !in name
    ensures ArchiveName(name) == name
  {
    ArchiveNameAt(name);
    assert forall i :: 0 <= i < |name| ==> ArchiveName(name)[i] == name[i];
  }

  /** The result of add_file on the table `files`: data wins over a source path; a source
      path must exist; with neither, ValueError. */
  datatype Added = Added(error: Option<AddError>, files: map<string, Entry>)

  function Add(files: map<string, Entry>, name: string, data: Option<string>, sourcePath: Option<string>,
               sourceExists: bool): (r: Added)
    ensures r.error == Some(ValueError) <==> data.None? && sourcePath.None?
    ensures r.error == Some(FileNotFoundError) <==> data.None? && sourcePath.Some? && !sourceExists
    ensures r.error.Some? ==> r.files == files
    ensures r.error.None? ==>
      && r.files.Keys == files.Keys + {ArchiveName(name)}
      && r.files[ArchiveName(name)] == (if data.Some? then Data(data.value) else OnDisk(sourcePath.value))
      && forall k :: k in files && k != ArchiveName(name) ==> r.files[k] == files[k]
  {
    var key := ArchiveName(name);
    if data.Some? then Added(None, files[key := Data(data.value)])
    else if sourcePath.Some? then
      if !sourceExists then Added(Some(FileNotFoundError), files)
      else Added(None, files[key := OnDisk(sourcePath.value)])
    else Added(Some(ValueError), files)
  }

  /** Adding under a name that converts to the same archive name replaces the earlier
      entry: the table is as if only the second call had been made. */
  lemma ReAddOverwrites(files: map<string, Entry>, name1: string, data1: Option<string>, path1: Option<string>,
                        name2: string, data2: Option<string>, path2: Option<string>, exists2: bool)
    requires ArchiveName(name1) == ArchiveName(name2)
    requires data1.Some?
    requires Add(Add(files, name1, data1, path1, true).files, name2, data2, path2, exists2).error.None?
    ensures Add(Add(files, name1, data1, path1, true).files, name2, data2, path2, exists2)
      == Add(files, name2, data2, path2, exists2)
  {
    var once := Add(files, name1, data1, path1, true).files;
    var twice := Add(once, name2, data2, path2, exists2).files;
    var direct := Add(files, name2, data2, path2, exists2).files;
    assert twice.Keys == direct.Keys;
    assert forall k :: k in twice ==> twice[k] == direct[k];
  }

  /** MPQCreator's file table. Finding MPQEditor, saving and the temporary files are not
      part of this model. */
  class MpqCreator {
    var files: map<string, Entry>

    constructor ()
      ensures files == map[]
    {
      files := map[];
    }

    /** add_file: the table changes as Add says, and only on success. */
    method AddFile(name: string, data: Option<string>, sourcePath: Option<string>, sourceExists: bool)
      returns (error: Option<AddError>)
      modifies this
      ensures Added(error, files) == Add(old(files), name, data, sourcePath, sourceExists)
    {
      var key := ArchiveName(name);
      if data.Some? {
        files := files[key := Data(data.value)];
        return None;
      } else if sourcePath.Some? {
        if !sourceExists {
          return Some(FileNotFoundError);
        }
        files := files[key := OnDisk(sourcePath.value)];
        return None;
      } else {
        return Some(ValueError);
      }
    }
  }

  const CONFIG_NAME: string := "patch.cfg"
  const CONTENT_NAME: string := "content-patch.mpq"
  const CONTENT_MD5_NAME: string := "content-patch.md5"
  const PREPATCH_NAME: string := "prepatch.lst"
  const INSTALLER_NAME: string := "installer.exe"

  /** The five names main stores are their own archive names. */
  lemma StoredNames()
    ensures ArchiveName(CONFIG_NAME) == CONFIG_NAME && ArchiveName(CONTENT_NAME) == CONTENT_NAME
    ensures ArchiveName(CONTENT_MD5_NAME) == CONTENT_MD5_NAME && ArchiveName(PREPATCH_NAME) == PREPATCH_NAME
    ensures ArchiveName(INSTALLER_NAME) == INSTALLER_NAME
  {
    ArchiveNameOfPlain(CONFIG_NAME);
    ArchiveNameOfPlain(CONTENT_NAME);
    ArchiveNameOfPlain(CONTENT_MD5_NAME);
    ArchiveNameOfPlain(PREPATCH_NAME);
    ArchiveNameOfPlain(INSTALLER_NAME);
  }

  /** The prepatch.lst main stores: the given commands first, then the generated ones for
      the stored names. */
  function PrepatchFor(contentPatch: Option<string>, commands: seq<string>): (r: string)
    ensures var last := "execute " + INSTALLER_NAME + "\r\n"; |r| >= |last| && r[|r| - |last|..] == last
  {
    var lines := PrepatchLines(INSTALLER_NAME, CONFIG_NAME,
      if Truthy(contentPatch) then Some(CONTENT_NAME) else None,
      if Truthy(contentPatch) then Some(CONTENT_MD5_NAME) else None);
    EndsWithExecute(commands, lines, INSTALLER_NAME);
    WithCommands(commands, Terminated(lines))
  }

  /** Whatever commands come first, a text whose last generated line executes a file ends
      with that line. */
  lemma EndsWithExecute(commands: seq<string>, lines: seq<string>, name: string)
    requires lines != [] && lines[|lines| - 1] == "execute " + name
    ensures var r := WithCommands(commands, Terminated(lines));
      var last := "execute " + name + "\r\n";
      |r| >= |last| && r[|r| - |last|..] == last
  {
    var generated := Terminated(lines);
    TerminatedEndsWithLast(lines);
    SuffixOfSuffix(lines[|lines| - 1] + "\r\n", generated, WithCommands(commands, generated));
  }

  /** A suffix of a suffix is a suffix. */
  lemma SuffixOfSuffix<T>(a: seq<T>, b: seq<T>, c: seq<T>)
    requires |b| >= |a| && b[|b| - |a|..] == a
    requires |c| >= |b| && c[|c| - |b|..] == b
    ensures c[|c| - |a|..] == a
  {
    assert c[|c| - |a|..] == c[|c| - |b|..][|b| - |a|..];
  }

  /** The table main fills for one locale, after it has checked that the installer and the
      content patch exist; `contentDigest` is the MD5 of the content patch's bytes. */
  method PackageLocale(build: int, newBuild: int, contentPatch: Option<string>, contentDigest: seq<Bytes.byte>,
                       commands: seq<string>, installerPath: string)
    returns (mpq: MpqCreator)
    ensures fresh(mpq)
    ensures mpq.files == (if Truthy(contentPatch) then
        map[CONFIG_NAME := Data(CreatePatchConfig(build, newBuild)),
            CONTENT_NAME := OnDisk(contentPatch.value),
            CONTENT_MD5_NAME := Data(Md5Payload(contentDigest)),
            PREPATCH_NAME := Data(PrepatchFor(contentPatch, commands)),
            INSTALLER_NAME := OnDisk(installerPath)]
      else
        map[CONFIG_NAME := Data(CreatePatchConfig(build, newBuild)),
            PREPATCH_NAME := Data(PrepatchFor(contentPatch, commands)),
            INSTALLER_NAME := OnDisk(installerPath)])
  {
    StoredNames();
    var contentPatchName: Option<string> := if Truthy(contentPatch) then Some(CONTENT_NAME) else None;
    mpq := new MpqCreator();
    var e := mpq.AddFile(CONFIG_NAME, Some(CreatePatchConfig(build, newBuild)), None, true);
    var contentPatchMd5Name: Option<string> := None;
    if contentPatchName.Some? {
      e := mpq.AddFile(CONTENT_NAME, None, contentPatch, true);
      contentPatchMd5Name := Some(CONTENT_MD5_NAME);
      e := mpq.AddFile(CONTENT_MD5_NAME, Some(Md5Payload(contentDigest)), None, true);
    }
    var prepatch := CreatePrepatchLst(INSTALLER_NAME, CONFIG_NAME, contentPatchName, contentPatchMd5Name);
    if commands != [] {
      prepatch := Join(commands) + "\r\n" + prepatch;
    }
    assert prepatch == PrepatchFor(contentPatch, commands);
    e := mpq.AddFile(PREPATCH_NAME, Some(prepatch), None, true);
    e := mpq.AddFile(INSTALLER_NAME, None, Some(installerPath), true);
  }
}
