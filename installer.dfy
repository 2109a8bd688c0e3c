/** The text handling of the patch installer (installer.c): the patch.cfg reader, the check of
    the content patch against its .md5 file, the client locale detection and the search for a
    free patch-<locale>-N.MPQ slot. Files are given as their text (None when fopen fails) and
    the file system as the set of existing regular files and the set of existing
    directories. */
module Installer {
  import opened Wrappers
  import opened Bytes
  import opened Text
  import opened Md5Context

  // ---------------------------------------------------------------- C string helpers

  /** The index of the first c in s, or |s| when c does not occur (strchr). */
  function Find(s: string, c: char): (k: nat)
    ensures k <= |s|
    ensures forall i :: 0 <= i < k ==> s[i] != c
    ensures k < |s| ==> s[k] == c
  {
    if s == [] || s[0] == c then 0 else 1 + Find(s[1..], c)
  }

  /** The characters before the first c, or all of s when c does not occur (strchr followed
      by writing a terminator there). */
  function Before(s: string, c: char): string
  {
    s[..Find(s, c)]
  }

  lemma BeforeAbsent(s: string, c: char)
    requires c !in s
    ensures Before(s, c) == s
  {
    assert Find(s, c) == |s|;
  }

  lemma BeforeFirst(a: string, c: char, b: string)
    requires c !in a
    ensures Before(a + [c] + b, c) == a
  {
    var s := a + [c] + b;
    assert s[|a|] == c;
    assert Find(s, c) == |a|;
    assert s[..|a|] == a;
  }

  /** A character missing from a string is missing from each of its prefixes. */
  lemma PrefixLacks(a: string, s: string, c: char)
    requires |a| <= |s| && a == s[..|a|] && c !in s
    ensures c !in a
  {
    forall i | 0 <= i < |a| ensures a[i] != c {
      assert a[i] == s[i];
    }
  }

  /** The number of characters fgets(buf, cap + 1, f) takes from the text s: up to and
      including the first newline, and never more than cap. */
  function FgetsLen(s: string, cap: nat): (k: nat)
    requires cap >= 1
    ensures k <= |s| && k <= cap
    ensures s != [] ==> k >= 1
    ensures forall i :: 0 <= i < k - 1 ==> s[i] != '\n'
    ensures 1 <= k < |s| && k < cap ==> s[k - 1] == '\n'
  {
    if s == [] then 0
    else if s[0] == '\n' || cap == 1 then 1
    else 1 + FgetsLen(s[1..], cap - 1)
  }

  /** The successive results of fgets(buf, cap + 1, f) until it returns NULL. */
  function Lines(s: string, cap: nat): (ls: seq<string>)
    requires cap >= 1
    ensures s == [] <==> ls == []
    decreases |s|
  {
    if s == [] then [] else [s[..FgetsLen(s, cap)]] + Lines(s[FgetsLen(s, cap)..], cap)
  }

  /** The lines of a text that ends with a newline and whose lines are all shorter than the
      buffer come out of fgets one by one, each with its newline. */
  lemma LinesOfShortLine(line: string, rest: string, cap: nat)
    requires cap >= 1 && |line| < cap && '\n' !in line
    ensures Lines(line + "\n" + rest, cap) == [line + "\n"] + Lines(rest, cap)
  {
    var s := line + "\n" + rest;
    FgetsOfLine(line, rest, cap);
    assert s[..|line| + 1] == line + "\n";
    assert s[|line| + 1..] == rest;
  }

  lemma {:induction false} FgetsOfLine(line: string, rest: string, cap: nat)
    requires cap >= 1 && |line| < cap && '\n' !in line
    ensures FgetsLen(line + "\n" + rest, cap) == |line| + 1
    decreases |line|
  {
    var s := line + "\n" + rest;
    if line != [] {
      assert s[0] == line[0] && s[1..] == line[1..] + "\n" + rest;
      FgetsOfLine(line[1..], rest, cap - 1);
    }
  }

  // ---------------------------------------------------------------- blank trimming

  predicate IsBlank(c: char) { c == ' ' || c == '\t' }

  /** The number of leading blanks: `while (*p == ' ' || *p == '\t') p++;` */
  function BlankRun(s: string): (k: nat)
    ensures k <= |s|
    ensures forall i :: 0 <= i < k ==> IsBlank(s[i])
    ensures k < |s| ==> !IsBlank(s[k])
  {
    if s != [] && IsBlank(s[0]) then 1 + BlankRun(s[1..]) else 0
  }

  function SkipBlanks(s: string): string
  {
    s[BlankRun(s)..]
  }

  /** The length the key keeps after ReadConfig's trim: blanks are cut from the end, but the
      loop stops at the first character. */
  function KeyEnd(s: string): (k: nat)
    ensures k <= |s|
    ensures s != [] ==> k >= 1
    ensures k >= 2 ==> !IsBlank(s[k - 1])
    ensures forall i :: k <= i < |s| ==> IsBlank(s[i])
  {
    if |s| >= 2 && IsBlank(s[|s| - 1]) then KeyEnd(s[..|s| - 1]) else |s|
  }

  function TrimKeyEnd(s: string): string
  {
    s[..KeyEnd(s)]
  }

  /** The start-of-value loop of ReadConfig. */
  method SkipBlanksLoop(s: string) returns (start: nat)
    ensures start == BlankRun(s)
  {
    start := 0;
    while start < |s| && IsBlank(s[start])
      invariant start <= |s|
      invariant forall i :: 0 <= i < start ==> IsBlank(s[i])
    {
      start := start + 1;
    }
  }

  /** The end-of-key loop of ReadConfig, which never moves the end before the first
      character. */
  method TrimKeyEndLoop(s: string) returns (end: nat)
    ensures end == KeyEnd(s)
  {
    end := |s|;
    while end >= 2 && IsBlank(s[end - 1])
      invariant end <= |s|
      invariant s != [] ==> end >= 1
      invariant forall i :: end <= i < |s| ==> IsBlank(s[i])
    {
      end := end - 1;
    }
  }

  // ---------------------------------------------------------------- patch.cfg

  /** PatchConfig: the build to patch from and the build to patch to. */
  datatype PatchConfig = PatchConfig(oldBuild: u16, newBuild: u16)

  const DEFAULT_OLD_BUILD: u16 := 12340
  const DEFAULT_NEW_BUILD: u16 := 12341
  const DEFAULT_CONFIG := PatchConfig(DEFAULT_OLD_BUILD, DEFAULT_NEW_BUILD)

  /** fgets into `char line[256]` takes at most 255 characters. */
  const CONFIG_LINE_CAP: nat := 255

  /** A line with its newline cut off, then with everything from its first carriage return
      on cut off (and, as a C string, nothing after a NUL character counts). */
  function CutLine(line: string): (r: string)
    ensures |r| <= |line| && r == line[..|r|]
  {
    Before(Before(Before(line, '\0'), '\n'), '\r')
  }

  /** The key=value pair a line of patch.cfg holds: None for an empty line, a comment
      starting with '#' or ';', and a line without '='. The key is trimmed of blanks at both
      ends, the value at its start. */
  function ParseLine(line: string): (kv: Option<(string, string)>)
    ensures kv.Some? ==> kv.value.1 == [] || !IsBlank(kv.value.1[0])
  {
    ParseCut(CutLine(line))
  }

  /** The split of a cut line at its first '=' (strchr returning NULL when there is none). */
  function ParseCut(l: string): (kv: Option<(string, string)>)
    ensures kv.None? <==> l == [] || l[0] == '#' || l[0] == ';' || '=' !in l
    ensures kv.Some? ==> kv.value.1 == [] || !IsBlank(kv.value.1[0])
  {
    if l == [] || l[0] == '#' || l[0] == ';' then None
    else
      var key := Before(l, '=');
      if |key| == |l| then None
      else Some((TrimKeyEnd(SkipBlanks(key)), SkipBlanks(l[|key| + 1..])))
  }

  /** A line holding no newline, carriage return or NUL character is not cut. */
  lemma CutLineOfPlain(line: string)
    requires Plain(line)
    ensures CutLine(line) == line
  {
    BeforeAbsent(line, '\0');
    BeforeAbsent(line, '\n');
    BeforeAbsent(line, '\r');
  }

  /** A plain line that is not a comment splits at its first '='. */
  lemma ParseLineOf(head: string, tail: string)
    requires Plain(head) && Plain(tail) && '=' !in head
    requires head == [] || (head[0] != '#' && head[0] != ';')
    ensures ParseLine(head + "=" + tail) == Some((TrimKeyEnd(SkipBlanks(head)), SkipBlanks(tail)))
  {
    var line := head + "=" + tail;
    assert line == head + ['='] + tail;
    assert Plain(line);
    CutLineOfPlain(line);
    BeforeFirst(head, '=', tail);
    assert line[|head|] == '=';
    assert line[|head| + 1..] == tail;
    assert line[0] == if head == [] then '=' else head[0];
    var key := Before(line, '=');
    assert key == head && line[|key| + 1..] == tail;
  }

  /** No newline, carriage return or NUL character: the characters a line is cut at. */
  predicate Plain(s: string)
  {
    '\n' !in s && '\r' !in s && '\0' !in s
  }

  /** (WORD)atoi(value): the C conversion to a 16-bit unsigned value keeps the value modulo
      2^16. */
  function BuildValue(value: string): (b: u16)
    ensures (Atoi(value) - b) % 0x1_0000 == 0
    ensures 0 <= Atoi(value) < 0x1_0000 ==> b == Atoi(value)
  {
    Atoi(value) % 0x1_0000
  }

  /** The effect of one line: OLD_BUILD and NEW_BUILD (in any letter case) set their field,
      anything else is ignored. */
  function ApplyLine(cfg: PatchConfig, line: string): (r: PatchConfig)
    ensures ParseLine(line).None? ==> r == cfg
    ensures r.oldBuild == cfg.oldBuild || r.newBuild == cfg.newBuild
  {
    match ParseLine(line)
    case None => cfg
    case Some((key, value)) =>
      if EqualsIgnoreCase(key, "OLD_BUILD") then cfg.(oldBuild := BuildValue(value))
      else if EqualsIgnoreCase(key, "NEW_BUILD") then cfg.(newBuild := BuildValue(value))
      else cfg
  }

  function ApplyLines(cfg: PatchConfig, lines: seq<string>): PatchConfig
    decreases |lines|
  {
    if lines == [] then cfg else ApplyLines(ApplyLine(cfg, lines[0]), lines[1..])
  }

  /** The configuration a patch.cfg text yields. */
  function ConfigOf(text: string): (cfg: PatchConfig)
    ensures text == [] ==> cfg == DEFAULT_CONFIG
  {
    ApplyLines(DEFAULT_CONFIG, Lines(text, CONFIG_LINE_CAP))
  }

  /** The per-line work of ReadConfig: cut the line, skip comments and lines without '=',
      split at the first '=' and trim the key and the value. */
  method ParseConfigLine(line: string) returns (kv: Option<(string, string)>)
    ensures kv == ParseLine(line)
  {
    var l := CutLine(line);
    if l == [] || l[0] == '#' || l[0] == ';' {
      return None;
    }
    var key := Before(l, '=');
    if |key| == |l| {
      return None;
    }
    var value := l[|key| + 1..];
    var start := SkipBlanksLoop(key);
    key := key[start..];
    var end := TrimKeyEndLoop(key);
    key := key[..end];
    start := SkipBlanksLoop(value);
    value := value[start..];
    kv := Some((key, value));
  }

  /** ReadConfig: the defaults when the file cannot be opened (and false); otherwise every
      line read by fgets applied in order (and true). */
  method ReadConfig(file: Option<string>) returns (loaded: bool, config: PatchConfig)
    ensures loaded <==> file.Some?
    ensures file.None? ==> config == DEFAULT_CONFIG
    ensures file.Some? ==> config == ConfigOf(file.value)
  {
    config := DEFAULT_CONFIG;
    if file.None? {
      return false, config;
    }
    var rest := file.value;
    while rest != []
      invariant ApplyLines(config, Lines(rest, CONFIG_LINE_CAP)) == ConfigOf(file.value)
      decreases |rest|
    {
      var n := FgetsLen(rest, CONFIG_LINE_CAP);
      var line := rest[..n];
      rest := rest[n..];
      var kv := ParseConfigLine(line);
      if kv.Some? {
        var (key, value) := kv.value;
        if EqualsIgnoreCase(key, "OLD_BUILD") {
          config := config.(oldBuild := BuildValue(value));
        } else if EqualsIgnoreCase(key, "NEW_BUILD") {
          config := config.(newBuild := BuildValue(value));
        }
      }
    }
    loaded := true;
  }

  // ---------------------------------------------------------------- what ReadConfig promises

  /** The two keys of patch.cfg. */
  datatype ConfigKey = OldBuild | NewBuild

  function KeyName(k: ConfigKey): string
  {
    match k
    case OldBuild => "OLD_BUILD"
    case NewBuild => "NEW_BUILD"
  }

  function Get(cfg: PatchConfig, k: ConfigKey): u16
  {
    match k
    case OldBuild => cfg.oldBuild
    case NewBuild => cfg.newBuild
  }

  /** The line sets key k. */
  predicate Sets(line: string, k: ConfigKey)
  {
    ParseLine(line).Some? && EqualsIgnoreCase(ParseLine(line).value.0, KeyName(k))
  }

  lemma KeyNamesDiffer()
    ensures !EqualsIgnoreCase("OLD_BUILD", "NEW_BUILD")
  {
    assert Lower("OLD_BUILD")[0] == 'o';
    assert Lower("NEW_BUILD")[0] == 'n';
  }

  /** A line that sets key k gives it its value; any other line leaves k alone. */
  lemma ApplyLineKey(cfg: PatchConfig, line: string, k: ConfigKey)
    ensures Sets(line, k) ==> Get(ApplyLine(cfg, line), k) == BuildValue(ParseLine(line).value.1)
    ensures !Sets(line, k) ==> Get(ApplyLine(cfg, line), k) == Get(cfg, k)
  {
    match ParseLine(line)
    case None =>
    case Some((key, value)) =>
      KeyNamesDiffer();
      if EqualsIgnoreCase(key, "OLD_BUILD") {
        assert ApplyLine(cfg, line) == cfg.(oldBuild := BuildValue(value));
      } else if EqualsIgnoreCase(key, "NEW_BUILD") {
        assert ApplyLine(cfg, line) == cfg.(newBuild := BuildValue(value));
      } else {
        assert ApplyLine(cfg, line) == cfg;
      }
  }

  lemma {:induction false} ApplyLinesAppend(cfg: PatchConfig, a: seq<string>, b: seq<string>)
    ensures ApplyLines(cfg, a + b) == ApplyLines(ApplyLines(cfg, a), b)
    decreases |a|
  {
    if a == [] {
      assert a + b == b;
    } else {
      assert (a + b)[0] == a[0] && (a + b)[1..] == a[1..] + b;
      ApplyLinesAppend(ApplyLine(cfg, a[0]), a[1..], b);
    }
  }

  /** Lines that do not set k leave k as it was. */
  lemma {:induction false} ApplyLinesUnset(cfg: PatchConfig, lines: seq<string>, k: ConfigKey)
    requires forall i :: 0 <= i < |lines| ==> !Sets(lines[i], k)
    ensures Get(ApplyLines(cfg, lines), k) == Get(cfg, k)
    decreases |lines|
  {
    if lines != [] {
      ApplyLineKey(cfg, lines[0], k);
      ApplyLinesUnset(ApplyLine(cfg, lines[0]), lines[1..], k);
    }
  }

  /** The last line that sets a key decides its value, whatever came before. */
  lemma LastSettingWins(cfg: PatchConfig, before: seq<string>, line: string, after: seq<string>, k: ConfigKey)
    requires Sets(line, k)
    requires forall i :: 0 <= i < |after| ==> !Sets(after[i], k)
    ensures Get(ApplyLines(cfg, before + [line] + after), k) == BuildValue(ParseLine(line).value.1)
  {
    ApplyLinesAppend(cfg, before + [line], after);
    ApplyLinesAppend(cfg, before, [line]);
    var mid := ApplyLines(cfg, before);
    assert ApplyLines(mid, [line]) == ApplyLine(mid, line);
    ApplyLineKey(mid, line, k);
    ApplyLinesUnset(ApplyLine(mid, line), after, k);
  }

  /** Comment lines and lines without '=' change nothing. */
  lemma IgnoredLines(cfg: PatchConfig, line: string)
    requires (line != [] && (line[0] == '#' || line[0] == ';')) || '=' !in line
    ensures ApplyLine(cfg, line) == cfg
  {
    var l := CutLine(line);
    if '=' !in line {
      PrefixLacks(l, line, '=');
    } else if l != [] {
      assert l[0] == line[0];
    }
  }

  /** Lower-case keys and blanks around the key and after the '=' are accepted. */
  lemma KeyLine(pre: string, key: string, post: string, blanks: string, value: string, k: ConfigKey)
    requires forall i :: 0 <= i < |pre| ==> IsBlank(pre[i])
    requires forall i :: 0 <= i < |post| ==> IsBlank(post[i])
    requires forall i :: 0 <= i < |blanks| ==> IsBlank(blanks[i])
    requires EqualsIgnoreCase(key, KeyName(k))
    requires value == [] || !IsBlank(value[0])
    requires Plain(value)
    ensures Sets(pre + key + post + "=" + blanks + value, k)
    ensures ParseLine(pre + key + post + "=" + blanks + value).value.1 == value
  {
    var head := pre + key + post;
    var tail := blanks + value;
    assert pre + key + post + "=" + blanks + value == head + "=" + tail;
    KeyHead(pre, key, post, k);
    BlanksArePlain(blanks);
    assert Plain(tail);
    ParseLineOf(head, tail);
    SkipBlanksPrefix(blanks, value);
  }

  /** The part before the '=': blanks, the key, blanks. */
  lemma KeyHead(pre: string, key: string, post: string, k: ConfigKey)
    requires forall i :: 0 <= i < |pre| ==> IsBlank(pre[i])
    requires forall i :: 0 <= i < |post| ==> IsBlank(post[i])
    requires EqualsIgnoreCase(key, KeyName(k))
    ensures Plain(pre + key + post) && '=' !in pre + key + post
    ensures (pre + key + post)[0] != '#' && (pre + key + post)[0] != ';'
    ensures TrimKeyEnd(SkipBlanks(pre + key + post)) == key
  {
    KeyChars(key, k);
    var head := pre + key + post;
    BlanksArePlain(pre);
    BlanksArePlain(post);
    assert Plain(head) && '=' !in head;
    assert head[0] == if pre == [] then key[0] else pre[0];
    assert head == pre + (key + post);
    SkipBlanksPrefix(pre, key + post);
    assert SkipBlanks(head) == key + post;
    TrimKeyEndSuffix(key, post);
    assert TrimKeyEnd(SkipBlanks(head)) == key;
    assert Plain(pre + key + post);
    assert (pre + key + post)[0] != '#';
  }

  lemma BlanksArePlain(s: string)
    requires forall i :: 0 <= i < |s| ==> IsBlank(s[i])
    ensures Plain(s) && '=' !in s && '#' !in s && ';' !in s
  {
  }

  /** A key equal to OLD_BUILD or NEW_BUILD up to letter case is nine letters and
      underscores. */
  lemma KeyChars(key: string, k: ConfigKey)
    requires EqualsIgnoreCase(key, KeyName(k))
    ensures |key| == 9 && !IsBlank(key[0]) && !IsBlank(key[8])
    ensures key[0] != '#' && key[0] != ';'
    ensures Plain(key) && '=' !in key
  {
    var name := KeyName(k);
    assert |Lower(key)| == |key| && |Lower(name)| == |name| == 9;
    forall i | 0 <= i < 9
      ensures IsLetter(key[i]) || key[i] == '_'
    {
      LowerAt(key, i);
      LowerAt(name, i);
      assert IsLetter(name[i]) || name[i] == '_';
    }
  }

  lemma SkipBlanksPrefix(blanks: string, s: string)
    requires forall i :: 0 <= i < |blanks| ==> IsBlank(blanks[i])
    requires s == [] || !IsBlank(s[0])
    ensures SkipBlanks(blanks + s) == s
  {
    var t := blanks + s;
    assert BlankRun(t) == |blanks|;
    assert t[|blanks|..] == s;
  }

  lemma TrimKeyEndSuffix(key: string, post: string)
    requires |key| >= 1 && !IsBlank(key[|key| - 1])
    requires forall i :: 0 <= i < |post| ==> IsBlank(post[i])
    ensures TrimKeyEnd(key + post) == key
  {
    var t := key + post;
    assert t[|key| - 1] == key[|key| - 1];
    assert KeyEnd(t) == |key|;
    assert t[..|key|] == key;
  }

  // ---------------------------------------------------------------- content patch MD5

  /** fgets into `char expectedMD5[64]` takes at most 63 characters. */
  const MD5_LINE_CAP: nat := 63

  predicate IsHashTrim(c: char) { c == '\n' || c == '\r' || c == ' ' }

  /** The trim loop of VerifyContentPatchMD5: newlines, carriage returns and spaces are cut
      from the end, as many as there are. */
  function HashEnd(s: string): (k: nat)
    ensures k <= |s|
    ensures k == 0 || !IsHashTrim(s[k - 1])
    ensures forall i :: k <= i < |s| ==> IsHashTrim(s[i])
  {
    if s != [] && IsHashTrim(s[|s| - 1]) then HashEnd(s[..|s| - 1]) else |s|
  }

  function TrimHash(s: string): (t: string)
    ensures |t| <= |s| && t == s[..|t|]
    ensures t == [] || !IsHashTrim(t[|t| - 1])
    ensures forall i :: |t| <= i < |s| ==> IsHashTrim(s[i])
  {
    s[..HashEnd(s)]
  }

  method TrimHashLoop(s: string) returns (t: string)
    ensures t == TrimHash(s)
  {
    var i: nat := |s|;
    while i > 0 && IsHashTrim(s[i - 1])
      invariant i <= |s|
      invariant forall j :: i <= j < |s| ==> IsHashTrim(s[j])
    {
      i := i - 1;
    }
    t := s[..i];
  }

  /** The expected hash as VerifyContentPatchMD5 reads it from a non-empty .md5 text: the
      first fgets line, as a C string, trimmed at the end. */
  function ExpectedHash(text: string): (h: string)
    requires text != []
  {
    TrimHash(Before(text[..FgetsLen(text, MD5_LINE_CAP)], '\0'))
  }

  /** VerifyContentPatchMD5: passes when there is no .md5 file; fails when it is empty or
      the patch cannot be read; otherwise passes exactly when the trimmed expected hash
      equals the lower-case hex MD5 of the patch, ignoring letter case. */
  method VerifyContentPatchMD5(patch: Option<seq<byte>>, md5File: Option<string>, transform: Transform)
    returns (ok: bool)
    ensures md5File.None? ==> ok
    ensures md5File.Some? && md5File.value == [] ==> !ok
    ensures md5File.Some? && md5File.value != [] ==>
      (ok <==> patch.Some? && EqualsIgnoreCase(ExpectedHash(md5File.value), HexLower(Md5(transform, patch.value))))
  {
    if md5File.None? {
      return true;
    }
    var text := md5File.value;
    if text == [] {
      return false;
    }
    var line := text[..FgetsLen(text, MD5_LINE_CAP)];
    var expected := TrimHashLoop(Before(line, '\0'));
    var actual := CalculateFileMD5(patch, transform);
    if actual.None? {
      return false;
    }
    ok := EqualsIgnoreCase(expected, actual.value);
  }

  // ---------------------------------------------------------------- locale and slot

  /** KNOWN_LOCALES, in the order DetectClientLocale tries them. */
  const KNOWN_LOCALES: seq<string> :=
    ["frFR", "enUS", "enGB", "deDE", "esES", "esMX", "ruRU", "zhCN", "zhTW", "koKR", "ptBR", "itIT"]

  function LocaleDir(locale: string): string
  {
    "Data\\" + locale
  }

  /** DetectClientLocale: the first known locale, in list order, whose Data\<locale> folder
      exists; None when there is none. */
  method DetectClientLocale(dirs: set<string>) returns (locale: Option<string>)
    ensures locale.None? <==> forall i :: 0 <= i < |KNOWN_LOCALES| ==> LocaleDir(KNOWN_LOCALES[i]) !in dirs
    ensures locale.Some? ==>
      exists i :: 0 <= i < |KNOWN_LOCALES| && locale.value == KNOWN_LOCALES[i]
        && LocaleDir(KNOWN_LOCALES[i]) in dirs
        && (forall j :: 0 <= j < i ==> LocaleDir(KNOWN_LOCALES[j]) !in dirs)
  {
    var i := 0;
    while i < |KNOWN_LOCALES|
      invariant i <= |KNOWN_LOCALES|
      invariant forall j :: 0 <= j < i ==> LocaleDir(KNOWN_LOCALES[j]) !in dirs
    {
      if LocaleDir(KNOWN_LOCALES[i]) in dirs {
        return Some(KNOWN_LOCALES[i]);
      }
      i := i + 1;
    }
    return None;
  }

  /** The path of patch slot n: <localeDir>\patch-<locale>-<n>.MPQ. */
  function SlotPath(localeDir: string, locale: string, n: int): string
  {
    localeDir + "\\patch-" + locale + "-" + IntToDecimal(n) + ".MPQ"
  }

  /** FindNextPatchNumber: the least n in 2..9 whose slot file does not exist, or -1 when all
      eight exist. */
  method FindNextPatchNumber(localeDir: string, locale: string, files: set<string>) returns (n: int)
    ensures n == -1 || 2 <= n <= 9
    ensures n == -1 <==> forall k :: 2 <= k <= 9 ==> SlotPath(localeDir, locale, k) in files
    ensures n != -1 ==>
      SlotPath(localeDir, locale, n) !in files
      && (forall k :: 2 <= k < n ==> SlotPath(localeDir, locale, k) in files)
  {
    n := 2;
    while n <= 9
      invariant 2 <= n <= 10
      invariant forall k :: 2 <= k < n ==> SlotPath(localeDir, locale, k) in files
    {
      if SlotPath(localeDir, locale, n) !in files {
        return n;
      }
      n := n + 1;
    }
    return -1;
  }
}
