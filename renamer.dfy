/**
 * The per-file decisions of ExifRenamer.rb: moveFilenameByTag,
 * writeTagByFilename and setFileCreationTimeByFilename, each turned into a
 * function from what the script observes about one file to the commands it
 * issues for it, and the run over all paths in order.
 *
 * The file system and exiftool are inputs (FileFacts): whether the path
 * exists, what the exiftool read printed, and the file's ctime. The
 * screenshot name and the platform are inputs as well (Env).
 */
module Renamer {
  import opened Wrappers
  import opened Text
  import opened Paths
  import opened Timestamps

  /** A command the script hands to `echo` and `system`. */
  datatype Action =
    | Rename(from: string, to: string)          // mv (lines 48 and 76)
    | WriteTags(path: string, value: string)     // exiftool writing DateTimeOriginal, CreateDate and ModifyDate (line 70)
    | SetFileDates(path: string, time: string)   // setfile -d and -m, on darwin (line 94)
    | SetItemTimes(path: string, time: string)   // powershell Set-ItemProperty, on mingw32 (lines 103-104)

  /** The file the command acts on. */
  function Subject(a: Action): string {
    match a
    case Rename(from, _) => from
    case WriteTags(path, _) => path
    case SetFileDates(path, _) => path
    case SetItemTimes(path, _) => path
  }

  /** What handling one file comes to: its commands, in order, or an
      exception that ends the whole run (line 64, rescued at lines 141-143). */
  datatype Outcome = Proceed(actions: seq<Action>) | Abort

  /** What the script learns about one path while handling it. `tagOutput`
      is everything the mode's exiftool read printed; `ctime` is the file's
      change time. */
  datatype FileFacts = FileFacts(path: string, present: bool, tagOutput: string, ctime: DateTime)

  /** `Gem::Platform.local.os` and CAPTURE_NAME (lines 26 and 85). */
  datatype Env = Env(os: string, captureName: string)

  /** The operation chosen by `-c`, `-m` or `-w` (lines 117-119). */
  datatype Mode = Ctime | Move | Write

  // ---------------------------------------------------------------------
  // Move by tag (lines 32-52)

  /** The characters `gsub(/[^\d\-_]/,'')` keeps. */
  predicate IsDateChar(c: char) {
    IsDigit(c) || c == '-' || c == '_'
  }

  predicate IsDateText(s: string) {
    forall i :: 0 <= i < |s| ==> IsDateChar(s[i])
  }

  /** `gsub(/[^\d\-_]/,'')`: the date characters of `s`, in order. */
  function Sanitise(s: string): (r: string)
    ensures IsDateText(r)
    ensures IsSubsequence(r, s)
  {
    if s == [] then ""
    else
      var rest := Sanitise(s[1..]);
      if IsDateChar(s[0]) then
        assert ([s[0]] + rest)[1..] == rest;
        [s[0]] + rest
      else rest
  }

  /** Text made of date characters only passes through unchanged. */
  lemma {:induction false} SanitiseKeepsDateText(s: string)
    requires IsDateText(s)
    ensures Sanitise(s) == s
  {
    if s != [] {
      SanitiseKeepsDateText(s[1..]);
      assert s == [s[0]] + s[1..];
    }
  }

  /** Sanitising twice is sanitising once. */
  lemma {:induction false} SanitiseIdempotent(s: string)
    ensures Sanitise(Sanitise(s)) == Sanitise(s)
  {
    SanitiseKeepsDateText(Sanitise(s));
  }

  /** The filter looks at each character on its own. */
  lemma {:induction false} SanitiseAppend(a: string, b: string)
    ensures Sanitise(a + b) == Sanitise(a) + Sanitise(b)
  {
    if a != [] {
      SanitiseAppend(a[1..], b);
      assert (a + b)[0] == a[0];
      assert (a + b)[1..] == a[1..] + b;
    } else {
      assert a + b == b;
    }
  }

  /** `dateOrg` of moveFilenameByTag: the sanitised exiftool output, or the
      file's ctime in DATE_FORMAT when nothing is left of it. */
  function TagDate(tagOutput: string, ctime: DateTime): (r: string)
    ensures r != [] && IsDateText(r)
    ensures '.' !in r && '/' !in r
    ensures Sanitise(tagOutput) != [] ==> r == Sanitise(tagOutput)
    ensures Sanitise(tagOutput) == [] ==> IsCanonical(r)
    ensures Sanitise(tagOutput) == [] && InRange(ctime) ==> Parse(r) == Some(ctime)
  {
    var d := Sanitise(tagOutput);
    var r := if d == [] then Strftime(ctime) else d;
    if d == [] && InRange(ctime) then
      ParseStrftime(ctime);
      r
    else r
  }

  /** The destination of a rename in either mode:
      `File.join(dirname, date + downcased extname)`. */
  function MoveTarget(path: string, date: string): (r: string)
    ensures '/' !in date ==>
      Dirname(path) <= r && Basename(r) == date + Downcase(ExtName(Basename(path)))
  {
    var ext := ExtName(Basename(path));
    assert '/' !in ext by {
      if ext != [] {
        assert ext == Basename(path)[|Basename(path)| - |ext|..];
      }
    }
    DowncaseKeepsOthers(ext, '/');
    Join(Dirname(path), date + Downcase(ext))
  }

  /** The target stays in the file's directory, unless that directory ends
      in a `/` other than the root (a path with a doubled `/`). */
  lemma MoveTargetStaysInDirectory(path: string, date: string)
    requires '/' !in date
    requires var dir := Dirname(path); dir == "/" || dir[|dir| - 1] != '/'
    ensures Dirname(MoveTarget(path, date)) == Dirname(path)
  {
    var name := date + Downcase(ExtName(Basename(path)));
    assert '/' !in name by {
      assert Basename(MoveTarget(path, date)) == name;
    }
    DirnameJoin(Dirname(path), name);
  }

  /** moveFilenameByTag: rename when forced or when the tag date differs, as
      a string, from the stem of the basename (a basename without `.` has no
      stem and never matches). */
  function MoveDecision(f: FileFacts, force: bool): (r: seq<Action>)
    ensures |r| <= 1
    ensures r != [] <==> f.present && (force || Stem(Basename(f.path)) != Some(TagDate(f.tagOutput, f.ctime)))
    ensures r != [] ==>
      var name := TagDate(f.tagOutput, f.ctime) + Downcase(ExtName(Basename(f.path)));
      r[0].Rename? && r[0].from == f.path && Dirname(f.path) <= r[0].to && Basename(r[0].to) == name
    ensures r != [] ==> r[0].to == Join(Dirname(f.path), TagDate(f.tagOutput, f.ctime) + Downcase(ExtName(Basename(f.path))))
    ensures forall a :: a in r ==> Subject(a) == f.path
  {
    if !f.present then []
    else
      var date := TagDate(f.tagOutput, f.ctime);
      if force || Stem(Basename(f.path)) != Some(date) then
        var r := [Rename(f.path, MoveTarget(f.path, date))];
        assert forall a :: a in r ==> a == r[0];
        r
      else []
  }

  /** Downcasing an extension keeps its leading `.` and adds no other `.`. */
  lemma DowncaseExtension(base: string)
    requires ExtName(base) != [] && '/' !in base
    ensures var ext := Downcase(ExtName(base));
      |ext| >= 1 && ext[0] == '.' && '.' !in ext[1..] && '/' !in ext
  {
    var split := SplitStem(base).value;
    var e := ExtName(base);
    assert e == "." + split.1;
    var d := Downcase(e);
    assert d[1..] == Downcase(split.1);
    DowncaseKeepsOthers(split.1, '.');
    DowncaseKeepsOthers(e, '/');
  }

  /** Move is idempotent: after a rename to `<date><ext>` with a non-empty
      extension, a second unforced run that sees the same tag output and
      ctime finds the stem equal to the date and renames nothing. */
  lemma {:induction false} MoveIdempotent(f: FileFacts, force: bool, target: string)
    requires MoveDecision(f, force) == [Rename(f.path, target)]
    requires ExtName(Basename(f.path)) != []
    ensures MoveDecision(f.(path := target), false) == []
  {
    var date := TagDate(f.tagOutput, f.ctime);
    assert Basename(target) == date + Downcase(ExtName(Basename(f.path)));
    DatedNameHasStem(date, Basename(f.path));
    var g := f.(path := target);
    assert TagDate(g.tagOutput, g.ctime) == date;
  }

  /** `<date><lowercased extension>` splits back into the date, when the
      date has no `.` and the extension is not empty. */
  lemma DatedNameHasStem(date: string, base: string)
    requires '.' !in date && '/' !in base && ExtName(base) != []
    ensures Stem(date + Downcase(ExtName(base))) == Some(date)
  {
    var ext := Downcase(ExtName(base));
    DowncaseExtension(base);
    var suffix := ext[1..];
    assert ext == "." + suffix;
    assert date + ext == date + "." + suffix by {
      assert date + ("." + suffix) == date + "." + suffix;
    }
    SplitStemAt(date, suffix);
  }

  /** A basename without `.` has no stem: it is renamed even when not
      forced, to the date alone, since its extension is empty too. */
  lemma MoveWithoutStemRenames(f: FileFacts)
    requires f.present && '.' !in Basename(f.path)
    ensures MoveDecision(f, false) == [Rename(f.path, Join(Dirname(f.path), TagDate(f.tagOutput, f.ctime)))]
  {
    assert ExtName(Basename(f.path)) == [];
    assert Downcase([]) == [];
    assert TagDate(f.tagOutput, f.ctime) + [] == TagDate(f.tagOutput, f.ctime);
  }

  /** Without an extension the rename is not idempotent: the renamed file
      has a date without `.` as its name, so every further run renames it
      again, to the same name. */
  lemma {:induction false} MoveWithoutExtensionRepeats(f: FileFacts, force: bool, target: string)
    requires MoveDecision(f, force) == [Rename(f.path, target)]
    requires ExtName(Basename(f.path)) == []
    ensures var again := MoveDecision(f.(path := target), false);
      again != [] && again[0].from == target && Basename(again[0].to) == Basename(target)
  {
    var date := TagDate(f.tagOutput, f.ctime);
    assert Downcase([]) == [];
    assert date + [] == date;
    assert Basename(target) == date;
    MoveWithoutStemRenames(f.(path := target));
  }

  // ---------------------------------------------------------------------
  // Write tag by filename (lines 54-80)

  /** `%Y-%m-%d %H.%M.%S`, the stamp in a screenshot's name. */
  const CAPTURE := Separators('-', '-', ' ', '.', '.')

  /** `%Y-%m-%d %H.%M.%S` and DATE_FORMAT as patterns: `#` stands for a
      digit, any other character for itself. */
  const CAPTURE_PATTERN := "####-##-## ##.##.##"
  const CANONICAL_PATTERN := "####-##-##_##-##-##"

  /** `s` begins with text that fits `pattern`. */
  predicate Fits(s: string, pattern: string)
    decreases pattern
  {
    pattern == [] ||
    (s != [] && (if pattern[0] == '#' then IsDigit(s[0]) else s[0] == pattern[0]) && Fits(s[1..], pattern[1..]))
  }

  /** `s` read through the pattern `from` and written out through `to`: the
      characters in digit positions are kept, the others replaced by `to`'s. */
  function Recast(s: string, from: string, to: string): string
    decreases from
  {
    if s == [] || from == [] || to == [] then []
    else [if from[0] == '#' then s[0] else to[0]] + Recast(s[1..], from[1..], to[1..])
  }

  /** `Time.strptime(name, "<CAPTURE_NAME> %Y-%m-%d %H.%M.%S")` followed by
      `strftime(DATE_FORMAT)`, applied to the text after `"<CAPTURE_NAME> "`:
      the stamp recast into DATE_FORMAT, or None where strptime raises. Text
      after the stamp is ignored. The value is defined exactly when the text
      starts with a `%Y-%m-%d %H.%M.%S` stamp, and is a DATE_FORMAT string
      with the stamp's six digit groups. */
  function CaptureNormalise(rest: string): (r: Option<string>)
    ensures r.Some? <==> StartsWithLayout(rest, CAPTURE)
    ensures r.Some? ==> IsCanonical(r.value) && Slice(r.value) == Slice(rest)
  {
    FitsCapture(rest);
    if Fits(rest, CAPTURE_PATTERN) then
      var d := Recast(rest, CAPTURE_PATTERN, CANONICAL_PATTERN);
      RecastCapture(rest);
      CharsLayout(d, CANONICAL);
      SameDigitsSlice(d, rest);
      Some(d)
    else None
  }

  /** One character against one pattern character. */
  predicate FitsChar(c: char, p: char) {
    if p == '#' then IsDigit(c) else c == p
  }

  lemma {:induction false} FitsAt(s: string, pattern: string, i: nat)
    requires Fits(s, pattern) && i < |pattern|
    ensures |pattern| <= |s| && FitsChar(s[i], pattern[i])
    decreases pattern
  {
    if i > 0 {
      FitsAt(s[1..], pattern[1..], i - 1);
    } else if |pattern| > 1 {
      FitsAt(s[1..], pattern[1..], 0);
    }
  }

  lemma {:induction false} FitsAll(s: string, pattern: string)
    requires |pattern| <= |s|
    requires forall i :: 0 <= i < |pattern| ==> FitsChar(s[i], pattern[i])
    ensures Fits(s, pattern)
    decreases pattern
  {
    if pattern != [] {
      forall i | 0 <= i < |pattern| - 1
        ensures FitsChar(s[1..][i], pattern[1..][i])
      {
        assert FitsChar(s[i + 1], pattern[i + 1]);
      }
      FitsAll(s[1..], pattern[1..]);
    }
  }

  lemma {:induction false} RecastAt(s: string, from: string, to: string, i: nat)
    requires |from| <= |s| && |from| == |to| && i < |from|
    ensures |Recast(s, from, to)| == |from|
    ensures Recast(s, from, to)[i] == if from[i] == '#' then s[i] else to[i]
    decreases from
  {
    if i > 0 {
      RecastAt(s[1..], from[1..], to[1..], i - 1);
    } else if |from| > 1 {
      RecastAt(s[1..], from[1..], to[1..], 0);
    }
  }

  /** Two digits in a row form a two-digit group. */
  lemma DigitPair(s: string, k: nat)
    requires k + 2 <= |s| && IsDigit(s[k]) && IsDigit(s[k + 1])
    ensures IsDigitGroup(s[k..k + 2], 2)
  {
    assert s[k..k + 2] == [s[k], s[k + 1]];
  }

  /** The nineteen characters a date string in year-to-second order is made of. */
  predicate DigitsAndSeparators(s: string, sep: Separators) {
    |s| >= 19 &&
    IsDigit(s[0]) && IsDigit(s[1]) && IsDigit(s[2]) && IsDigit(s[3]) && s[4] == sep.a &&
    IsDigit(s[5]) && IsDigit(s[6]) && s[7] == sep.b && IsDigit(s[8]) && IsDigit(s[9]) && s[10] == sep.c &&
    IsDigit(s[11]) && IsDigit(s[12]) && s[13] == sep.d && IsDigit(s[14]) && IsDigit(s[15]) && s[16] == sep.e &&
    IsDigit(s[17]) && IsDigit(s[18])
  }

  lemma CharsLayout(s: string, sep: Separators)
    requires DigitsAndSeparators(s, sep)
    ensures StartsWithLayout(s, sep)
  {
    DigitPair(s, 0);
    DigitPair(s, 2);
    assert s[0..4] == s[0..2] + s[2..4];
    DigitPair(s, 5);
    DigitPair(s, 8);
    DigitPair(s, 11);
    DigitPair(s, 14);
    DigitPair(s, 17);
  }

  lemma FitsCaptureChars(s: string)
    requires Fits(s, CAPTURE_PATTERN)
    ensures DigitsAndSeparators(s, CAPTURE)
  {
    var p := CAPTURE_PATTERN;
    FitsAt(s, p, 0);
    FitsAt(s, p, 1);
    FitsAt(s, p, 2);
    FitsAt(s, p, 3);
    FitsAt(s, p, 4);
    FitsAt(s, p, 5);
    FitsAt(s, p, 6);
    FitsAt(s, p, 7);
    FitsAt(s, p, 8);
    FitsAt(s, p, 9);
    FitsAt(s, p, 10);
    FitsAt(s, p, 11);
    FitsAt(s, p, 12);
    FitsAt(s, p, 13);
    FitsAt(s, p, 14);
    FitsAt(s, p, 15);
    FitsAt(s, p, 16);
    FitsAt(s, p, 17);
    FitsAt(s, p, 18);
  }

  lemma FitsCaptureLayout(s: string)
    requires Fits(s, CAPTURE_PATTERN)
    ensures StartsWithLayout(s, CAPTURE)
  {
    FitsCaptureChars(s);
    CharsLayout(s, CAPTURE);
  }

  /** The screenshot pattern describes the `%Y-%m-%d %H.%M.%S` layout. */
  lemma FitsCapture(s: string)
    ensures Fits(s, CAPTURE_PATTERN) <==> StartsWithLayout(s, CAPTURE)
  {
    if Fits(s, CAPTURE_PATTERN) {
      FitsCaptureLayout(s);
    }
    if StartsWithLayout(s, CAPTURE) {
      CaptureLayoutFits(s);
    }
  }

  lemma CaptureLayoutFits(s: string)
    requires StartsWithLayout(s, CAPTURE)
    ensures Fits(s, CAPTURE_PATTERN)
  {
    var p := CAPTURE_PATTERN;
    var f := Slice(s);
    forall i | 0 <= i < 19
      ensures FitsChar(s[i], p[i])
    {
      if i < 4 { assert s[i] == f.year[i]; }
      else if 4 < i < 7 { assert s[i] == f.month[i - 5]; }
      else if 7 < i < 10 { assert s[i] == f.day[i - 8]; }
      else if 10 < i < 13 { assert s[i] == f.hour[i - 11]; }
      else if 13 < i < 16 { assert s[i] == f.minute[i - 14]; }
      else if 16 < i { assert s[i] == f.second[i - 17]; }
    }
    FitsAll(s, p);
  }

  /** `d` and `s` agree in the fourteen digit positions of a date string. */
  predicate SameDigits(d: string, s: string) {
    |d| >= 19 && |s| >= 19 &&
    d[0] == s[0] && d[1] == s[1] && d[2] == s[2] && d[3] == s[3] && d[5] == s[5] && d[6] == s[6] &&
    d[8] == s[8] && d[9] == s[9] && d[11] == s[11] && d[12] == s[12] && d[14] == s[14] && d[15] == s[15] &&
    d[17] == s[17] && d[18] == s[18]
  }

  lemma SameDigitsSlice(d: string, s: string)
    requires SameDigits(d, s)
    ensures Slice(d) == Slice(s)
  {
    assert d[0..4] == s[0..4];
    assert d[5..7] == s[5..7];
    assert d[8..10] == s[8..10];
    assert d[11..13] == s[11..13];
    assert d[14..16] == s[14..16];
    assert d[17..19] == s[17..19];
  }

  /** Recasting a screenshot stamp keeps its digits and puts DATE_FORMAT's
      separators between them. */
  lemma RecastCapture(rest: string)
    requires Fits(rest, CAPTURE_PATTERN)
    ensures var d := Recast(rest, CAPTURE_PATTERN, CANONICAL_PATTERN);
      |d| == 19 && DigitsAndSeparators(d, CANONICAL) && SameDigits(d, rest)
  {
    var p := CAPTURE_PATTERN;
    var q := CANONICAL_PATTERN;
    FitsCaptureChars(rest);
    RecastAt(rest, p, q, 0);
    RecastAt(rest, p, q, 1);
    RecastAt(rest, p, q, 2);
    RecastAt(rest, p, q, 3);
    RecastAt(rest, p, q, 4);
    RecastAt(rest, p, q, 5);
    RecastAt(rest, p, q, 6);
    RecastAt(rest, p, q, 7);
    RecastAt(rest, p, q, 8);
    RecastAt(rest, p, q, 9);
    RecastAt(rest, p, q, 10);
    RecastAt(rest, p, q, 11);
    RecastAt(rest, p, q, 12);
    RecastAt(rest, p, q, 13);
    RecastAt(rest, p, q, 14);
    RecastAt(rest, p, q, 15);
    RecastAt(rest, p, q, 16);
    RecastAt(rest, p, q, 17);
    RecastAt(rest, p, q, 18);
  }

  /** What CaptureNormalise computes: it accepts exactly the names whose
      text after the screenshot name begins with a `%Y-%m-%d %H.%M.%S`
      stamp, and yields that stamp's six digit groups in DATE_FORMAT, which
      is what parsing the stamp into a time and formatting that time gives. */
  lemma CaptureNormaliseMeaning(rest: string)
    ensures CaptureNormalise(rest).Some? <==> StartsWithLayout(rest, CAPTURE)
    ensures StartsWithLayout(rest, CAPTURE) ==>
      var d := CaptureNormalise(rest).value;
      IsCanonical(d) && Slice(d) == Slice(rest) && d == Strftime(TimeOf(Slice(rest)))
  {
    if StartsWithLayout(rest, CAPTURE) {
      CanonicalIsStrftime(CaptureNormalise(rest).value);
    }
  }

  /** A canonical date string is the formatting of the time it denotes. */
  lemma CanonicalIsStrftime(d: string)
    requires IsCanonical(d)
    ensures d == Strftime(TimeOf(Slice(d)))
  {
    FieldsOfTimeOf(Slice(d));
    LayoutSlice(d, CANONICAL);
    assert d[..19] == d;
  }

  /** `baseDate` of writeTagByFilename. */
  datatype NameDate = Stamp(date: string) | NoStem | Unparsable {

    /** The text `"#{baseDate}"` interpolates: empty for `nil`. */
    function Text(): string {
      if Stamp? then date else ""
    }
  }

  /** The screenshot branch when the basename starts with `"<CAPTURE_NAME> "`,
      otherwise the stem before the last `.`. */
  function NameDateOf(base: string, captureName: string): (r: NameDate)
    ensures captureName + " " <= base ==>
      (r.Unparsable? <==> CaptureNormalise(base[|captureName| + 1..]).None?)
    ensures captureName + " " <= base && CaptureNormalise(base[|captureName| + 1..]).Some? ==>
      r == Stamp(CaptureNormalise(base[|captureName| + 1..]).value)
    ensures !(captureName + " " <= base) ==> !r.Unparsable? && (r.Stamp? ==> r.date + "." <= base)
    ensures !(captureName + " " <= base) && r.Stamp? ==> '.' !in base[|r.date| + 1..]
    ensures !(captureName + " " <= base) ==> (r.NoStem? <==> '.' !in base)
  {
    if captureName + " " <= base then
      match CaptureNormalise(base[|captureName| + 1..])
      case None => Unparsable
      case Some(d) => Stamp(d)
    else
      match Stem(base)
      case None => NoStem
      case Some(s) => Stamp(s)
  }

  /** `sub(/\n/,'')`: the first newline removed. */
  function RemoveFirstNewline(s: string): (r: string)
    ensures '\n' !in s ==> r == s
    ensures '\n' in s ==>
      exists i :: 0 <= i < |s| && s[i] == '\n' && '\n' !in s[..i] && r == s[..i] + s[i + 1..]
  {
    match FirstIndexOf(s, '\n')
    case None => s
    case Some(i) => s[..i] + s[i + 1..]
  }

  lemma RemoveFirstNewlineLine(d: string)
    requires '\n' !in d
    ensures RemoveFirstNewline(d + "\n") == d
  {
    var s := d + "\n";
    assert s[|d|] == '\n' && s[..|d|] == d;
    assert FirstIndexOf(s, '\n') == Some(|d|);
  }

  /** writeTagByFilename: write the three tags when forced or when the tag
      read differs, as a string, from `baseDate`; then rename when the
      basename does not start with `baseDate`. A screenshot name without a
      readable stamp aborts the run. */
  function WriteDecision(f: FileFacts, force: bool, captureName: string): (r: Outcome)
    ensures !f.present ==> r == Proceed([])
    ensures r.Abort? <==> f.present && NameDateOf(Basename(f.path), captureName).Unparsable?
    ensures r.Proceed? ==> |r.actions| <= 2
  {
    if !f.present then Proceed([])
    else
      var nameDate := NameDateOf(Basename(f.path), captureName);
      if nameDate.Unparsable? then Abort
      else Proceed(TagWriteStep(f, force, nameDate) + RenameStep(f, nameDate.Text()))
  }

  /** Lines 69-73: the three tags get `baseDate` when forced or when the tag
      read (first newline removed) differs from it; `nil` differs from any
      tag read. */
  function TagWriteStep(f: FileFacts, force: bool, nameDate: NameDate): (r: seq<Action>)
    ensures r == [] || r == [WriteTags(f.path, nameDate.Text())]
    ensures r != [] <==> force || nameDate != Stamp(RemoveFirstNewline(f.tagOutput))
  {
    if force || nameDate != Stamp(RemoveFirstNewline(f.tagOutput)) then [WriteTags(f.path, nameDate.Text())] else []
  }

  /** Lines 74-79: a rename to `<baseDate><ext>` when the basename does not
      start with `baseDate`. The regex `/^#{baseDate}/` is read as a literal
      prefix test. */
  function RenameStep(f: FileFacts, value: string): (r: seq<Action>)
    ensures r == [] || r == [Rename(f.path, MoveTarget(f.path, value))]
    ensures r != [] <==> !(value <= Basename(f.path))
  {
    if value <= Basename(f.path) then [] else [Rename(f.path, MoveTarget(f.path, value))]
  }

  /** writeTagByFilename only writes the tags of the file it handles and
      only renames that file. */
  lemma WriteConcernsOnlyItsFile(f: FileFacts, force: bool, captureName: string)
    ensures var r := WriteDecision(f, force, captureName);
      r.Proceed? ==> forall a :: a in r.actions ==> (a.WriteTags? || a.Rename?) && Subject(a) == f.path
  {
    if f.present {
      var nameDate := NameDateOf(Basename(f.path), captureName);
      if !nameDate.Unparsable? {
        var write := TagWriteStep(f, force, nameDate);
        var rename := RenameStep(f, nameDate.Text());
        assert WriteDecision(f, force, captureName) == Proceed(write + rename);
        forall a: Action | a in write + rename
          ensures (a.WriteTags? || a.Rename?) && Subject(a) == f.path
        {
          assert a in write || a in rename;
        }
      }
    }
  }

  /** Outside the screenshot branch the stem is always a prefix of the
      basename, so writeTagByFilename never renames: it only writes the stem
      (empty without a `.`), when forced or when the tag read differs. This
      rests on reading `/^#{baseDate}/` as a literal prefix test. */
  lemma WriteGenericNeverRenames(f: FileFacts, force: bool, captureName: string)
    requires f.present && !(captureName + " " <= Basename(f.path))
    ensures var stem := Stem(Basename(f.path));
      WriteDecision(f, force, captureName) ==
        Proceed(if force || stem != Some(RemoveFirstNewline(f.tagOutput))
                then [WriteTags(f.path, stem.GetOr(""))] else [])
  {
    var base := Basename(f.path);
    var stem := Stem(base);
    var nameDate := NameDateOf(base, captureName);
    GenericNameDate(base, captureName);
    WriteSteps(f, force, captureName);
    GenericSteps(f, force, stem, nameDate);
  }

  /** writeTagByFilename on a present file with a usable `baseDate` is the
      tag write followed by the rename. */
  lemma WriteSteps(f: FileFacts, force: bool, captureName: string)
    requires f.present && !NameDateOf(Basename(f.path), captureName).Unparsable?
    ensures var nameDate := NameDateOf(Basename(f.path), captureName);
      WriteDecision(f, force, captureName) ==
        Proceed(TagWriteStep(f, force, nameDate) + RenameStep(f, nameDate.Text()))
  {
  }

  lemma GenericSteps(f: FileFacts, force: bool, stem: Option<string>, nameDate: NameDate)
    requires stem == Stem(Basename(f.path))
    requires nameDate == if stem.Some? then Stamp(stem.value) else NoStem
    ensures TagWriteStep(f, force, nameDate) + RenameStep(f, nameDate.Text()) ==
      if force || stem != Some(RemoveFirstNewline(f.tagOutput)) then [WriteTags(f.path, stem.GetOr(""))] else []
  {
    var base := Basename(f.path);
    assert nameDate.Text() <= base by {
      if stem.Some? {
        assert stem.value <= stem.value + "." <= base;
      }
    }
    var write := TagWriteStep(f, force, nameDate);
    assert RenameStep(f, nameDate.Text()) == [];
    assert write + [] == write;
  }

  lemma GenericNameDate(base: string, captureName: string)
    requires !(captureName + " " <= base)
    ensures NameDateOf(base, captureName) == if Stem(base).Some? then Stamp(Stem(base).value) else NoStem
  {
  }

  /** A basename without `.` has no `baseDate`: every run writes an empty
      value to the three tags, forced or not, and renames nothing. */
  lemma WriteWithoutStemClearsTags(f: FileFacts, force: bool, captureName: string)
    requires f.present && !(captureName + " " <= Basename(f.path)) && '.' !in Basename(f.path)
    ensures WriteDecision(f, force, captureName) == Proceed([WriteTags(f.path, "")])
  {
    WriteGenericNeverRenames(f, force, captureName);
  }

  /** Once the tags read back the stem, an unforced write does nothing.
      This rests on reading `/^#{baseDate}/` as a literal prefix test. */
  lemma WriteSettled(f: FileFacts, captureName: string, stem: string)
    requires f.present && !(captureName + " " <= Basename(f.path))
    requires Stem(Basename(f.path)) == Some(stem) && '\n' !in stem && f.tagOutput == stem + "\n"
    ensures WriteDecision(f, false, captureName) == Proceed([])
  {
    RemoveFirstNewlineLine(stem);
    WriteGenericNeverRenames(f, false, captureName);
  }

  /** A screenshot whose stamp does not fit `%Y-%m-%d %H.%M.%S` aborts. */
  lemma WriteMalformedCaptureAborts(f: FileFacts, force: bool, captureName: string)
    requires f.present
    requires captureName + " " <= Basename(f.path)
    requires !StartsWithLayout(Basename(f.path)[|captureName| + 1..], CAPTURE)
    ensures WriteDecision(f, force, captureName) == Abort
  {
    CaptureNormaliseMeaning(Basename(f.path)[|captureName| + 1..]);
  }

  /** A screenshot with a readable stamp is renamed to the canonical stamp
      plus its lowercased extension (the name starts with the screenshot
      name, not with a digit). Once renamed, and once exiftool reads back the
      stamp written, an unforced run on the new name does nothing. */
  lemma {:induction false} WriteCaptureRenamesOnce(f: FileFacts, force: bool, captureName: string)
    requires f.present
    requires captureName + " " <= Basename(f.path) && !IsDigit((captureName + " ")[0])
    requires CaptureNormalise(Basename(f.path)[|captureName| + 1..]).Some?
    requires ExtName(Basename(f.path)) != []
    ensures var base := Basename(f.path);
      var d := CaptureNormalise(base[|captureName| + 1..]).value;
      var target := Join(Dirname(f.path), d + Downcase(ExtName(base)));
      var r := WriteDecision(f, force, captureName);
      && IsCanonical(d)
      && r.Proceed? && r.actions != [] && r.actions[|r.actions| - 1] == Rename(f.path, target)
      && WriteDecision(FileFacts(target, true, d + "\n", f.ctime), false, captureName) == Proceed([])
  {
    var base := Basename(f.path);
    var rest := base[|captureName| + 1..];
    CaptureNormaliseMeaning(rest);
    var d := CaptureNormalise(rest).value;
    FormattedChars(d, TimeOf(Slice(rest)));
    WriteCaptureRenames(f, force, captureName, d);
    WriteCaptureSettles(f.path, f.ctime, captureName, d);
  }

  /** The three tags of a screenshot receive its stamp in DATE_FORMAT, the
      formatting of the time the stamp denotes, when forced or when the tag
      read differs from it; that write is the first command. */
  lemma WriteCaptureWritesStamp(f: FileFacts, force: bool, captureName: string)
    requires f.present
    requires captureName + " " <= Basename(f.path)
    requires StartsWithLayout(Basename(f.path)[|captureName| + 1..], CAPTURE)
    ensures var t := TimeOf(Slice(Basename(f.path)[|captureName| + 1..]));
      var r := WriteDecision(f, force, captureName);
      r.Proceed? &&
      (force || RemoveFirstNewline(f.tagOutput) != Strftime(t) <==>
        r.actions != [] && r.actions[0] == WriteTags(f.path, Strftime(t)))
  {
    var rest := Basename(f.path)[|captureName| + 1..];
    CaptureNormaliseMeaning(rest);
    var d := CaptureNormalise(rest).value;
    var nameDate := NameDateOf(Basename(f.path), captureName);
    assert nameDate == Stamp(d);
    WriteSteps(f, force, captureName);
    var write := TagWriteStep(f, force, nameDate);
    var rename := RenameStep(f, d);
    if write == [] {
      assert rename == [] || rename[0].Rename?;
      assert write + rename == rename;
    } else {
      assert (write + rename)[0] == write[0];
    }
  }

  /** A formatted time starts with a digit and holds no `.`, `/` or newline. */
  lemma FormattedChars(d: string, t: DateTime)
    requires d == Strftime(t)
    ensures d != [] && IsDigit(d[0]) && '.' !in d && '/' !in d && '\n' !in d
  {
  }

  /** The rename half: a screenshot name never starts with its stamp. */
  lemma WriteCaptureRenames(f: FileFacts, force: bool, captureName: string, d: string)
    requires f.present
    requires captureName + " " <= Basename(f.path) && !IsDigit((captureName + " ")[0])
    requires CaptureNormalise(Basename(f.path)[|captureName| + 1..]) == Some(d) && d != [] && IsDigit(d[0])
    ensures var r := WriteDecision(f, force, captureName);
      r.Proceed? && r.actions != [] && r.actions[|r.actions| - 1] == Rename(f.path, MoveTarget(f.path, d))
  {
    var base := Basename(f.path);
    var nameDate := NameDateOf(base, captureName);
    assert nameDate == Stamp(d);
    assert base[0] == (captureName + " ")[0];
    assert !(d <= base);
    var write := TagWriteStep(f, force, nameDate);
    var rename := RenameStep(f, d);
    assert rename == [Rename(f.path, MoveTarget(f.path, d))];
    assert WriteDecision(f, force, captureName) == Proceed(write + rename);
  }

  /** The settled half: the renamed file's name is the stamp and its
      extension, so its stem is the stamp, which the tags now hold. */
  lemma WriteCaptureSettles(path: string, ctime: DateTime, captureName: string, d: string)
    requires captureName + " " <= Basename(path) && !IsDigit((captureName + " ")[0])
    requires ExtName(Basename(path)) != []
    requires d != [] && IsDigit(d[0]) && '.' !in d && '/' !in d && '\n' !in d
    ensures var target := Join(Dirname(path), d + Downcase(ExtName(Basename(path))));
      WriteDecision(FileFacts(target, true, d + "\n", ctime), false, captureName) == Proceed([])
  {
    var base := Basename(path);
    var ext := Downcase(ExtName(base));
    var target := Join(Dirname(path), d + ext);
    DowncaseExtension(base);
    assert '/' !in d + ext;
    assert Basename(target) == d + ext;
    DatedNameHasStem(d, base);
    assert !(captureName + " " <= d + ext) by { assert IsDigit((d + ext)[0]); }
    WriteSettled(FileFacts(target, true, d + "\n", ctime), captureName, d);
  }

  // ---------------------------------------------------------------------
  // Set ctime by filename (lines 82-110)

  /** `/^(\d{4})$/`: the basename is a bare year. */
  predicate IsYearName(base: string) {
    |base| == 4 && AllDigits(base)
  }

  /** A canonical stamp starts at index `i` of `s`. */
  predicate StampAt(s: string, i: nat) {
    i + 19 <= |s| && IsCanonical(s[i..i + 19])
  }

  /** The leftmost match of `/(\d{4})-(\d{2})-(\d{2})_(\d{2})-(\d{2})-(\d{2})/`
      at or after `from`. */
  function FindStamp(s: string, from: nat): (r: Option<nat>)
    requires from <= |s|
    decreases |s| - from
    ensures r.Some? ==> from <= r.value && r.value + 19 <= |s| && IsCanonical(s[r.value..r.value + 19])
    ensures r.Some? ==> forall j :: from <= j < r.value ==> !StampAt(s, j)
    ensures r.None? ==> forall j :: from <= j ==> !StampAt(s, j)
  {
    if from + 19 > |s| then None
    else if StampAt(s, from) then Some(from)
    else FindStamp(s, from + 1)
  }

  /** The date setFileCreationTimeByFilename takes from a basename: January
      2, 12:00:00 of a bare year, else the first canonical stamp anywhere. */
  function NameStamp(base: string): (r: Option<Fields>)
    ensures r.Some? ==> WellFormed(r.value)
    ensures IsYearName(base) ==> r == Some(Fields(base, "01", "02", "12", "00", "00"))
    ensures !IsYearName(base) && r.Some? ==>
      exists i: nat :: StampAt(base, i) && (forall j: nat :: j < i ==> !StampAt(base, j)) &&
        r.value == Slice(base[i..i + 19])
    ensures !IsYearName(base) && r.None? ==> forall i: nat :: !StampAt(base, i)
  {
    if IsYearName(base) then Some(Fields(base, "01", "02", "12", "00", "00"))
    else
      match FindStamp(base, 0)
      case None => None
      case Some(i) =>
        assert StampAt(base, i);
        Some(Slice(base[i..i + 19]))
  }

  /** The Windows time value, `YYYY/MM/DD hh:mm:ss`. */
  const WINDOWS := Separators('/', '/', ' ', ':', ':')

  /** The macOS `setfile` value, `MM/DD/YYYY hh:mm:ss`. */
  function MacTime(f: Fields): (r: string)
    ensures WellFormed(f) ==>
      && |r| == 19
      && r[2] == '/' && r[5] == '/' && r[10] == ' ' && r[13] == ':' && r[16] == ':'
      && r[0..2] == f.month && r[3..5] == f.day && r[6..10] == f.year
      && r[11..13] == f.hour && r[14..16] == f.minute && r[17..19] == f.second
  {
    f.month + "/" + f.day + "/" + f.year + " " + f.hour + ":" + f.minute + ":" + f.second
  }

  /** How the platform tool reads the time value back into groups. */
  function NativeFields(os: string, s: string): Fields
    requires |s| >= 19
  {
    if os == "darwin" then Fields(s[6..10], s[0..2], s[3..5], s[11..13], s[14..16], s[17..19])
    else Slice(s)
  }

  /** `ctime` of setFileCreationTimeByFilename: the name's date in the
      platform's order, None on a platform other than darwin and mingw32 or
      when the name holds no date. Whatever the platform, the value reads
      back as the name's date. */
  function CtimeString(os: string, base: string): (r: Option<string>)
    ensures r.Some? <==> (os == "darwin" || os == "mingw32") && NameStamp(base).Some?
    ensures r.Some? ==> |r.value| == 19 && NativeFields(os, r.value) == NameStamp(base).value
    ensures r.Some? && os == "darwin" ==>
      r.value[2] == '/' && r.value[5] == '/' && r.value[10] == ' ' && r.value[13] == ':' && r.value[16] == ':'
    ensures r.Some? && os == "mingw32" ==> StartsWithLayout(r.value, WINDOWS)
  {
    if os != "darwin" && os != "mingw32" then None
    else
      match NameStamp(base)
      case None => None
      case Some(f) =>
        if os == "darwin" then
          Some(MacTime(f))
        else
          SliceLayout(f, WINDOWS, "");
          assert Layout(f, WINDOWS) + "" == Layout(f, WINDOWS);
          Some(Layout(f, WINDOWS))
  }

  /** setFileCreationTimeByFilename: one command setting both creation and
      modification time, when the platform and the name allow it. The force
      flag and the time shift play no part. */
  function CtimeDecision(f: FileFacts, os: string): (r: seq<Action>)
    ensures |r| <= 1 && forall a :: a in r ==> Subject(a) == f.path
    ensures r != [] <==> f.present && CtimeString(os, Basename(f.path)).Some?
    ensures r != [] && os == "darwin" ==> r[0] == SetFileDates(f.path, CtimeString(os, Basename(f.path)).value)
    ensures r != [] && os != "darwin" ==> r[0] == SetItemTimes(f.path, CtimeString(os, Basename(f.path)).value)
  {
    if !f.present then []
    else
      match CtimeString(os, Basename(f.path))
      case None => []
      case Some(v) => if os == "darwin" then [SetFileDates(f.path, v)] else [SetItemTimes(f.path, v)]
  }

  /** A name written by a move (a canonical date, then anything) sets the
      creation time to exactly that date on both platforms. */
  lemma {:induction false} CtimeOfCanonicalName(t: DateTime, ext: string, os: string)
    requires os == "darwin" || os == "mingw32"
    ensures var r := CtimeString(os, Strftime(t) + ext);
      r.Some? && NativeFields(os, r.value) == FieldsOf(t)
  {
    var base := Strftime(t) + ext;
    SliceLayout(FieldsOf(t), CANONICAL, ext);
    assert base[0..19] == Strftime(t);
    assert FindStamp(base, 0) == Some(0);
    assert Slice(base[0..19]) == FieldsOf(t) by {
      SliceLayout(FieldsOf(t), CANONICAL, "");
      assert Strftime(t) + "" == Strftime(t);
    }
  }

  // ---------------------------------------------------------------------
  // The run (lines 134-143)

  /** `command.call(path, timeShift, force)` for the selected mode. */
  function Decide(mode: Mode, force: bool, env: Env, f: FileFacts): (r: Outcome)
    ensures r.Abort? ==> mode == Write
    ensures r.Proceed? ==> |r.actions| <= 2
    ensures r.Proceed? ==> forall a :: a in r.actions ==> Subject(a) == f.path
  {
    match mode
    case Move => Proceed(MoveDecision(f, force))
    case Write =>
      WriteConcernsOnlyItsFile(f, force, env.captureName);
      WriteDecision(f, force, env.captureName)
    case Ctime => Proceed(CtimeDecision(f, env.os))
  }

  /** The commands of a whole run, and whether an exception ended it. */
  datatype Plan = Plan(actions: seq<Action>, aborted: bool)

  /** Lines 134-143: the files' outcomes taken in order, each file's
      commands before the next file's. The first exception is rescued and
      ends the run; the files after it are not handled. */
  function Run(outcomes: seq<Outcome>): (p: Plan)
    ensures p.aborted <==> exists i :: 0 <= i < |outcomes| && outcomes[i].Abort?
    ensures forall a :: a in p.actions ==> exists i :: 0 <= i < |outcomes| && outcomes[i].Proceed? && a in outcomes[i].actions
  {
    if outcomes == [] then Plan([], false)
    else
      var rest := Run(outcomes[1..]);
      assert forall i :: 0 <= i < |outcomes[1..]| ==> outcomes[1..][i] == outcomes[i + 1];
      assert rest.aborted ==> exists i :: 0 <= i < |outcomes| && outcomes[i].Abort? by {
        if rest.aborted {
          var j :| 0 <= j < |outcomes[1..]| && outcomes[1..][j].Abort?;
          assert outcomes[j + 1].Abort?;
        }
      }
      assert (exists i :: 0 <= i < |outcomes| && outcomes[i].Abort?) ==> outcomes[0].Abort? || rest.aborted by {
        if i :| 0 <= i < |outcomes| && outcomes[i].Abort? {
          if i > 0 {
            assert outcomes[1..][i - 1].Abort?;
          }
        }
      }
      match outcomes[0]
      case Abort => Plan([], true)
      case Proceed(actions) =>
        forall a | a in rest.actions
          ensures exists i :: 0 <= i < |outcomes| && outcomes[i].Proceed? && a in outcomes[i].actions
        {
          var j :| 0 <= j < |outcomes[1..]| && outcomes[1..][j].Proceed? && a in outcomes[1..][j].actions;
          assert outcomes[j + 1] == outcomes[1..][j];
        }
        Plan(actions + rest.actions, rest.aborted)
  }

  /** Running over `xs` then `ys` is running over `xs`, then, unless that
      raised, over `ys`, with the commands in that order. */
  lemma {:induction false} RunAppend(xs: seq<Outcome>, ys: seq<Outcome>)
    ensures var p := Run(xs);
      var q := Run(ys);
      Run(xs + ys) == if p.aborted then p else Plan(p.actions + q.actions, q.aborted)
  {
    if xs == [] {
      assert xs + ys == ys;
    } else {
      assert (xs + ys)[0] == xs[0];
      assert (xs + ys)[1..] == xs[1..] + ys;
      RunAppend(xs[1..], ys);
      match xs[0]
      case Abort =>
      case Proceed(actions) =>
        var p' := Run(xs[1..]);
        var q := Run(ys);
        if !p'.aborted {
          assert actions + (p'.actions + q.actions) == (actions + p'.actions) + q.actions;
        }
    }
  }

  /** One more file: the run so far followed by that file's commands, or the
      run so far ended by that file's exception. */
  lemma RunStep(outcomes: seq<Outcome>, i: nat)
    requires i < |outcomes|
    ensures var p := Run(outcomes[..i]);
      Run(outcomes[..i + 1]) ==
        if p.aborted then p
        else if outcomes[i].Abort? then Plan(p.actions, true)
        else Plan(p.actions + outcomes[i].actions, false)
  {
    RunAppend(outcomes[..i], [outcomes[i]]);
    assert outcomes[..i] + [outcomes[i]] == outcomes[..i + 1];
    if outcomes[i].Proceed? {
      assert [outcomes[i]][1..] == [];
      assert outcomes[i].actions + [] == outcomes[i].actions;
    }
  }

  /** Nothing after a file that raises matters: the run is the run up to
      and including that file. */
  lemma RunEndsAtAbort(outcomes: seq<Outcome>, k: nat)
    requires k < |outcomes| && outcomes[k].Abort?
    ensures Run(outcomes) == Run(outcomes[..k + 1])
    ensures Run(outcomes).aborted
  {
    RunAppend(outcomes[..k + 1], outcomes[k + 1..]);
    assert outcomes[..k + 1] + outcomes[k + 1..] == outcomes;
    assert outcomes[..k + 1][k].Abort?;
  }

  /** Each file's outcome for the selected mode, in the order of the paths:
      at most two commands each. */
  function Outcomes(mode: Mode, force: bool, env: Env, files: seq<FileFacts>): (r: seq<Outcome>)
    ensures |r| == |files|
    ensures forall i :: 0 <= i < |r| && r[i].Proceed? ==> |r[i].actions| <= 2
  {
    if files == [] then []
    else [Decide(mode, force, env, files[0])] + Outcomes(mode, force, env, files[1..])
  }

  lemma {:induction false} OutcomesAt(mode: Mode, force: bool, env: Env, files: seq<FileFacts>, i: nat)
    requires i < |files|
    ensures Outcomes(mode, force, env, files)[i] == Decide(mode, force, env, files[i])
  {
    if i > 0 {
      OutcomesAt(mode, force, env, files[1..], i - 1);
    }
  }

  /** The run over the paths with the selected mode: only a write run can
      raise, and every command concerns one of the paths. */
  function Schedule(mode: Mode, force: bool, env: Env, files: seq<FileFacts>): (p: Plan)
    ensures p.aborted ==> mode == Write
    ensures forall a :: a in p.actions ==> exists i :: 0 <= i < |files| && Subject(a) == files[i].path
  {
    var outcomes := Outcomes(mode, force, env, files);
    var p := Run(outcomes);
    assert p.aborted ==> mode == Write by {
      if p.aborted {
        var i :| 0 <= i < |outcomes| && outcomes[i].Abort?;
        OutcomesAt(mode, force, env, files, i);
      }
    }
    forall a | a in p.actions
      ensures exists i :: 0 <= i < |files| && Subject(a) == files[i].path
    {
      var i :| 0 <= i < |outcomes| && outcomes[i].Proceed? && a in outcomes[i].actions;
      OutcomesAt(mode, force, env, files, i);
    }
    p
  }

  /** Move and ctime runs never raise: they handle every path and issue
      every file's commands, one file after the other. */
  lemma OnlyWriteAborts(mode: Mode, force: bool, env: Env, files: seq<FileFacts>)
    requires mode != Write
    ensures !Schedule(mode, force, env, files).aborted
    ensures Schedule(mode, force, env, files).actions == Flatten(Outcomes(mode, force, env, files))
  {
    var outcomes := Outcomes(mode, force, env, files);
    forall i | 0 <= i < |outcomes|
      ensures outcomes[i].Proceed?
    {
      OutcomesAt(mode, force, env, files, i);
    }
    RunWithoutAbort(outcomes);
  }

  /** Every outcome's commands, one after the other. */
  function Flatten(outcomes: seq<Outcome>): seq<Action> {
    if outcomes == [] then []
    else (if outcomes[0].Proceed? then outcomes[0].actions else []) + Flatten(outcomes[1..])
  }

  lemma {:induction false} RunWithoutAbort(outcomes: seq<Outcome>)
    requires forall i :: 0 <= i < |outcomes| ==> outcomes[i].Proceed?
    ensures Run(outcomes).actions == Flatten(outcomes)
  {
    if outcomes != [] {
      assert forall i :: 0 <= i < |outcomes[1..]| ==> outcomes[1..][i] == outcomes[i + 1];
      RunWithoutAbort(outcomes[1..]);
    }
  }

  /** Which decision each mode takes for the i-th path (lines 124-133 and
      136): moveFilenameByTag, writeTagByFilename or
      setFileCreationTimeByFilename. */
  lemma OutcomeOfMode(mode: Mode, force: bool, env: Env, files: seq<FileFacts>, i: nat)
    requires i < |files|
    ensures var o := Outcomes(mode, force, env, files)[i];
      && (mode == Move ==> o == Proceed(MoveDecision(files[i], force)))
      && (mode == Write ==> o == WriteDecision(files[i], force, env.captureName))
      && (mode == Ctime ==> o == Proceed(CtimeDecision(files[i], env.os)))
  {
    OutcomesAt(mode, force, env, files, i);
  }

  /** The move commands of every file, one file after the other. */
  function MoveAll(force: bool, files: seq<FileFacts>): seq<Action> {
    if files == [] then [] else MoveDecision(files[0], force) + MoveAll(force, files[1..])
  }

  /** The ctime commands of every file, one file after the other. */
  function CtimeAll(os: string, files: seq<FileFacts>): seq<Action> {
    if files == [] then [] else CtimeDecision(files[0], os) + CtimeAll(os, files[1..])
  }

  lemma {:induction false} FlattenMoves(force: bool, env: Env, files: seq<FileFacts>)
    ensures Flatten(Outcomes(Move, force, env, files)) == MoveAll(force, files)
  {
    if files != [] {
      var o := Outcomes(Move, force, env, files);
      assert o[1..] == Outcomes(Move, force, env, files[1..]);
      FlattenMoves(force, env, files[1..]);
    }
  }

  lemma {:induction false} FlattenCtimes(force: bool, env: Env, files: seq<FileFacts>)
    ensures Flatten(Outcomes(Ctime, force, env, files)) == CtimeAll(env.os, files)
  {
    if files != [] {
      var o := Outcomes(Ctime, force, env, files);
      assert o[1..] == Outcomes(Ctime, force, env, files[1..]);
      FlattenCtimes(force, env, files[1..]);
    }
  }

  /** A move run is every path's moveFilenameByTag commands, in order, and
      never raises. */
  lemma ScheduleMove(force: bool, env: Env, files: seq<FileFacts>)
    ensures Schedule(Move, force, env, files) == Plan(MoveAll(force, files), false)
  {
    OnlyWriteAborts(Move, force, env, files);
    FlattenMoves(force, env, files);
  }

  /** A ctime run is every path's setFileCreationTimeByFilename commands, in
      order, and never raises; force plays no part. */
  lemma ScheduleCtime(force: bool, env: Env, files: seq<FileFacts>)
    ensures Schedule(Ctime, force, env, files) == Plan(CtimeAll(env.os, files), false)
  {
    OnlyWriteAborts(Ctime, force, env, files);
    FlattenCtimes(force, env, files);
  }
}
