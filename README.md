# ExifRenamer, modelled in Dafny

ExifRenamer.rb reconciles a photo or video file's name with its date metadata, one file at a time. It has three modes:

- **move** (`-m`, `moveFilenameByTag`) reads the date tags with exiftool. It keeps only the digits, `-` and `_` of what exiftool prints. When nothing is left, it falls back to the file's ctime in `%Y-%m-%d_%H-%M-%S`. It renames the file to that date plus its lowercased extension when forced, or when the date differs, as a string, from the basename's text before its last `.`.
- **write** (`-w`, `writeTagByFilename`) works the other way round. It takes `baseDate` from the name, which is either the stem before the last `.` or, for a screenshot named `"<CAPTURE_NAME> %Y-%m-%d %H.%M.%S…"`, the stamp recast into `%Y-%m-%d_%H-%M-%S`. It writes that value into DateTimeOriginal, CreateDate and ModifyDate when forced or when the tag read differs. It renames the file when its basename does not start with `baseDate`. A screenshot name whose stamp cannot be parsed raises, and the whole run stops with exit status 1.
- **ctime** (`-c`, `setFileCreationTimeByFilename`) sets the creation and modification times from the name. A name of exactly four digits gives January 2, 12:00:00 of that year. Otherwise the first `%Y-%m-%d_%H-%M-%S` stamp anywhere in the name is used. On darwin the command is `setfile`, with `MM/DD/YYYY hh:mm:ss`. On mingw32 it is PowerShell, with `YYYY/MM/DD hh:mm:ss`. Any other platform does nothing.

Every command goes through `echo`, which writes `### <cmd>` to standard error unless `$QUIET` is set. It then goes through `system`, which runs it unless `$DRYRUN` is set.

The model has six modules:

- `Wrappers`: the `Option` type.
- `Text`: character classes, ASCII downcasing, first and last index of a character.
- `Paths`: `File.basename`, `File.dirname`, `File.join` as used by `ensureNewFileName`, the split at the last `.`, and `File.extname`.
- `Timestamps`: the digit-group date strings, with `strftime` on DATE_FORMAT and a reference inverse `Parse` proved to be inverse to each other.
- `Renamer`: each mode as a pure function from what the script observes about one file (`FileFacts`) to the commands it issues (`Action`s), or to an exception (`Outcome.Abort`). It also holds the run over all paths (`Run`, `Schedule`).
- `Driver`: the command strings and the class `Executor`. The executor's `dryRun` and `quiet` fields stand for the two globals. Its `log` and `executed` sequences record standard error and the commands run. Its methods mirror `echo`, `system` and the per-path loop with its rescue.

The external world becomes input:

- whether the path exists;
- what the mode's exiftool read printed;
- the file's ctime;
- the screenshot name (`defaults read`) and the platform (`Gem::Platform.local.os`).

A screenshot name whose stamp does not parse raises, and the run stops with status 1 (lines 63-64, 139-143). Date comparisons are plain string equality, never calendar comparisons.

## Model

| member | source | states |
|---|---|---|
| Text.Lower | ExifRenamer.rb:47 | `downcase` maps A-Z to a-z and leaves every other character alone |
| Text.Downcase | ExifRenamer.rb:47 | the result has the same length and is the character-wise downcasing |
| Text.DowncaseKeepsOthers | ExifRenamer.rb:47 | a character that is not a letter is in the downcased string exactly when it is in the original |
| Text.LastIndexOf | ExifRenamer.rb:44 | None exactly when the character is absent, otherwise an index holding it with no further occurrence after it (the greedy `(.*)\.`) |
| Text.FirstIndexOf | ExifRenamer.rb:59 | None exactly when the character is absent, otherwise an index holding it with no occurrence before it |
| Paths.Basename | ExifRenamer.rb:43 | the basename has no `/`, is a suffix of the path, and is preceded by `/` when shorter than the path |
| Paths.Dirname | ExifRenamer.rb:42 | never empty; `.` for a path without `/`, otherwise a prefix of the path that ends before the basename |
| Paths.Join | ExifRenamer.rb:28-29 | the directory is a prefix and the name a suffix of the joined path; a name without `/` is the joined path's basename |
| Paths.JoinDirnameBasename | ExifRenamer.rb:28-29 | joining a path's dirname and basename gives the path back when the directory does not end in `/` |
| Paths.JoinRootBasename | ExifRenamer.rb:28-29 | the same for an entry of the root directory |
| Paths.DirnameJoin | ExifRenamer.rb:28-29 | the dirname of a directory joined with a name without `/` is that directory, when the directory is `/` or does not end in `/` |
| Paths.SplitStem | ExifRenamer.rb:44-45 | no split exactly when there is no `.`; otherwise stem + `.` + suffix is the basename and the suffix has no `.` |
| Paths.SplitStemAt | ExifRenamer.rb:44-45 | the split is unique: any stem followed by `.` and a suffix without `.` splits back into that stem and suffix |
| Paths.Stem | ExifRenamer.rb:44-45 | `baseDate` is nil exactly when the basename has no `.`; otherwise stem + `.` is a prefix and no `.` follows |
| Paths.ExtName | ExifRenamer.rb:47 | empty exactly when there is no `.` or the last `.` is the first character; otherwise `.` + the suffix after the last `.` |
| Timestamps.SliceLayout | ExifRenamer.rb:20 | six well-formed groups written out with any separators are read back as the same groups, whatever follows |
| Timestamps.LayoutSlice | ExifRenamer.rb:20 | reading a date string's groups and writing them out with the same separators gives the string back |
| Timestamps.Digits | ExifRenamer.rb:20 | strftime's zero-padded field is a digit string of exactly the width |
| Timestamps.Value | ExifRenamer.rb:64 | the number a digit string denotes is below 10 to the power of its length |
| Timestamps.ValueOfDigits | ExifRenamer.rb:20 | a number below 10^w, padded to width w and read back, is the same number |
| Timestamps.DigitsOfValue | ExifRenamer.rb:64 | a digit string read as a number and padded again is the same string |
| Timestamps.TimeOfFieldsOf | ExifRenamer.rb:20 | a time in range, formatted into groups and read back, is the same time |
| Timestamps.FieldsOfTimeOf | ExifRenamer.rb:64 | well-formed groups, read as a time and formatted again, are the same groups |
| Timestamps.Strftime | ExifRenamer.rb:40 | `strftime(DATE_FORMAT)` is a canonical date string made of digits, `-` and `_` |
| Timestamps.Parse | ExifRenamer.rb:20 | the reference inverse of strftime on DATE_FORMAT: it succeeds exactly on canonical strings and yields a time in range |
| Timestamps.ParseStrftime | ExifRenamer.rb:40 | parse(format(t)) == t for every time in range |
| Timestamps.StrftimeParse | ExifRenamer.rb:20 | with that reference inverse, format(parse(s)) == s for every canonical string, so DATE_FORMAT loses nothing |
| Renamer.Sanitise | ExifRenamer.rb:37 | the filtered tag output holds only digits, `-` and `_`, and is a subsequence of the raw output |
| Renamer.SanitiseKeepsDateText | ExifRenamer.rb:37 | text made only of digits, `-` and `_` passes the filter unchanged |
| Renamer.SanitiseIdempotent | ExifRenamer.rb:37 | filtering twice is filtering once |
| Renamer.SanitiseAppend | ExifRenamer.rb:37 | the filter distributes over concatenation |
| Renamer.TagDate | ExifRenamer.rb:37-41 | the date is never empty and never holds `.` or `/`; it is the filtered output when that is non-empty, otherwise the canonical ctime, which parses back to the ctime |
| Renamer.MoveTarget | ExifRenamer.rb:47 | for a date without `/`, the target's basename is the date plus the lowercased extension |
| Renamer.MoveTargetStaysInDirectory | ExifRenamer.rb:42-47 | for a date without `/` and a directory that is `/` or does not end in `/` (a path without `//`), the target's dirname is the file's dirname |
| Renamer.MoveDecision | ExifRenamer.rb:32-52 | at most one rename of the file itself, issued exactly when the file exists and it is forced or the stem differs from the date; the target is dirname joined with date + lowercased extname |
| Renamer.DowncaseExtension | ExifRenamer.rb:47 | a lowercased extension still starts with its one `.` and holds no `/` |
| Renamer.DatedNameHasStem | ExifRenamer.rb:44-47 | the name `<date><ext>` splits back into the date as stem |
| Renamer.MoveIdempotent | ExifRenamer.rb:32-52 | after a move to `<date><ext>` with a non-empty extension, an unforced move seeing the same tag output and the same ctime renames nothing |
| Renamer.MoveWithoutStemRenames | ExifRenamer.rb:44-48 | a basename without `.` is always renamed, even unforced, to the date alone |
| Renamer.MoveWithoutExtensionRepeats | ExifRenamer.rb:44-48 | without an extension the move is not idempotent: every run renames the file again, to the same name |
| Renamer.FitsCapture | ExifRenamer.rb:64 | the screenshot pattern accepts exactly the texts that start with a `%Y-%m-%d %H.%M.%S` stamp |
| Renamer.CaptureNormalise | ExifRenamer.rb:64 | a value exactly when the text after the screenshot name starts with a `%Y-%m-%d %H.%M.%S` stamp; the value is canonical and carries the stamp's six groups |
| Renamer.CaptureNormaliseMeaning | ExifRenamer.rb:63-64 | strptime of the screenshot name succeeds exactly on a `%Y-%m-%d %H.%M.%S` stamp, and the value is the canonical string with the stamp's groups, equal to strftime of the parsed time |
| Renamer.CanonicalIsStrftime | ExifRenamer.rb:64 | a canonical string is the formatting of the time it denotes |
| Renamer.NameDateOf | ExifRenamer.rb:62-68 | a screenshot name gives an exception exactly when its stamp is unparsable, and otherwise the recast stamp; any other name never raises, has no `baseDate` exactly when it has no `.`, and otherwise its `baseDate` is the text before the last `.` (stem + `.` is a prefix and no `.` follows) |
| Renamer.GenericNameDate | ExifRenamer.rb:65-67 | outside the screenshot branch `baseDate` is the stem before the last `.`, or nil without `.` |
| Renamer.RemoveFirstNewline | ExifRenamer.rb:59 | text without a newline is unchanged; otherwise the first newline, and only it, is removed |
| Renamer.RemoveFirstNewlineLine | ExifRenamer.rb:59 | exiftool's one-line answer `d\n` is compared as `d` |
| Renamer.WriteDecision | ExifRenamer.rb:54-80 | nothing for a missing file; an exception exactly for an unparsable screenshot name; otherwise at most two commands |
| Renamer.WriteSteps | ExifRenamer.rb:69-79 | for an existing file whose name parses, the commands are the tag write step followed by the rename step, in that order |
| Renamer.TagWriteStep | ExifRenamer.rb:69-73 | one three-tag write of `baseDate` (empty for nil), issued exactly when forced or the tag read differs from `baseDate` |
| Renamer.RenameStep | ExifRenamer.rb:74-79 | with `/^#{baseDate}/` read as a literal prefix test, one rename to `<baseDate><ext>`, issued exactly when the basename does not start with `baseDate` |
| Renamer.WriteConcernsOnlyItsFile | ExifRenamer.rb:69-79 | write mode only writes tags of, and only renames, the file it handles |
| Renamer.WriteGenericNeverRenames | ExifRenamer.rb:66-79 | with `/^#{baseDate}/` read as a literal prefix test, outside the screenshot branch write mode never renames: it is exactly the tag write of the stem (empty without `.`) when forced or the tag differs |
| Renamer.WriteWithoutStemClearsTags | ExifRenamer.rb:66-79 | a basename without `.` gets an empty value written to the three tags on every run, forced or not, and is never renamed |
| Renamer.WriteSettled | ExifRenamer.rb:59-73 | with `/^#{baseDate}/` read as a literal prefix test, once the tag reads back the stem, an unforced write does nothing |
| Renamer.WriteMalformedCaptureAborts | ExifRenamer.rb:63-64 | a screenshot name without a `%Y-%m-%d %H.%M.%S` stamp raises |
| Renamer.WriteCaptureRenames | ExifRenamer.rb:74-79 | for a screenshot name that does not start with a digit, a readable stamp is renamed, as the last command, to the canonical stamp plus its lowercased extension |
| Renamer.WriteCaptureWritesStamp | ExifRenamer.rb:63-72 | for a screenshot with a readable stamp, the first command is the three-tag write of strftime of the parsed time exactly when forced or the tag read differs from it |
| Renamer.WriteCaptureSettles | ExifRenamer.rb:54-80 | for a screenshot name that does not start with a digit and a non-empty extension, the renamed screenshot, once its tag holds the stamp, is left alone by an unforced write |
| Renamer.WriteCaptureRenamesOnce | ExifRenamer.rb:54-80 | both together, for a screenshot name that does not start with a digit and a file with a non-empty extension: the stamp is canonical, the file is renamed to it, and a second unforced run does nothing |
| Renamer.FindStamp | ExifRenamer.rb:89 | the leftmost index from which a canonical stamp starts, or None when no index has one |
| Renamer.NameStamp | ExifRenamer.rb:87-89 | a four-digit name gives January 2, 12:00:00 of that year; otherwise the groups of the leftmost canonical stamp in the name, with None exactly when there is none |
| Renamer.MacTime | ExifRenamer.rb:90 | setfile's `MM/DD/YYYY hh:mm:ss`: 19 characters, `/`, `/`, space, `:`, `:` at their places and the month, day, year, hour, minute and second groups between them |
| Renamer.CtimeString | ExifRenamer.rb:85-107 | a value exactly on darwin and mingw32 for a name with a date, of 19 characters, which the platform reads back as the name's date groups; on darwin with `/`, `/`, space, `:`, `:` as separators, on mingw32 in `YYYY/MM/DD hh:mm:ss` layout |
| Renamer.CtimeDecision | ExifRenamer.rb:82-110 | at most one command on the file itself, issued exactly when it exists and the name gives a time value: setfile on darwin, PowerShell otherwise; force plays no part |
| Renamer.CtimeOfCanonicalName | ExifRenamer.rb:87-99 | a name written by a move (canonical date, then anything) sets the ctime to exactly that date on both platforms |
| Renamer.Decide | ExifRenamer.rb:136 | only write mode raises; a file's outcome is at most two commands, all about that file |
| Renamer.Run | ExifRenamer.rb:134-143 | the run raised exactly when some file raised, and every command comes from a file that did not raise |
| Renamer.RunAppend | ExifRenamer.rb:134-138 | running over two lists of files is running over the first and then, unless it raised, over the second |
| Renamer.RunStep | ExifRenamer.rb:134-138 | one more file adds its commands, or ends the run when it raises |
| Renamer.RunEndsAtAbort | ExifRenamer.rb:139-143 | the files after the first exception play no part |
| Renamer.Outcomes | ExifRenamer.rb:134-137 | one outcome per path, with at most two commands each |
| Renamer.OutcomesAt | ExifRenamer.rb:134-137 | the i-th outcome is the chosen mode applied to the i-th path |
| Renamer.OutcomeOfMode | ExifRenamer.rb:124-136 | `-m` runs moveFilenameByTag, `-w` writeTagByFilename and `-c` setFileCreationTimeByFilename on each path |
| Renamer.Schedule | ExifRenamer.rb:134-143 | only a write run can raise, and every command concerns one of the given paths |
| Renamer.OnlyWriteAborts | ExifRenamer.rb:134-138 | move and ctime runs never raise, and issue every file's commands one file after the other |
| Renamer.FlattenMoves | ExifRenamer.rb:134-138 | the commands of a move run's outcomes are every file's move commands, in path order |
| Renamer.FlattenCtimes | ExifRenamer.rb:134-138 | the commands of a ctime run's outcomes are every file's ctime commands, in path order |
| Renamer.ScheduleMove | ExifRenamer.rb:127-138 | a `-m` run is exactly every path's moveFilenameByTag commands, in order, and never raises |
| Renamer.ScheduleCtime | ExifRenamer.rb:125-138 | a `-c` run is exactly every path's setFileCreationTimeByFilename commands, in order, never raises, and does not depend on `-f` |
| Renamer.RunWithoutAbort | ExifRenamer.rb:134-138 | without an exception the run is all commands of all files, in order |
| Driver.Command | ExifRenamer.rb:48 | a command line starts with its program and a space, and names both the file it acts on and the value it sets (lines 48, 70, 76, 94, 103-104) |
| Driver.Commands | ExifRenamer.rb:48 | one command line per action |
| Driver.CommandsAt | ExifRenamer.rb:48 | the i-th command line is that of the i-th action |
| Driver.CommandsAppend | ExifRenamer.rb:134-138 | the command lines of two action lists are those of each, concatenated |
| Driver.EchoLine | ExifRenamer.rb:17 | the line is `### ` followed by the message |
| Driver.Echoed | ExifRenamer.rb:16-18 | quiet writes nothing, otherwise one line per message |
| Driver.EchoedAt | ExifRenamer.rb:16-18 | unless quiet, the i-th line is `### ` followed by the i-th message |
| Driver.EchoedAppend | ExifRenamer.rb:16-18 | the lines for two message lists are those of each, concatenated |
| Driver.ShownStep | ExifRenamer.rb:134-138 | what a run has shown and run so far, followed by the next file's commands, is what the longer run shows and runs |
| Driver.Executor.constructor | ExifRenamer.rb:14-15 | the switches as given, nothing logged or run yet |
| Driver.Executor.Echo | ExifRenamer.rb:16-18 | `echo` appends `### <message>` to standard error unless quiet, and runs nothing |
| Driver.Executor.Issue | ExifRenamer.rb:49-50 | one command is echoed, and run exactly when not a dry run |
| Driver.Executor.IssueAll | ExifRenamer.rb:71-78 | a file's commands are echoed and run one after the other, in order |
| Driver.Executor.Advance | ExifRenamer.rb:134-137 | handling one more file extends the log and the commands run by that file's commands |
| Driver.Executor.RunOutcomes | ExifRenamer.rb:134-143 | the loop leaves status 1 exactly when a file raised, else 0; standard error holds the run's commands unless quiet; the commands run are those commands unless a dry run, and none in a dry run |
| Driver.Executor.RunAll | ExifRenamer.rb:134-143 | the same for the chosen mode over the given paths: a dry run runs nothing, and quiet changes nothing about what is run |

## Left out

- Option parsing (lines 112-123) and the choice of mode (lines 124-133) are left out: the mode, force flag and switches are parameters. A later `-c`/`-m`/`-w` overrides an earlier one, and a missing mode raises before any file is handled.
- `Dir.glob` and the recursive `**/*.*` expansion (line 135) are left out: the paths are a given sequence, in the order the expansion would yield them.
- A rename done early in a run is not seen by later glob expansion or by later files.
- The exiftool, `mv`, `setfile` and PowerShell processes, the `open("|…")` pipes and `head -1` (lines 34-38, 56-60, 94, 103-104) are foreign code. The tool output is an input string, and the commands are values whose exit status is never read, as in the script.
- Renamer.MoveIdempotent: it holds for a second run that sees the same ctime. A real `mv` changes the file's ctime, so when the tag output is empty the ctime fallback names the file anew on every run.
- `File.exist?`, `File::Stat#ctime` and the clock are inputs of `FileFacts`. `Gem::Platform.local.os` and `defaults read com.apple.screencapture name` are inputs of `Env`.
- `timeShift` is left out: it only reaches the exiftool command line.
- Renamer.NameDateOf: the interpolated regex `/^#{CAPTURE_NAME} /` (line 63) is modelled as a literal prefix test. Regex metacharacters in a screenshot name, and the RegexpError a malformed one raises, are not modelled.
- Renamer.RenameStep: the interpolated regex `/^#{baseDate}/` (line 74) is modelled as a literal prefix test, which agrees with Ruby only for a stem without regex metacharacters. (a) For a copy name such as `IMG_1234 (1).jpg` the regex `/^IMG_1234 (1)/` asks for `IMG_1234 1` and does not match, so the script renames the file onto itself (`mv "…/IMG_1234 (1).jpg" "…/IMG_1234 (1).jpg"`) on every write run, where the model issues no rename; WriteSettled and WriteGenericNeverRenames hold only under the literal reading. (b) A stem that is not a valid regex, such as `a[b` or `a(b`, raises RegexpError at line 74.
- Renamer.WriteDecision: the RegexpError of a stem that is not a valid regex is raised after lines 69-72 have already echoed and run the tag write, and the run then ends with status 1. The model proceeds with both steps instead: `Outcome.Abort` carries no commands, so an exception that follows a command of the same file cannot be expressed, and the Run row's "every command comes from a file that did not raise" does not cover it.
- Renamer.CaptureNormalise: `Time.strptime` is modelled as the fixed-width `%Y-%m-%d %H.%M.%S` shape. Its calendar checks are not modelled (a month 13 raises in Ruby but is accepted here), nor its leniency about field widths, nor that a space in the format matches any run of whitespace in the name. Ruby also hands the fields to `Time.local`, which shifts some stamps instead of raising (`2020-02-30` becomes March 1, an hour skipped by a daylight-saving change moves forward), so line 64 then writes a different stamp from the model's digit recast.
- Renamer.NameStamp: the year-only test `/^(\d{4})$/` (lines 87, 96) is modelled as "exactly four digits". Ruby's `^` and `$` match at line boundaries, so a name with a four-digit line among others, or four digits before a final newline, is a year name in Ruby and not here.
- Timestamps.Strftime: years from 10000 on, which strftime writes with more than four digits, are outside `InRange`.
- Text.Lower: only ASCII letters are downcased. Ruby's full Unicode case mapping is not modelled.
- Paths.ExtName: Ruby's version-dependent corner cases (dot files, a trailing `.`) are reduced to "from the last `.`, unless that `.` is the first character".
- Paths.Basename does not strip a trailing `/` or collapse repeated `/` as Ruby does. A literal argument such as `photos/` given without `-r` keeps its trailing `/` through the glob, and for it Ruby's basename is `photos` where the model's is empty.
- Paths.Dirname does not strip a trailing `/` or collapse repeated `/` either: for `photos/` Ruby's dirname is `.` where the model's is `photos`, and for `a//b` Ruby's is `a` where the model's is `a/`.
- Paths.SplitStem treats a newline in a name as an ordinary character, while Ruby's `^`, `$` and `.` work line by line.
- Strings are sequences of characters. Invalid UTF-8 in names or in tool output is not modelled. For a name that is not valid UTF-8 (Latin-1 bytes on Linux, say), `basename.match` at lines 44 and 66 and the regexes at lines 87-89 raise ArgumentError, so a move or ctime run over such a file ends with status 1; Renamer.Decide, Renamer.Schedule and Renamer.OnlyWriteAborts ("move and ctime runs never raise") hold only for names that are valid UTF-8.
- On an exception, the backtrace, message and usage text printed to standard error (lines 142-143) are not part of `log`; only the exit status is modelled.
- No collision handling exists in the script: a rename onto an existing name is whatever `mv` does, and that is not modelled.
