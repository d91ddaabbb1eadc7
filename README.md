# The motionPie configuration stores of `extractl.py`

`package/motioneye/extractl.py` keeps two groups of device settings in two small
text files, each with a reader and a writer:

- the **date store** (`_get_date_settings`, `_set_date_settings`): `date.conf`, a
  file of `name=value` lines holding the date synchronisation method, host,
  timeout and interval. The reader skips blank lines, `#` comments and lines that
  do not hold exactly one `=`, strips the quotes around values and fails on a
  numeric field that is not an integer. The writer replaces the whole file with
  four lines.
- the **service store** (`_get_motioneye_settings`, `_set_motioneye_settings`):
  `motioneye.conf`, a file of `name value` lines holding the HTTP port, the path of
  the motion binary and the log level. The reader splits at the first space and
  reads `_` in a name as `-`. The writer merges: it edits the lines of the settings
  in place, appends the ones it did not find, keeps every other line and drops
  blank lines.

The file system is a parameter. A read takes the file as `Option<seq<string>>`:
`None` when the file does not exist, otherwise its lines as `readlines` gives
them. A write returns the new lines of the file, or an error, in which case
nothing is written. The settings dictionaries are records whose fields are
`Option`s, with `None` for an absent key. The date writer's `setdefault` calls
change the caller's dictionary, so that dictionary is a class (`DateDict`) the
writer modifies. The service writer works on `dict(s)`, a copy, so
`SetMotionEyeSettings` reads its `ServiceDict` and changes nothing.

Modules:

- `results.dfy`: `Option`, `Result`, and the two exceptions that escape: a
  `ValueError` of `int()` and a `KeyError` of `dict.pop`.
- `text.dfy`: the Python 2 string operations the stores use, with their
  properties. These are `strip` (with and without an argument), `split` with and
  without a limit, `replace`, `endswith('\n')`, `'%s' % n` and a
  decimal `int()`. The date reader's `startswith('#')` is a test of the first character, made in `date_store.dfy`. `text.dfy` also defines `Count` and `IndexOf`, which the contracts use to
  say where a separator occurs.
- `date_store.dfy`: the date store.
- `service_store.dfy`: the service store.

Each reader is a method with the loop of the source, proved equal to a fold over
the file's lines (`ReadDate`, `ReadService`). The service writer is a method whose
steps follow the source: the loop that edits the old lines in place, the three
conditional appends and the loop that writes the lines out. It is proved equal to `WriteService`, and
`WriteServiceSpec` then states that function without the fold. Under it, the
recognised lines are edited at their places (`Edited`), the settings no line
holds are appended (`Unseen`), and a setting recognised on two lines is an error.

Details of the code the model keeps:

- Quotes: the date reader's `value.strip('"').strip("'")` removes every
  surrounding `"` and then every surrounding `'`.
- The date reader's `line.split('=')` has no limit, so a line is used only when it
  holds exactly one `=`. A line `a=b=c` is skipped, not split at its first `=`.
- The service writer finds names with `line.split(' ', 2)`, while the reader uses
  `line.split(' ', 1)`. So the writer looks at a line only when its stripped text
  holds exactly one space.
- A second line with a recognised name makes `s.pop` raise `KeyError`, because its
  setting was already popped. The whole write then fails and nothing is written. The
  error names the setting whose second line comes first.

## Model

| member | source | states |
|---|---|---|
| DateStore.DateEntry | package/motioneye/extractl.py:39-56 | What one line of the date file gives: nothing, or a name and a value. Its contract is `DateEntrySpec`. |
| DateStore.ApplyDateEntry | package/motioneye/extractl.py:58-68 | The effect of one entry on the settings read so far, including the `ValueError` of `int()`. Its contract is `ApplyFailsIff`, and `EntriesLastWins` for a whole read. |
| DateStore.ReadDate | package/motioneye/extractl.py:28-79 | What `_get_date_settings` returns. Its contracts are `DateReadLastWins` and `DateReadFailsIff`, and `GetDateSettings` for the loop. |
| DateStore.WithDefaults | package/motioneye/extractl.py:83-86 | The `setdefault` calls. `SetDateSettings` states them on the caller's dictionary. |
| DateStore.DateFile | package/motioneye/extractl.py:91-95 | The four lines written. `DateRoundTrip` states that they read back as the settings. |
| DateStore.GetDateSettings | package/motioneye/extractl.py:28-79 | The loop returns exactly the fold `ReadDate`. A missing file gives `http`, `google.com`, 10, 900. |
| DateStore.DateEntrySpec | package/motioneye/extractl.py:39-56 | A line is used iff its stripped text is not blank, does not start with `#` and holds exactly one `=`. The name is the untrimmed text before the `=`; the value is the text after it with all surrounding quotes removed. |
| DateStore.EntriesAppend | package/motioneye/extractl.py:38-39 | The entries of two runs of lines are the entries of each, in order. |
| DateStore.FailureEndsRead | package/motioneye/extractl.py:64-68 | Once a prefix of the file fails, the whole read fails with that error. |
| DateStore.EntriesLastWins | package/motioneye/extractl.py:29-68 | After a successful read, each field is its default if no entry names it, and otherwise the value of the last entry naming it (for the numbers, the integer that value spells). |
| DateStore.DateReadLastWins | package/motioneye/extractl.py:29-68 | The same for the lines of a file. |
| DateStore.EntriesFailIff | package/motioneye/extractl.py:64-68 | The read of entries fails iff some entry gives `date_timeout` or `date_interval` a non-integer. The error names the value of the first such entry. |
| DateStore.ApplyFailsIff | package/motioneye/extractl.py:58-68 | One entry fails iff it is such an entry, with its value in the error. |
| DateStore.DateReadFailsIff | package/motioneye/extractl.py:51-68 | The read of a file fails iff one of its lines is such an entry, and the error comes from the first of them; a malformed line never makes it fail. |
| DateStore.IgnoredEntryInert | package/motioneye/extractl.py:58-68 | Removing an entry that is skipped or names no field, from any place, does not change the result. |
| DateStore.IgnoredLineInert | package/motioneye/extractl.py:38-68 | The same for a line anywhere in the file. |
| DateStore.CommentsNeverApply | package/motioneye/extractl.py:39-49 | A blank line or a line starting with `#` (such as `#date_method=ntp`) never changes what is read, wherever it stands. |
| DateStore.MalformedLinesSkipped | package/motioneye/extractl.py:51-56 | A line without exactly one `=` is skipped silently, wherever it stands. |
| DateStore.SpacedNameIgnored | package/motioneye/extractl.py:52-68 | A line with whitespace before its only `=` (`date_method = ntp`) is skipped, because the name is not trimmed. |
| DateStore.SetDateSettings | package/motioneye/extractl.py:82-95 | The caller's dictionary afterwards holds its own values plus the defaults of its absent keys. The file is the four lines `date_method=`, `date_host=`, `date_timeout=`, `date_interval=` with those values, in that order, each ending in `\n`. |
| DateStore.EntryOfWrittenLine | package/motioneye/extractl.py:92-95 | A written line `key=value\n` reads back as that key and value when the value has no `=` or line break, no quote at either end and no whitespace at its end. |
| DateStore.FormattedIntIsPlain | package/motioneye/extractl.py:94-95 | The decimal text of an integer is such a value. |
| DateStore.WrittenLineEntry | package/motioneye/extractl.py:92-95 | When the method and host are plain (as for `EntryOfWrittenLine`), each of the four written lines reads as the assignment it was written for. |
| DateStore.WrittenEntries | package/motioneye/extractl.py:92-95 | When the method and host are plain, the four written lines read as the four assignments, in order. |
| DateStore.ReadDateSnoc | package/motioneye/extractl.py:38-68 | Reading one more entry after a prefix that succeeded applies that entry. |
| DateStore.ReadFourAssignments | package/motioneye/extractl.py:58-68 | One assignment to each field, in the written order, applied to the defaults gives exactly those values. |
| DateStore.ReadWrittenAssignments | package/motioneye/extractl.py:58-68 | The four written assignments read back as the settings written. |
| DateStore.DateRoundTrip | package/motioneye/extractl.py:28-95 | Reading the written file gives back the settings written, when the method and host are plain. |
| DateStore.DateRewriteIdentical | package/motioneye/extractl.py:28-95 | When the method and host are plain, writing back what was just read from a written file writes the same four lines again. |
| DateStore.WriteThenReadDate | package/motioneye/extractl.py:83-95 | What the writer writes for a partial mapping reads back as that mapping with its absent keys at their defaults. |
| ServiceStore.ServiceEntry | package/motioneye/extractl.py:108-118 | What one line of the service file gives to the reader. Its contract is `ServiceEntrySpec`. |
| ServiceStore.ApplyServiceEntry | package/motioneye/extractl.py:120-127 | The effect of one entry on the settings read so far, including the `ValueError` of `int()`. Its contract is `ApplyFailsIff`, and `EntriesLastWins` for a whole read. |
| ServiceStore.ReadService | package/motioneye/extractl.py:98-137 | What `_get_motioneye_settings` returns. Its contracts are `ServiceReadLastWins` and `ServiceReadFailsIff`, and `GetMotionEyeSettings` for the loop. |
| ServiceStore.WriteKey | package/motioneye/extractl.py:155-165 | The setting the writer recognises in an old line. Its contract is `WriteKeySpec`. |
| ServiceStore.EditLine | package/motioneye/extractl.py:167-174 | One step of the edit: replace a recognised line and pop its setting, or fail with `KeyError`. `EditKeyedSpec` states the whole edit. |
| ServiceStore.RenderLine | package/motioneye/extractl.py:167-183 | The line written for a setting. `FullLineEntry` states that the reader takes it back as that setting. |
| ServiceStore.WithRemaining | package/motioneye/extractl.py:176-183 | The appends of the settings still pending. `AppendRemaining` and `AppendedFull` state them. |
| ServiceStore.Emit | package/motioneye/extractl.py:185-191 | The lines written out. `EmitOne`, `EmitAppend`, `EmitIdempotent` and `EmitInvisible` state its contract. |
| ServiceStore.WriteService | package/motioneye/extractl.py:140-191 | What `_set_motioneye_settings` writes. Its contracts are `WriteServiceSpec` and `WriteThenReadService`. |
| ServiceStore.ServiceEntrySpec | package/motioneye/extractl.py:108-118 | A line is used iff its stripped text holds a space. The name is the text before the first space with `_` read as `-`; the value is all the text after it. |
| ServiceStore.ServiceEntriesAppend | package/motioneye/extractl.py:107-108 | The entries of two runs of lines are the entries of each, in order. |
| ServiceStore.GetMotionEyeSettings | package/motioneye/extractl.py:98-137 | The loop returns exactly the fold `ReadService`. A missing file gives port 80, `/usr/bin/motion` and no debugging. |
| ServiceStore.ServiceFailureEndsRead | package/motioneye/extractl.py:120-121 | Once a prefix of the file fails, the whole read fails with that error. |
| ServiceStore.ReadServiceSnoc | package/motioneye/extractl.py:107-127 | Reading one more entry after a prefix applies that entry, and a failed prefix stays failed. |
| ServiceStore.EntriesLastWins | package/motioneye/extractl.py:99-127 | After a successful read, each field is its default unless an entry names it, and otherwise comes from the last such entry. Debugging is on iff the last `log-level` value is exactly `debug`. |
| ServiceStore.ServiceReadLastWins | package/motioneye/extractl.py:98-127 | The same for the lines of a file. |
| ServiceStore.ApplyFailsIff | package/motioneye/extractl.py:120-121 | One entry fails iff it is a `port` whose value is not an integer, with that value in the error. |
| ServiceStore.EntriesFailIff | package/motioneye/extractl.py:120-121 | The read of entries fails iff some `port` entry is not an integer, and the error comes from the first. |
| ServiceStore.ServiceReadFailsIff | package/motioneye/extractl.py:107-127 | The same for the lines of a file. |
| ServiceStore.EntryOfDirectiveLine | package/motioneye/extractl.py:108-118 | `name value` reads as the normalised name and the value, when the name is not empty, does not start with whitespace and holds no space, and the value is not empty and does not end in whitespace. |
| ServiceStore.LogLevelLineRead | package/motioneye/extractl.py:118-127 | A line holding only a `log-level` directive, under any spelling that normalises to it, turns debugging on iff its value is `debug`. The name must not start with whitespace or hold a space, and the value must be nonempty and not end in whitespace (`log-level debug ` is read with the value `debug`). |
| ServiceStore.UnderscoreNormalised | package/motioneye/extractl.py:118 | An underscore in a name reads as a hyphen (`log_level` is `log-level`). |
| ServiceStore.WriteKeySpec | package/motioneye/extractl.py:155-167 | The writer recognises a line iff its stripped text holds exactly one space and the reader takes from it one of the three names; the writer then sees the setting the reader sees. |
| ServiceStore.WrittenLine | package/motioneye/extractl.py:186-191 | Each line is written as at most one line, ending in `\n`. |
| ServiceStore.SetMotionEyeSettings | package/motioneye/extractl.py:140-191 | The method returns exactly `WriteService` of the caller's entries, and changes nothing of the caller's dictionary. |
| ServiceStore.EditExisting | package/motioneye/extractl.py:154-174 | The in-place edit of the old lines is exactly the fold `EditLines`, including its `KeyError`. |
| ServiceStore.EditOne | package/motioneye/extractl.py:155-174 | One step of that loop: a line keeps its text unless it is recognised. A recognised line takes the line of its pending setting, which is then popped; if the setting was already popped, the step is a `KeyError` naming its key. |
| ServiceStore.EditPrefixStep | package/motioneye/extractl.py:154 | Editing one more old line extends the edit of the prefix by one step. |
| ServiceStore.EditFailureEnds | package/motioneye/extractl.py:167-174 | Once the edit of a prefix fails, the whole edit fails with that error. |
| ServiceStore.AppendRemaining | package/motioneye/extractl.py:176-183 | The lines afterwards are the edited lines, then one line for each setting still pending, in the order port, motion-binary, log-level. |
| ServiceStore.WriteLines | package/motioneye/extractl.py:185-191 | The written lines are exactly `Emit` of the lines. |
| ServiceStore.EmitSnoc | package/motioneye/extractl.py:185-191 | Writing one more line adds exactly what is written for it. |
| ServiceStore.ConcatAppend | package/motioneye/extractl.py:185-191 | The output of two runs of lines is the outputs one after the other. |
| ServiceStore.EmitAppend | package/motioneye/extractl.py:185-191 | Emitting works line by line: `Emit(a + b) == Emit(a) + Emit(b)`. |
| ServiceStore.EmitTerminated | package/motioneye/extractl.py:189-190 | Every written line ends with `\n`. |
| ServiceStore.EmitOne | package/motioneye/extractl.py:186-191 | A blank line is dropped; any other line is written ending in `\n`. |
| ServiceStore.EmitIdempotent | package/motioneye/extractl.py:185-191 | Emitting what was emitted changes nothing. |
| ServiceStore.WrittenLineInvisible | package/motioneye/extractl.py:186-190 | What is written for a line reads back, for the reader, as the line itself. |
| ServiceStore.EmitInvisible | package/motioneye/extractl.py:185-191 | Dropping blank lines and adding newlines does not change what the reader reads. |
| ServiceStore.OccWitness | package/motioneye/extractl.py:154-165 | A setting recognised on some line is recognised at some index. |
| ServiceStore.EditKeyedSpec | package/motioneye/extractl.py:154-174 | The edit succeeds iff no setting is recognised on two lines. It then gives each recognised line replaced at its place, other lines verbatim, and pending exactly the settings no line held. Otherwise the error is the `KeyError` of the setting whose second line comes first. |
| ServiceStore.EditedSnoc | package/motioneye/extractl.py:154-174 | The edited lines of a file are those of its prefix followed by its last line, edited. |
| ServiceStore.WriteServiceSpec | package/motioneye/extractl.py:140-191 | The write fails iff a setting is recognised on two old lines, with the `KeyError` of the setting whose second line comes first. Otherwise it writes the old lines with recognised lines replaced in place and all others kept in order, then the settings not found in the order port, motion-binary, log-level, with blank lines dropped. |
| ServiceStore.NamedLineEntry | package/motioneye/extractl.py:108-118 | A line `name text` reads as that name and text, when the name is not empty, does not start with whitespace and holds no space or underscore, and the text is not empty and does not end in whitespace. |
| ServiceStore.KeyOfName | package/motioneye/extractl.py:165-174 | Each setting is recognised under the name it is written with. |
| ServiceStore.PlainName | package/motioneye/extractl.py:168-174 | The written names are not empty, do not start with whitespace and hold no space or underscore. |
| ServiceStore.PlainText | package/motioneye/extractl.py:168-174 | The text written after a name does not end in whitespace, provided the binary path does not. |
| ServiceStore.FullLineEntry | package/motioneye/extractl.py:168-183 | A written `port N`, `motion-binary P` or `log-level info/debug` line reads back as that setting with that text, provided the binary path is plain: not empty, not ending in whitespace, holding no `\n`. An empty path gives `motion-binary `, which the reader skips; `/x ` reads back as `/x`. |
| ServiceStore.LastValueAgrees | package/motioneye/extractl.py:120-127 | When every entry agrees with some settings, the last value read for a setting is the text of that setting. |
| ServiceStore.LastValueFound | package/motioneye/extractl.py:120-127 | A name some entry holds has a last value. |
| ServiceStore.AgreeingReadOk | package/motioneye/extractl.py:120-121 | Entries that agree with some settings never fail the read. |
| ServiceStore.AgreeingLast | package/motioneye/extractl.py:120-127 | For such entries, the last value of a named setting is its text. |
| ServiceStore.AgreeingField | package/motioneye/extractl.py:120-127 | Each field read from such entries that name it equals the field of those settings. |
| ServiceStore.ReadAgreeing | package/motioneye/extractl.py:98-127 | Entries that agree with some settings and name all three read as exactly those settings. |
| ServiceStore.AppendedFull | package/motioneye/extractl.py:176-183 | A setting no old line holds is appended as its line, and a setting found is not appended. |
| ServiceStore.AllAgreeAppend | package/motioneye/extractl.py:185-191 | Agreement of two runs of lines carries over to the two together. |
| ServiceStore.EditedAgree | package/motioneye/extractl.py:154-174 | With no shadowing old line and a plain binary path, the edited old lines agree with the settings written. |
| ServiceStore.AppendedAgrees | package/motioneye/extractl.py:176-183 | With a plain binary path, the appended lines agree with the settings written. |
| ServiceStore.WrittenLinesAgree | package/motioneye/extractl.py:154-183 | With no shadowing old line and a plain binary path, all lines produced agree with the settings written. |
| ServiceStore.FullLineWritten | package/motioneye/extractl.py:167-183 | The line of each setting is among the lines produced, before blank lines are dropped. |
| ServiceStore.NamesOfLine | package/motioneye/extractl.py:108-118 | A line holding a directive makes the entries name it. |
| ServiceStore.WrittenLinesName | package/motioneye/extractl.py:167-183 | The lines produced name each setting (the binary only when its path is plain). |
| ServiceStore.WriteThenReadService | package/motioneye/extractl.py:98-191 | Reading back what the writer wrote gives the settings it was given, with absent keys at their defaults. This needs no old line that shadows a setting, and a binary path that is not empty, does not end in whitespace and holds no `\n`. |
| ServiceStore.FullLineNotBlank | package/motioneye/extractl.py:168-188 | A written setting line is never blank, so it is never dropped. |
| ServiceStore.WriteMissingFile | package/motioneye/extractl.py:149-191 | For a missing file the writer writes `port`, `motion-binary`, `log-level` with the settings given and the defaults of the absent keys, in that order, each ending in `\n`. |
| Text.Strip | package/motioneye/extractl.py:39 | `str.strip()` with Python's six ASCII whitespace characters. `TrimKeepsEnds` and `BlankIffStripEmpty` state it. |
| Text.StripQuotes | package/motioneye/extractl.py:53 | `value.strip('"').strip("'")`. |
| Text.Split | package/motioneye/extractl.py:52 | `str.split(sep)` and `str.split(sep, maxsplit)`. `SplitJoin`, `SplitTwoParts` and `SplitOnce` state it. |
| Text.Replace | package/motioneye/extractl.py:118 | `name.replace('_', '-')`: the result has the same length, with every `from` character replaced by `to` and nothing else changed. |
| Text.Terminated | package/motioneye/extractl.py:189-190 | Adds `\n` to a line that does not end with one: the result always ends with `\n`, and a line that already does is kept. |
| Text.FormatInt | package/motioneye/extractl.py:94 | `'%s' % n` for an integer. `FormatIntChars` and `ParseFormatInt` state it. |
| Text.ParseInt | package/motioneye/extractl.py:65 | `int(value)`, or `None` where it raises `ValueError`. `ParseFormatInt` states that it reads back what `FormatInt` writes. |
| Text.TrimKeepsEnds | package/motioneye/extractl.py:39 | What `lstrip` keeps is a suffix and what `rstrip` keeps a prefix. |
| Text.BlankIffStripEmpty | package/motioneye/extractl.py:187 | `not line.strip()` holds iff the line is nothing but whitespace. |
| Text.SplitJoin | package/motioneye/extractl.py:52 | Joining the parts of a `split` with the separator gives back the text. |
| Text.SplitTwoParts | package/motioneye/extractl.py:159-163 | With no limit or a limit of two, `split` gives two parts iff the separator occurs once, and then they are the text on either side of it. |
| Text.SplitOnce | package/motioneye/extractl.py:113 | With a limit of one, `split` gives two parts iff the separator occurs, split at its first occurrence. |
| Text.StripTerminated | package/motioneye/extractl.py:189-190 | Adding the newline does not change the stripped text of a line. |
| Text.ParseFormatInt | package/motioneye/extractl.py:168 | `int()` of the text `'%s' % n` writes is `n`, for every integer, negative ones included. |
| Text.FormatIntChars | package/motioneye/extractl.py:94-95 | That text is not empty and holds only digits after an optional leading `-`. |
| Text.ReplaceAppend | package/motioneye/extractl.py:118 | `replace` works piece by piece. |
| Text.CountZero | package/motioneye/extractl.py:52 | A character counts zero times iff it does not occur. |

## Left out

- The file system (`os.path.exists`, `open`, `readlines`, the writes) is a parameter: the file comes in as an optional line sequence and goes out as a line sequence. Failed writes, such as permission errors or a full disk, are not modelled.
- The non-atomic read-modify-write of the service file, which races with other writers of the file, is an I/O concern.
- The `logging.debug` calls (lines 35, 77, 88, 104, 135, 146) have no effect on the results.
- The `@additional_config` descriptor functions (lines 206-385) and the `config` registry they register into. They are constant records, and `config` is not part of this model.
- `_get_motion_log`, `_get_motion_eye_log` and `_get_messages_log` (lines 194-203) return constant HTML strings.
- ParseInt: `int()` is modelled by a decimal parser that accepts surrounding whitespace, an optional sign and ASCII digits. This is a subset of what Python 2's `int()` accepts for a byte string.
- The settings are typed, as the callers pass them. A `port` or date number is an `int`, a text value a string and `debug` a `bool`, so `['info', 'debug'][debug]` with a non-boolean `debug`, `'%s'` of other value types and extra dictionary keys are not modelled.
- Each line returned by a write is one string, as the source passes it to `f.write`. A value holding a line break is therefore not split into two lines of the new file.
- WriteThenReadService: the lemma assumes that no old line *shadows* a setting, that is, holds a name the reader takes but the writer does not recognise because its text holds more than one space. `port 80` followed by `port  81` is such a file: the writer replaces the first line and keeps the second, and the reader then reads 81. The condition is sufficient, not necessary: a shadowing line before the line the writer rewrites or appends is harmless, as in a file whose only line is `motion-binary /a b`. The writer keeps that line and appends `motion-binary /usr/bin/motion`, and the reader takes the last value. The lemma also assumes a binary path that is not empty and does not end in whitespace, since the reader would strip it. The path must also hold no `\n`: the writer writes it with one `f.write`, so `/a\nb` becomes two lines of the file and reads back as `/a`.
- DateRoundTrip, DateRewriteIdentical, WrittenLineEntry, WrittenEntries and WriteThenReadDate require plain method and host values (no `=`, no line break, no quote at either end, no whitespace at the end). Other values can fail to read back as written, and a rewrite can then change the file. For example, `date_method='"x"'` reads as `"x"` (the `"` are stripped first, then the `'`), is written as `date_method="x"`, and that reads as `x`.
