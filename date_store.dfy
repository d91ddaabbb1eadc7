/** The date store: the date synchronisation settings kept in `date.conf`,
    a file of `name=value` lines (package/motioneye/extractl.py, lines 28-95). */
module DateStore {
  import opened Results
  import opened Text

  /** The settings as `_get_date_settings` returns them (keys `dateMethod`,
      `dateHost`, `dateTimeout`, `dateInterval`). */
  datatype DateSettings = DateSettings(dateMethod: string, dateHost: string, dateTimeout: int, dateInterval: int)

  const Defaults: DateSettings := DateSettings("http", "google.com", 10, 900)

  /** A line the reader acts on assigns `value` to the setting called `name`. */
  datatype Assignment = Assignment(name: string, value: string)

  /** What the reader takes from one line of the date file, or `None` when it skips
      the line: it is blank, a comment, or does not hold exactly one `=`. The name is
      the text before the `=`, not trimmed; the value is the text after it without
      its surrounding quotes. */
  function DateEntry(line: string): Option<Assignment> {
    var t := Strip(line);
    if t == "" || t[0] == '#' then None
    else
      var parts := Split(t, '=', -1);
      if |parts| == 2 then Some(Assignment(parts[0], StripQuotes(parts[1]))) else None
  }

  /** A line is used exactly when its stripped text is not blank, is not a comment and
      holds exactly one `=`; the name is then all the text before the `=` and the value
      all the text after it, without its surrounding quotes. */
  lemma DateEntrySpec(line: string)
    ensures var t := Strip(line);
      DateEntry(line).Some? <==> t != "" && t[0] != '#' && Count(t, '=') == 1
    ensures var t := Strip(line);
      DateEntry(line).Some? ==> (IndexOf(t, '=') < |t| &&
        DateEntry(line).value == Assignment(t[..IndexOf(t, '=')], StripQuotes(t[IndexOf(t, '=') + 1..])))
  {
    var t := Strip(line);
    if t != "" {
      SplitTwoParts(t, '=', -1);
    }
  }

  /** The entries of the lines of a file, line by line. */
  function DateEntries(lines: seq<string>): (es: seq<Option<Assignment>>)
    ensures |es| == |lines|
  {
    seq(|lines|, i requires 0 <= i < |lines| => DateEntry(lines[i]))
  }

  lemma EntriesAppend(x: seq<string>, y: seq<string>)
    ensures DateEntries(x + y) == DateEntries(x) + DateEntries(y)
  {
    forall i | 0 <= i < |x + y|
      ensures DateEntries(x + y)[i] == (DateEntries(x) + DateEntries(y))[i]
    {
      if i < |x| {
        assert (x + y)[i] == x[i];
      } else {
        assert (x + y)[i] == y[i - |x|];
      }
    }
  }

  /** The effect of one entry on the settings read so far. */
  function ApplyDateEntry(d: DateSettings, e: Option<Assignment>): Result<DateSettings> {
    if e.None? then Ok(d)
    else
      var name, value := e.value.name, e.value.value;
      if name == "date_method" then Ok(d.(dateMethod := value))
      else if name == "date_host" then Ok(d.(dateHost := value))
      else if name == "date_timeout" then
        var n := ParseInt(value);
        if n.None? then Err(InvalidInteger(value)) else Ok(d.(dateTimeout := n.value))
      else if name == "date_interval" then
        var n := ParseInt(value);
        if n.None? then Err(InvalidInteger(value)) else Ok(d.(dateInterval := n.value))
      else Ok(d)
  }

  /** The settings after applying the entries in order, starting from the
      defaults; the first failing entry ends the read. */
  function ReadDateEntries(es: seq<Option<Assignment>>): Result<DateSettings> {
    if es == [] then Ok(Defaults)
    else
      var r := ReadDateEntries(es[..|es| - 1]);
      if r.Err? then r else ApplyDateEntry(r.value, es[|es| - 1])
  }

  function ReadDateLines(lines: seq<string>): Result<DateSettings> {
    ReadDateEntries(DateEntries(lines))
  }

  /** What `_get_date_settings` returns for a file that is missing (`None`) or has these lines. */
  function ReadDate(file: Option<seq<string>>): Result<DateSettings> {
    match file
    case None => Ok(Defaults)
    case Some(lines) => ReadDateLines(lines)
  }

  /** `_get_date_settings` */
  method GetDateSettings(file: Option<seq<string>>) returns (r: Result<DateSettings>)
    ensures r == ReadDate(file)
    ensures file.None? ==> r == Ok(Defaults)
  {
    var dateMethod, dateHost, dateTimeout, dateInterval := "http", "google.com", 10, 900;
    if file.Some? {
      var lines := file.value;
      var i := 0;
      while i < |lines|
        invariant 0 <= i <= |lines|
        invariant ReadDateEntries(DateEntries(lines)[..i]) == Ok(DateSettings(dateMethod, dateHost, dateTimeout, dateInterval))
      {
        assert DateEntries(lines)[..i + 1][..i] == DateEntries(lines)[..i];
        assert DateEntries(lines)[i] == DateEntry(lines[i]);
        var line := Strip(lines[i]);
        if line != "" {
          var comment := false;
          if line[0] == '#' {
            // `line.strip('#')` has no effect on the result: a comment line is skipped
            comment := true;
          }
          if !comment {
            var parts := Split(line, '=', -1);
            SplitTwoParts(line, '=', -1);
            if |parts| == 2 {
              var name, value := parts[0], StripQuotes(parts[1]);
              if name == "date_method" {
                dateMethod := value;
              } else if name == "date_host" {
                dateHost := value;
              } else if name == "date_timeout" {
                var n := ParseInt(value);
                if n.None? {
                  FailureEndsRead(DateEntries(lines), i + 1);
                  return Err(InvalidInteger(value));
                }
                dateTimeout := n.value;
              } else if name == "date_interval" {
                var n := ParseInt(value);
                if n.None? {
                  FailureEndsRead(DateEntries(lines), i + 1);
                  return Err(InvalidInteger(value));
                }
                dateInterval := n.value;
              }
            }
          }
        }
        i := i + 1;
      }
      assert DateEntries(lines)[..i] == DateEntries(lines);
    }
    r := Ok(DateSettings(dateMethod, dateHost, dateTimeout, dateInterval));
  }

  // ---------------------------------------------------------------------
  // Properties of the reader

  /** Once a prefix of the file fails to read, the whole file fails with the same error. */
  lemma {:induction false} FailureEndsRead(es: seq<Option<Assignment>>, k: nat)
    requires k <= |es| && ReadDateEntries(es[..k]).Err?
    ensures ReadDateEntries(es) == ReadDateEntries(es[..k])
    decreases |es|
  {
    if k < |es| {
      var prefix := es[..|es| - 1];
      assert prefix[..k] == es[..k];
      FailureEndsRead(prefix, k);
    } else {
      assert es[..k] == es;
    }
  }

  /** The value of the last entry that assigns `name`, if any. */
  function LastValue(es: seq<Option<Assignment>>, name: string): Option<string> {
    if es == [] then None
    else
      var e := es[|es| - 1];
      if e.Some? && e.value.name == name then Some(e.value.value)
      else LastValue(es[..|es| - 1], name)
  }

  /** An integer field holds the default when no line names it, and
      otherwise the number the last such line spells. */
  predicate IntFieldFrom(last: Option<string>, default: int, v: int) {
    match last
    case None => v == default
    case Some(text) => ParseInt(text) == Some(v)
  }

  /** The fields a successful read gives, in terms of the last line naming each. */
  predicate LastWins(es: seq<Option<Assignment>>, d: DateSettings) {
    && d.dateMethod == LastValue(es, "date_method").GetOr(Defaults.dateMethod)
    && d.dateHost == LastValue(es, "date_host").GetOr(Defaults.dateHost)
    && IntFieldFrom(LastValue(es, "date_timeout"), Defaults.dateTimeout, d.dateTimeout)
    && IntFieldFrom(LastValue(es, "date_interval"), Defaults.dateInterval, d.dateInterval)
  }

  lemma {:induction false} EntriesLastWins(es: seq<Option<Assignment>>)
    requires ReadDateEntries(es).Ok?
    ensures LastWins(es, ReadDateEntries(es).value)
  {
    if es != [] {
      var prefix := es[..|es| - 1];
      EntriesLastWins(prefix);
    }
  }

  /** Every field keeps its default unless a line names it, and then the last such line wins. */
  lemma DateReadLastWins(lines: seq<string>)
    requires ReadDateLines(lines).Ok?
    ensures LastWins(DateEntries(lines), ReadDateLines(lines).value)
  {
    EntriesLastWins(DateEntries(lines));
  }

  /** An entry that makes the read fail: it names a numeric field and its value is not an integer. */
  predicate BadEntry(e: Option<Assignment>) {
    e.Some? && (e.value.name == "date_timeout" || e.value.name == "date_interval") && ParseInt(e.value.value).None?
  }

  lemma {:induction false} EntriesFailIff(es: seq<Option<Assignment>>)
    ensures ReadDateEntries(es).Err? <==> exists i :: 0 <= i < |es| && BadEntry(es[i])
    ensures ReadDateEntries(es).Err? ==>
      exists i :: 0 <= i < |es| && BadEntry(es[i]) &&
        (forall j :: 0 <= j < i ==> !BadEntry(es[j])) &&
        ReadDateEntries(es).error == InvalidInteger(es[i].value.value)
  {
    if es != [] {
      var prefix, last := es[..|es| - 1], es[|es| - 1];
      EntriesFailIff(prefix);
      assert forall i :: 0 <= i < |prefix| ==> prefix[i] == es[i];
      if ReadDateEntries(prefix).Ok? {
        ApplyFailsIff(ReadDateEntries(prefix).value, last);
        forall i | 0 <= i < |es| && BadEntry(es[i])
          ensures i == |es| - 1
        {
        }
      }
    }
  }

  /** One entry fails exactly when it is bad, and the error names its value. */
  lemma ApplyFailsIff(d: DateSettings, e: Option<Assignment>)
    ensures ApplyDateEntry(d, e).Err? <==> BadEntry(e)
    ensures BadEntry(e) ==> ApplyDateEntry(d, e).error == InvalidInteger(e.value.value)
  {
  }

  /** The read fails exactly when some line gives a numeric field a value that
      is not an integer, and the error names the value of the first such line. */
  lemma DateReadFailsIff(lines: seq<string>)
    ensures ReadDateLines(lines).Err? <==> exists i :: 0 <= i < |lines| && BadEntry(DateEntry(lines[i]))
    ensures ReadDateLines(lines).Err? ==>
      exists i :: 0 <= i < |lines| && BadEntry(DateEntry(lines[i])) &&
        (forall j :: 0 <= j < i ==> !BadEntry(DateEntry(lines[j]))) &&
        ReadDateLines(lines).error == InvalidInteger(DateEntry(lines[i]).value.value)
  {
    var es := DateEntries(lines);
    EntriesFailIff(es);
    assert forall i :: 0 <= i < |lines| ==> es[i] == DateEntry(lines[i]);
  }

  /** An entry the reader does not act on: a skipped line, or one naming none of the four fields. */
  predicate Ignored(e: Option<Assignment>) {
    e.None? || !(e.value.name in {"date_method", "date_host", "date_timeout", "date_interval"})
  }

  lemma {:induction false} IgnoredEntryInert(a: seq<Option<Assignment>>, c: Option<Assignment>, b: seq<Option<Assignment>>)
    requires Ignored(c)
    ensures ReadDateEntries(a + [c] + b) == ReadDateEntries(a + b)
    decreases |b|
  {
    if b == [] {
      assert a + [c] + b == a + [c] && (a + [c])[..|a|] == a;
      assert a + b == a;
    } else {
      var b' := b[..|b| - 1];
      IgnoredEntryInert(a, c, b');
      assert (a + [c] + b)[..|a + [c] + b| - 1] == a + [c] + b';
      assert (a + b)[..|a + b| - 1] == a + b';
    }
  }

  /** Removing an ignored line from anywhere in the file does not change what is read. */
  lemma IgnoredLineInert(a: seq<string>, c: string, b: seq<string>)
    requires Ignored(DateEntry(c))
    ensures ReadDateLines(a + [c] + b) == ReadDateLines(a + b)
  {
    EntriesAppend(a + [c], b);
    EntriesAppend(a, [c]);
    EntriesAppend(a, b);
    assert DateEntries([c]) == [DateEntry(c)];
    IgnoredEntryInert(DateEntries(a), DateEntry(c), DateEntries(b));
  }

  /** Blank lines and comment lines never change a field, wherever they stand. */
  lemma CommentsNeverApply(a: seq<string>, c: string, b: seq<string>)
    requires Strip(c) == "" || Strip(c)[0] == '#'
    ensures ReadDateLines(a + [c] + b) == ReadDateLines(a + b)
  {
    IgnoredLineInert(a, c, b);
  }

  /** A line without exactly one `=` is skipped silently, wherever it stands. */
  lemma MalformedLinesSkipped(a: seq<string>, c: string, b: seq<string>)
    requires Count(Strip(c), '=') != 1
    ensures ReadDateLines(a + [c] + b) == ReadDateLines(a + b)
  {
    DateEntrySpec(c);
    IgnoredLineInert(a, c, b);
  }

  /** The name is not trimmed: a line such as `date_method = ntp`, with whitespace before
      its only `=`, is skipped, wherever it stands. */
  lemma SpacedNameIgnored(a: seq<string>, c: string, b: seq<string>)
    requires var t := Strip(c);
      Count(t, '=') == 1 && 0 < IndexOf(t, '=') < |t| && t[IndexOf(t, '=') - 1] in Whitespace
    ensures ReadDateLines(a + [c] + b) == ReadDateLines(a + b)
  {
    DateEntrySpec(c);
    var e := DateEntry(c);
    if e.Some? {
      var name := e.value.name;
      assert name != [] && name[|name| - 1] in Whitespace;
      assert name !in {"date_method", "date_host", "date_timeout", "date_interval"};
    }
    IgnoredLineInert(a, c, b);
  }

  // ---------------------------------------------------------------------
  // The writer

  /** The caller's settings as given to `_set_date_settings`: `None` for a key that is absent. */
  datatype DatePatch = DatePatch(dateMethod: Option<string>, dateHost: Option<string>,
                                 dateTimeout: Option<int>, dateInterval: Option<int>)

  /** The caller's dictionary, which `_set_date_settings` updates with `setdefault`. */
  class DateDict {
    var dateMethod: Option<string>
    var dateHost: Option<string>
    var dateTimeout: Option<int>
    var dateInterval: Option<int>

    constructor (p: DatePatch)
      ensures Entries() == p
    {
      dateMethod, dateHost, dateTimeout, dateInterval := p.dateMethod, p.dateHost, p.dateTimeout, p.dateInterval;
    }

    function Entries(): DatePatch
      reads this
    {
      DatePatch(dateMethod, dateHost, dateTimeout, dateInterval)
    }
  }

  /** The settings written for a partial mapping: each absent key takes its default. */
  function WithDefaults(p: DatePatch): DateSettings {
    DateSettings(p.dateMethod.GetOr(Defaults.dateMethod), p.dateHost.GetOr(Defaults.dateHost),
                 p.dateTimeout.GetOr(Defaults.dateTimeout), p.dateInterval.GetOr(Defaults.dateInterval))
  }

  function AsPatch(d: DateSettings): DatePatch {
    DatePatch(Some(d.dateMethod), Some(d.dateHost), Some(d.dateTimeout), Some(d.dateInterval))
  }

  /** `'<key>=%s\n' % value`: one line of the date file. */
  function SettingLine(key: string, value: string): string {
    key + "=" + value + "\n"
  }

  /** The four lines the writer puts in the file, in this order. */
  function DateFile(d: DateSettings): seq<string> {
    [SettingLine("date_method", d.dateMethod),
     SettingLine("date_host", d.dateHost),
     SettingLine("date_timeout", FormatInt(d.dateTimeout)),
     SettingLine("date_interval", FormatInt(d.dateInterval))]
  }

  /** `_set_date_settings`: fills the caller's dictionary with the defaults of its
      absent keys and returns the new contents of the file, which replace the old. */
  method SetDateSettings(s: DateDict) returns (lines: seq<string>)
    modifies s
    ensures s.Entries() == AsPatch(WithDefaults(old(s.Entries())))
    ensures lines == DateFile(WithDefaults(old(s.Entries())))
  {
    if s.dateMethod.None? { s.dateMethod := Some("http"); }
    if s.dateHost.None? { s.dateHost := Some("google.com"); }
    if s.dateTimeout.None? { s.dateTimeout := Some(10); }
    if s.dateInterval.None? { s.dateInterval := Some(900); }
    lines := [SettingLine("date_method", s.dateMethod.value),
              SettingLine("date_host", s.dateHost.value),
              SettingLine("date_timeout", FormatInt(s.dateTimeout.value)),
              SettingLine("date_interval", FormatInt(s.dateInterval.value))];
  }

  // ---------------------------------------------------------------------
  // Reading back what was written

  /** A value that survives the write and the read unchanged: no `=` and no line
      break in it, and no quote or whitespace at either end. */
  predicate PlainDateValue(v: string) {
    '=' !in v && '\n' !in v &&
    (v != [] ==> v[0] !in {'"', '\''} && v[|v| - 1] !in {'"', '\''} && v[|v| - 1] !in Whitespace)
  }

  /** `key=value\n` reads back as that key and value. */
  lemma EntryOfWrittenLine(key: string, v: string)
    requires key != [] && key[0] !in Whitespace && key[0] != '#' && key[|key| - 1] !in Whitespace
    requires '=' !in key && PlainDateValue(v)
    ensures DateEntry(SettingLine(key, v)) == Some(Assignment(key, v))
  {
    var t := key + "=" + v;
    assert SettingLine(key, v) == t + "\n";
    StripWrittenLine(t);
    SplitAtOnlySeparator(key, '=', v);
    StripCharsUnchanged(v, {'"'});
    StripCharsUnchanged(v, {'\''});
  }

  lemma FormattedIntIsPlain(n: int)
    ensures PlainDateValue(FormatInt(n))
  {
    FormatIntChars(n);
  }

  /** The assignments the four written lines stand for. */
  function WrittenAssignments(d: DateSettings): seq<Option<Assignment>> {
    [Some(Assignment("date_method", d.dateMethod)), Some(Assignment("date_host", d.dateHost)),
     Some(Assignment("date_timeout", FormatInt(d.dateTimeout))),
     Some(Assignment("date_interval", FormatInt(d.dateInterval)))]
  }

  lemma WrittenLineEntry(d: DateSettings, i: nat)
    requires PlainDateValue(d.dateMethod) && PlainDateValue(d.dateHost)
    requires i < 4
    ensures DateEntry(DateFile(d)[i]) == WrittenAssignments(d)[i]
  {
    var key := ["date_method", "date_host", "date_timeout", "date_interval"][i];
    var v := [d.dateMethod, d.dateHost, FormatInt(d.dateTimeout), FormatInt(d.dateInterval)][i];
    FormattedIntIsPlain(d.dateTimeout);
    FormattedIntIsPlain(d.dateInterval);
    assert DateFile(d)[i] == SettingLine(key, v);
    assert WrittenAssignments(d)[i] == Some(Assignment(key, v));
    EntryOfWrittenLine(key, v);
  }

  /** The entries the reader takes from the four written lines. */
  lemma WrittenEntries(d: DateSettings)
    requires PlainDateValue(d.dateMethod) && PlainDateValue(d.dateHost)
    ensures DateEntries(DateFile(d)) == WrittenAssignments(d)
  {
    forall i | 0 <= i < 4
      ensures DateEntries(DateFile(d))[i] == WrittenAssignments(d)[i]
    {
      WrittenLineEntry(d, i);
    }
  }

  /** Reading the file the writer produced gives back the settings it wrote,
      when the two text values are plain. */
  lemma DateRoundTrip(d: DateSettings)
    requires PlainDateValue(d.dateMethod) && PlainDateValue(d.dateHost)
    ensures ReadDate(Some(DateFile(d))) == Ok(d)
  {
    WrittenEntries(d);
    ReadWrittenAssignments(d);
  }

  /** Writing back the settings just read from a written file writes the same file again. */
  lemma DateRewriteIdentical(d: DateSettings)
    requires PlainDateValue(d.dateMethod) && PlainDateValue(d.dateHost)
    ensures ReadDate(Some(DateFile(d))).Ok? && DateFile(ReadDate(Some(DateFile(d))).value) == DateFile(d)
  {
    DateRoundTrip(d);
  }

  /** The four assignments, applied in order to the defaults, give `d`. */
  lemma ReadWrittenAssignments(d: DateSettings)
    ensures ReadDateEntries(WrittenAssignments(d)) == Ok(d)
  {
    ParseFormatInt(d.dateTimeout);
    ParseFormatInt(d.dateInterval);
    ReadFourAssignments(d, FormatInt(d.dateTimeout), FormatInt(d.dateInterval));
  }

  /** One assignment to each field, in the order the writer puts them, gives those values. */
  lemma ReadFourAssignments(d: DateSettings, timeout: string, interval: string)
    requires ParseInt(timeout) == Some(d.dateTimeout) && ParseInt(interval) == Some(d.dateInterval)
    ensures ReadDateEntries([Some(Assignment("date_method", d.dateMethod)), Some(Assignment("date_host", d.dateHost)),
                             Some(Assignment("date_timeout", timeout)), Some(Assignment("date_interval", interval))]) == Ok(d)
  {
    var es := [Some(Assignment("date_method", d.dateMethod)), Some(Assignment("date_host", d.dateHost)),
               Some(Assignment("date_timeout", timeout)), Some(Assignment("date_interval", interval))];
    var d1 := Defaults.(dateMethod := d.dateMethod);
    var d2 := d1.(dateHost := d.dateHost);
    var d3 := d2.(dateTimeout := d.dateTimeout);
    ReadDateSnoc(es, 0, Ok(Defaults));
    ReadDateSnoc(es, 1, Ok(d1));
    ReadDateSnoc(es, 2, Ok(d2));
    ReadDateSnoc(es, 3, Ok(d3));
    assert es[..4] == es;
  }

  /** One more entry read after a prefix that succeeded. */
  lemma ReadDateSnoc(es: seq<Option<Assignment>>, k: nat, r: Result<DateSettings>)
    requires k < |es| && ReadDateEntries(es[..k]) == r && r.Ok?
    ensures ReadDateEntries(es[..k + 1]) == ApplyDateEntry(r.value, es[k])
  {
    assert es[..k + 1][..k] == es[..k];
  }

  /** What `_set_date_settings` writes for a partial mapping reads back as that
      mapping with its absent keys at their defaults. */
  lemma WriteThenReadDate(p: DatePatch)
    requires p.dateMethod.Some? ==> PlainDateValue(p.dateMethod.value)
    requires p.dateHost.Some? ==> PlainDateValue(p.dateHost.value)
    ensures ReadDate(Some(DateFile(WithDefaults(p)))) == Ok(WithDefaults(p))
  {
    DateRoundTrip(WithDefaults(p));
  }
}
