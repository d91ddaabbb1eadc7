/** The service store: the motionEye service settings kept in `motioneye.conf`,
    a file of `name value` lines that other programs also write
    (package/motioneye/extractl.py, lines 98-191). */
module ServiceStore {
  import opened Results
  import opened Text

  /** The settings as `_get_motioneye_settings` returns them (keys `port`,
      `motionBinary`, `debug`). */
  datatype ServiceSettings = ServiceSettings(port: int, motionBinary: string, debug: bool)

  const Defaults: ServiceSettings := ServiceSettings(80, "/usr/bin/motion", false)

  /** A line the reader acts on: `name` with `_` turned into `-`, and the rest of the line. */
  datatype Directive = Directive(name: string, value: string)

  /** `name.replace('_', '-')` */
  function NormalName(name: string): string {
    Replace(name, '_', '-')
  }

  /** What the reader takes from one line, or `None` when it skips the line: it is
      blank or holds no space. The name is the text before the first space and the
      value all the text after it. */
  function ServiceEntry(line: string): Option<Directive> {
    var t := Strip(line);
    if t == "" then None
    else
      var parts := Split(t, ' ', 1);
      if |parts| == 2 then Some(Directive(NormalName(parts[0]), parts[1])) else None
  }

  /** A line is used exactly when its stripped text holds a space; the name is then
      the text before the first space, normalised, and the value all the text after it. */
  lemma ServiceEntrySpec(line: string)
    ensures var t := Strip(line);
      ServiceEntry(line).Some? <==> ' ' in t
    ensures var t := Strip(line);
      ServiceEntry(line).Some? ==>
        ServiceEntry(line).value == Directive(NormalName(t[..IndexOf(t, ' ')]), t[IndexOf(t, ' ') + 1..])
  {
    SplitOnce(Strip(line), ' ');
  }

  function ServiceEntries(lines: seq<string>): (es: seq<Option<Directive>>)
    ensures |es| == |lines|
  {
    seq(|lines|, i requires 0 <= i < |lines| => ServiceEntry(lines[i]))
  }

  lemma ServiceEntriesAppend(x: seq<string>, y: seq<string>)
    ensures ServiceEntries(x + y) == ServiceEntries(x) + ServiceEntries(y)
  {
    forall i | 0 <= i < |x + y|
      ensures ServiceEntries(x + y)[i] == (ServiceEntries(x) + ServiceEntries(y))[i]
    {
      if i < |x| {
        assert (x + y)[i] == x[i];
      } else {
        assert (x + y)[i] == y[i - |x|];
      }
    }
  }

  /** The effect of one entry on the settings read so far. */
  function ApplyServiceEntry(d: ServiceSettings, e: Option<Directive>): Result<ServiceSettings> {
    if e.None? then Ok(d)
    else
      var name, value := e.value.name, e.value.value;
      if name == "port" then
        var n := ParseInt(value);
        if n.None? then Err(InvalidInteger(value)) else Ok(d.(port := n.value))
      else if name == "motion-binary" then Ok(d.(motionBinary := value))
      else if name == "log-level" then Ok(d.(debug := value == "debug"))
      else Ok(d)
  }

  /** The settings after applying the entries in order, starting from the
      defaults; the first failing entry ends the read. */
  function ReadServiceEntries(es: seq<Option<Directive>>): Result<ServiceSettings> {
    if es == [] then Ok(Defaults)
    else
      var r := ReadServiceEntries(es[..|es| - 1]);
      if r.Err? then r else ApplyServiceEntry(r.value, es[|es| - 1])
  }

  function ReadServiceLines(lines: seq<string>): Result<ServiceSettings> {
    ReadServiceEntries(ServiceEntries(lines))
  }

  /** What `_get_motioneye_settings` returns for a file that is missing (`None`) or has these lines. */
  function ReadService(file: Option<seq<string>>): Result<ServiceSettings> {
    match file
    case None => Ok(Defaults)
    case Some(lines) => ReadServiceLines(lines)
  }

  /** `_get_motioneye_settings` */
  method GetMotionEyeSettings(file: Option<seq<string>>) returns (r: Result<ServiceSettings>)
    ensures r == ReadService(file)
    ensures file.None? ==> r == Ok(Defaults)
  {
    var port, motionBinary, debug := 80, "/usr/bin/motion", false;
    if file.Some? {
      var lines := file.value;
      var i := 0;
      while i < |lines|
        invariant 0 <= i <= |lines|
        invariant ReadServiceEntries(ServiceEntries(lines)[..i]) == Ok(ServiceSettings(port, motionBinary, debug))
      {
        assert ServiceEntries(lines)[..i + 1][..i] == ServiceEntries(lines)[..i];
        assert ServiceEntries(lines)[i] == ServiceEntry(lines[i]);
        var line := Strip(lines[i]);
        if line != "" {
          var parts := Split(line, ' ', 1);
          if |parts| == 2 {
            var name, value := NormalName(parts[0]), parts[1];
            if name == "port" {
              var n := ParseInt(value);
              if n.None? {
                ServiceFailureEndsRead(ServiceEntries(lines), i + 1);
                return Err(InvalidInteger(value));
              }
              port := n.value;
            } else if name == "motion-binary" {
              motionBinary := value;
            } else if name == "log-level" {
              debug := value == "debug";
            }
          }
        }
        i := i + 1;
      }
      assert ServiceEntries(lines)[..i] == ServiceEntries(lines);
    }
    r := Ok(ServiceSettings(port, motionBinary, debug));
  }

  // ---------------------------------------------------------------------
  // Properties of the reader

  /** Once a prefix of the file fails to read, the whole file fails with the same error. */
  lemma {:induction false} ServiceFailureEndsRead(es: seq<Option<Directive>>, k: nat)
    requires k <= |es| && ReadServiceEntries(es[..k]).Err?
    ensures ReadServiceEntries(es) == ReadServiceEntries(es[..k])
    decreases |es|
  {
    if k < |es| {
      var prefix := es[..|es| - 1];
      assert prefix[..k] == es[..k];
      ServiceFailureEndsRead(prefix, k);
    } else {
      assert es[..k] == es;
    }
  }

  /** One more entry read after a prefix that succeeded. */
  lemma ReadServiceSnoc(es: seq<Option<Directive>>, e: Option<Directive>)
    ensures ReadServiceEntries(es + [e]) ==
      (var r := ReadServiceEntries(es); if r.Err? then r else ApplyServiceEntry(r.value, e))
  {
    assert (es + [e])[..|es + [e]| - 1] == es;
  }

  /** The value of the last entry with this name, if any. */
  function LastValue(es: seq<Option<Directive>>, name: string): Option<string> {
    if es == [] then None
    else
      var e := es[|es| - 1];
      if e.Some? && e.value.name == name then Some(e.value.value)
      else LastValue(es[..|es| - 1], name)
  }

  /** The fields a successful read gives, in terms of the last line naming each:
      the port is the number it spells, the binary its text, and debugging is on
      exactly when the last `log-level` line says `debug`. */
  predicate LastWins(es: seq<Option<Directive>>, d: ServiceSettings) {
    && (match LastValue(es, "port")
        case None => d.port == Defaults.port
        case Some(text) => ParseInt(text) == Some(d.port))
    && d.motionBinary == LastValue(es, "motion-binary").GetOr(Defaults.motionBinary)
    && d.debug == (LastValue(es, "log-level") == Some("debug"))
  }

  lemma {:induction false} EntriesLastWins(es: seq<Option<Directive>>)
    requires ReadServiceEntries(es).Ok?
    ensures LastWins(es, ReadServiceEntries(es).value)
  {
    if es != [] {
      EntriesLastWins(es[..|es| - 1]);
    }
  }

  /** Every field keeps its default unless a line names it, and then the last such line wins. */
  lemma ServiceReadLastWins(lines: seq<string>)
    requires ReadServiceLines(lines).Ok?
    ensures LastWins(ServiceEntries(lines), ReadServiceLines(lines).value)
  {
    EntriesLastWins(ServiceEntries(lines));
  }

  /** An entry that makes the read fail: a `port` whose value is not an integer. */
  predicate BadEntry(e: Option<Directive>) {
    e.Some? && e.value.name == "port" && ParseInt(e.value.value).None?
  }

  /** One entry fails exactly when it is bad, and the error names its value. */
  lemma ApplyFailsIff(d: ServiceSettings, e: Option<Directive>)
    ensures ApplyServiceEntry(d, e).Err? <==> BadEntry(e)
    ensures BadEntry(e) ==> ApplyServiceEntry(d, e).error == InvalidInteger(e.value.value)
  {
  }

  lemma {:induction false} EntriesFailIff(es: seq<Option<Directive>>)
    ensures ReadServiceEntries(es).Err? <==> exists i :: 0 <= i < |es| && BadEntry(es[i])
    ensures ReadServiceEntries(es).Err? ==>
      exists i :: 0 <= i < |es| && BadEntry(es[i]) &&
        (forall j :: 0 <= j < i ==> !BadEntry(es[j])) &&
        ReadServiceEntries(es).error == InvalidInteger(es[i].value.value)
  {
    if es != [] {
      var prefix, last := es[..|es| - 1], es[|es| - 1];
      EntriesFailIff(prefix);
      assert forall i :: 0 <= i < |prefix| ==> prefix[i] == es[i];
      if ReadServiceEntries(prefix).Ok? {
        ApplyFailsIff(ReadServiceEntries(prefix).value, last);
        forall i | 0 <= i < |es| && BadEntry(es[i])
          ensures i == |es| - 1
        {
        }
      }
    }
  }

  /** The read fails exactly when some `port` line holds no integer, and the
      error names the value of the first such line. */
  lemma ServiceReadFailsIff(lines: seq<string>)
    ensures ReadServiceLines(lines).Err? <==> exists i :: 0 <= i < |lines| && BadEntry(ServiceEntry(lines[i]))
    ensures ReadServiceLines(lines).Err? ==>
      exists i :: 0 <= i < |lines| && BadEntry(ServiceEntry(lines[i])) &&
        (forall j :: 0 <= j < i ==> !BadEntry(ServiceEntry(lines[j]))) &&
        ReadServiceLines(lines).error == InvalidInteger(ServiceEntry(lines[i]).value.value)
  {
    var es := ServiceEntries(lines);
    EntriesFailIff(es);
    assert forall i :: 0 <= i < |lines| ==> es[i] == ServiceEntry(lines[i]);
  }

  /** `name value` with a name free of spaces reads as that name, normalised, and that value. */
  lemma EntryOfDirectiveLine(line: string, name: string, value: string)
    requires name != [] && name[0] !in Whitespace && ' ' !in name
    requires value != [] && value[|value| - 1] !in Whitespace
    requires line == name + " " + value
    ensures ServiceEntry(line) == Some(Directive(NormalName(name), value))
  {
    var t := name + " " + value;
    assert t[0] == name[0] && t[|t| - 1] == value[|value| - 1];
    StripCharsUnchanged(t, Whitespace);
    SplitOnceAt(name, ' ', value);
  }

  /** A `log-level` line, under any spelling of the name that normalises to it,
      switches debugging on exactly when its value is `debug`. */
  lemma LogLevelLineRead(name: string, value: string)
    requires name != [] && name[0] !in Whitespace && ' ' !in name && NormalName(name) == "log-level"
    requires value != [] && value[|value| - 1] !in Whitespace
    ensures ReadServiceLines([name + " " + value]) == Ok(Defaults.(debug := value == "debug"))
  {
    var e := Some(Directive("log-level", value));
    EntryOfDirectiveLine(name + " " + value, name, value);
    assert ServiceEntries([name + " " + value]) == [] + [e];
    ReadServiceSnoc([], e);
  }

  /** An underscore in a name reads as a hyphen, so `log_level` is one such spelling. */
  lemma UnderscoreNormalised(a: string, b: string)
    requires '_' !in a && '_' !in b
    ensures NormalName(a + "_" + b) == a + "-" + b
  {
    ReplaceAppend(a + "_", b, '_', '-');
    ReplaceAppend(a, "_", '_', '-');
    ReplaceAbsent(a, '_', '-');
    ReplaceAbsent(b, '_', '-');
  }

  // ---------------------------------------------------------------------
  // The writer

  /** The caller's settings as given to `_set_motioneye_settings`: `None` for a key that is absent. */
  datatype ServicePatch = ServicePatch(port: Option<int>, motionBinary: Option<string>, debug: Option<bool>)

  /** The caller's dictionary. `_set_motioneye_settings` works on a copy of it. */
  class ServiceDict {
    var port: Option<int>
    var motionBinary: Option<string>
    var debug: Option<bool>

    constructor (p: ServicePatch)
      ensures Entries() == p
    {
      port, motionBinary, debug := p.port, p.motionBinary, p.debug;
    }

    function Entries(): ServicePatch
      reads this
    {
      ServicePatch(port, motionBinary, debug)
    }
  }

  /** The settings written for a partial mapping: each absent key takes its default. */
  function WithDefaults(p: ServicePatch): ServiceSettings {
    ServiceSettings(p.port.GetOr(Defaults.port), p.motionBinary.GetOr(Defaults.motionBinary),
                    p.debug.GetOr(Defaults.debug))
  }

  function AsPatch(d: ServiceSettings): ServicePatch {
    ServicePatch(Some(d.port), Some(d.motionBinary), Some(d.debug))
  }

  /** The three settings the writer recognises in the file. */
  datatype Key = Port | MotionBinary | LogLevel

  /** The name of the setting in the file. */
  function FileName(k: Key): string {
    match k
    case Port => "port"
    case MotionBinary => "motion-binary"
    case LogLevel => "log-level"
  }

  /** The key of the dictionary `s.pop` takes it from. */
  function DictKey(k: Key): string {
    match k
    case Port => "port"
    case MotionBinary => "motionBinary"
    case LogLevel => "debug"
  }

  /** The setting a line holds for the writer: its stripped text splits into exactly
      two parts at spaces (it holds exactly one space) and the normalised name is
      one of the three. */
  function WriteKey(line: string): Option<Key> {
    var t := Strip(line);
    if t == "" then None
    else
      var parts := Split(t, ' ', 2);
      if |parts| != 2 then None
      else
        KeyNamed(NormalName(parts[0]))
  }

  function KeyNamed(name: string): Option<Key> {
    if name == "port" then Some(Port)
    else if name == "motion-binary" then Some(MotionBinary)
    else if name == "log-level" then Some(LogLevel)
    else None
  }

  /** The writer recognises a line exactly when its stripped text holds one space and
      the reader takes from it a directive named after one of the three settings; the
      reader then sees that setting. */
  lemma WriteKeySpec(line: string)
    ensures WriteKey(line).Some? <==>
      Count(Strip(line), ' ') == 1 && ServiceEntry(line).Some? &&
      ServiceEntry(line).value.name in {"port", "motion-binary", "log-level"}
    ensures WriteKey(line).Some? ==> ServiceEntry(line).value.name == FileName(WriteKey(line).value)
  {
    var t := Strip(line);
    if t != "" {
      SplitTwoParts(t, ' ', 2);
      SplitOnce(t, ' ');
      CountZero(t, ' ');
    }
  }

  function Has(q: ServicePatch, k: Key): bool {
    match k
    case Port => q.port.Some?
    case MotionBinary => q.motionBinary.Some?
    case LogLevel => q.debug.Some?
  }

  /** `s.pop(key)`: the pending settings without `k`. */
  function Pop(q: ServicePatch, k: Key): ServicePatch {
    match k
    case Port => q.(port := None)
    case MotionBinary => q.(motionBinary := None)
    case LogLevel => q.(debug := None)
  }

  /** `'port %s'`, `'motion-binary %s'` or `'log-level %s' % ['info', 'debug'][debug]`. */
  function RenderLine(k: Key, q: ServicePatch): string
    requires Has(q, k)
  {
    match k
    case Port => "port " + FormatInt(q.port.value)
    case MotionBinary => "motion-binary " + q.motionBinary.value
    case LogLevel => "log-level " + (if q.debug.value then "debug" else "info")
  }

  /** The lines edited so far and the settings still to be written. */
  datatype EditState = EditState(lines: seq<string>, pending: ServicePatch)

  /** What the writer recognises in each old line. */
  function WriteKeys(lines: seq<string>): (ks: seq<Option<Key>>)
    ensures |ks| == |lines|
  {
    seq(|lines|, i requires 0 <= i < |lines| => WriteKey(lines[i]))
  }

  /** One line of the old file, in which the writer recognises `k`: kept when it recognises
      nothing, replaced when the setting is still pending, and a `KeyError` when it was
      already written. */
  function EditLine(st: EditState, line: string, k: Option<Key>): Result<EditState> {
    if k.None? then Ok(st.(lines := st.lines + [line]))
    else if !Has(st.pending, k.value) then Err(MissingKey(DictKey(k.value)))
    else Ok(EditState(st.lines + [RenderLine(k.value, st.pending)], Pop(st.pending, k.value)))
  }

  /** The edit of the old lines, given what the writer recognises in each. */
  function EditKeyed(lines: seq<string>, ks: seq<Option<Key>>, q: ServicePatch): Result<EditState>
    requires |ks| == |lines|
  {
    if lines == [] then Ok(EditState([], q))
    else
      var r := EditKeyed(lines[..|lines| - 1], ks[..|ks| - 1], q);
      if r.Err? then r else EditLine(r.value, lines[|lines| - 1], ks[|ks| - 1])
  }

  function EditLines(lines: seq<string>, q: ServicePatch): Result<EditState> {
    EditKeyed(lines, WriteKeys(lines), q)
  }

  /** The line appended for `k` when it is still pending. */
  function AppendedLine(q: ServicePatch, k: Key): seq<string> {
    if Has(q, k) then [RenderLine(k, q)] else []
  }

  /** The lines with one line appended for each setting not found, in the order
      port, motion-binary, log-level. */
  function WithRemaining(lines: seq<string>, q: ServicePatch): seq<string> {
    lines + AppendedLine(q, Port) + AppendedLine(q, MotionBinary) + AppendedLine(q, LogLevel)
  }

  /** What is written for one line: nothing when it is blank, otherwise the line ending with `\n`. */
  function WrittenLine(line: string): (out: seq<string>)
    ensures |out| <= 1 && (out != [] ==> EndsWithNewline(out[0]))
  {
    if IsBlank(line) then [] else [Terminated(line)]
  }

  /** What is written for each line. */
  function Written(lines: seq<string>): (ws: seq<seq<string>>)
    ensures |ws| == |lines|
  {
    seq(|lines|, i requires 0 <= i < |lines| => WrittenLine(lines[i]))
  }

  /** The runs of lines one after the other. */
  function Concat(runs: seq<seq<string>>): seq<string> {
    if runs == [] then [] else Concat(runs[..|runs| - 1]) + runs[|runs| - 1]
  }

  /** The text written out: blank lines dropped, every other line ended with `\n`. */
  function Emit(lines: seq<string>): seq<string> {
    Concat(Written(lines))
  }

  /** What `_set_motioneye_settings` writes for a file that is missing (`None`) or has these
      lines, and a partial mapping; an error means nothing is written. */
  function WriteService(file: Option<seq<string>>, p: ServicePatch): Result<seq<string>> {
    var r := EditLines(file.GetOr([]), AsPatch(WithDefaults(p)));
    if r.Err? then Err(r.error) else Ok(Emit(WithRemaining(r.value.lines, r.value.pending)))
  }

  /** `_set_motioneye_settings`. The caller's dictionary is read and not changed. */
  method SetMotionEyeSettings(file: Option<seq<string>>, d: ServiceDict) returns (r: Result<seq<string>>)
    ensures r == WriteService(file, d.Entries())
  {
    var s := d.Entries();
    ghost var given := s;
    if s.port.None? { s := s.(port := Some(80)); }
    if s.motionBinary.None? { s := s.(motionBinary := Some("/usr/bin/motion")); }
    if s.debug.None? { s := s.(debug := Some(false)); }
    assert s == AsPatch(WithDefaults(given));
    var lines: seq<string> := [];
    if file.Some? {
      lines := file.value;
    }
    assert lines == file.GetOr([]);
    var edit := EditExisting(lines, s);
    if edit.Err? {
      return Err(edit.error);
    }
    lines := AppendRemaining(edit.value.lines, edit.value.pending);
    var out := WriteLines(lines);
    r := Ok(out);
  }

  /** The loop over the old lines of `_set_motioneye_settings`: each recognised line is
      replaced in place with its pending setting, which is then taken out of `s`. */
  method EditExisting(original: seq<string>, q: ServicePatch) returns (r: Result<EditState>)
    ensures r == EditLines(original, q)
  {
    var lines, s := original, q;
    var i := 0;
    while i < |lines|
      invariant 0 <= i <= |lines| == |original|
      invariant lines[i..] == original[i..]
      invariant EditKeyed(original[..i], WriteKeys(original)[..i], q) == Ok(EditState(lines[..i], s))
    {
      assert lines[i] == original[i];
      ghost var before := lines;
      EditPrefixStep(original, i, q, EditState(lines[..i], s));
      var step := EditOne(lines[..i], lines[i], s);
      if step.Err? {
        EditFailureEnds(original, WriteKeys(original), i + 1, q);
        return Err(step.error);
      }
      lines := lines[i := step.value.0];
      s := step.value.1;
      assert lines[..i + 1] == before[..i] + [step.value.0];
      i := i + 1;
    }
    assert original[..i] == original && lines[..i] == lines && WriteKeys(original)[..i] == WriteKeys(original);
    r := Ok(EditState(lines, s));
  }

  /** The body of that loop for one line `line`, given the settings `s` still pending: one
      step of the edit, after the lines `done` (ghost, only to state the step). */
  method EditOne(ghost done: seq<string>, line: string, s: ServicePatch) returns (r: Result<(string, ServicePatch)>)
    ensures EditLine(EditState(done, s), line, WriteKey(line)) ==
      if r.Err? then Err(r.error) else Ok(EditState(done + [r.value.0], r.value.1))
  {
    r := Ok((line, s));
    var t := Strip(line);
    if t != "" {
      var parts := Split(t, ' ', 2);
      if |parts| == 2 {
        var name := NormalName(parts[0]);
        if name == "port" {
          if s.port.None? {
            return Err(MissingKey("port"));
          }
          r := Ok(("port " + FormatInt(s.port.value), s.(port := None)));
        } else if name == "motion-binary" {
          if s.motionBinary.None? {
            return Err(MissingKey("motionBinary"));
          }
          r := Ok(("motion-binary " + s.motionBinary.value, s.(motionBinary := None)));
        } else if name == "log-level" {
          if s.debug.None? {
            return Err(MissingKey("debug"));
          }
          r := Ok(("log-level " + (if s.debug.value then "debug" else "info"), s.(debug := None)));
        }
      }
    }
  }

  /** Editing one more line of the prefix. */
  lemma EditPrefixStep(original: seq<string>, i: nat, q: ServicePatch, st: EditState)
    requires i < |original|
    requires EditKeyed(original[..i], WriteKeys(original)[..i], q) == Ok(st)
    ensures EditKeyed(original[..i + 1], WriteKeys(original)[..i + 1], q)
         == EditLine(st, original[i], WriteKey(original[i]))
  {
    assert original[..i + 1][..i] == original[..i];
    assert WriteKeys(original)[..i + 1][..i] == WriteKeys(original)[..i];
  }

  /** The appends of `_set_motioneye_settings`: a line for each setting still in `s`. */
  method AppendRemaining(edited: seq<string>, pending: ServicePatch) returns (lines: seq<string>)
    ensures lines == WithRemaining(edited, pending)
  {
    var s := pending;
    lines := edited;
    if s.port.Some? {
      lines := lines + ["port " + FormatInt(s.port.value)];
      s := s.(port := None);
    }
    assert lines == edited + AppendedLine(pending, Port);
    if s.motionBinary.Some? {
      lines := lines + ["motion-binary " + s.motionBinary.value];
      s := s.(motionBinary := None);
    }
    assert lines == edited + AppendedLine(pending, Port) + AppendedLine(pending, MotionBinary);
    if s.debug.Some? {
      lines := lines + ["log-level " + (if s.debug.value then "debug" else "info")];
      s := s.(debug := None);
    }
  }

  /** The loop that writes the file: blank lines are skipped, a missing `\n` is added. */
  method WriteLines(lines: seq<string>) returns (out: seq<string>)
    ensures out == Emit(lines)
  {
    out := [];
    var j := 0;
    while j < |lines|
      invariant 0 <= j <= |lines|
      invariant out == Emit(lines[..j])
    {
      assert lines[..j + 1] == lines[..j] + [lines[j]];
      EmitSnoc(lines[..j], lines[j]);
      BlankIffStripEmpty(lines[j]);
      var line := lines[j];
      if Strip(line) != "" {
        if !EndsWithNewline(line) {
          line := line + "\n";
        }
        out := out + [line];
      }
      j := j + 1;
    }
    assert lines[..j] == lines;
  }

  lemma EmitSnoc(xs: seq<string>, x: string)
    ensures Emit(xs + [x]) == Emit(xs) + WrittenLine(x)
  {
    var ws := Written(xs + [x]);
    assert ws == Written(xs) + [WrittenLine(x)];
    assert ws[..|ws| - 1] == Written(xs);
  }

  /** Once a prefix of the old file fails to edit, the whole write fails with the same error. */
  lemma {:induction false} EditFailureEnds(lines: seq<string>, ks: seq<Option<Key>>, n: nat, q: ServicePatch)
    requires |ks| == |lines| && n <= |lines| && EditKeyed(lines[..n], ks[..n], q).Err?
    ensures EditKeyed(lines, ks, q) == EditKeyed(lines[..n], ks[..n], q)
    decreases |lines|
  {
    if n < |lines| {
      var prefix, kprefix := lines[..|lines| - 1], ks[..|ks| - 1];
      assert prefix[..n] == lines[..n] && kprefix[..n] == ks[..n];
      EditFailureEnds(prefix, kprefix, n, q);
    } else {
      assert lines[..n] == lines && ks[..n] == ks;
    }
  }

  // ---------------------------------------------------------------------
  // Properties of the writer

  lemma {:induction false} ConcatAppend(x: seq<seq<string>>, y: seq<seq<string>>)
    ensures Concat(x + y) == Concat(x) + Concat(y)
    decreases |y|
  {
    if y == [] {
      assert x + y == x;
    } else {
      var y', r := y[..|y| - 1], y[|y| - 1];
      ConcatAppend(x, y');
      assert (x + y)[..|x + y| - 1] == x + y';
      assert Concat(x) + Concat(y') + r == Concat(x) + (Concat(y') + r);
    }
  }

  /** Emitting works line by line: the output for two runs of lines is the outputs one after the other. */
  lemma EmitAppend(a: seq<string>, b: seq<string>)
    ensures Emit(a + b) == Emit(a) + Emit(b)
  {
    assert Written(a + b) == Written(a) + Written(b) by {
      forall i | 0 <= i < |a + b|
        ensures Written(a + b)[i] == (Written(a) + Written(b))[i]
      {
        if i < |a| {
          assert (a + b)[i] == a[i];
        } else {
          assert (a + b)[i] == b[i - |a|];
        }
      }
    }
    ConcatAppend(Written(a), Written(b));
  }

  /** Every line written ends with `\n`. */
  lemma {:induction false} EmitTerminated(lines: seq<string>)
    ensures forall i :: 0 <= i < |Emit(lines)| ==> EndsWithNewline(Emit(lines)[i])
  {
    if lines != [] {
      var prefix := lines[..|lines| - 1];
      EmitTerminated(prefix);
      assert lines == prefix + [lines[|lines| - 1]];
      EmitSnoc(prefix, lines[|lines| - 1]);
    }
  }

  /** A single line is dropped when blank and otherwise written ending in `\n`. */
  lemma EmitOne(x: string)
    ensures Emit([x]) == if IsBlank(x) then [] else [Terminated(x)]
  {
    EmitSnoc([], x);
    assert [] + [x] == [x];
  }

  /** Emitting again changes nothing: what is written is already free of blank lines and terminated. */
  lemma {:induction false} EmitIdempotent(xs: seq<string>)
    ensures Emit(Emit(xs)) == Emit(xs)
    decreases |xs|
  {
    if xs != [] {
      var ys, x := xs[..|xs| - 1], xs[|xs| - 1];
      EmitIdempotent(ys);
      assert xs == ys + [x];
      EmitSnoc(ys, x);
      EmitAppend(Emit(ys), WrittenLine(x));
      if !IsBlank(x) {
        StripTerminated(x);
        BlankIffStripEmpty(x);
        BlankIffStripEmpty(Terminated(x));
        EmitOne(Terminated(x));
      }
    }
  }

  /** What is written for one line reads as the line itself. */
  lemma WrittenLineInvisible(es: seq<Option<Directive>>, x: string)
    ensures ReadServiceEntries(es + ServiceEntries(WrittenLine(x))) == ReadServiceEntries(es + [ServiceEntry(x)])
  {
    BlankIffStripEmpty(x);
    ReadServiceSnoc(es, ServiceEntry(x));
    if IsBlank(x) {
      assert ServiceEntries(WrittenLine(x)) == [];
      assert es + [] == es;
    } else {
      StripTerminated(x);
      assert ServiceEntries(WrittenLine(x)) == [ServiceEntry(x)];
    }
  }

  /** Dropping blank lines and terminating the others does not change what the reader sees. */
  lemma {:induction false} EmitInvisible(xs: seq<string>)
    ensures ReadServiceLines(Emit(xs)) == ReadServiceLines(xs)
    decreases |xs|
  {
    if xs != [] {
      var ys, x := xs[..|xs| - 1], xs[|xs| - 1];
      var before := ServiceEntries(Emit(ys));
      assert xs == ys + [x];
      calc {
        ReadServiceLines(Emit(xs));
        { EmitSnoc(ys, x); ServiceEntriesAppend(Emit(ys), WrittenLine(x)); }
        ReadServiceEntries(before + ServiceEntries(WrittenLine(x)));
        { WrittenLineInvisible(before, x); }
        ReadServiceEntries(before + [ServiceEntry(x)]);
        { ReadServiceSnoc(before, ServiceEntry(x));
          EmitInvisible(ys);
          ReadServiceSnoc(ServiceEntries(ys), ServiceEntry(x)); }
        ReadServiceEntries(ServiceEntries(ys) + [ServiceEntry(x)]);
        { ServiceEntriesAppend(ys, [x]); assert ServiceEntries([x]) == [ServiceEntry(x)]; }
        ReadServiceLines(xs);
      }
    }
  }

  /** The number of old lines in which the writer recognises `k`. */
  function Occ(ks: seq<Option<Key>>, k: Key): nat {
    if ks == [] then 0
    else Occ(ks[..|ks| - 1], k) + (if ks[|ks| - 1] == Some(k) then 1 else 0)
  }

  lemma {:induction false} OccWitness(ks: seq<Option<Key>>, k: Key)
    requires Occ(ks, k) > 0
    ensures exists i :: 0 <= i < |ks| && ks[i] == Some(k)
  {
    var prefix := ks[..|ks| - 1];
    if ks[|ks| - 1] != Some(k) {
      OccWitness(prefix, k);
      var i :| 0 <= i < |prefix| && prefix[i] == Some(k);
      assert ks[i] == prefix[i];
    }
  }

  /** The line written for `k` with the settings `f`. */
  function FullLine(k: Key, f: ServiceSettings): string {
    RenderLine(k, AsPatch(f))
  }

  /** The old lines as the writer leaves them: each recognised line replaced, at its
      place, by the line of its setting, and every other line kept as it was. */
  function Edited(lines: seq<string>, ks: seq<Option<Key>>, f: ServiceSettings): (r: seq<string>)
    requires |ks| == |lines|
    ensures |r| == |lines|
  {
    seq(|lines|, i requires 0 <= i < |lines| => if ks[i].Some? then FullLine(ks[i].value, f) else lines[i])
  }

  /** The settings still to be written after the old lines: those no old line holds. */
  function Unseen(ks: seq<Option<Key>>, f: ServiceSettings): ServicePatch {
    ServicePatch(if Occ(ks, Port) == 0 then Some(f.port) else None,
                 if Occ(ks, MotionBinary) == 0 then Some(f.motionBinary) else None,
                 if Occ(ks, LogLevel) == 0 then Some(f.debug) else None)
  }

  /** No setting is recognised on more than one old line. */
  predicate NoRepeats(ks: seq<Option<Key>>) {
    Occ(ks, Port) <= 1 && Occ(ks, MotionBinary) <= 1 && Occ(ks, LogLevel) <= 1
  }

  /** Line `n - 1` is the first at which a setting is recognised a second time, and that
      setting is `k`: the lines before it recognise no setting twice and one of them holds `k`. */
  predicate FirstRepeatAt(ks: seq<Option<Key>>, n: nat, k: Key) {
    0 < n <= |ks| && NoRepeats(ks[..n - 1]) && ks[n - 1] == Some(k) && Occ(ks[..n - 1], k) >= 1
  }

  /** Editing fails exactly when one setting is recognised on two lines, with the `KeyError`
      of the setting whose second line comes first; otherwise it gives the edited lines and
      leaves pending the settings no line holds. */
  lemma {:induction false} EditKeyedSpec(lines: seq<string>, ks: seq<Option<Key>>, f: ServiceSettings)
    requires |ks| == |lines|
    ensures EditKeyed(lines, ks, AsPatch(f)).Ok? <==> NoRepeats(ks)
    ensures EditKeyed(lines, ks, AsPatch(f)).Ok? ==>
      EditKeyed(lines, ks, AsPatch(f)).value == EditState(Edited(lines, ks, f), Unseen(ks, f))
    ensures EditKeyed(lines, ks, AsPatch(f)).Err? ==>
      exists n, k :: FirstRepeatAt(ks, n, k) && EditKeyed(lines, ks, AsPatch(f)).error == MissingKey(DictKey(k))
  {
    if lines != [] {
      var prefix, kprefix, x, kx := lines[..|lines| - 1], ks[..|ks| - 1], lines[|lines| - 1], ks[|ks| - 1];
      EditKeyedSpec(prefix, kprefix, f);
      var r := EditKeyed(prefix, kprefix, AsPatch(f));
      if r.Err? {
        var n, dup :| FirstRepeatAt(kprefix, n, dup) && r.error == MissingKey(DictKey(dup));
        assert kprefix[..n - 1] == ks[..n - 1] && kprefix[n - 1] == ks[n - 1];
        assert FirstRepeatAt(ks, n, dup);
      } else if kx.Some? && Occ(kprefix, kx.value) >= 1 {
        assert ks[..|ks| - 1] == kprefix;
        assert FirstRepeatAt(ks, |ks|, kx.value);
        assert Occ(ks, kx.value) >= 2;
      } else {
        EditedSnoc(lines, ks, f);
      }
    }
  }

  lemma EditedSnoc(lines: seq<string>, ks: seq<Option<Key>>, f: ServiceSettings)
    requires |ks| == |lines| > 0
    ensures Edited(lines, ks, f) == Edited(lines[..|lines| - 1], ks[..|ks| - 1], f) + [Edited(lines, ks, f)[|lines| - 1]]
  {
    var prefix, kprefix := lines[..|lines| - 1], ks[..|ks| - 1];
    forall i | 0 <= i < |lines|
      ensures Edited(lines, ks, f)[i] == (Edited(prefix, kprefix, f) + [Edited(lines, ks, f)[|lines| - 1]])[i]
    {
      if i < |prefix| {
        assert lines[i] == prefix[i] && ks[i] == kprefix[i];
      }
    }
  }

  /** `_set_motioneye_settings` fails, writing nothing, exactly when the writer recognises one
      setting on two old lines, with the `KeyError` of the setting whose second line comes
      first. Otherwise it writes the old lines with each recognised line
      replaced at its place and every other line kept, followed by a line for each setting
      no old line holds, in the order port, motion-binary, log-level; blank lines are dropped
      and every line ends with `\n`. */
  lemma WriteServiceSpec(file: Option<seq<string>>, p: ServicePatch)
    ensures var ks := WriteKeys(file.GetOr([]));
      WriteService(file, p).Err? <==> !NoRepeats(ks)
    ensures var ks := WriteKeys(file.GetOr([]));
      WriteService(file, p).Err? ==>
        exists n, k :: FirstRepeatAt(ks, n, k) && WriteService(file, p).error == MissingKey(DictKey(k))
    ensures var lines, f := file.GetOr([]), WithDefaults(p);
      WriteService(file, p).Ok? ==>
        WriteService(file, p).value ==
          Emit(WithRemaining(Edited(lines, WriteKeys(lines), f), Unseen(WriteKeys(lines), f)))
  {
    EditKeyedSpec(file.GetOr([]), WriteKeys(file.GetOr([])), WithDefaults(p));
  }

  // ---------------------------------------------------------------------
  // Reading back what the writer wrote

  /** A binary path the reader gives back as written: not empty, not ending in whitespace,
      and on one line (a path holding `\n` is written by one `f.write` as two lines of the file). */
  predicate PlainBinary(v: string) {
    v != [] && v[|v| - 1] !in Whitespace && '\n' !in v
  }

  /** The text after the name on the line the writer writes for `k`. */
  function FieldText(k: Key, f: ServiceSettings): string {
    match k
    case Port => FormatInt(f.port)
    case MotionBinary => f.motionBinary
    case LogLevel => if f.debug then "debug" else "info"
  }

  /** An entry that, if it names one of the three settings, holds the text `f` gives it. */
  predicate Agrees(e: Option<Directive>, f: ServiceSettings) {
    e.Some? && KeyNamed(e.value.name).Some? ==> e.value.value == FieldText(KeyNamed(e.value.name).value, f)
  }

  /** Some entry is a directive with this name. */
  predicate Names(es: seq<Option<Directive>>, name: string) {
    exists i :: 0 <= i < |es| && es[i].Some? && es[i].value.name == name
  }

  /** A line the writer keeps as it is although the reader takes a setting from it,
      such as `port  81` with two spaces. */
  predicate Shadows(line: string) {
    WriteKey(line).None? && ServiceEntry(line).Some? && KeyNamed(ServiceEntry(line).value.name).Some?
  }

  /** A line written by name and text reads as that name and text, for a name free of
      underscores, spaces and leading whitespace. */
  lemma NamedLineEntry(name: string, text: string)
    requires name != [] && name[0] !in Whitespace && ' ' !in name && '_' !in name
    requires text != [] && text[|text| - 1] !in Whitespace
    ensures ServiceEntry(name + " " + text) == Some(Directive(name, text))
  {
    ReplaceAbsent(name, '_', '-');
    EntryOfDirectiveLine(name + " " + text, name, text);
  }

  /** Each setting is recognised under the name it is written with. */
  lemma KeyOfName(k: Key)
    ensures KeyNamed(FileName(k)) == Some(k)
  {
  }

  /** The names the writer writes are not empty, do not start with whitespace and hold no space or underscore. */
  lemma PlainName(k: Key)
    ensures var name := FileName(k);
      name != [] && name[0] !in Whitespace && ' ' !in name && '_' !in name
  {
  }

  /** The text the writer writes after a name does not end in whitespace, provided the
      binary path does not. */
  lemma PlainText(k: Key, f: ServiceSettings)
    requires k == MotionBinary ==> PlainBinary(f.motionBinary)
    ensures var text := FieldText(k, f);
      text != [] && text[|text| - 1] !in Whitespace
  {
    if k == Port {
      var text := FormatInt(f.port);
      FormatIntChars(f.port);
      assert IsDigit(text[|text| - 1]);
    }
  }

  /** The reader takes from a written line the setting it was written for, with its text. */
  lemma FullLineEntry(k: Key, f: ServiceSettings)
    requires k == MotionBinary ==> PlainBinary(f.motionBinary)
    ensures ServiceEntry(FullLine(k, f)) == Some(Directive(FileName(k), FieldText(k, f)))
    ensures KeyNamed(FileName(k)) == Some(k)
  {
    KeyOfName(k);
    PlainName(k);
    PlainText(k, f);
    assert FullLine(k, f) == FileName(k) + " " + FieldText(k, f);
    NamedLineEntry(FileName(k), FieldText(k, f));
  }

  /** Among entries that all agree with `f`, the last one naming a setting holds its text. */
  lemma {:induction false} LastValueAgrees(es: seq<Option<Directive>>, f: ServiceSettings, k: Key)
    requires forall i :: 0 <= i < |es| ==> Agrees(es[i], f)
    ensures LastValue(es, FileName(k)).Some? ==> LastValue(es, FileName(k)).value == FieldText(k, f)
  {
    KeyOfName(k);
    if es != [] {
      var prefix := es[..|es| - 1];
      assert Agrees(es[|es| - 1], f);
      assert forall i :: 0 <= i < |prefix| ==> prefix[i] == es[i];
      LastValueAgrees(prefix, f, k);
    }
  }

  /** A name some entry holds has a last value. */
  lemma {:induction false} LastValueFound(es: seq<Option<Directive>>, name: string)
    requires Names(es, name)
    ensures LastValue(es, name).Some?
  {
    var last := es[|es| - 1];
    if !(last.Some? && last.value.name == name) {
      var prefix := es[..|es| - 1];
      var i :| 0 <= i < |es| && es[i].Some? && es[i].value.name == name;
      assert i < |prefix| && prefix[i] == es[i];
      LastValueFound(prefix, name);
    }
  }

  /** Entries that agree with `f` hold no `port` that is not an integer. */
  lemma AgreeingReadOk(es: seq<Option<Directive>>, f: ServiceSettings)
    requires forall i :: 0 <= i < |es| ==> Agrees(es[i], f)
    ensures ReadServiceEntries(es).Ok?
  {
    forall i | 0 <= i < |es|
      ensures !BadEntry(es[i])
    {
      if BadEntry(es[i]) {
        assert Agrees(es[i], f);
        ParseFormatInt(f.port);
      }
    }
    EntriesFailIff(es);
  }

  /** Among entries that agree with `f`, the last one naming a setting holds its text. */
  lemma AgreeingLast(es: seq<Option<Directive>>, f: ServiceSettings, k: Key)
    requires forall i :: 0 <= i < |es| ==> Agrees(es[i], f)
    requires Names(es, FileName(k))
    ensures LastValue(es, FileName(k)) == Some(FieldText(k, f))
  {
    LastValueFound(es, FileName(k));
    LastValueAgrees(es, f, k);
  }

  /** Each field read from entries that agree with `f` and name it is the field of `f`. */
  lemma AgreeingField(es: seq<Option<Directive>>, f: ServiceSettings, k: Key)
    requires forall i :: 0 <= i < |es| ==> Agrees(es[i], f)
    requires Names(es, FileName(k)) && ReadServiceEntries(es).Ok?
    ensures var d := ReadServiceEntries(es).value;
      match k
      case Port => d.port == f.port
      case MotionBinary => d.motionBinary == f.motionBinary
      case LogLevel => d.debug == f.debug
  {
    EntriesLastWins(es);
    AgreeingLast(es, f, k);
    if k == Port {
      ParseFormatInt(f.port);
    }
  }

  /** Entries that agree with `f` and name all three settings read as exactly `f`. */
  lemma ReadAgreeing(es: seq<Option<Directive>>, f: ServiceSettings)
    requires forall i :: 0 <= i < |es| ==> Agrees(es[i], f)
    requires Names(es, "port") && Names(es, "motion-binary") && Names(es, "log-level")
    ensures ReadServiceEntries(es) == Ok(f)
  {
    AgreeingReadOk(es, f);
    AgreeingField(es, f, Port);
    AgreeingField(es, f, MotionBinary);
    AgreeingField(es, f, LogLevel);
  }

  /** A setting no old line holds is appended with its line. */
  lemma AppendedFull(ks: seq<Option<Key>>, f: ServiceSettings, k: Key)
    ensures AppendedLine(Unseen(ks, f), k) == if Occ(ks, k) == 0 then [FullLine(k, f)] else []
  {
  }

  /** Every line reads as a setting agreeing with `f` or as nothing the reader uses. */
  predicate AllAgree(lines: seq<string>, f: ServiceSettings) {
    forall j :: 0 <= j < |lines| ==> Agrees(ServiceEntry(lines[j]), f)
  }

  lemma AllAgreeAppend(x: seq<string>, y: seq<string>, f: ServiceSettings)
    requires AllAgree(x, f) && AllAgree(y, f)
    ensures AllAgree(x + y, f)
  {
    forall j | 0 <= j < |x + y|
      ensures Agrees(ServiceEntry((x + y)[j]), f)
    {
      if j < |x| {
        assert (x + y)[j] == x[j];
      } else {
        assert (x + y)[j] == y[j - |x|];
      }
    }
  }

  /** The old lines as edited agree with `f` when none of them shadows a setting. */
  lemma EditedAgree(lines: seq<string>, f: ServiceSettings)
    requires forall i :: 0 <= i < |lines| ==> !Shadows(lines[i])
    requires PlainBinary(f.motionBinary)
    ensures AllAgree(Edited(lines, WriteKeys(lines), f), f)
  {
    var ks := WriteKeys(lines);
    var e := Edited(lines, ks, f);
    forall j | 0 <= j < |e|
      ensures Agrees(ServiceEntry(e[j]), f)
    {
      if ks[j].Some? {
        FullLineEntry(ks[j].value, f);
      } else {
        assert !Shadows(lines[j]);
      }
    }
  }

  /** The line appended for a setting agrees with `f`. */
  lemma AppendedAgrees(ks: seq<Option<Key>>, f: ServiceSettings, k: Key)
    requires PlainBinary(f.motionBinary)
    ensures AllAgree(AppendedLine(Unseen(ks, f), k), f)
  {
    AppendedFull(ks, f, k);
    FullLineEntry(k, f);
  }

  /** Every line the writer produces, before blank lines are dropped, agrees with `f`
      when no old line shadows a setting. */
  lemma WrittenLinesAgree(lines: seq<string>, f: ServiceSettings)
    requires forall i :: 0 <= i < |lines| ==> !Shadows(lines[i])
    requires PlainBinary(f.motionBinary)
    ensures var ks := WriteKeys(lines);
      AllAgree(WithRemaining(Edited(lines, ks, f), Unseen(ks, f)), f)
  {
    var ks := WriteKeys(lines);
    var e, u := Edited(lines, ks, f), Unseen(ks, f);
    EditedAgree(lines, f);
    AppendedAgrees(ks, f, Port);
    AppendedAgrees(ks, f, MotionBinary);
    AppendedAgrees(ks, f, LogLevel);
    AllAgreeAppend(e, AppendedLine(u, Port), f);
    AllAgreeAppend(e + AppendedLine(u, Port), AppendedLine(u, MotionBinary), f);
    AllAgreeAppend(e + AppendedLine(u, Port) + AppendedLine(u, MotionBinary), AppendedLine(u, LogLevel), f);
  }

  /** The line of each setting is among the lines the writer produces: at the place of the
      old line that held it, or appended. */
  lemma FullLineWritten(lines: seq<string>, f: ServiceSettings, k: Key)
    ensures var ks := WriteKeys(lines);
      FullLine(k, f) in WithRemaining(Edited(lines, ks, f), Unseen(ks, f))
  {
    var ks := WriteKeys(lines);
    var e, u := Edited(lines, ks, f), Unseen(ks, f);
    if Occ(ks, k) == 0 {
      AppendedFull(ks, f, k);
      assert FullLine(k, f) in AppendedLine(u, k);
    } else {
      OccWitness(ks, k);
      var i :| 0 <= i < |ks| && ks[i] == Some(k);
      assert e[i] == FullLine(k, f);
    }
  }

  /** A line among `lines` that reads as a directive named `name` makes the entries name it. */
  lemma NamesOfLine(lines: seq<string>, x: string, name: string)
    requires x in lines && ServiceEntry(x).Some? && ServiceEntry(x).value.name == name
    ensures Names(ServiceEntries(lines), name)
  {
    var j :| 0 <= j < |lines| && lines[j] == x;
    assert ServiceEntries(lines)[j] == ServiceEntry(x);
  }

  /** Every setting appears on some line the writer produces. */
  lemma WrittenLinesName(lines: seq<string>, f: ServiceSettings, k: Key)
    requires k == MotionBinary ==> PlainBinary(f.motionBinary)
    ensures var ks := WriteKeys(lines);
      Names(ServiceEntries(WithRemaining(Edited(lines, ks, f), Unseen(ks, f))), FileName(k))
  {
    var ks := WriteKeys(lines);
    FullLineWritten(lines, f, k);
    FullLineEntry(k, f);
    NamesOfLine(WithRemaining(Edited(lines, ks, f), Unseen(ks, f)), FullLine(k, f), FileName(k));
  }

  /** Reading back what `_set_motioneye_settings` wrote gives the settings it was given,
      filled from the defaults, provided no old line shadows a setting and the binary path
      does not end in whitespace. */
  lemma WriteThenReadService(file: Option<seq<string>>, p: ServicePatch)
    requires WriteService(file, p).Ok?
    requires forall i :: 0 <= i < |file.GetOr([])| ==> !Shadows(file.GetOr([])[i])
    requires PlainBinary(WithDefaults(p).motionBinary)
    ensures ReadService(Some(WriteService(file, p).value)) == Ok(WithDefaults(p))
  {
    var lines, f := file.GetOr([]), WithDefaults(p);
    var ks := WriteKeys(lines);
    var w := WithRemaining(Edited(lines, ks, f), Unseen(ks, f));
    WriteServiceSpec(file, p);
    EmitInvisible(w);
    WrittenLinesAgree(lines, f);
    assert AllAgree(w, f);
    WrittenLinesName(lines, f, Port);
    WrittenLinesName(lines, f, MotionBinary);
    WrittenLinesName(lines, f, LogLevel);
    var es := ServiceEntries(w);
    assert forall j :: 0 <= j < |es| ==> es[j] == ServiceEntry(w[j]);
    ReadAgreeing(es, f);
  }

  /** A written line is never blank: it starts with the name of its setting. */
  lemma FullLineNotBlank(k: Key, f: ServiceSettings)
    ensures !IsBlank(FullLine(k, f))
  {
    PlainName(k);
    assert FullLine(k, f) == FileName(k) + " " + FieldText(k, f);
    assert FullLine(k, f)[0] == FileName(k)[0];
  }

  /** For a missing file the writer writes the three settings, filled from the defaults,
      in the order port, motion-binary, log-level. */
  lemma WriteMissingFile(p: ServicePatch)
    ensures var f := WithDefaults(p);
      WriteService(None, p) ==
        Ok([Terminated(FullLine(Port, f)), Terminated(FullLine(MotionBinary, f)), Terminated(FullLine(LogLevel, f))])
  {
    var f := WithDefaults(p);
    var a, b, c := FullLine(Port, f), FullLine(MotionBinary, f), FullLine(LogLevel, f);
    assert EditLines([], AsPatch(f)) == Ok(EditState([], AsPatch(f)));
    assert WithRemaining([], AsPatch(f)) == [a, b, c];
    FullLineNotBlank(Port, f);
    FullLineNotBlank(MotionBinary, f);
    FullLineNotBlank(LogLevel, f);
    EmitSnoc([], a);
    assert [] + [a] == [a];
    EmitSnoc([a], b);
    assert [a] + [b] == [a, b];
    EmitSnoc([a, b], c);
    assert [a, b] + [c] == [a, b, c];
    assert Emit([]) == [];
    assert Emit([a, b, c]) == [Terminated(a), Terminated(b), Terminated(c)];
    assert WriteService(None, p) == Ok(Emit(WithRemaining([], AsPatch(f))));
  }
}
