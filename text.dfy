/** The string operations of Python 2 byte strings that both configuration
    stores rely on: `strip`, `split`, `replace`, `endswith` and the
    conversions between integers and their decimal text. */
module Text {
  import opened Results

  /** The characters `str.strip()` without an argument removes. */
  const Whitespace: set<char> := {' ', '\t', '\n', '\r', '\U{B}', '\U{C}'}

  /** `s.lstrip(cs)`: the longest suffix of `s` that does not start with a character of `cs`. */
  function TrimStart(s: string, cs: set<char>): (r: string)
    ensures |r| <= |s|
    ensures r != [] ==> r[0] !in cs
    ensures forall i :: 0 <= i < |s| - |r| ==> s[i] in cs
    decreases |s|
  {
    if |s| > 0 && s[0] in cs then TrimStart(s[1..], cs) else s
  }

  /** `s.rstrip(cs)`: the longest prefix of `s` that does not end with a character of `cs`. */
  function TrimEnd(s: string, cs: set<char>): (r: string)
    ensures |r| <= |s|
    ensures r != [] ==> r[|r| - 1] !in cs
    ensures forall i :: |r| <= i < |s| ==> s[i] in cs
    decreases |s|
  {
    if |s| > 0 && s[|s| - 1] in cs then TrimEnd(s[..|s| - 1], cs) else s
  }

  /** What `lstrip` keeps is a suffix of its argument and what `rstrip` keeps a prefix. */
  lemma {:induction false} TrimKeepsEnds(s: string, cs: set<char>)
    ensures TrimStart(s, cs) == s[|s| - |TrimStart(s, cs)|..]
    ensures TrimEnd(s, cs) == s[..|TrimEnd(s, cs)|]
    decreases |s|
  {
    if |s| > 0 && s[0] in cs {
      TrimKeepsEnds(s[1..], cs);
      assert s[1..][|s| - 1 - |TrimStart(s, cs)|..] == s[|s| - |TrimStart(s, cs)|..];
    }
    if |s| > 0 && s[|s| - 1] in cs {
      TrimKeepsEnds(s[..|s| - 1], cs);
      assert s[..|s| - 1][..|TrimEnd(s, cs)|] == s[..|TrimEnd(s, cs)|];
    }
  }

  /** `s.strip(cs)`: every leading and every trailing character of `cs` removed. */
  function StripChars(s: string, cs: set<char>): string {
    TrimEnd(TrimStart(s, cs), cs)
  }

  /** `s.strip()` */
  function Strip(s: string): string {
    StripChars(s, Whitespace)
  }

  /** `s.strip('"').strip("'")`: all surrounding double quotes, then all surrounding single quotes. */
  function StripQuotes(s: string): string {
    StripChars(StripChars(s, {'"'}), {'\''})
  }

  /** `not s.strip()`: nothing but whitespace. */
  predicate IsBlank(s: string) {
    forall i :: 0 <= i < |s| ==> s[i] in Whitespace
  }

  /** A line is blank exactly when stripping leaves nothing. */
  lemma BlankIffStripEmpty(s: string)
    ensures IsBlank(s) <==> Strip(s) == ""
  {
    var t := TrimStart(s, Whitespace);
    TrimKeepsEnds(s, Whitespace);
    if Strip(s) == "" {
      forall i | 0 <= i < |s|
        ensures s[i] in Whitespace
      {
        if i >= |s| - |t| {
          assert s[i] == t[i - (|s| - |t|)];
        }
      }
    }
    if IsBlank(s) && t != [] {
      assert t[0] == s[|s| - |t|];
    }
  }

  predicate EndsWithNewline(s: string) {
    |s| > 0 && s[|s| - 1] == '\n'
  }

  /** The line as it is written to a file: with a `\n` added unless it already ends in one. */
  function Terminated(s: string): (r: string)
    ensures EndsWithNewline(r)
    ensures EndsWithNewline(s) ==> r == s
    ensures !EndsWithNewline(s) ==> r == s + "\n"
  {
    if EndsWithNewline(s) then s else s + "\n"
  }

  /** The index of the first `c` in `s`, or `|s|` when there is none (`s.find(c)`, with `|s|` for -1). */
  function IndexOf(s: string, c: char): (i: nat)
    ensures i <= |s|
    ensures i < |s| ==> s[i] == c
    ensures forall j :: 0 <= j < i ==> s[j] != c
  {
    if s == [] then 0 else if s[0] == c then 0 else 1 + IndexOf(s[1..], c)
  }

  /** `s.count(c)` */
  function Count(s: string, c: char): nat {
    if s == [] then 0 else (if s[0] == c then 1 else 0) + Count(s[1..], c)
  }

  /** The parts joined back together with `sep` between them (`sep.join(parts)`). */
  function Join(parts: seq<string>, sep: char): string
    requires |parts| >= 1
  {
    if |parts| == 1 then parts[0] else parts[0] + [sep] + Join(parts[1..], sep)
  }

  /** `s.split(sep, maxsplit)`; a negative `maxsplit` is Python's default of no limit. */
  function Split(s: string, sep: char, maxsplit: int): (parts: seq<string>)
    ensures |parts| >= 1
    decreases |s|
  {
    var i := IndexOf(s, sep);
    if i == |s| || maxsplit == 0 then [s]
    else [s[..i]] + Split(s[i + 1..], sep, maxsplit - 1)
  }

  /** Joining the parts with the separator gives back the text that was split. */
  lemma {:induction false} SplitJoin(s: string, sep: char, maxsplit: int)
    ensures Join(Split(s, sep, maxsplit), sep) == s
    decreases |s|
  {
    var i := IndexOf(s, sep);
    if i < |s| && maxsplit != 0 {
      SplitJoin(s[i + 1..], sep, maxsplit - 1);
      assert s == s[..i] + [sep] + s[i + 1..];
    }
  }

  /** `s.replace(from, to)` for single characters. */
  function Replace(s: string, from: char, to: char): (r: string)
    ensures |r| == |s|
    ensures forall i :: 0 <= i < |s| ==> r[i] == if s[i] == from then to else s[i]
  {
    if s == [] then [] else [if s[0] == from then to else s[0]] + Replace(s[1..], from, to)
  }

  predicate IsDigit(c: char) {
    '0' <= c <= '9'
  }

  predicate IsDigits(s: string) {
    |s| > 0 && forall i :: 0 <= i < |s| ==> IsDigit(s[i])
  }

  function DigitChar(d: nat): (c: char)
    requires d < 10
    ensures IsDigit(c)
  {
    ('0' as int + d) as char
  }

  function DigitsValue(s: string): nat
    requires forall i :: 0 <= i < |s| ==> IsDigit(s[i])
  {
    if s == [] then 0
    else
      assert IsDigit(s[|s| - 1]);
      DigitsValue(s[..|s| - 1]) * 10 + ((s[|s| - 1] as int) - ('0' as int))
  }

  /** The decimal digits of `n`, without leading zeros. */
  function FormatNat(n: nat): (s: string)
    ensures IsDigits(s)
    decreases n
  {
    if n < 10 then [DigitChar(n)] else FormatNat(n / 10) + [DigitChar(n % 10)]
  }

  /** `'%s' % n` for an integer `n`. */
  function FormatInt(n: int): string {
    if n < 0 then "-" + FormatNat(-n) else FormatNat(n)
  }

  /** `int(s)` on the forms this model accepts: optional surrounding whitespace,
      an optional sign and one or more decimal digits; `None` where Python raises ValueError. */
  function ParseInt(s: string): Option<int> {
    var t := Strip(s);
    if |t| > 0 && (t[0] == '-' || t[0] == '+') then
      if IsDigits(t[1..]) then
        Some(if t[0] == '-' then -(DigitsValue(t[1..]) as int) else DigitsValue(t[1..]))
      else None
    else if IsDigits(t) then Some(DigitsValue(t))
    else None
  }

  // ---------------------------------------------------------------------
  // Lemmas

  /** Stripping changes nothing when neither end is a character to strip. */
  lemma StripCharsUnchanged(s: string, cs: set<char>)
    requires s != [] ==> s[0] !in cs && s[|s| - 1] !in cs
    ensures StripChars(s, cs) == s
  {
  }

  lemma {:induction false} TrimStartAppend(s: string, t: string, cs: set<char>)
    ensures TrimStart(s + t, cs) == if TrimStart(s, cs) == [] then TrimStart(t, cs) else TrimStart(s, cs) + t
    decreases |s|
  {
    if s == [] {
      assert s + t == t;
    } else if s[0] in cs {
      assert (s + t)[1..] == s[1..] + t;
      TrimStartAppend(s[1..], t, cs);
    }
  }

  /** Appending characters that are stripped anyway does not change the stripped text. */
  lemma StripAppendStripped(s: string, c: char, cs: set<char>)
    requires c in cs
    ensures StripChars(s + [c], cs) == StripChars(s, cs)
  {
    TrimStartAppend(s, [c], cs);
    if TrimStart(s, cs) != [] {
      var u := TrimStart(s, cs);
      assert (u + [c])[..|u + [c]| - 1] == u;
    }
  }

  /** A line read back with its terminating newline strips to the same text. */
  lemma StripTerminated(s: string)
    ensures Strip(Terminated(s)) == Strip(s)
  {
    if !EndsWithNewline(s) {
      StripAppendStripped(s, '\n', Whitespace);
    }
  }

  lemma {:induction false} CountZero(s: string, c: char)
    ensures Count(s, c) == 0 <==> c !in s
  {
    if s != [] {
      CountZero(s[1..], c);
      assert s == [s[0]] + s[1..];
    }
  }

  /** The count splits at the first occurrence. */
  lemma {:induction false} CountAfterFirst(s: string, c: char)
    requires IndexOf(s, c) < |s|
    ensures Count(s, c) == 1 + Count(s[IndexOf(s, c) + 1..], c)
  {
    if s[0] != c {
      CountAfterFirst(s[1..], c);
      assert s[1..][IndexOf(s[1..], c) + 1..] == s[IndexOf(s, c) + 1..];
    }
  }

  /** With no limit or a limit of at least two, `split` gives two parts exactly
      when `sep` occurs once, and then they are the text on either side of it. */
  lemma SplitTwoParts(s: string, sep: char, maxsplit: int)
    requires maxsplit < 0 || maxsplit >= 2
    ensures |Split(s, sep, maxsplit)| == 2 <==> Count(s, sep) == 1
    ensures Count(s, sep) == 1 ==>
      Split(s, sep, maxsplit) == [s[..IndexOf(s, sep)], s[IndexOf(s, sep) + 1..]]
  {
    var i := IndexOf(s, sep);
    if i == |s| {
      CountZero(s, sep);
    } else {
      CountAfterFirst(s, sep);
      var rest := s[i + 1..];
      var j := IndexOf(rest, sep);
      CountZero(rest, sep);
      if j < |rest| {
        assert |Split(rest, sep, maxsplit - 1)| >= 2;
      }
    }
  }

  /** With a limit of one, `split` gives two parts exactly when `sep` occurs,
      and then they are the text before the first `sep` and all the text after it. */
  lemma SplitOnce(s: string, sep: char)
    ensures |Split(s, sep, 1)| == 2 <==> sep in s
    ensures sep in s ==> Split(s, sep, 1) == [s[..IndexOf(s, sep)], s[IndexOf(s, sep) + 1..]]
  {
  }

  /** A line without whitespace at either end, written with its newline, strips back to itself. */
  lemma StripWrittenLine(t: string)
    requires t != [] && t[0] !in Whitespace && t[|t| - 1] !in Whitespace
    ensures Strip(t + "\n") == t
  {
    assert Terminated(t) == t + "\n";
    StripTerminated(t);
    StripCharsUnchanged(t, Whitespace);
  }

  lemma {:induction false} IndexOfAfter(a: string, c: char, b: string)
    requires c !in a
    ensures IndexOf(a + [c] + b, c) == |a|
  {
    if a != [] {
      assert (a + [c] + b)[1..] == a[1..] + [c] + b;
      IndexOfAfter(a[1..], c, b);
    }
  }

  /** Text with a single separator splits into the text on either side of it. */
  lemma SplitAtOnlySeparator(a: string, c: char, b: string)
    requires c !in a && c !in b
    ensures Split(a + [c] + b, c, -1) == [a, b]
  {
    var t := a + [c] + b;
    IndexOfAfter(a, c, b);
    assert t[|a| + 1..] == b && t[..|a|] == a;
    assert IndexOf(b, c) == |b|;
  }

  lemma {:induction false} ReplaceAppend(a: string, b: string, from: char, to: char)
    ensures Replace(a + b, from, to) == Replace(a, from, to) + Replace(b, from, to)
  {
    if a != [] {
      assert (a + b)[1..] == a[1..] + b;
      ReplaceAppend(a[1..], b, from, to);
    } else {
      assert a + b == b;
    }
  }

  /** Replacing a character that does not occur changes nothing. */
  lemma ReplaceAbsent(s: string, from: char, to: char)
    requires from !in s
    ensures Replace(s, from, to) == s
  {
  }

  /** With a limit of one, text split at its first separator gives the text before it and all the text after it. */
  lemma SplitOnceAt(a: string, c: char, b: string)
    requires c !in a
    ensures Split(a + [c] + b, c, 1) == [a, b]
  {
    var t := a + [c] + b;
    IndexOfAfter(a, c, b);
    assert t[|a| + 1..] == b && t[..|a|] == a;
  }

  lemma {:induction false} DigitsValueOfFormat(n: nat)
    ensures DigitsValue(FormatNat(n)) == n
    decreases n
  {
    if n >= 10 {
      DigitsValueOfFormat(n / 10);
      var s := FormatNat(n);
      assert s[..|s| - 1] == FormatNat(n / 10);
    }
  }

  /** Reading back what `'%s' % n` wrote gives `n`. */
  lemma ParseFormatInt(n: int)
    ensures ParseInt(FormatInt(n)) == Some(n)
  {
    var s := FormatInt(n);
    StripCharsUnchanged(s, Whitespace);
    if n < 0 {
      assert s[1..] == FormatNat(-n);
      DigitsValueOfFormat(-n);
    } else {
      DigitsValueOfFormat(n);
    }
  }

  /** The decimal text of an integer holds only digits and a leading minus sign. */
  lemma FormatIntChars(n: int)
    ensures |FormatInt(n)| > 0
    ensures forall i :: 0 <= i < |FormatInt(n)| ==> IsDigit(FormatInt(n)[i]) || (i == 0 && FormatInt(n)[i] == '-')
  {
  }
}
