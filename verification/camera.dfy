/** The `Camera` record of camera_enumerator/camera.py: an index, a name and
    the list of (width, height, fps) formats, with its `__str__` and
    `__repr__` renderings. */
module CameraRecord {
  import opened Wrappers
  import opened Strings

  /** One `(width, height, fps)` tuple */
  datatype Format = Format(width: int, height: int, fps: int)

  /** `Camera(index, name, formats)`: the constructor stores its three
      arguments unchanged, which the datatype constructor does by definition */
  datatype Camera = Camera(index: int, name: string, formats: seq<Format>)

  /** `str(n)` for a Python `int`: an optional minus sign and the decimal
      digits of the magnitude, with no leading zeros */
  function IntToString(n: int): (s: string)
    ensures 1 <= |s|
    ensures n >= 0 ==> AllDigits(s) && (s[0] == '0' ==> |s| == 1)
    ensures n < 0 ==> s[0] == '-' && 2 <= |s| && AllDigits(s[1..]) && s[1] != '0'
  {
    if n < 0 then "-" + NatToString(-n) else NatToString(n)
  }

  /** `int(s)` for the strings `IntToString` produces; `None` for anything else */
  function ParseInt(s: string): Option<int> {
    if 2 <= |s| && s[0] == '-' && AllDigits(s[1..]) then Some(-(Value(s[1..]) as int))
    else if 1 <= |s| && AllDigits(s) then Some(Value(s) as int)
    else None
  }

  /** Reading back a rendered integer gives the integer */
  lemma ParseIntToString(n: int)
    ensures ParseInt(IntToString(n)) == Some(n)
  {
    var s := IntToString(n);
    if n < 0 {
      var t := NatToString(-n);
      assert s == "-" + t;
      assert s[1..] == t;
      ValueOfNatToString(-n);
      assert ParseInt(s) == Some(-(Value(t) as int));
    } else {
      ValueOfNatToString(n);
      assert IsDigit(s[0]);
      assert ParseInt(s) == Some(Value(s) as int);
    }
  }

  /** A rendered integer holds no character of the format-entry syntax */
  lemma IntToStringAlphabet(n: int)
    ensures 'x' !in IntToString(n) && '@' !in IntToString(n) && '\n' !in IntToString(n)
    ensures 'f' !in IntToString(n)
  {
    var s := IntToString(n);
    if n < 0 {
      forall k | 0 <= k < |s| ensures s[k] == '-' || IsDigit(s[k]) {
        if k > 0 { assert s[k] == s[1..][k - 1]; }
      }
    }
  }

  /** `__str__`: the camera's human-readable name */
  function Str(c: Camera): string {
    c.name
  }

  /** `f"\t{w}x{h}@{fps}fps"` for one format */
  function FormatEntry(f: Format): (s: string)
    ensures |s| >= 1 && s[0] == '\t'
    ensures '\n' !in s
  {
    IntToStringAlphabet(f.width);
    IntToStringAlphabet(f.height);
    IntToStringAlphabet(f.fps);
    "\t" + IntToString(f.width) + "x" + IntToString(f.height) + "@" + IntToString(f.fps) + "fps"
  }

  /** The list comprehension of rendered entries */
  function Entries(fs: seq<Format>): seq<string> {
    if |fs| == 0 then [] else [FormatEntry(fs[0])] + Entries(fs[1..])
  }

  /** One entry per format, the i-th rendering the i-th format */
  lemma {:induction false} EntriesAt(fs: seq<Format>, i: nat)
    requires i < |fs|
    ensures |Entries(fs)| == |fs|
    ensures Entries(fs)[i] == FormatEntry(fs[i])
    decreases |fs|
  {
    var es := Entries(fs);
    assert es == [FormatEntry(fs[0])] + Entries(fs[1..]);
    if i > 0 {
      EntriesAt(fs[1..], i - 1);
      assert fs[1..][i - 1] == fs[i];
      assert es[i] == Entries(fs[1..])[i - 1];
    } else if |fs| > 1 {
      EntriesAt(fs[1..], 0);
    }
  }

  /** No entry holds a newline, so the entries are the lines of their join */
  lemma EntriesNoNewline(fs: seq<Format>)
    ensures forall k :: 0 <= k < |Entries(fs)| ==> '\n' !in Entries(fs)[k]
  {
    if |fs| > 0 {
      EntriesAt(fs, 0);
    }
    forall k | 0 <= k < |Entries(fs)|
      ensures '\n' !in Entries(fs)[k]
    {
      EntriesAt(fs, k);
    }
  }

  /** `"\n".join(...)` of the entries: the formats section of `__repr__` */
  function FormatsSection(fs: seq<Format>): string {
    Join(Entries(fs), "\n")
  }

  /** The fixed first two lines of `__repr__` */
  function ReprHeader(c: Camera): string {
    "Camera(" + IntToString(c.index) + ", " + c.name + ")\nAvailable Formats:\n"
  }

  /** `__repr__`: the header line, the `Available Formats:` line, then the
      formats section, which is empty when there are no formats */
  function Repr(c: Camera): (r: string)
    ensures ReprHeader(c) <= r
    ensures c.formats == [] <==> r == ReprHeader(c)
  {
    ReprHeader(c) + FormatsSection(c.formats)
  }

  // ---------------------------------------------------------------------
  // Reading the formats section back

  /** The inverse of `FormatEntry` */
  function ParseEntry(line: string): Option<Format> {
    if |line| < 4 || line[0] != '\t' || line[|line| - 3..] != "fps" then None
    else ParseEntryBody(line[1..|line| - 3])
  }

  /** Reads `{w}x{h}@{fps}`, splitting at the first `x` and then the first `@` */
  function ParseEntryBody(body: string): Option<Format> {
    match Find(body, "x")
    case None => None
    case Some(i) =>
      var rest := body[i + 1..];
      match Find(rest, "@")
      case None => None
      case Some(j) =>
        var w, h, f := ParseInt(body[..i]), ParseInt(rest[..j]), ParseInt(rest[j + 1..]);
        if w.Some? && h.Some? && f.Some? then Some(Format(w.value, h.value, f.value)) else None
  }

  /** The inverse of `FormatsSection`: one entry per line, none for the empty text */
  function ParseFormatsSection(s: string): Option<seq<Format>> {
    if s == "" then Some([]) else ParseEntries(Split(s, "\n"))
  }

  /** The entries of the section, one per line: `None` when any line fails */
  function ParseEntries(lines: seq<string>): Option<seq<Format>> {
    ParseEach(lines, ParseEntry)
  }

  /** Reads every line with `parse`, or `None` when any line fails */
  function ParseEach<T>(lines: seq<string>, parse: string -> Option<T>): Option<seq<T>> {
    if |lines| == 0 then Some([])
    else
      match (parse(lines[0]), ParseEach(lines[1..], parse))
      case (Some(x), Some(xs)) => Some([x] + xs)
      case _ => None
  }

  /** `{w}x{h}@{fps}` splits back into its three fields when `w` holds no `x` and `h` no `@` */
  lemma EntryBodyFields(w: string, h: string, p: string)
    requires 'x' !in w && '@' !in h
    ensures ParseEntryBody(w + "x" + h + "@" + p)
         == (var a, b, c := ParseInt(w), ParseInt(h), ParseInt(p);
             if a.Some? && b.Some? && c.Some? then Some(Format(a.value, b.value, c.value)) else None)
  {
    var rest := h + "@" + p;
    var body := w + "x" + rest;
    assert w + "x" + h + "@" + p == body;
    FindCharAt(w, "x", rest);
    assert body[|w| + 1..] == rest;
    assert body[..|w|] == w;
    FindCharAt(h, "@", p);
    assert rest[..|h|] == h;
    assert rest[|h| + 1..] == p;
  }

  /** The body of an entry reads back as its three integers */
  lemma EntryBodyRoundTrip(f: Format)
    ensures ParseEntryBody(IntToString(f.width) + "x" + IntToString(f.height) + "@" + IntToString(f.fps)) == Some(f)
  {
    IntToStringAlphabet(f.width);
    IntToStringAlphabet(f.height);
    EntryBodyFields(IntToString(f.width), IntToString(f.height), IntToString(f.fps));
    ParseIntToString(f.width);
    ParseIntToString(f.height);
    ParseIntToString(f.fps);
  }

  /** Each entry reads back as the format it renders */
  lemma EntryRoundTrip(f: Format)
    ensures ParseEntry(FormatEntry(f)) == Some(f)
  {
    var w, h, p := IntToString(f.width), IntToString(f.height), IntToString(f.fps);
    var body := w + "x" + h + "@" + p;
    var line := FormatEntry(f);
    assert line == "\t" + body + "fps";
    assert line[1..|line| - 3] == body;
    assert line[|line| - 3..] == "fps";
    EntryBodyRoundTrip(f);
  }

  /** Lines that each read back as the corresponding value read back as the list */
  lemma {:induction false} ParseEachOf<T>(lines: seq<string>, xs: seq<T>, parse: string -> Option<T>)
    requires |lines| == |xs|
    requires forall i :: 0 <= i < |lines| ==> parse(lines[i]) == Some(xs[i])
    ensures ParseEach(lines, parse) == Some(xs)
    decreases |lines|
  {
    if |lines| > 0 {
      var rest, more := lines[1..], xs[1..];
      forall i | 0 <= i < |rest|
        ensures parse(rest[i]) == Some(more[i])
      {
        assert rest[i] == lines[i + 1];
      }
      ParseEachOf(rest, more, parse);
      assert parse(lines[0]) == Some(xs[0]);
      assert ParseEach(lines, parse) == Some([xs[0]] + more);
      assert [xs[0]] + more == xs;
    }
  }

  /** The entries read back as the format list they render */
  lemma EntriesRoundTrip(fs: seq<Format>)
    ensures ParseEntries(Entries(fs)) == Some(fs)
  {
    var es := Entries(fs);
    if |fs| > 0 {
      EntriesAt(fs, 0);
    }
    forall i | 0 <= i < |es|
      ensures ParseEntry(es[i]) == Some(fs[i])
    {
      EntriesAt(fs, i);
      EntryRoundTrip(fs[i]);
    }
    ParseEachOf(es, fs, ParseEntry);
  }

  /** The formats section of `__repr__` lists exactly the camera's formats,
      one `\t{w}x{h}@{fps}fps` line each, in list order, with no trailing newline */
  lemma FormatsSectionRoundTrip(fs: seq<Format>)
    ensures ParseFormatsSection(FormatsSection(fs)) == Some(fs)
  {
    var es := Entries(fs);
    if |fs| == 0 {
    } else {
      assert FormatsSection(fs) != "" by {
        JoinNonEmpty(es, "\n");
      }
      EntriesNoNewline(fs);
      SplitJoin(es, "\n");
      EntriesRoundTrip(fs);
    }
  }

  /** Joining at least one non-empty piece gives non-empty text */
  lemma JoinNonEmpty(parts: seq<string>, sep: string)
    requires |parts| >= 1 && |parts[0]| >= 1
    ensures |Join(parts, sep)| >= 1
  {
  }

  /** `__repr__` shows `__str__` verbatim, right after `Camera(<index>, ` */
  lemma ReprShowsName(c: Camera)
    ensures var k := |"Camera(" + IntToString(c.index) + ", "|;
            k + |Str(c)| < |Repr(c)| && Repr(c)[k..k + |Str(c)|] == Str(c) && Repr(c)[k + |Str(c)|] == ')'
  {
    var a := "Camera(" + IntToString(c.index) + ", ";
    var b := ")\nAvailable Formats:\n" + FormatsSection(c.formats);
    var n := c.name;
    assert Repr(c) == a + n + b;
    assert (a + n + b)[|a|..|a| + |n|] == n;
    assert (a + n + b)[|a| + |n|] == b[0];
  }

  /** `__repr__` is its header followed by a section from which the formats are recovered */
  lemma ReprFormats(c: Camera)
    ensures ParseFormatsSection(Repr(c)[|ReprHeader(c)|..]) == Some(c.formats)
  {
    assert Repr(c)[|ReprHeader(c)|..] == FormatsSection(c.formats);
    FormatsSectionRoundTrip(c.formats);
  }
}
