/** `_parse_device_resolution` of camera_enumerator/linux.py: `re.findall`
    of the pattern

        Size: Discrete (\d+)x(\d+).*?Interval: Discrete [0-9.]+s \(([0-9.]+) fps\)

    with `re.DOTALL` over the output of `v4l2-ctl --list-formats-ext`, each
    match becoming `(int(width), int(height), int(float(fps)))`.

    The pattern is matched by hand. At a start position the width run is
    forced (it must be followed by `x`), the height run is greedy and always
    taken whole (a shorter one cannot help, because the Interval marker does
    not start with a digit), the lazy `.*?` stops at the first complete
    Interval marker, and the two `[0-9.]+` runs are forced by the text that
    follows them. */
module FormatList {
  import opened Wrappers
  import opened Strings
  import opened CameraRecord

  const SizeMarker: string := "Size: Discrete "
  const IntervalMarker: string := "Interval: Discrete "
  const SecondsClose: string := "s ("
  const FpsClose: string := " fps)"

  /** A non-empty run of `cls` occupies t[i..j] */
  predicate RunOver(t: string, i: nat, j: nat, cls: CharClass) {
    i < j && AllInClass(t, i, j, cls)
  }

  /** `Size: Discrete (\d+)x(\d+)` matches t[p..hEnd] with the width group ending at `wEnd` */
  ghost predicate SizeShape(t: string, p: nat, wEnd: nat, hEnd: nat) {
    && StartsAt(t, p, SizeMarker)
    && RunOver(t, p + |SizeMarker|, wEnd, Digits)
    && wEnd < |t| && t[wEnd] == 'x'
    && RunOver(t, wEnd + 1, hEnd, Digits)
  }

  /** `Interval: Discrete [0-9.]+s \(([0-9.]+) fps\)` matches t[q..fEnd + 5]
      with the seconds ending at `sEnd` and the fps group ending at `fEnd` */
  ghost predicate IntervalShape(t: string, q: nat, sEnd: nat, fEnd: nat) {
    && StartsAt(t, q, IntervalMarker)
    && RunOver(t, q + |IntervalMarker|, sEnd, DigitsAndDots)
    && StartsAt(t, sEnd, SecondsClose)
    && RunOver(t, sEnd + |SecondsClose|, fEnd, DigitsAndDots)
    && StartsAt(t, fEnd, FpsClose)
  }

  /** The group boundaries of one match: it starts at `start`, the lazy gap
      spans t[heightEnd..interval] and the match ends at `End()` */
  datatype Hit = Hit(start: nat, widthEnd: nat, heightEnd: nat, interval: nat, secondsEnd: nat, fpsEnd: nat)
  {
    function End(): nat {
      fpsEnd + |FpsClose|
    }
  }

  /** The whole pattern matches `t` with the group boundaries of `h` */
  ghost predicate Matches(t: string, h: Hit) {
    && SizeShape(t, h.start, h.widthEnd, h.heightEnd)
    && h.heightEnd <= h.interval
    && IntervalShape(t, h.interval, h.secondsEnd, h.fpsEnd)
  }

  /** Of the matches at one position, the one backtracking tries first: the
      greedy height run is maximal and the lazy gap is as short as possible */
  ghost predicate Preferred(t: string, h: Hit) {
    && (h.heightEnd >= |t| || !IsDigit(t[h.heightEnd]))
    && forall x: nat, s: nat, f: nat :: h.heightEnd <= x < h.interval ==> !IntervalShape(t, x, s, f)
  }

  /** The `Size: Discrete (\d+)x(\d+)` prefix at `p`: where its width and
      greedy height runs end */
  function SizeAt(t: string, p: nat): (r: Option<(nat, nat)>)
    ensures r.Some? ==> p + |SizeMarker| < r.value.0 && r.value.0 + 1 < r.value.1 <= |t|
  {
    if !StartsAt(t, p, SizeMarker) then None
    else
      var a := p + |SizeMarker|;
      var wEnd := RunEnd(t, a, Digits);
      if wEnd == a || wEnd == |t| || t[wEnd] != 'x' then None
      else
        var hEnd := RunEnd(t, wEnd + 1, Digits);
        if hEnd == wEnd + 1 then None else Some((wEnd, hEnd))
  }

  /** `SizeAt` finds the prefix exactly when there is one; the width run is
      forced and the height run is the longest */
  lemma SizeAtSpec(t: string, p: nat)
    ensures SizeAt(t, p).Some? ==> SizeShape(t, p, SizeAt(t, p).value.0, SizeAt(t, p).value.1)
    ensures SizeAt(t, p).Some? ==> SizeAt(t, p).value.1 == |t| || !IsDigit(t[SizeAt(t, p).value.1])
    ensures SizeAt(t, p).Some? ==> forall w: nat, h: nat :: SizeShape(t, p, w, h) ==>
              w == SizeAt(t, p).value.0 && h <= SizeAt(t, p).value.1
    ensures SizeAt(t, p).None? ==> forall w: nat, h: nat :: !SizeShape(t, p, w, h)
  {
    if StartsAt(t, p, SizeMarker) {
      var a := p + |SizeMarker|;
      var wEnd := RunEnd(t, a, Digits);
      RunEndMaximal(t, a, Digits);
      if wEnd < |t| {
        RunEndMaximal(t, wEnd + 1, Digits);
      }
    }
  }

  /** The Interval part of the pattern at `q`: where its seconds and fps runs end */
  function IntervalAt(t: string, q: nat): (r: Option<(nat, nat)>)
    ensures r.Some? ==> q + |IntervalMarker| < r.value.0
    ensures r.Some? ==> r.value.0 + |SecondsClose| < r.value.1 && r.value.1 + |FpsClose| <= |t|
  {
    if !StartsAt(t, q, IntervalMarker) then None
    else
      var c := q + |IntervalMarker|;
      var sEnd := RunEnd(t, c, DigitsAndDots);
      if sEnd == c || !StartsAt(t, sEnd, SecondsClose) then None
      else
        var d := sEnd + |SecondsClose|;
        var fEnd := RunEnd(t, d, DigitsAndDots);
        if fEnd == d || !StartsAt(t, fEnd, FpsClose) then None else Some((sEnd, fEnd))
  }

  /** `IntervalAt` finds the Interval part exactly when there is one, and
      its runs are the only ones possible */
  lemma IntervalAtSpec(t: string, q: nat)
    ensures IntervalAt(t, q).Some? ==> IntervalShape(t, q, IntervalAt(t, q).value.0, IntervalAt(t, q).value.1)
    ensures IntervalAt(t, q).Some? ==> forall s: nat, f: nat :: IntervalShape(t, q, s, f) ==>
              s == IntervalAt(t, q).value.0 && f == IntervalAt(t, q).value.1
    ensures IntervalAt(t, q).None? ==> forall s: nat, f: nat :: !IntervalShape(t, q, s, f)
  {
    IntervalAtSound(t, q);
    forall s: nat, f: nat | IntervalShape(t, q, s, f)
      ensures IntervalAt(t, q) == Some((s, f))
    {
      IntervalAtComplete(t, q, s, f);
    }
  }

  /** What `IntervalAt` finds is an Interval part */
  lemma IntervalAtSound(t: string, q: nat)
    ensures IntervalAt(t, q).Some? ==> IntervalShape(t, q, IntervalAt(t, q).value.0, IntervalAt(t, q).value.1)
  {
    if IntervalAt(t, q).Some? {
      var (sEnd, fEnd) := IntervalAt(t, q).value;
      var c := q + |IntervalMarker|;
      assert sEnd == RunEnd(t, c, DigitsAndDots);
      assert fEnd == RunEnd(t, sEnd + |SecondsClose|, DigitsAndDots);
    }
  }

  /** Any Interval part at `q` is the one `IntervalAt` finds: the seconds run
      must stop at the `s` and the fps run at the space, so both are the greedy runs */
  lemma IntervalAtComplete(t: string, q: nat, s: nat, f: nat)
    requires IntervalShape(t, q, s, f)
    ensures IntervalAt(t, q) == Some((s, f))
  {
    var c := q + |IntervalMarker|;
    RunEndMaximal(t, c, DigitsAndDots);
    StartsAtHead(t, SecondsClose);
    assert t[s] == 's';
    assert s == RunEnd(t, c, DigitsAndDots);
    var d := s + |SecondsClose|;
    RunEndMaximal(t, d, DigitsAndDots);
    StartsAtHead(t, FpsClose);
    assert t[f] == ' ';
    assert f == RunEnd(t, d, DigitsAndDots);
  }

  /** The lazy `.*?`: the first position at or after `q` where the Interval part matches */
  function FirstInterval(t: string, q: nat): (r: Option<(nat, nat, nat)>)
    ensures r.Some? ==> q <= r.value.0 && IntervalAt(t, r.value.0) == Some((r.value.1, r.value.2))
    decreases |t| - q
  {
    if q + |IntervalMarker| > |t| then None
    else
      match IntervalAt(t, q)
      case Some((s, f)) => Some((q, s, f))
      case None => FirstInterval(t, q + 1)
  }

  /** `FirstInterval` skips only positions where the Interval part does not
      match, and gives up only when it matches nowhere further on */
  lemma {:induction false} FirstIntervalSpec(t: string, q: nat)
    ensures FirstInterval(t, q).Some? ==> forall x: nat :: q <= x < FirstInterval(t, q).value.0 ==> IntervalAt(t, x).None?
    ensures FirstInterval(t, q).None? ==> forall x: nat :: q <= x ==> IntervalAt(t, x).None?
    decreases |t| - q
  {
    if q + |IntervalMarker| > |t| {
      assert FirstInterval(t, q).None?;
      forall x: nat | q <= x
        ensures IntervalAt(t, x).None?
      {
        assert !StartsAt(t, x, IntervalMarker);
      }
    } else if IntervalAt(t, q).None? {
      var r := FirstInterval(t, q + 1);
      assert FirstInterval(t, q) == r;
      forall x: nat | q <= x && (r.None? || x < r.value.0)
        ensures IntervalAt(t, x).None?
      {
        if x > q {
          FirstIntervalSpec(t, q + 1);
        }
      }
    } else {
      assert FirstInterval(t, q).value.0 == q;
    }
  }

  /** The Interval part matches nowhere before `FirstInterval`, nor anywhere when it gives up */
  lemma FirstIntervalShape(t: string, q: nat)
    ensures FirstInterval(t, q).Some? ==> forall x: nat, s: nat, f: nat ::
              q <= x < FirstInterval(t, q).value.0 ==> !IntervalShape(t, x, s, f)
    ensures FirstInterval(t, q).None? ==> forall x: nat, s: nat, f: nat :: q <= x ==> !IntervalShape(t, x, s, f)
  {
    FirstIntervalSpec(t, q);
    forall x: nat, s: nat, f: nat | q <= x && IntervalAt(t, x).None?
      ensures !IntervalShape(t, x, s, f)
    {
      IntervalAtSpec(t, x);
    }
  }

  /** The match the regex engine finds when it tries position `p` */
  function MatchAt(t: string, p: nat): (r: Option<Hit>)
    ensures r.Some? ==> r.value.start == p && p < r.value.End() <= |t|
  {
    match SizeAt(t, p)
    case None => None
    case Some((w, h)) =>
      match FirstInterval(t, h)
      case None => None
      case Some((x, s, f)) => Some(Hit(p, w, h, x, s, f))
  }

  /** A returned match is a match of the pattern, and the one backtracking prefers */
  lemma MatchAtSound(t: string, p: nat)
    requires MatchAt(t, p).Some?
    ensures Matches(t, MatchAt(t, p).value) && Preferred(t, MatchAt(t, p).value)
  {
    var h := MatchAt(t, p).value;
    SizeAtSpec(t, p);
    IntervalAtSpec(t, h.interval);
    FirstIntervalShape(t, h.heightEnd);
  }

  /** When no match is returned at `p`, the pattern matches at `p` in no way at all */
  lemma MatchAtComplete(t: string, p: nat)
    requires MatchAt(t, p).None?
    ensures forall h: Hit :: h.start == p ==> !Matches(t, h)
  {
    StartsAtHead(t, IntervalMarker);
    SizeAtSpec(t, p);
    if SizeAt(t, p).Some? {
      FirstIntervalShape(t, SizeAt(t, p).value.1);
    }
  }

  /** `re.findall` from position `p`: try each position in turn, and after a
      match resume at its end */
  function Scan(t: string, p: nat): (hits: seq<Hit>)
    requires p <= |t|
    ensures forall i :: 0 <= i < |hits| ==> p <= hits[i].start && hits[i].End() <= |t|
    ensures forall i, j :: 0 <= i < j < |hits| ==> hits[i].End() <= hits[j].start
    decreases |t| - p
  {
    if p == |t| then []
    else
      match MatchAt(t, p)
      case None => Scan(t, p + 1)
      case Some(h) =>
        var rest := Scan(t, h.End());
        assert forall i :: 0 < i < |rest| + 1 ==> ([h] + rest)[i] == rest[i - 1];
        [h] + rest
  }

  /** Position `x` lies inside one of the matches `hits` */
  ghost predicate Covered(hits: seq<Hit>, x: nat) {
    exists i :: 0 <= i < |hits| && hits[i].start <= x < hits[i].End()
  }

  lemma CoveredCons(h: Hit, rest: seq<Hit>, x: nat)
    requires Covered(rest, x) || h.start <= x < h.End()
    ensures Covered([h] + rest, x)
  {
    if h.start <= x < h.End() {
      assert ([h] + rest)[0] == h;
    } else {
      var i :| 0 <= i < |rest| && rest[i].start <= x < rest[i].End();
      assert ([h] + rest)[i + 1] == rest[i];
    }
  }

  /** Every match `Scan` returns is a match of the pattern, preferred by backtracking */
  lemma ScanSound(t: string, p: nat)
    requires p <= |t|
    ensures forall i :: 0 <= i < |Scan(t, p)| ==> Matches(t, Scan(t, p)[i]) && Preferred(t, Scan(t, p)[i])
  {
    ScanHits(t, p);
    forall i | 0 <= i < |Scan(t, p)|
      ensures Matches(t, Scan(t, p)[i]) && Preferred(t, Scan(t, p)[i])
    {
      MatchAtSound(t, Scan(t, p)[i].start);
    }
  }

  // ---------------------------------------------------------------------
  // int(float(fps))

  /** The digits before the first `.` of a `[0-9.]+` capture (all of it when there is no `.`) */
  function IntegerPart(f: string): (ip: string)
    requires AllInClass(f, 0, |f|, DigitsAndDots)
    ensures ip <= f && AllDigits(ip)
    ensures |ip| == |f| || f[|ip|] == '.'
  {
    FindCharFirst(f, ".");
    match Find(f, ".")
    case None => f
    case Some(i) => f[..i]
  }

  /** `int(float(fps))` for a `[0-9.]+` capture. Python's `float` accepts it
      exactly when it has at most one `.` and is not `.` alone; `int` then
      truncates toward zero, which for a non-negative decimal keeps the
      digits before the point. */
  function FpsValue(f: string): (r: Option<nat>)
    requires AllInClass(f, 0, |f|, DigitsAndDots)
  {
    if |Split(f, ".")| > 2 || f == "." || f == "" then None else Some(Value(IntegerPart(f)))
  }

  /** `float` accepts the capture exactly when it has at most one `.` and is neither `.` nor empty */
  lemma FpsValueAccepts(f: string)
    requires AllInClass(f, 0, |f|, DigitsAndDots)
    ensures FpsValue(f).Some? <==> multiset(f)['.'] <= 1 && f != "." && f != ""
  {
    SplitCharCount(f, ".");
  }

  /** The digits after the `.` of a capture with at most one `.` (none when there is no `.`) */
  function FractionPart(f: string): (fp: string)
    requires AllInClass(f, 0, |f|, DigitsAndDots) && multiset(f)['.'] <= 1
    ensures AllDigits(fp)
  {
    FindCharFirst(f, ".");
    match Find(f, ".")
    case None => ""
    case Some(i) =>
      DotOnce(f, i);
      f[i + 1..]
  }

  /** With at most one `.`, nothing after the first one is a `.` */
  lemma DotOnce(f: string, i: nat)
    requires i < |f| && f[i] == '.' && multiset(f)['.'] <= 1
    ensures '.' !in f[i + 1..]
  {
    assert f == f[..i] + [f[i]] + f[i + 1..];
    assert multiset(f) == multiset(f[..i]) + multiset([f[i]]) + multiset(f[i + 1..]);
  }

  /** The exact value of a decimal `float` accepts */
  ghost function DecimalValue(f: string): real
    requires AllInClass(f, 0, |f|, DigitsAndDots) && FpsValue(f).Some?
  {
    FpsValueAccepts(f);
    var fp := FractionPart(f);
    Value(IntegerPart(f)) as real + (Value(fp) as real) / (Pow10(|fp|) as real)
  }

  /** A fraction whose numerator has fewer digits than its denominator's power of ten is below one */
  lemma FractionBelowOne(fp: string)
    requires AllDigits(fp)
    ensures 0.0 <= (Value(fp) as real) / (Pow10(|fp|) as real) < 1.0
  {
    var n, d := Value(fp), Pow10(|fp|);
    assert n < d;
    QuotientBelowOne(n as real, d as real);
  }

  lemma QuotientBelowOne(num: real, den: real)
    requires 0.0 <= num < den
    ensures 0.0 <= num / den < 1.0
  {
  }

  /** The fps is the decimal truncated, not rounded: `30.000` gives 30, `29.97` gives 29 */
  lemma FpsTruncates(f: string)
    requires AllInClass(f, 0, |f|, DigitsAndDots)
    requires FpsValue(f).Some?
    ensures FpsValue(f).value as real <= DecimalValue(f) < FpsValue(f).value as real + 1.0
  {
    FpsValueAccepts(f);
    FractionBelowOne(FractionPart(f));
  }

  /** The message of the `ValueError` Python's `float` raises */
  function ConversionError(f: string): string {
    "could not convert string to float: '" + f + "'"
  }

  /** The three strings `re.findall` returns for one match */
  datatype Captures = Captures(width: string, height: string, fps: string)

  /** What the pattern guarantees of its groups: two digit runs and a `[0-9.]+` run */
  predicate WellFormedCaptures(c: Captures) {
    && |c.width| >= 1 && AllDigits(c.width)
    && |c.height| >= 1 && AllDigits(c.height)
    && |c.fps| >= 1 && AllInClass(c.fps, 0, |c.fps|, DigitsAndDots)
  }

  /** The groups of one match */
  function CapturesOf(t: string, h: Hit): (c: Captures)
    requires Matches(t, h)
    ensures WellFormedCaptures(c)
  {
    Captures(t[h.start + |SizeMarker|..h.widthEnd], t[h.widthEnd + 1..h.heightEnd],
             t[h.secondsEnd + |SecondsClose|..h.fpsEnd])
  }

  /** `pattern.findall(output)`: the groups of each match `Scan` finds, in order */
  function FindAll(output: string): (cs: seq<Captures>)
    ensures |cs| == |Scan(output, 0)|
    ensures forall i :: 0 <= i < |cs| ==> WellFormedCaptures(cs[i])
  {
    var hits := Scan(output, 0);
    ScanSound(output, 0);
    seq(|hits|, i requires 0 <= i < |hits| => CapturesOf(output, hits[i]))
  }

  /** Python's `float` accepts the fps text */
  predicate FpsConvertible(c: Captures)
    requires WellFormedCaptures(c)
  {
    FpsValue(c.fps).Some?
  }

  /** One tuple `(int(width), int(height), int(float(fps)))` */
  function ToFormat(c: Captures): Option<Format>
    requires WellFormedCaptures(c)
  {
    match FpsValue(c.fps)
    case None => None
    case Some(fps) => Some(Format(Value(c.width), Value(c.height), fps))
  }

  /** The list comprehension over the matches, which stops at the first
      fps that `float` rejects */
  function ToFormats(cs: seq<Captures>): (r: Result<seq<Format>>)
    requires forall i :: 0 <= i < |cs| ==> WellFormedCaptures(cs[i])
    ensures r.Success? ==> |r.value| == |cs|
    decreases |cs|
  {
    if |cs| == 0 then Success([])
    else
      match ToFormat(cs[0])
      case None => Failure(ConversionError(cs[0].fps))
      case Some(first) =>
        var tail := cs[1..];
        assert forall i :: 0 <= i < |tail| ==> WellFormedCaptures(tail[i]) by {
          forall i | 0 <= i < |tail| ensures WellFormedCaptures(tail[i]) {
            assert tail[i] == cs[i + 1];
          }
        }
        match ToFormats(tail)
        case Failure(e) => Failure(e)
        case Success(rest) => Success([first] + rest)
  }

  /** The comprehension succeeds exactly when every fps converts */
  lemma {:induction false} ToFormatsSucceeds(cs: seq<Captures>)
    requires forall i :: 0 <= i < |cs| ==> WellFormedCaptures(cs[i])
    ensures ToFormats(cs).Success? <==> forall i :: 0 <= i < |cs| ==> FpsConvertible(cs[i])
    decreases |cs|
  {
    if |cs| > 0 {
      var tail := cs[1..];
      forall i | 0 <= i < |tail| ensures WellFormedCaptures(tail[i]) {
        assert tail[i] == cs[i + 1];
      }
      if !FpsConvertible(cs[0]) {
        assert ToFormat(cs[0]).None?;
      } else {
        assert ToFormat(cs[0]).Some?;
        ToFormatsSucceeds(tail);
        var rt := ToFormats(tail);
        assert ToFormats(cs).Success? == rt.Success?;
        if rt.Success? {
          forall i | 0 < i < |cs| ensures FpsConvertible(cs[i]) {
            assert cs[i] == tail[i - 1];
          }
        } else {
          var k :| 0 <= k < |tail| && !FpsConvertible(tail[k]);
          assert cs[k + 1] == tail[k];
        }
      }
    }
  }

  /** A successful comprehension gives one tuple per match, in match order */
  lemma {:induction false} ToFormatsPointwise(cs: seq<Captures>)
    requires forall i :: 0 <= i < |cs| ==> WellFormedCaptures(cs[i])
    requires ToFormats(cs).Success?
    ensures forall i :: 0 <= i < |cs| ==> Some(ToFormats(cs).value[i]) == ToFormat(cs[i])
    decreases |cs|
  {
    if |cs| > 0 {
      var tail := cs[1..];
      forall i | 0 <= i < |tail| ensures WellFormedCaptures(tail[i]) {
        assert tail[i] == cs[i + 1];
      }
      var first := ToFormat(cs[0]).value;
      var rt := ToFormats(tail);
      var r := ToFormats(cs).value;
      assert r == [first] + rt.value;
      forall i | 0 <= i < |cs|
        ensures Some(r[i]) == ToFormat(cs[i])
      {
        if i > 0 {
          ToFormatsPointwise(tail);
          assert cs[i] == tail[i - 1];
          assert r[i] == rt.value[i - 1];
        }
      }
    }
  }

  /** On failure the error names the first fps text that `float` rejects,
      as the list comprehension stops at the first exception */
  lemma {:induction false} ToFormatsFirstError(cs: seq<Captures>)
    requires forall i :: 0 <= i < |cs| ==> WellFormedCaptures(cs[i])
    requires ToFormats(cs).Failure?
    ensures exists i :: (0 <= i < |cs| && !FpsConvertible(cs[i])
                         && ToFormats(cs).error == ConversionError(cs[i].fps)
                         && forall j :: 0 <= j < i ==> FpsConvertible(cs[j]))
    decreases |cs|
  {
    var tail := cs[1..];
    assert forall i :: 0 <= i < |tail| ==> tail[i] == cs[i + 1];
    if !FpsConvertible(cs[0]) {
      assert ToFormat(cs[0]).None?;
      assert ToFormats(cs).error == ConversionError(cs[0].fps);
    } else {
      assert ToFormat(cs[0]).Some?;
      var rt := ToFormats(tail);
      assert ToFormats(cs) == Failure(rt.error);
      ToFormatsFirstError(tail);
      var k :| 0 <= k < |tail| && !FpsConvertible(tail[k])
               && rt.error == ConversionError(tail[k].fps)
               && forall j :: 0 <= j < k ==> FpsConvertible(tail[j]);
      forall j | 0 <= j < k + 1
        ensures FpsConvertible(cs[j])
      {
        if j > 0 {
          assert cs[j] == tail[j - 1];
        }
      }
      assert cs[k + 1] == tail[k];
    }
  }

  /** `_parse_device_resolution(output)`: one tuple per match, in match order */
  function ParseDeviceResolution(output: string): (r: Result<seq<Format>>)
    ensures output == "" ==> r == Success([])
    ensures r.Success? ==> |r.value| == |Scan(output, 0)|
  {
    ToFormats(FindAll(output))
  }

  // ---------------------------------------------------------------------
  // How many tuples

  /** Each match holds one Size marker at its start and one Interval marker
      inside it, and matches do not overlap, so there are no more matches
      than markers of either kind */
  lemma {:induction false} ScanBound(t: string, p: nat)
    requires p <= |t|
    ensures |Scan(t, p)| <= OccurrencesFrom(t, SizeMarker, p)
    ensures |Scan(t, p)| <= OccurrencesFrom(t, IntervalMarker, p)
    decreases |t| - p
  {
    if p < |t| {
      var m := MatchAt(t, p);
      if m.None? {
        ScanBound(t, p + 1);
        OccurrencesMonotone(t, SizeMarker, p, p + 1);
        OccurrencesMonotone(t, IntervalMarker, p, p + 1);
      } else {
        var h := m.value;
        MatchAtSound(t, p);
        assert Scan(t, p) == [h] + Scan(t, h.End());
        ScanBound(t, h.End());
        OccurrencesStep(t, SizeMarker, p, h.End());
        OccurrencesMonotone(t, IntervalMarker, p, h.interval);
        OccurrencesStep(t, IntervalMarker, h.interval, h.End());
      }
    }
  }

  /** `_parse_device_resolution` yields at most one tuple per `Size: Discrete `
      and at most one per `Interval: Discrete ` in its input */
  lemma ResolutionCountBound(output: string)
    requires ParseDeviceResolution(output).Success?
    ensures |ParseDeviceResolution(output).value| <= OccurrencesFrom(output, SizeMarker, 0)
    ensures |ParseDeviceResolution(output).value| <= OccurrencesFrom(output, IntervalMarker, 0)
  {
    ScanBound(output, 0);
  }

  // ---------------------------------------------------------------------
  // Alternating Size and Interval markers

  /** Where the Size prefix at `x` ends */
  function SizeEnd(t: string, x: nat): nat
    requires SizeAt(t, x).Some?
  {
    SizeAt(t, x).value.1
  }

  /** Where the Interval part at `x` ends */
  function IntervalEnd(t: string, x: nat): nat
    requires IntervalAt(t, x).Some?
  {
    IntervalAt(t, x).value.1 + |FpsClose|
  }

  /** The complete Size prefixes of `t` sit exactly at `sizes` and the
      complete Interval parts exactly at `intervals`, and they alternate:
      each Size is followed by its Interval, which ends before the next Size */
  ghost predicate Alternating(t: string, sizes: seq<nat>, intervals: seq<nat>) {
    && |sizes| == |intervals|
    && (forall i :: 0 <= i < |sizes| ==>
          SizeAt(t, sizes[i]).Some? && IntervalAt(t, intervals[i]).Some?
          && SizeEnd(t, sizes[i]) <= intervals[i])
    && (forall i, j :: 0 <= i < j < |sizes| ==> IntervalEnd(t, intervals[i]) <= sizes[j])
    && (forall x: nat :: SizeStart(t, x) ==> x in sizes)
    && (forall x: nat :: IntervalStart(t, x) ==> x in intervals)
  }

  /** A complete Size prefix starts at `x` */
  ghost predicate SizeStart(t: string, x: nat) {
    SizeAt(t, x).Some?
  }

  /** A complete Interval part starts at `x` */
  ghost predicate IntervalStart(t: string, x: nat) {
    IntervalAt(t, x).Some?
  }

  /** What a match at `p` consists of, in terms of the two marker parts:
      a Size prefix at `p`, then the Interval part the match ends with */
  lemma MatchParts(t: string, p: nat)
    requires MatchAt(t, p).Some?
    ensures SizeAt(t, p).Some? && SizeEnd(t, p) <= MatchAt(t, p).value.interval
    ensures IntervalAt(t, MatchAt(t, p).value.interval).Some?
    ensures IntervalEnd(t, MatchAt(t, p).value.interval) == MatchAt(t, p).value.End()
  {
    var h := MatchAt(t, p).value;
    MatchAtSound(t, p);
    var _ := IntervalAt(t, h.interval);
  }

  /** A Size prefix followed by a complete Interval part starts a match,
      and the match stops at the first such Interval */
  lemma MatchFromParts(t: string, p: nat, q: nat)
    requires SizeAt(t, p).Some? && SizeEnd(t, p) <= q && IntervalAt(t, q).Some?
    ensures MatchAt(t, p).Some? && MatchAt(t, p).value.interval <= q
  {
    FirstIntervalSpec(t, SizeAt(t, p).value.1);
  }

  /** The integer skeleton of alternation: Size prefix, then Interval part, then the next Size */
  ghost predicate Chain(sizes: seq<nat>, sizeEnds: seq<nat>, intervals: seq<nat>, intervalEnds: seq<nat>) {
    && |sizeEnds| == |sizes| && |intervals| == |sizes| && |intervalEnds| == |sizes|
    && (forall i :: 0 <= i < |sizes| ==> sizes[i] < sizeEnds[i] <= intervals[i] < intervalEnds[i])
    && (forall i, j :: 0 <= i < j < |sizes| ==> intervalEnds[i] <= sizes[j])
  }

  /** Where the Size prefixes at `xs` end */
  ghost function SizeEnds(t: string, xs: seq<nat>): (r: seq<nat>)
    requires forall i :: 0 <= i < |xs| ==> SizeAt(t, xs[i]).Some?
    ensures |r| == |xs| && forall i :: 0 <= i < |xs| ==> r[i] == SizeEnd(t, xs[i])
  {
    seq(|xs|, i requires 0 <= i < |xs| => SizeEnd(t, xs[i]))
  }

  /** Where the Interval parts at `xs` end */
  ghost function IntervalEnds(t: string, xs: seq<nat>): (r: seq<nat>)
    requires forall i :: 0 <= i < |xs| ==> IntervalAt(t, xs[i]).Some?
    ensures |r| == |xs| && forall i :: 0 <= i < |xs| ==> r[i] == IntervalEnd(t, xs[i])
  {
    seq(|xs|, i requires 0 <= i < |xs| => IntervalEnd(t, xs[i]))
  }

  /** An alternating text has a chain skeleton */
  lemma AlternatingChain(t: string, sizes: seq<nat>, intervals: seq<nat>)
      returns (sizeEnds: seq<nat>, intervalEnds: seq<nat>)
    requires Alternating(t, sizes, intervals)
    ensures Chain(sizes, sizeEnds, intervals, intervalEnds)
    ensures forall i :: 0 <= i < |sizes| ==> sizeEnds[i] == SizeEnd(t, sizes[i])
    ensures forall i :: 0 <= i < |sizes| ==> intervalEnds[i] == IntervalEnd(t, intervals[i])
  {
    var n := |sizes|;
    sizeEnds := SizeEnds(t, sizes);
    intervalEnds := IntervalEnds(t, intervals);
    forall i | 0 <= i < n
      ensures sizes[i] < sizeEnds[i] <= intervals[i] < intervalEnds[i]
    {
      assert sizeEnds[i] == SizeEnd(t, sizes[i]);
      assert intervalEnds[i] == IntervalEnd(t, intervals[i]);
    }
    forall i, j | 0 <= i < j < n
      ensures intervalEnds[i] <= sizes[j]
    {
      assert intervalEnds[i] == IntervalEnd(t, intervals[i]);
    }
  }

  /** The only Size of a chain between the (k-1)-th Interval and the k-th Size is the k-th */
  lemma ChainPickSize(sizes: seq<nat>, sizeEnds: seq<nat>, intervals: seq<nat>, intervalEnds: seq<nat>,
                      k: nat, a: nat)
    requires Chain(sizes, sizeEnds, intervals, intervalEnds)
    requires k <= |sizes| && a < |sizes|
    requires k < |sizes| ==> sizes[a] <= sizes[k]
    requires 0 < k ==> intervalEnds[k - 1] <= sizes[a]
    ensures a == k
  {
  }

  /** The only Interval of a chain between the end of the k-th Size and the
      k-th Interval is the k-th */
  lemma ChainPickInterval(sizes: seq<nat>, sizeEnds: seq<nat>, intervals: seq<nat>, intervalEnds: seq<nat>,
                          k: nat, b: nat)
    requires Chain(sizes, sizeEnds, intervals, intervalEnds)
    requires k < |sizes| && b < |sizes|
    requires sizeEnds[k] <= intervals[b] <= intervals[k]
    ensures b == k
  {
  }

  /** A match starts at `x` */
  ghost predicate MatchStart(t: string, x: nat) {
    MatchAt(t, x).Some?
  }

  /** Matches start exactly at `sizes`, the a-th binding the a-th Interval
      and ending where it ends */
  ghost predicate MatchesExactly(t: string, sizes: seq<nat>, intervals: seq<nat>, intervalEnds: seq<nat>) {
    && |intervals| == |sizes| && |intervalEnds| == |sizes|
    && (forall x: nat :: MatchStart(t, x) ==> x in sizes)
    && (forall a :: 0 <= a < |sizes| ==>
          MatchAt(t, sizes[a]).Some? && MatchAt(t, sizes[a]).value.interval == intervals[a]
          && MatchAt(t, sizes[a]).value.End() == intervalEnds[a])
  }

  /** In an alternating text each Size starts a match that binds its own Interval, and no other match starts */
  lemma AlternatingMatches(t: string, sizes: seq<nat>, intervals: seq<nat>)
      returns (sizeEnds: seq<nat>, intervalEnds: seq<nat>)
    requires Alternating(t, sizes, intervals)
    ensures Chain(sizes, sizeEnds, intervals, intervalEnds)
    ensures MatchesExactly(t, sizes, intervals, intervalEnds)
  {
    var n := |sizes|;
    sizeEnds, intervalEnds := AlternatingChain(t, sizes, intervals);
    forall x: nat | MatchStart(t, x)
      ensures x in sizes
    {
      MatchParts(t, x);
      assert SizeStart(t, x);
    }
    forall a | 0 <= a < n
      ensures MatchAt(t, sizes[a]).Some? && MatchAt(t, sizes[a]).value.interval == intervals[a]
      ensures MatchAt(t, sizes[a]).value.End() == intervalEnds[a]
    {
      var p := sizes[a];
      MatchFromParts(t, p, intervals[a]);
      var q := MatchAt(t, p).value.interval;
      MatchParts(t, p);
      assert IntervalStart(t, q);
      var b :| 0 <= b < n && intervals[b] == q;
      ChainPickInterval(sizes, sizeEnds, intervals, intervalEnds, a, b);
    }
  }

  /** The match found at each position of `t`, including its end */
  ghost function MatchTable(t: string): (m: seq<Option<Hit>>)
    ensures |m| == |t| + 1
  {
    seq(|t| + 1, x requires 0 <= x <= |t| => MatchAt(t, x))
  }

  /** What a table of matches has in common with `MatchAt`: a match recorded
      at `x` starts there and ends inside the text */
  ghost predicate TableOk(m: seq<Option<Hit>>) {
    forall x :: 0 <= x < |m| && m[x].Some? ==> m[x].value.start == x && x < m[x].value.End() < |m|
  }

  /** `Scan` read off a table of matches */
  ghost function TableScan(m: seq<Option<Hit>>, p: nat): seq<Hit>
    requires TableOk(m) && p < |m|
    decreases |m| - p
  {
    if p == |m| - 1 then []
    else
      match m[p]
      case None => TableScan(m, p + 1)
      case Some(h) => [h] + TableScan(m, h.End())
  }

  /** `MatchTable` records matches as `MatchAt` finds them */
  lemma MatchTableOk(t: string)
    ensures TableOk(MatchTable(t))
  {
    var m := MatchTable(t);
    forall x | 0 <= x < |m| && m[x].Some?
      ensures m[x].value.start == x && x < m[x].value.End() < |m|
    {
      assert m[x] == MatchAt(t, x);
    }
  }

  /** `Scan` is the table scan of `MatchTable` */
  lemma {:induction false} ScanIsTableScan(t: string, p: nat)
    requires p <= |t|
    ensures TableOk(MatchTable(t)) && Scan(t, p) == TableScan(MatchTable(t), p)
    decreases |t| - p
  {
    var m := MatchTable(t);
    MatchTableOk(t);
    if p < |t| {
      var r := MatchAt(t, p);
      assert m[p] == r;
      if r.None? {
        ScanIsTableScan(t, p + 1);
        assert Scan(t, p) == Scan(t, p + 1);
        assert TableScan(m, p) == TableScan(m, p + 1);
      } else {
        var h := r.value;
        ScanIsTableScan(t, h.End());
        assert Scan(t, p) == [h] + Scan(t, h.End());
        assert TableScan(m, p) == [h] + TableScan(m, h.End());
      }
    }
  }

  /** Each hit a table scan returns is the table's entry at its start */
  lemma {:induction false} TableScanHits(m: seq<Option<Hit>>, p: nat)
    requires TableOk(m) && p < |m|
    ensures forall i :: 0 <= i < |TableScan(m, p)| ==>
              TableScan(m, p)[i].start < |m| && m[TableScan(m, p)[i].start] == Some(TableScan(m, p)[i])
    decreases |m| - p
  {
    if p < |m| - 1 {
      var hits := TableScan(m, p);
      match m[p]
      case None =>
        TableScanHits(m, p + 1);
      case Some(h) =>
        var rest := TableScan(m, h.End());
        TableScanHits(m, h.End());
        assert hits == [h] + rest;
        forall i | 0 < i < |hits|
          ensures hits[i].start < |m| && m[hits[i].start] == Some(hits[i])
        {
          assert hits[i] == rest[i - 1];
        }
    }
  }

  /** Every position from `p` on where the table records a match lies inside a scanned hit */
  lemma {:induction false} TableScanCovers(m: seq<Option<Hit>>, p: nat)
    requires TableOk(m) && p < |m|
    ensures forall x :: p <= x < |m| && m[x].Some? ==> Covered(TableScan(m, p), x)
    decreases |m| - p
  {
    if p < |m| - 1 {
      var hits := TableScan(m, p);
      match m[p]
      case None =>
        TableScanCovers(m, p + 1);
        forall x | p <= x < |m| && m[x].Some?
          ensures Covered(hits, x)
        {
          assert x != p;
        }
      case Some(h) =>
        var rest := TableScan(m, h.End());
        TableScanCovers(m, h.End());
        assert hits == [h] + rest;
        forall x | p <= x < |m| && m[x].Some?
          ensures Covered(hits, x)
        {
          CoveredCons(h, rest, x);
        }
    }
  }

  /** Each hit `Scan` returns is the match found at its start */
  lemma ScanHits(t: string, p: nat)
    requires p <= |t|
    ensures forall i :: 0 <= i < |Scan(t, p)| ==> MatchAt(t, Scan(t, p)[i].start) == Some(Scan(t, p)[i])
  {
    var m := MatchTable(t);
    var hits := Scan(t, p);
    ScanIsTableScan(t, p);
    TableScanHits(m, p);
    forall i | 0 <= i < |hits|
      ensures MatchAt(t, hits[i].start) == Some(hits[i])
    {
      var x := hits[i].start;
      assert x < |m| && m[x] == Some(hits[i]);
      assert m[x] == MatchAt(t, x);
    }
  }

  /** No match is skipped: every position from `p` on where a match starts
      lies inside one of the returned matches */
  lemma ScanCovers(t: string, p: nat)
    requires p <= |t|
    ensures forall x: nat :: p <= x <= |t| && MatchAt(t, x).Some? ==> Covered(Scan(t, p), x)
  {
    var m := MatchTable(t);
    ScanIsTableScan(t, p);
    TableScanCovers(m, p);
    forall x: nat | p <= x <= |t| && MatchAt(t, x).Some?
      ensures Covered(Scan(t, p), x)
    {
      assert m[x] == MatchAt(t, x);
    }
  }

  /** `MatchesExactly` read off a table of matches */
  ghost predicate TableMatchesExactly(m: seq<Option<Hit>>, sizes: seq<nat>, intervals: seq<nat>, intervalEnds: seq<nat>) {
    && |intervals| == |sizes| && |intervalEnds| == |sizes|
    && (forall x :: 0 <= x < |m| && m[x].Some? ==> x in sizes)
    && (forall a :: 0 <= a < |sizes| ==>
          sizes[a] < |m| && m[sizes[a]].Some? && m[sizes[a]].value.interval == intervals[a]
          && m[sizes[a]].value.End() == intervalEnds[a])
  }

  lemma TableOfExactly(t: string, sizes: seq<nat>, intervals: seq<nat>, intervalEnds: seq<nat>)
    requires MatchesExactly(t, sizes, intervals, intervalEnds)
    ensures TableMatchesExactly(MatchTable(t), sizes, intervals, intervalEnds)
  {
    var m := MatchTable(t);
    forall x | 0 <= x < |m| && m[x].Some?
      ensures x in sizes
    {
      assert MatchStart(t, x);
    }
    forall a | 0 <= a < |sizes|
      ensures sizes[a] < |m|
    {
      assert MatchAt(t, sizes[a]).Some?;
    }
  }

  /** The invariant of the alternation proof: `p` lies after the (k-1)-th
      Interval and not after the k-th Size */
  ghost predicate ScanState(m: seq<Option<Hit>>, sizes: seq<nat>, sizeEnds: seq<nat>, intervals: seq<nat>,
                            intervalEnds: seq<nat>, k: nat, p: nat) {
    && TableOk(m)
    && Chain(sizes, sizeEnds, intervals, intervalEnds)
    && TableMatchesExactly(m, sizes, intervals, intervalEnds)
    && k <= |sizes| && p < |m|
    && (k < |sizes| ==> p <= sizes[k])
    && (0 < k ==> intervalEnds[k - 1] <= p)
  }

  /** The state survives a position where no match starts */
  lemma ScanStateSkip(m: seq<Option<Hit>>, sizes: seq<nat>, sizeEnds: seq<nat>, intervals: seq<nat>,
                      intervalEnds: seq<nat>, k: nat, p: nat)
    requires ScanState(m, sizes, sizeEnds, intervals, intervalEnds, k, p)
    requires p < |m| - 1 && m[p].None?
    ensures ScanState(m, sizes, sizeEnds, intervals, intervalEnds, k, p + 1)
  {
  }

  /** A match found in the state is the k-th pair, and the state holds for
      k + 1 at its end */
  lemma ScanStateTake(m: seq<Option<Hit>>, sizes: seq<nat>, sizeEnds: seq<nat>, intervals: seq<nat>,
                      intervalEnds: seq<nat>, k: nat, p: nat)
    requires ScanState(m, sizes, sizeEnds, intervals, intervalEnds, k, p)
    requires m[p].Some?
    ensures k < |sizes| && p == sizes[k] && m[p].value.interval == intervals[k]
    ensures ScanState(m, sizes, sizeEnds, intervals, intervalEnds, k + 1, m[p].value.End())
  {
    var a :| 0 <= a < |sizes| && sizes[a] == p;
    ChainPickSize(sizes, sizeEnds, intervals, intervalEnds, k, a);
  }

  /** At the end of the text every pair has been consumed */
  lemma ScanStateEnd(m: seq<Option<Hit>>, sizes: seq<nat>, sizeEnds: seq<nat>, intervals: seq<nat>,
                     intervalEnds: seq<nat>, k: nat)
    requires 0 < |m| && ScanState(m, sizes, sizeEnds, intervals, intervalEnds, k, |m| - 1)
    ensures k == |sizes|
  {
  }

  /** `hits` are the pairs k, k+1, ... of `sizes` and `intervals`, in order */
  ghost predicate PairsFrom(hits: seq<Hit>, sizes: seq<nat>, intervals: seq<nat>, k: nat) {
    && k <= |sizes| <= |intervals|
    && |hits| == |sizes| - k
    && forall i :: 0 <= i < |hits| ==> hits[i].start == sizes[k + i] && hits[i].interval == intervals[k + i]
  }

  /** Prepending the k-th pair to the pairs from k + 1 gives the pairs from k */
  lemma PairsCons(h: Hit, rest: seq<Hit>, sizes: seq<nat>, intervals: seq<nat>, k: nat)
    requires PairsFrom(rest, sizes, intervals, k + 1)
    requires h.start == sizes[k] && h.interval == intervals[k]
    ensures PairsFrom([h] + rest, sizes, intervals, k)
  {
    var hits := [h] + rest;
    forall i | 0 <= i < |hits|
      ensures hits[i].start == sizes[k + i] && hits[i].interval == intervals[k + i]
    {
      if 0 < i {
        assert hits[i] == rest[i - 1];
      }
    }
  }

  /** The table scan from a position between the (k-1)-th Interval and the
      k-th Size returns the pairs k, k+1, ... in order */
  lemma {:induction false} AlternatingScanFrom(m: seq<Option<Hit>>, sizes: seq<nat>, sizeEnds: seq<nat>,
                                               intervals: seq<nat>, intervalEnds: seq<nat>, k: nat, p: nat)
    requires ScanState(m, sizes, sizeEnds, intervals, intervalEnds, k, p)
    ensures PairsFrom(TableScan(m, p), sizes, intervals, k)
    decreases |m| - p
  {
    if p == |m| - 1 {
      ScanStateEnd(m, sizes, sizeEnds, intervals, intervalEnds, k);
    } else if m[p].None? {
      ScanStateSkip(m, sizes, sizeEnds, intervals, intervalEnds, k, p);
      AlternatingScanFrom(m, sizes, sizeEnds, intervals, intervalEnds, k, p + 1);
    } else {
      var h := m[p].value;
      ScanStateTake(m, sizes, sizeEnds, intervals, intervalEnds, k, p);
      AlternatingScanFrom(m, sizes, sizeEnds, intervals, intervalEnds, k + 1, h.End());
      PairsCons(h, TableScan(m, h.End()), sizes, intervals, k);
    }
  }

  /** With strictly alternating Size and Interval markers, `findall` returns
      exactly one match per pair, in order, each Size bound to its own Interval */
  lemma AlternatingScan(t: string, sizes: seq<nat>, intervals: seq<nat>)
    requires Alternating(t, sizes, intervals)
    ensures |Scan(t, 0)| == |sizes|
    ensures forall i :: 0 <= i < |sizes| ==> Scan(t, 0)[i].start == sizes[i] && Scan(t, 0)[i].interval == intervals[i]
  {
    var sizeEnds, intervalEnds := AlternatingMatches(t, sizes, intervals);
    TableOfExactly(t, sizes, intervals, intervalEnds);
    ScanIsTableScan(t, 0);
    AlternatingScanFrom(MatchTable(t), sizes, sizeEnds, intervals, intervalEnds, 0, 0);
  }

  /** ... and so, when every fps is a decimal, one tuple per pair */
  lemma AlternatingResolutions(t: string, sizes: seq<nat>, intervals: seq<nat>)
    requires Alternating(t, sizes, intervals)
    requires ParseDeviceResolution(t).Success?
    ensures |ParseDeviceResolution(t).value| == |sizes|
  {
    AlternatingScan(t, sizes, intervals);
  }
}
