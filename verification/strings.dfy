/** The Python `str` operations the V4L2 parsers are built from, over
    `seq<char>`: searching, `split`, `strip`, ASCII digit runs, `int()` of a
    digit string and `str()` of a natural number. */
module Strings {
  import opened Wrappers

  /** `str.isspace` restricted to ASCII: tab, line feed, vertical tab, form
      feed, carriage return (0x09..0x0D), the separators 0x1C..0x1F and space */
  predicate IsSpace(c: char) {
    c == ' ' || ('\t' <= c <= '\r') || ('\U{1C}' <= c <= '\U{1F}')
  }

  /** The regex class `\d`, restricted to ASCII */
  predicate IsDigit(c: char) {
    '0' <= c <= '9'
  }

  predicate AllDigits(s: string) {
    forall k :: 0 <= k < |s| ==> IsDigit(s[k])
  }

  /** `pat` occurs in `t` at index `i` */
  predicate StartsAt(t: string, i: nat, pat: string) {
    i + |pat| <= |t| && t[i..i + |pat|] == pat
  }

  /** `pat in t` */
  predicate Contains(t: string, pat: string) {
    exists i: nat | i <= |t| :: StartsAt(t, i, pat)
  }

  /** The leftmost occurrence of `pat` in `t` at or after `k` */
  function FindFrom(t: string, pat: string, k: nat): (r: Option<nat>)
    ensures r.Some? ==> k <= r.value && StartsAt(t, r.value, pat)
    ensures r.Some? ==> forall j: nat :: k <= j < r.value ==> !StartsAt(t, j, pat)
    ensures r.None? ==> forall j: nat :: k <= j ==> !StartsAt(t, j, pat)
    decreases |t| - k
  {
    if k + |pat| > |t| then None
    else if t[k..k + |pat|] == pat then Some(k)
    else FindFrom(t, pat, k + 1)
  }

  /** The leftmost occurrence of `pat` in `t`, as `split` searches for its separator */
  function Find(t: string, pat: string): (r: Option<nat>)
    ensures r.Some? ==> StartsAt(t, r.value, pat)
    ensures r.Some? ==> forall j: nat :: j < r.value ==> !StartsAt(t, j, pat)
    ensures r.None? <==> !Contains(t, pat)
  {
    FindFrom(t, pat, 0)
  }

  /** `s.split(sep)` for a non-empty separator: the pieces between the
      non-overlapping occurrences of `sep`, scanned left to right */
  function Split(s: string, sep: string): (parts: seq<string>)
    requires |sep| > 0
    decreases |s|
  {
    match Find(s, sep)
    case None => [s]
    case Some(i) => [s[..i]] + Split(s[i + |sep|..], sep)
  }

  /** `sep.join(parts)` */
  function Join(parts: seq<string>, sep: string): string {
    if |parts| == 0 then ""
    else if |parts| == 1 then parts[0]
    else parts[0] + sep + Join(parts[1..], sep)
  }

  /** Splitting never yields an empty list: `''.split(sep) == ['']` */
  lemma SplitNonEmpty(s: string, sep: string)
    requires |sep| > 0
    ensures |Split(s, sep)| >= 1
    ensures s == "" ==> Split(s, sep) == [""]
  {
    match Find(s, sep)
    case None =>
    case Some(i) =>
  }

  /** The first piece is the text before the first occurrence of `sep` */
  lemma SplitFirst(s: string, sep: string)
    requires |sep| > 0
    ensures Split(s, sep)[0] == (match Find(s, sep) case None => s case Some(i) => s[..i])
  {
  }

  /** `sep.join([head] + tail)` for a non-empty tail */
  lemma JoinCons(head: string, tail: seq<string>, sep: string)
    requires |tail| >= 1
    ensures Join([head] + tail, sep) == head + sep + Join(tail, sep)
  {
    assert ([head] + tail)[1..] == tail;
  }

  /** Joining the pieces back with `sep` gives the original text */
  lemma {:induction false} JoinSplit(s: string, sep: string)
    requires |sep| > 0
    ensures Join(Split(s, sep), sep) == s
    decreases |s|
  {
    match Find(s, sep)
    case None =>
    case Some(i) =>
      var rest := s[i + |sep|..];
      var tail := Split(rest, sep);
      JoinSplit(rest, sep);
      SplitNonEmpty(rest, sep);
      assert Split(s, sep) == [s[..i]] + tail;
      JoinCons(s[..i], tail, sep);
      assert s[i..i + |sep|] == sep;
      assert s == s[..i] + sep + rest;
  }

  /** No piece contains the separator */
  lemma {:induction false} SplitPiecesFree(s: string, sep: string)
    requires |sep| > 0
    ensures forall k :: 0 <= k < |Split(s, sep)| ==> !Contains(Split(s, sep)[k], sep)
    decreases |s|
  {
    match Find(s, sep)
    case None =>
    case Some(i) =>
      var rest := s[i + |sep|..];
      var head := s[..i];
      var parts := Split(s, sep);
      assert parts == [head] + Split(rest, sep);
      forall k | 0 <= k < |parts|
        ensures !Contains(parts[k], sep)
      {
        if k == 0 {
          forall j: nat | j <= |head|
            ensures !StartsAt(head, j, sep)
          {
            if StartsAt(head, j, sep) {
              assert s[j..j + |sep|] == head[j..j + |sep|];
              assert StartsAt(s, j, sep);
            }
          }
        } else {
          SplitPiecesFree(rest, sep);
          assert parts[k] == Split(rest, sep)[k - 1];
        }
      }
  }

  /** For a one-character separator absent from every part, splitting the
      joined text recovers the parts */
  lemma {:induction false} SplitJoin(parts: seq<string>, sep: string)
    requires |sep| == 1 && |parts| >= 1
    requires forall k :: 0 <= k < |parts| ==> sep[0] !in parts[k]
    ensures Split(Join(parts, sep), sep) == parts
    decreases |parts|
  {
    var s := Join(parts, sep);
    if |parts| == 1 {
      FindCharAbsent(s, sep);
    } else {
      var head, tail := parts[0], parts[1..];
      assert parts == [head] + tail;
      var rest := Join(tail, sep);
      JoinCons(head, tail, sep);
      FindCharAt(head, sep, rest);
      assert s[|head| + |sep|..] == rest;
      assert s[..|head|] == head;
      SplitJoin(tail, sep);
    }
  }

  /** A one-character pattern is absent exactly when its character is */
  lemma FindCharAbsent(t: string, pat: string)
    requires |pat| == 1 && pat[0] !in t
    ensures Find(t, pat) == None
  {
  }

  /** In `a + pat + b`, a one-character `pat` absent from `a` is found right after `a` */
  lemma FindCharAt(a: string, pat: string, b: string)
    requires |pat| == 1 && pat[0] !in a
    ensures Find(a + pat + b, pat) == Some(|a|)
  {
    var t := a + pat + b;
    assert t[|a|..|a| + 1] == pat;
    assert StartsAt(t, |a|, pat);
    var r := Find(t, pat);
    assert r.Some?;
  }

  /** The prefix before the first one-character separator does not hold that character */
  lemma FindCharFirst(t: string, pat: string)
    requires |pat| == 1
    ensures Find(t, pat).None? ==> pat[0] !in t
    ensures Find(t, pat).Some? ==> t[Find(t, pat).value] == pat[0] && pat[0] !in t[..Find(t, pat).value]
  {
    var r := Find(t, pat);
    forall j | 0 <= j < |t| && t[j] == pat[0]
      ensures r.Some? && r.value <= j
    {
      assert t[j..j + 1] == pat;
      assert StartsAt(t, j, pat);
    }
    if r.Some? {
      assert t[r.value..r.value + 1] == pat;
    }
  }

  /** Splitting on a one-character separator gives one more piece than
      there are occurrences of that character */
  lemma {:induction false} SplitCharCount(s: string, sep: string)
    requires |sep| == 1
    ensures |Split(s, sep)| == multiset(s)[sep[0]] + 1
    decreases |s|
  {
    FindCharFirst(s, sep);
    match Find(s, sep)
    case None =>
    case Some(i) =>
      var rest := s[i + 1..];
      SplitCharCount(rest, sep);
      assert s == s[..i] + [sep[0]] + rest;
      assert multiset(s) == multiset(s[..i]) + multiset([sep[0]]) + multiset(rest);
  }

  /** The number of positions at or after `p` where `pat` occurs */
  function OccurrencesFrom(t: string, pat: string, p: nat): nat
    decreases |t| - p
  {
    if p >= |t| then 0
    else (if StartsAt(t, p, pat) then 1 else 0) + OccurrencesFrom(t, pat, p + 1)
  }

  /** Starting later never finds more occurrences */
  lemma {:induction false} OccurrencesMonotone(t: string, pat: string, a: nat, b: nat)
    requires a <= b
    ensures OccurrencesFrom(t, pat, b) <= OccurrencesFrom(t, pat, a)
    decreases b - a
  {
    if a < b {
      OccurrencesMonotone(t, pat, a + 1, b);
    }
  }

  /** An occurrence at `a` is counted from `a` but not after it */
  lemma OccurrencesStep(t: string, pat: string, a: nat, b: nat)
    requires a < b && StartsAt(t, a, pat) && |pat| > 0
    ensures OccurrencesFrom(t, pat, b) + 1 <= OccurrencesFrom(t, pat, a)
  {
    OccurrencesMonotone(t, pat, a + 1, b);
  }

  // ---------------------------------------------------------------------
  // strip()

  /** `s.lstrip()` */
  function StripLeft(s: string): (r: string)
    ensures |r| <= |s| && r == s[|s| - |r|..]
    ensures |r| == 0 || !IsSpace(r[0])
    ensures forall k :: 0 <= k < |s| - |r| ==> IsSpace(s[k])
    decreases |s|
  {
    if |s| > 0 && IsSpace(s[0]) then StripLeft(s[1..]) else s
  }

  /** `s.rstrip()` */
  function StripRight(s: string): (r: string)
    ensures |r| <= |s| && r == s[..|r|]
    ensures |r| == 0 || !IsSpace(r[|r| - 1])
    ensures forall k :: |r| <= k < |s| ==> IsSpace(s[k])
    decreases |s|
  {
    if |s| > 0 && IsSpace(s[|s| - 1]) then StripRight(s[..|s| - 1]) else s
  }

  /** How many leading whitespace characters `s.strip()` removes */
  function StripOffset(s: string): nat {
    |s| - |StripLeft(s)|
  }

  /** `s.strip()`: whitespace removed on both sides */
  function Strip(s: string): (r: string)
    ensures |r| <= |s|
  {
    StripRight(StripLeft(s))
  }

  /** `s.strip()` is the slice of `s` left after removing whitespace on both
      sides, and it neither starts nor ends with whitespace */
  lemma StripSpec(s: string)
    ensures var r := Strip(s);
            && (|r| == 0 || (!IsSpace(r[0]) && !IsSpace(r[|r| - 1])))
            && StripOffset(s) + |r| <= |s| && r == s[StripOffset(s)..StripOffset(s) + |r|]
            && (forall k :: 0 <= k < StripOffset(s) ==> IsSpace(s[k]))
            && (forall k :: StripOffset(s) + |r| <= k < |s| ==> IsSpace(s[k]))
  {
    StripEnds(s);
    StripSlice(s);
    StripRemoved(s);
  }

  /** The stripped text starts and ends with a non-whitespace character */
  lemma StripEnds(s: string)
    ensures |Strip(s)| == 0 || (!IsSpace(Strip(s)[0]) && !IsSpace(Strip(s)[|Strip(s)| - 1]))
  {
    var l := StripLeft(s);
    var r := StripRight(l);
    if |r| > 0 {
      assert r[0] == l[0];
    }
  }

  /** The stripped text is the slice of `s` after the leading whitespace */
  lemma StripSlice(s: string)
    ensures StripOffset(s) + |Strip(s)| <= |s|
    ensures Strip(s) == s[StripOffset(s)..StripOffset(s) + |Strip(s)|]
  {
    var l := StripLeft(s);
    var r := StripRight(l);
    SliceOfSuffix(s, l, r, StripOffset(s));
  }

  /** A prefix of a suffix of `s` is a slice of `s` */
  lemma SliceOfSuffix(s: string, l: string, r: string, a: nat)
    requires a <= |s| && l == s[a..] && |r| <= |l| && r == l[..|r|]
    ensures a + |r| <= |s| && r == s[a..a + |r|]
  {
  }

  /** Only whitespace is removed, on either side */
  lemma StripRemoved(s: string)
    ensures forall k :: 0 <= k < StripOffset(s) ==> IsSpace(s[k])
    ensures forall k :: StripOffset(s) + |Strip(s)| <= k < |s| ==> IsSpace(s[k])
  {
    var l := StripLeft(s);
    var r := StripRight(l);
    SpaceAfter(s, l, StripOffset(s), |r|);
  }

  /** Whitespace at the end of a suffix of `s` is whitespace at the end of `s` */
  lemma SpaceAfter(s: string, l: string, a: nat, n: nat)
    requires a <= |s| && l == s[a..] && n <= |l|
    requires forall j :: n <= j < |l| ==> IsSpace(l[j])
    ensures forall k :: a + n <= k < |s| ==> IsSpace(s[k])
  {
    forall k | a + n <= k < |s|
      ensures IsSpace(s[k])
    {
      assert s[k] == l[k - a];
    }
  }

  /** Stripping twice is stripping once */
  lemma StripIdempotent(s: string)
    ensures Strip(Strip(s)) == Strip(s)
  {
    StripSpec(s);
    var r := Strip(s);
    assert StripLeft(r) == r;
    assert StripRight(r) == r;
  }

  // ---------------------------------------------------------------------
  // Digit runs and decimal values

  /** The character classes the two regexes use for runs */
  datatype CharClass = Digits | DigitsAndDots

  /** Membership in `\d` or in `[0-9.]` */
  predicate InClass(c: char, cls: CharClass) {
    IsDigit(c) || (cls == DigitsAndDots && c == '.')
  }

  /** Where a greedy `cls+`/`cls*` run starting at `i` stops */
  function RunEnd(t: string, i: nat, cls: CharClass): (j: nat)
    requires i <= |t|
    ensures i <= j <= |t|
    ensures forall k :: i <= k < j ==> InClass(t[k], cls)
    ensures j == |t| || !InClass(t[j], cls)
    decreases |t| - i
  {
    if i < |t| && InClass(t[i], cls) then RunEnd(t, i + 1, cls) else i
  }

  /** The text a greedy `\d+` starting at `i` captures (empty when no digit is there) */
  function DigitRun(t: string, i: nat): (ds: string)
    requires i <= |t|
    ensures AllDigits(ds) && i + |ds| <= |t| && ds == t[i..i + |ds|]
    ensures i + |ds| == |t| || !IsDigit(t[i + |ds|])
  {
    t[i..RunEnd(t, i, Digits)]
  }

  /** Every character of t[i..j] is in `cls` */
  predicate AllInClass(t: string, i: nat, j: nat, cls: CharClass) {
    i <= j <= |t| && forall k :: i <= k < j ==> InClass(t[k], cls)
  }

  /** Every run of `cls` from `i` ends at or before the greedy one, and a run
      followed by a character outside `cls` is the greedy one */
  lemma RunEndMaximal(t: string, i: nat, cls: CharClass)
    requires i <= |t|
    ensures forall j: nat :: AllInClass(t, i, j, cls) ==> j <= RunEnd(t, i, cls)
    ensures forall j: nat :: AllInClass(t, i, j, cls) && j < |t| && !InClass(t[j], cls) ==> j == RunEnd(t, i, cls)
  {
  }

  /** An occurrence of a pattern starts with the pattern's first character */
  lemma StartsAtHead(t: string, pat: string)
    requires |pat| > 0
    ensures forall i: nat :: StartsAt(t, i, pat) ==> t[i] == pat[0]
  {
    forall i: nat | StartsAt(t, i, pat) ensures t[i] == pat[0] {
      assert t[i] == t[i..i + |pat|][0];
    }
  }

  function Pow10(n: nat): (p: nat)
    ensures p >= 1
  {
    if n == 0 then 1 else 10 * Pow10(n - 1)
  }

  function DigitValue(c: char): (d: nat)
    requires IsDigit(c)
    ensures d < 10
  {
    (c as int) - ('0' as int)
  }

  function DigitChar(d: nat): (c: char)
    requires d < 10
    ensures IsDigit(c) && DigitValue(c) == d
  {
    (('0' as int) + d) as char
  }

  /** `int(ds)` for a string of ASCII digits (leading zeros allowed) */
  function Value(ds: string): (n: nat)
    requires AllDigits(ds)
    ensures n < Pow10(|ds|)
    decreases |ds|
  {
    if |ds| == 0 then 0
    else
      var init := ds[..|ds| - 1];
      assert AllDigits(init);
      10 * Value(init) + DigitValue(ds[|ds| - 1])
  }

  /** `str(n)` for a natural number: decimal digits without leading zeros */
  function NatToString(n: nat): (s: string)
    ensures 1 <= |s| && AllDigits(s)
    ensures s[0] == '0' ==> n == 0
    decreases n
  {
    if n < 10 then [DigitChar(n)] else NatToString(n / 10) + [DigitChar(n % 10)]
  }

  /** `int(str(n)) == n` */
  lemma {:induction false} ValueOfNatToString(n: nat)
    ensures Value(NatToString(n)) == n
    decreases n
  {
    if n >= 10 {
      var s := NatToString(n);
      ValueOfNatToString(n / 10);
      assert s[..|s| - 1] == NatToString(n / 10);
    }
  }
}
