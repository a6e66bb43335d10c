/**
 * util.py: percentile with linear interpolation, the Markdown escaper,
 * the "HH:MM" parser, the owner allow-list, and the local-time view of a
 * Unix timestamp that the reports group by.
 */
module Util {
  import opened Wrappers
  import opened Seqs

  // ---------------------------------------------------------------------
  // percentile
  // ---------------------------------------------------------------------

  function IntKey(x: int): Key { (x, 0) }

  /** sorted(values) for a list of integers. */
  function SortedInts(values: seq<int>): (s: seq<int>)
    ensures |s| == |values| && multiset(s) == multiset(values)
    ensures forall i, j :: 0 <= i < j < |s| ==> s[i] <= s[j]
  {
    var s := SortBy(values, IntKey);
    assert forall i, j :: 0 <= i < j < |s| ==> KeyLe(IntKey(s[i]), IntKey(s[j]));
    s
  }

  function MinInt(a: int, b: int): int { if a <= b then a else b }

  /** The interpolation index (N-1)*p. */
  function Rank(n: nat, p: real): real { (n - 1) as real * p }

  lemma RankBounds(n: nat, p: real)
    requires n > 0 && 0.0 <= p <= 1.0
    ensures 0.0 <= Rank(n, p) <= (n - 1) as real
    ensures 0 <= Rank(n, p).Floor <= n - 1
  {
    var m := (n - 1) as real;
    var q := 1.0 - p;
    ProductNonNegative(m, q);
    ProductNonNegative(m, p);
    assert m * q == m - m * p;
    assert 0.0 <= m * p <= m;
    assert Rank(n, p) == m * p;
    var f := Rank(n, p).Floor;
    assert f as real <= m * p;
    assert f as real <= (n - 1) as real;
  }

  lemma ProductNonNegative(x: real, y: real)
    requires x >= 0.0 && y >= 0.0
    ensures x * y >= 0.0
  {
  }

  /**
   * percentile(p, values): 0 for an empty list; otherwise the value at
   * fractional index k = (N-1)*p of the sorted list, interpolating linearly
   * between the order statistics at floor(k) and the next one.
   * Python's floats are modelled as reals.
   */
  function Percentile(p: real, values: seq<int>): (r: real)
    requires 0.0 <= p <= 1.0
  {
    if |values| == 0 then 0.0 else Interpolate(p, SortedInts(values))
  }

  /** The arithmetic of percentile on the sorted, non-empty list s. */
  function Interpolate(p: real, s: seq<int>): real
    requires 0.0 <= p <= 1.0 && |s| > 0
  {
    var k := Rank(|s|, p);
    RankBounds(|s|, p);
    var f := k.Floor;
    var c := MinInt(f + 1, |s| - 1);
    if f == c then s[f] as real
    else s[f] as real * (c as real - k) + s[c] as real * (k - f as real)
  }

  lemma PercentileOfEmpty(p: real)
    requires 0.0 <= p <= 1.0
    ensures Percentile(p, []) == 0.0
  {
  }

  /** The head of an ordered permutation is the minimum, the last element the maximum. */
  lemma {:induction false} SortedEnds(values: seq<int>)
    requires |values| > 0
    ensures SortedInts(values)[0] == SeqMin(values)
    ensures SortedInts(values)[|values| - 1] == SeqMax(values)
  {
    var s := SortedInts(values);
    var lo, hi := SeqMin(values), SeqMax(values);
    InMultiset(values, lo);
    InMultiset(values, hi);
    var i := IndexOf(s, lo);
    var j := IndexOf(s, hi);
    InMultiset(s, s[0]);
    InMultiset(s, s[|s| - 1]);
    assert lo <= s[0] <= s[i];
    assert s[j] <= s[|s| - 1] <= hi;
  }

  lemma InMultiset(s: seq<int>, x: int)
    ensures x in s <==> x in multiset(s)
  {
  }

  lemma IndexOf(s: seq<int>, x: int) returns (i: nat)
    requires x in multiset(s)
    ensures i < |s| && s[i] == x
  {
    i :| i < |s| && s[i] == x;
  }

  lemma InterpolateAtZero(s: seq<int>)
    requires |s| > 0
    ensures Interpolate(0.0, s) == s[0] as real
  {
    assert Rank(|s|, 0.0).Floor == 0;
    if |s| > 1 {
      var a, b := s[0] as real, s[1] as real;
      assert Interpolate(0.0, s) == a * (1 as real - 0.0) + b * (0.0 - 0 as real);
    }
  }

  lemma InterpolateAtOne(s: seq<int>)
    requires |s| > 0
    ensures Interpolate(1.0, s) == s[|s| - 1] as real
  {
    assert Rank(|s|, 1.0) == (|s| - 1) as real;
  }

  /** percentile(0, xs) is the minimum of a non-empty list. */
  lemma PercentileAtZero(values: seq<int>)
    requires |values| > 0
    ensures Percentile(0.0, values) == SeqMin(values) as real
  {
    InterpolateAtZero(SortedInts(values));
    SortedEnds(values);
  }

  /** percentile(1, xs) is the maximum of a non-empty list. */
  lemma PercentileAtOne(values: seq<int>)
    requires |values| > 0
    ensures Percentile(1.0, values) == SeqMax(values) as real
  {
    InterpolateAtOne(SortedInts(values));
    SortedEnds(values);
  }

  /** A weighted mean of a <= b with weights 1-w and w lies between them. */
  lemma MixBetween(a: real, b: real, w: real)
    requires a <= b && 0.0 <= w <= 1.0
    ensures a <= a * (1.0 - w) + b * w <= b
  {
    var d := b - a;
    assert a * (1.0 - w) + b * w == a + d * w;
    ProductNonNegative(d, w);
    ProductNonNegative(d, 1.0 - w);
    assert d * w == d - d * (1.0 - w);
  }

  /**
   * On an ascending list the interpolated value lies between the order
   * statistic at floor(k) and the next one.
   */
  lemma InterpolateBetweenNeighbours(p: real, s: seq<int>)
    requires 0.0 <= p <= 1.0 && |s| > 0
    requires forall i, j :: 0 <= i < j < |s| ==> s[i] <= s[j]
    ensures var f := Rank(|s|, p).Floor;
            var c := MinInt(f + 1, |s| - 1);
            0 <= f <= c < |s| &&
            s[f] as real <= Interpolate(p, s) <= s[c] as real
  {
    var k := Rank(|s|, p);
    RankBounds(|s|, p);
    var f := k.Floor;
    var c := MinInt(f + 1, |s| - 1);
    if f == c {
      assert Interpolate(p, s) == s[f] as real;
    } else {
      var w := k - f as real;
      assert c as real - k == 1.0 - w;
      assert s[f] <= s[c];
      assert Interpolate(p, s) == s[f] as real * (1.0 - w) + s[c] as real * w;
      MixBetween(s[f] as real, s[c] as real, w);
    }
  }

  /**
   * For 0 <= p <= 1 percentile lies between the order statistics at floor(k)
   * and at the next index.
   */
  lemma PercentileBetweenNeighbours(p: real, values: seq<int>)
    requires 0.0 <= p <= 1.0 && |values| > 0
    ensures var s := SortedInts(values);
            var f := Rank(|s|, p).Floor;
            var c := MinInt(f + 1, |s| - 1);
            0 <= f <= c < |s| &&
            s[f] as real <= Percentile(p, values) <= s[c] as real
  {
    InterpolateBetweenNeighbours(p, SortedInts(values));
  }

  /** Hence it lies between the minimum and the maximum. */
  lemma PercentileBracketed(p: real, values: seq<int>)
    requires 0.0 <= p <= 1.0 && |values| > 0
    ensures SeqMin(values) as real <= Percentile(p, values) <= SeqMax(values) as real
  {
    InterpolateBounded(p, SortedInts(values));
    SortedEnds(values);
  }

  lemma InterpolateBounded(p: real, s: seq<int>)
    requires 0.0 <= p <= 1.0 && |s| > 0
    requires forall i, j :: 0 <= i < j < |s| ==> s[i] <= s[j]
    ensures s[0] as real <= Interpolate(p, s) <= s[|s| - 1] as real
  {
    InterpolateBetweenNeighbours(p, s);
    var f := Rank(|s|, p).Floor;
    var c := MinInt(f + 1, |s| - 1);
    assert s[0] <= s[f];
    assert s[c] <= s[|s| - 1];
  }

  /** The example from the report: the median of [1, 2, 3, 4] is 2.5. */
  lemma PercentileMedianExample()
    ensures Percentile(0.5, [1, 2, 3, 4]) == 2.5
  {
    SortedIntsOfAscending([1, 2, 3, 4]);
    InterpolateMedianExample();
  }

  /** Sorting a list that is already ascending gives it back. */
  lemma SortedIntsOfAscending(s: seq<int>)
    requires forall i, j :: 0 <= i < j < |s| ==> s[i] <= s[j]
    ensures SortedInts(s) == s
  {
    assert SortedBy(s, IntKey);
    SortedUnique(SortedInts(s), s, IntKey);
  }

  lemma InterpolateMedianExample()
    ensures Interpolate(0.5, [1, 2, 3, 4]) == 2.5
  {
    assert Rank(4, 0.5) == 1.5;
    assert 1.5.Floor == 1;
  }

  /** A one-element list gives its element whatever p is. */
  lemma PercentileSingleton(p: real, x: int)
    requires 0.0 <= p <= 1.0
    ensures Percentile(p, [x]) == x as real
  {
    assert Rank(1, p) == 0.0;
  }

  /** The input is sorted first, so its order does not matter. */
  lemma PercentileOrderFree(p: real, a: seq<int>, b: seq<int>)
    requires 0.0 <= p <= 1.0
    requires multiset(a) == multiset(b)
    ensures Percentile(p, a) == Percentile(p, b)
  {
    SortedUnique(SortBy(a, IntKey), SortBy(b, IntKey), IntKey);
    assert |a| == |multiset(a)| == |multiset(b)| == |b|;
  }

  // ---------------------------------------------------------------------
  // escape_md
  // ---------------------------------------------------------------------

  /** The characters the Markdown escaper puts a backslash in front of. */
  predicate IsMdSpecial(c: char) {
    c in {'_', '*', '[', ']', '(', ')', '~', '`', '>', '#', '+', '-', '=', '|', '{', '}', '.', '!'}
  }

  function CountMdSpecials(s: string): nat {
    if |s| == 0 then 0 else (if IsMdSpecial(s[0]) then 1 else 0) + CountMdSpecials(s[1..])
  }

  /**
   * escape_md: one backslash before every special character, every other
   * character copied unchanged and in order.
   */
  function EscapeMd(text: string): (r: string)
    ensures |r| == |text| + CountMdSpecials(text)
    ensures |text| > 0 ==> |r| > 0 && !IsMdSpecial(r[0])
  {
    if |text| == 0 then ""
    else (if IsMdSpecial(text[0]) then ['\\', text[0]] else [text[0]]) + EscapeMd(text[1..])
  }

  /** How a Markdown reader takes the escapes back out. */
  function Unescape(s: string): string {
    if |s| == 0 then ""
    else if |s| >= 2 && s[0] == '\\' && IsMdSpecial(s[1]) then [s[1]] + Unescape(s[2..])
    else [s[0]] + Unescape(s[1..])
  }

  /** Escaping loses nothing: reading the escapes back gives the original text. */
  lemma {:induction false} EscapeMdRoundTrip(text: string)
    ensures Unescape(EscapeMd(text)) == text
  {
    if |text| > 0 {
      var rest := EscapeMd(text[1..]);
      EscapeMdRoundTrip(text[1..]);
      if IsMdSpecial(text[0]) {
        var e := ['\\', text[0]] + rest;
        assert EscapeMd(text) == e;
        assert e[2..] == rest;
      } else {
        var e := [text[0]] + rest;
        assert EscapeMd(text) == e;
        assert e[1..] == rest;
        assert |rest| > 0 ==> e[1] == rest[0];
      }
      assert text == [text[0]] + text[1..];
    }
  }

  /** Escaping works character by character, so it distributes over concatenation. */
  lemma {:induction false} EscapeMdAppend(a: string, b: string)
    ensures EscapeMd(a + b) == EscapeMd(a) + EscapeMd(b)
  {
    if |a| > 0 {
      assert (a + b)[1..] == a[1..] + b;
      EscapeMdAppend(a[1..], b);
    } else {
      assert a + b == b;
    }
  }

  // ---------------------------------------------------------------------
  // parse_hhmm
  // ---------------------------------------------------------------------

  /** The ASCII characters str.strip() removes. */
  predicate IsSpace(c: char) {
    c == ' ' || (9 <= c as int <= 13) || (28 <= c as int <= 31)
  }

  function StripLeft(s: string): (r: string)
    ensures |r| <= |s| && r == s[|s| - |r|..]
    ensures |r| > 0 ==> !IsSpace(r[0])
    ensures forall i :: 0 <= i < |s| - |r| ==> IsSpace(s[i])
  {
    if |s| > 0 && IsSpace(s[0]) then StripLeft(s[1..]) else s
  }

  function StripRight(s: string): (r: string)
    ensures |r| <= |s| && r == s[..|r|]
    ensures |r| > 0 ==> !IsSpace(r[|r| - 1])
    ensures forall i :: |r| <= i < |s| ==> IsSpace(s[i])
  {
    if |s| > 0 && IsSpace(s[|s| - 1]) then StripRight(s[..|s| - 1]) else s
  }

  /** str.strip(): whitespace removed from both ends. */
  function Strip(s: string): string {
    StripRight(StripLeft(s))
  }

  function Occurrences(s: string, c: char): nat {
    if |s| == 0 then 0 else (if s[0] == c then 1 else 0) + Occurrences(s[1..], c)
  }

  /** s.join(parts) with a one-character separator. */
  function Join(parts: seq<string>, sep: char): string
    requires |parts| > 0
  {
    if |parts| == 1 then parts[0] else parts[0] + [sep] + Join(parts[1..], sep)
  }

  /** str.split(sep) with a one-character separator. */
  function Split(s: string, sep: char): (parts: seq<string>)
    ensures |parts| == Occurrences(s, sep) + 1
    ensures forall i :: 0 <= i < |parts| ==> sep !in parts[i]
    ensures Join(parts, sep) == s
  {
    if |s| == 0 then [""]
    else
      var rest := Split(s[1..], sep);
      assert s == [s[0]] + s[1..];
      if s[0] == sep then
        assert Join([""] + rest, sep) == [sep] + Join(rest, sep);
        [""] + rest
      else
        var parts := [[s[0]] + rest[0]] + rest[1..];
        assert Join(parts, sep) == [s[0]] + Join(rest, sep) by {
          if |rest| > 1 {
            assert parts[1..] == rest[1..];
          }
        }
        parts
  }

  predicate IsDigit(c: char) { '0' <= c <= '9' }

  function DigitValue(c: char): nat
    requires IsDigit(c)
  {
    c as int - '0' as int
  }

  function Digit(d: nat): (c: char)
    requires d < 10
    ensures IsDigit(c) && DigitValue(c) == d
  {
    ('0' as int + d) as char
  }

  predicate AllDigits(s: string) {
    forall i :: 0 <= i < |s| ==> IsDigit(s[i])
  }

  /** The value of a string of decimal digits, most significant first. */
  function DigitsValue(s: string): nat
    requires AllDigits(s)
  {
    if |s| == 0 then 0 else DigitsValue(s[..|s| - 1]) * 10 + DigitValue(s[|s| - 1])
  }

  /** str(n) for a natural number. */
  function NatToString(n: nat): (s: string)
    ensures |s| > 0 && AllDigits(s)
  {
    if n < 10 then [Digit(n)] else NatToString(n / 10) + [Digit(n % 10)]
  }

  /** str(n) for any integer. */
  function IntToString(n: int): string {
    if n < 0 then "-" + NatToString(-n) else NatToString(n)
  }

  /**
   * int(s) on a string: surrounding whitespace, an optional sign and at
   * least one decimal digit; anything else is a ValueError (None).
   */
  function ParseInt(s: string): Option<int> {
    ParseSigned(Strip(s))
  }

  /** int() once the whitespace is gone: an optional sign, then digits. */
  function ParseSigned(t: string): Option<int> {
    var body := if |t| > 0 && (t[0] == '-' || t[0] == '+') then t[1..] else t;
    if |body| > 0 && AllDigits(body) then
      var v: int := DigitsValue(body);
      Some(if t[0] == '-' then -v else v)
    else None
  }

  /**
   * parse_hhmm: the two integers of a stripped "HH:MM", or (0, 0) when the
   * text does not split into exactly two integers. There is no range check.
   */
  function ParseHhmm(value: string): (int, int) {
    var parts := Split(Strip(value), ':');
    if |parts| != 2 then (0, 0)
    else match (ParseInt(parts[0]), ParseInt(parts[1]))
      case (Some(hh), Some(mm)) => (hh, mm)
      case _ => (0, 0)
  }

  lemma {:induction false} DigitsRoundTrip(n: nat)
    ensures DigitsValue(NatToString(n)) == n
  {
    if n >= 10 {
      DigitsRoundTrip(n / 10);
      var s := NatToString(n);
      assert s[..|s| - 1] == NatToString(n / 10);
    }
  }

  lemma StripOfDigits(s: string)
    requires |s| > 0 && AllDigits(s)
    ensures Strip(s) == s
  {
    assert !IsSpace(s[0]) && !IsSpace(s[|s| - 1]);
  }

  lemma ParseIntOfNat(n: nat)
    ensures ParseInt(NatToString(n)) == Some(n)
  {
    var s := NatToString(n);
    StripOfDigits(s);
    ParseDigits(s);
    DigitsRoundTrip(n);
  }

  lemma ParseDigits(s: string)
    requires |s| > 0 && AllDigits(s)
    ensures ParseSigned(s) == Some(DigitsValue(s) as int)
  {
    assert IsDigit(s[0]);
  }

  lemma NoSepSplit(s: string, sep: char)
    requires sep !in s
    ensures Split(s, sep) == [s]
  {
    assert Join(Split(s, sep), sep) == s;
  }

  lemma {:induction false} SplitAtSep(a: string, b: string, sep: char)
    requires sep !in a
    ensures Split(a + [sep] + b, sep) == [a] + Split(b, sep)
  {
    if |a| == 0 {
      assert a + [sep] + b == [sep] + b;
      assert ([sep] + b)[1..] == b;
    } else {
      assert (a + [sep] + b)[1..] == a[1..] + [sep] + b;
      SplitAtSep(a[1..], b, sep);
      assert [a[0]] + a[1..] == a;
    }
  }

  lemma StripUnchanged(s: string)
    requires |s| > 0 && !IsSpace(s[0]) && !IsSpace(s[|s| - 1])
    ensures Strip(s) == s
  {
  }

  /** How parse_hhmm reads a value whose stripped text splits into two given parts. */
  lemma ParseHhmmOfParts(value: string, a: string, b: string)
    requires Split(Strip(value), ':') == [a, b]
    ensures ParseHhmm(value) ==
      if ParseInt(a).Some? && ParseInt(b).Some? then (ParseInt(a).value, ParseInt(b).value) else (0, 0)
  {
  }

  lemma SplitTwo(a: string, b: string)
    requires ':' !in a && ':' !in b
    ensures Split(a + ":" + b, ':') == [a, b]
  {
    SplitAtSep(a, b, ':');
    NoSepSplit(b, ':');
  }

  /** Formatting two numbers as "H:M" and parsing them back gives the numbers. */
  lemma ParseHhmmRoundTrip(hh: nat, mm: nat)
    ensures ParseHhmm(NatToString(hh) + ":" + NatToString(mm)) == (hh, mm)
  {
    var a, b := NatToString(hh), NatToString(mm);
    var text := a + ":" + b;
    assert ':' !in a && ':' !in b by {
      assert !IsDigit(':');
    }
    assert text[0] == a[0] && text[|text| - 1] == b[|b| - 1];
    StripUnchanged(text);
    SplitTwo(a, b);
    ParseIntOfNat(hh);
    ParseIntOfNat(mm);
    ParseHhmmOfParts(text, a, b);
  }

  lemma {:induction false} StripLeftKeepsOccurrences(s: string, c: char)
    requires !IsSpace(c)
    ensures Occurrences(StripLeft(s), c) == Occurrences(s, c)
  {
    if |s| > 0 && IsSpace(s[0]) {
      StripLeftKeepsOccurrences(s[1..], c);
    }
  }

  lemma {:induction false} OccurrencesAppend(a: string, b: string, c: char)
    ensures Occurrences(a + b, c) == Occurrences(a, c) + Occurrences(b, c)
  {
    if |a| > 0 {
      assert (a + b)[1..] == a[1..] + b;
      OccurrencesAppend(a[1..], b, c);
    } else {
      assert a + b == b;
    }
  }

  lemma {:induction false} StripRightKeepsOccurrences(s: string, c: char)
    requires !IsSpace(c)
    ensures Occurrences(StripRight(s), c) == Occurrences(s, c)
  {
    if |s| > 0 && IsSpace(s[|s| - 1]) {
      var t := s[..|s| - 1];
      StripRightKeepsOccurrences(t, c);
      assert s == t + [s[|s| - 1]];
      OccurrencesAppend(t, [s[|s| - 1]], c);
    }
  }

  /** Without exactly one colon (none, or extra ones) the result is (0, 0). */
  lemma ParseHhmmNeedsOneColon(value: string)
    requires Occurrences(value, ':') != 1
    ensures ParseHhmm(value) == (0, 0)
  {
    StripLeftKeepsOccurrences(value, ':');
    StripRightKeepsOccurrences(StripLeft(value), ':');
  }

  /** A part that is not an integer gives (0, 0). */
  lemma ParseHhmmNonInteger(a: string, b: string)
    requires ':' !in a && ':' !in b
    requires |a| > 0 && !IsSpace(a[0]) && |b| > 0 && !IsSpace(b[|b| - 1])
    requires ParseInt(a).None? || ParseInt(b).None?
    ensures ParseHhmm(a + ":" + b) == (0, 0)
  {
    var text := a + ":" + b;
    assert text[0] == a[0] && text[|text| - 1] == b[|b| - 1];
    StripUnchanged(text);
    SplitTwo(a, b);
    ParseHhmmOfParts(text, a, b);
  }

  // ---------------------------------------------------------------------
  // owners
  // ---------------------------------------------------------------------

  /** The four ids that are always metrics owners. */
  const OwnerIds: seq<int> := [118435152, 1714073136, 200007725, 435005825]

  /**
   * metrics_owners: the configured allowed_user_ids (absent, null or empty
   * all read as none) followed by the hard-coded owners.
   */
  function MetricsOwners(allowedUserIds: Option<seq<int>>): (owners: seq<int>)
    ensures |owners| == |allowedUserIds.GetOr([])| + 4
    ensures owners[..|owners| - 4] == allowedUserIds.GetOr([])
    ensures owners[|owners| - 4..] == OwnerIds
  {
    allowedUserIds.GetOr([]) + OwnerIds
  }

  /**
   * The check inside owners_only: the wrapped handler runs only for an
   * update that has a user whose id is among the metrics owners.
   */
  function OwnersOnly(userId: Option<int>, allowedUserIds: Option<seq<int>>): (runs: bool)
    ensures runs <==> userId.Some? &&
                      (userId.value in allowedUserIds.GetOr([]) || userId.value in OwnerIds)
  {
    userId.Some? && userId.value in MetricsOwners(allowedUserIds)
  }

  // ---------------------------------------------------------------------
  // local time
  // ---------------------------------------------------------------------

  const DaySeconds: int := 86400

  /** The calendar day (days since 1970-01-01 in the zone) of a timestamp. */
  function LocalDay(ts: int, utcOffset: int): int {
    (ts + utcOffset) / DaySeconds
  }

  /** datetime.weekday(): Monday is 0; 1970-01-01 was a Thursday. */
  function LocalWeekday(ts: int, utcOffset: int): (wd: int)
    ensures 0 <= wd < 7
  {
    (LocalDay(ts, utcOffset) + 3) % 7
  }

  function LocalHour(ts: int, utcOffset: int): (h: int)
    ensures 0 <= h < 24
  {
    ((ts + utcOffset) % DaySeconds) / 3600
  }
}
