/** Marker allocation: the scan for numbers already in use, the next free number,
    and why an allocated marker never occurs in the text. */
module Markers {
  import opened Bytes
  import opened Decimal

  /** `"[" + prefix + "_"`. */
  function Open(prefix: Bytes): Bytes {
    [LBRACKET] + prefix + [UNDERSCORE]
  }

  /** `fmt.Sprintf("[%s_%d]", prefix, n)`. */
  function Marker(prefix: Bytes, n: nat): Bytes {
    Open(prefix) + Print(n) + [RBRACKET]
  }

  /** A proper prefix of s is also a suffix of s. */
  ghost predicate Bordered(s: Bytes) {
    exists k :: 0 < k < |s| && s[..k] == s[|s| - k..]
  }

  /** The prefixes for which masking can always be undone (see
      `SafePrefixes.RoundTripsExactlyForSafePrefixes`). */
  ghost predicate SafePrefix(prefix: Bytes) {
    RBRACKET !in prefix && !Bordered(Open(prefix))
  }

  /** A prefix without brackets, as the service is configured with, is safe. */
  lemma BracketFreePrefixIsSafe(prefix: Bytes)
    requires LBRACKET !in prefix && RBRACKET !in prefix
    ensures SafePrefix(prefix)
  {
    var s := Open(prefix);
    forall k | 0 < k < |s| ensures s[..k] != s[|s| - k..] {
      assert s[..k][0] == LBRACKET;
      assert s[|s| - k..][0] == s[|s| - k] != LBRACKET;
    }
  }

  // ---- usedMarkers ------------------------------------------------------------

  /** The end of the run of digits starting at j. */
  function DigitsEnd(s: Bytes, j: nat): (r: nat)
    requires j <= |s|
    ensures j <= r <= |s| && AllDigits(s[j..r])
    ensures r < |s| ==> !IsDigit(s[r])
    decreases |s| - j
  {
    if j < |s| && IsDigit(s[j]) then
      var r := DigitsEnd(s, j + 1);
      assert forall i :: 0 < i < r - j ==> s[j..r][i] == s[j + 1..r][i - 1];
      r
    else j
  }

  /** The number of the marker whose digits start at d, if it is one; a number
      that `strconv.Atoi` rejects counts for nothing. */
  function NumberAt(text: Bytes, d: nat): set<nat>
    requires d <= |text|
  {
    var j := DigitsEnd(text, d);
    if j > d && j < |text| && text[j] == RBRACKET && Value(text[d..j]) <= MAX_INT
    then {Value(text[d..j])} else {}
  }

  /** The numbers found by the scan from offset idx on. */
  function UsedFrom(prefix: Bytes, text: Bytes, idx: nat): set<nat>
    requires idx <= |text|
    decreases |text| - idx
  {
    var i := IndexFrom(text, Open(prefix), idx);
    if i < 0 then {}
    else
      var d := i + |Open(prefix)|;
      NumberAt(text, d) + UsedFrom(prefix, text, DigitsEnd(text, d))
  }

  lemma UsedStep(prefix: Bytes, text: Bytes, idx: nat)
    requires idx <= |text|
    ensures var i := IndexFrom(text, Open(prefix), idx);
            UsedFrom(prefix, text, idx) ==
            if i < 0 then {}
            else NumberAt(text, i + |Open(prefix)|) + UsedFrom(prefix, text, DigitsEnd(text, i + |Open(prefix)|))
  {
    hide IndexFrom, DigitsEnd, NumberAt;
  }

  method UsedMarkers(prefix: Bytes, text: Bytes) returns (used: set<nat>)
    ensures used == UsedFrom(prefix, text, 0)
  {
    hide IndexFrom, DigitsEnd, Value, Print, UsedFrom;
    used := {};
    var open := Open(prefix);
    var idx := 0;
    while true
      invariant 0 <= idx <= |text|
      invariant used + UsedFrom(prefix, text, idx) == UsedFrom(prefix, text, 0)
      decreases |text| - idx
    {
      var i := IndexFrom(text, open, idx);
      UsedStep(prefix, text, idx);
      if i < 0 {
        return;
      }
      var j := i + |open|;
      var digits := j;
      while j < |text| && IsDigit(text[j])
        invariant digits <= j <= |text|
        invariant DigitsEnd(text, j) == DigitsEnd(text, digits)
      {
        DigitsEndSkips(text, j);
        j := j + 1;
      }
      DigitsEndStops(text, j);
      if j > digits && j < |text| && text[j] == RBRACKET {
        var n := Value(text[digits..j]);
        if n <= MAX_INT {
          used := used + {n};
        }
      }
      idx := j;
    }
  }

  lemma DigitsEndSkips(s: Bytes, j: nat)
    requires j < |s| && IsDigit(s[j])
    ensures DigitsEnd(s, j + 1) == DigitsEnd(s, j)
  {
  }

  lemma DigitsEndStops(s: Bytes, j: nat)
    requires j <= |s| && (j == |s| || !IsDigit(s[j]))
    ensures DigitsEnd(s, j) == j
  {
  }

  lemma {:induction false} DigitsEndIs(s: Bytes, j: nat, r: nat)
    requires j <= r < |s| && AllDigits(s[j..r]) && !IsDigit(s[r])
    ensures DigitsEnd(s, j) == r
    decreases r - j
  {
    if j < r {
      assert s[j] == s[j..r][0];
      assert s[j + 1..r] == s[j..r][1..];
      DigitsEndIs(s, j + 1, r);
    }
  }

  /** The scan counts at most one number for every byte it passes, and none that does
      not fit an `int`. */
  lemma {:induction false} UsedIsBounded(prefix: Bytes, text: Bytes, idx: nat)
    requires idx <= |text|
    ensures |UsedFrom(prefix, text, idx)| <= |text| - idx
    ensures forall n :: n in UsedFrom(prefix, text, idx) ==> n <= MAX_INT
    decreases |text| - idx
  {
    hide IndexFrom, DigitsEnd, NumberAt, UsedFrom;
    UsedStep(prefix, text, idx);
    var i := IndexFrom(text, Open(prefix), idx);
    if i >= 0 {
      var d := i + |Open(prefix)|;
      UsedIsBounded(prefix, text, DigitsEnd(text, d));
      AtMostOneNumber(text, d);
      UnionIsBounded(NumberAt(text, d), UsedFrom(prefix, text, DigitsEnd(text, d)));
    }
  }

  lemma AtMostOneNumber(text: Bytes, d: nat)
    requires d <= |text|
    ensures |NumberAt(text, d)| <= 1 && forall n :: n in NumberAt(text, d) ==> n <= MAX_INT
  {
    hide DigitsEnd, Value;
  }

  lemma UnionIsBounded(a: set<nat>, b: set<nat>)
    ensures |a + b| <= |a| + |b|
  {
    assert a + b == a + (b - a);
    assert |b - a| <= |b| by { assert b == (b - a) + (b * a); }
  }

  // ---- nextMarker -------------------------------------------------------------

  function AtLeast(used: set<nat>, n: nat): set<nat> {
    set m | m in used && n <= m
  }

  /** The smallest number from `start` on that is not in use. */
  function NextFree(used: set<nat>, start: nat): (n: nat)
    ensures start <= n && n !in used && forall m :: start <= m < n ==> m in used
    decreases |AtLeast(used, start)|
  {
    if start !in used then start
    else
      assert AtLeast(used, start) == AtLeast(used, start + 1) + {start};
      NextFree(used, start + 1)
  }

  method NextMarker(prefix: Bytes, used: set<nat>, start: nat) returns (used': set<nat>, marker: Bytes, n: nat)
    ensures n == NextFree(used, start) && marker == Marker(prefix, n) && used' == used + {n}
  {
    n := start;
    while n in used
      invariant start <= n && forall m :: start <= m < n ==> m in used
      decreases |AtLeast(used, n)|
    {
      assert AtLeast(used, n) == AtLeast(used, n + 1) + {n};
      n := n + 1;
    }
    used', marker := used + {n}, Marker(prefix, n);
  }

  /** As long as every number below `next` is in use, the next free number is
      below the count of used numbers plus one. */
  lemma NextFreeIsSmall(used: set<nat>, next: nat)
    requires forall m: nat :: m < next ==> m in used
    ensures NextFree(used, next) <= |used|
  {
    var low := Below(NextFree(used, next));
    assert used == low + (used - low);
  }

  function Below(n: nat): (s: set<nat>)
    ensures |s| == n && forall m: nat :: m in s <==> m < n
  {
    if n == 0 then {} else Below(n - 1) + {n - 1}
  }

  // ---- Freshness --------------------------------------------------------------

  /** No closing bracket before the end of a marker. */
  lemma MarkerShape(prefix: Bytes, n: nat)
    ensures var m := Marker(prefix, n); var d := |prefix| + 2;
            && |m| > d + 1 && m[0] == LBRACKET && m[|m| - 1] == RBRACKET
            && m[..d] == Open(prefix) && m[d - 1] == UNDERSCORE && m[d..|m| - 1] == Print(n)
    ensures RBRACKET !in prefix ==> RBRACKET !in Marker(prefix, n)[..|Marker(prefix, n)| - 1]
  {
    hide Print;
    var m := Marker(prefix, n);
    assert m[..|m| - 1] == Open(prefix) + Print(n);
  }

  /** The number of a marker occurring in the text, here with its digits at d. */
  lemma NumberAtMarker(prefix: Bytes, text: Bytes, n: nat, i: nat)
    requires OccursAt(text, Marker(prefix, n), i) && n <= MAX_INT
    ensures i + |Open(prefix)| <= |text| && n in NumberAt(text, i + |Open(prefix)|)
  {
    hide Print, Value;
    MarkerShape(prefix, n);
    var m := Marker(prefix, n);
    var d := i + |Open(prefix)|;
    var r := i + |m| - 1;
    assert text[d..r] == text[i..i + |m|][|Open(prefix)|..|m| - 1] == Print(n);
    assert text[r] == text[i..i + |m|][|m| - 1] == RBRACKET;
    DigitsEndIs(text, d, r);
    ValueOfPrint(n);
  }

  /** Two overlapping occurrences of the opening make it bordered. */
  lemma OverlapIsBorder(s: Bytes, open: Bytes, a: nat, b: nat)
    requires OccursAt(s, open, a) && OccursAt(s, open, b) && a < b < a + |open|
    ensures Bordered(open)
  {
    var k := a + |open| - b;
    assert s[a..a + |open|][b - a..] == s[b..b + |open|][..k];
    assert open[..k] == open[|open| - k..];
  }

  /** The scan misses no marker at or after idx. */
  lemma {:induction false} ScanFindsMarker(prefix: Bytes, text: Bytes, n: nat, i: nat, idx: nat)
    requires !Bordered(Open(prefix)) && n <= MAX_INT
    requires idx <= i && OccursAt(text, Marker(prefix, n), i)
    ensures n in UsedFrom(prefix, text, idx)
    decreases |text| - idx
  {
    hide IndexFrom, Print, Value, DigitsEnd, Bordered, NumberAt, UsedFrom, Marker, OccursAt;
    var open := Open(prefix);
    OpensAt(prefix, text, n, i);
    UsedStep(prefix, text, idx);
    var i0 := IndexFrom(text, open, idx);
    if i0 == i {
      NumberAtMarker(prefix, text, n, i);
    } else {
      var d := i0 + |open|;
      NoOverlap(text, open, i0, i);
      DigitsStopBefore(text, d, i);
      ScanFindsMarker(prefix, text, n, i, DigitsEnd(text, d));
    }
  }

  lemma OpensAt(prefix: Bytes, text: Bytes, n: nat, i: nat)
    requires OccursAt(text, Marker(prefix, n), i)
    ensures OccursAt(text, Open(prefix), i) && i < |text| && text[i] == LBRACKET
  {
    hide Print;
    var m, open := Marker(prefix, n), Open(prefix);
    assert text[i..i + |open|] == text[i..i + |m|][..|open|];
    assert text[i] == text[i..i + |m|][0];
  }

  /** Occurrences of an unbordered opening do not overlap. */
  lemma NoOverlap(s: Bytes, open: Bytes, a: nat, b: nat)
    requires !Bordered(open) && OccursAt(s, open, a) && OccursAt(s, open, b) && a < b
    ensures a + |open| <= b
  {
    hide Bordered;
    if b < a + |open| {
      OverlapIsBorder(s, open, a, b);
    }
  }

  /** A run of digits ends before a byte that is none. */
  lemma DigitsStopBefore(s: Bytes, d: nat, i: nat)
    requires d <= i < |s| && !IsDigit(s[i])
    ensures DigitsEnd(s, d) <= i
  {
    hide DigitsEnd;
    var j := DigitsEnd(s, d);
    assert forall t :: d <= t < j ==> IsDigit(s[d..j][t - d]) && s[t] == s[d..j][t - d];
  }

  /** Distinct numbers give markers none of which ends another. */
  lemma MarkersSuffixFree(prefix: Bytes, m: nat, n: nat)
    requires var p, s := Marker(prefix, m), Marker(prefix, n); |p| <= |s| && s[|s| - |p|..] == p
    ensures m == n
  {
    hide *;
    MarkerShape(prefix, m);
    MarkerShape(prefix, n);
    var p, s := Marker(prefix, m), Marker(prefix, n);
    var d := |prefix| + 2;
    var k := |s| - |p|;
    assert p[d - 1] == s[k..][d - 1] == s[k + d - 1] == UNDERSCORE;
    if k > 0 {
      DigitsAreNotUnderscore(s[d..|s| - 1], k - 1);
      assert false;
    }
    assert p == s;
    ValueOfPrint(m);
    ValueOfPrint(n);
  }

  lemma DigitsAreNotUnderscore(ds: Bytes, k: nat)
    requires AllDigits(ds) && k < |ds|
    ensures ds[k] != UNDERSCORE
  {
  }

  // ---- Which numbers are used -----------------------------------------------------

  /** These digits stand in the text between the opening and a closing bracket. */
  ghost predicate StandsAt(prefix: Bytes, text: Bytes, ds: Bytes, i: int) {
    OccursAt(text, Open(prefix) + ds + [RBRACKET], i)
  }

  /** n is the number of some such digits, leading zeros or not, and fits an `int`. */
  ghost predicate StandsIn(prefix: Bytes, text: Bytes, n: nat) {
    n <= MAX_INT && exists ds, i :: |ds| > 0 && AllDigits(ds) && Value(ds) == n && StandsAt(prefix, text, ds, i)
  }

  lemma DigitsAt(prefix: Bytes, text: Bytes, ds: Bytes, i: nat)
    requires |ds| > 0 && AllDigits(ds) && StandsAt(prefix, text, ds, i)
    ensures var d := i + |Open(prefix)|;
            && OccursAt(text, Open(prefix), i) && d + |ds| < |text| && text[i] == LBRACKET
            && text[d..d + |ds|] == ds && text[d + |ds|] == RBRACKET && DigitsEnd(text, d) == d + |ds|
  {
    hide DigitsEnd, AllDigits;
    DigitsSlices(Open(prefix), text, ds, i);
    var d := i + |Open(prefix)|;
    assert AllDigits(text[d..d + |ds|]);
    DigitsEndIs(text, d, d + |ds|);
  }

  lemma DigitsSlices(open: Bytes, text: Bytes, ds: Bytes, i: nat)
    requires open != [] && OccursAt(text, open + ds + [RBRACKET], i)
    ensures var d := i + |open|;
            && OccursAt(text, open, i) && d + |ds| < |text| && text[i] == open[0]
            && text[d..d + |ds|] == ds && text[d + |ds|] == RBRACKET
  {
    var m := open + ds + [RBRACKET];
    var s := text[i..i + |m|];
    assert s == m && forall t :: 0 <= t < |m| ==> text[i + t] == s[t];
    assert text[i..i + |open|] == m[..|open|] == open;
    assert text[i + |open|..i + |open| + |ds|] == m[|open|..|open| + |ds|] == ds;
  }

  /** Of an unbordered opening the scan misses none. */
  lemma {:induction false} ScanFindsDigits(prefix: Bytes, text: Bytes, ds: Bytes, i: nat, idx: nat)
    requires !Bordered(Open(prefix)) && idx <= i
    requires |ds| > 0 && AllDigits(ds) && StandsAt(prefix, text, ds, i) && Value(ds) <= MAX_INT
    ensures Value(ds) in UsedFrom(prefix, text, idx)
    decreases |text| - idx
  {
    hide IndexFrom, Value, DigitsEnd, Bordered, UsedFrom, StandsAt, OccursAt;
    var open := Open(prefix);
    DigitsAt(prefix, text, ds, i);
    UsedStep(prefix, text, idx);
    var i0 := IndexFrom(text, open, idx);
    if i0 != i {
      NoOverlap(text, open, i0, i);
      DigitsStopBefore(text, i0 + |open|, i);
      ScanFindsDigits(prefix, text, ds, i, DigitsEnd(text, i0 + |open|));
    }
  }

  /** What the scan finds at an opening stands there. */
  lemma NumberStands(prefix: Bytes, text: Bytes, i: nat, n: nat)
    requires OccursAt(text, Open(prefix), i) && i + |Open(prefix)| <= |text|
    requires n in NumberAt(text, i + |Open(prefix)|)
    ensures StandsIn(prefix, text, n)
  {
    hide DigitsEnd, Value;
    var open, d := Open(prefix), i + |Open(prefix)|;
    var j := DigitsEnd(text, d);
    assert text[i..j + 1] == open + text[d..j] + [RBRACKET];
    assert StandsAt(prefix, text, text[d..j], i);
  }

  lemma {:induction false} UsedStands(prefix: Bytes, text: Bytes, idx: nat, n: nat)
    requires idx <= |text| && n in UsedFrom(prefix, text, idx)
    ensures StandsIn(prefix, text, n)
    decreases |text| - idx
  {
    hide IndexFrom, DigitsEnd, NumberAt, UsedFrom, StandsIn;
    UsedStep(prefix, text, idx);
    var i := IndexFrom(text, Open(prefix), idx);
    var d := i + |Open(prefix)|;
    if n in NumberAt(text, d) {
      NumberStands(prefix, text, i, n);
    } else {
      UsedStands(prefix, text, DigitsEnd(text, d), n);
    }
  }

  /** For an unbordered opening the numbers in use are exactly those that stand in the
      text between the opening and a closing bracket. */
  lemma UsedExactly(prefix: Bytes, text: Bytes, n: nat)
    requires !Bordered(Open(prefix))
    ensures n in UsedFrom(prefix, text, 0) <==> StandsIn(prefix, text, n)
  {
    hide Bordered, UsedFrom, Value;
    if n in UsedFrom(prefix, text, 0) {
      UsedStands(prefix, text, 0, n);
    }
    if StandsIn(prefix, text, n) {
      var ds, i :| |ds| > 0 && AllDigits(ds) && Value(ds) == n && StandsAt(prefix, text, ds, i);
      ScanFindsDigits(prefix, text, ds, i, 0);
    }
  }
}
