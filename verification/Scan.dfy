/** `scan.go`: digit spans, fields, and the window around a span in which a context
    word counts. */
module Scanning {
  import opened Bytes
  import opened Decimal

  // ---- Digit spans --------------------------------------------------------------

  datatype Span = Span(start: nat, end: nat, digits: Bytes)

  /** A byte that may stand inside a span. */
  predicate InSpan(b: Byte, structural: Bytes) {
    IsDigit(b) || b in structural
  }

  /** The number of span bytes at the head of s. */
  function RunLength(s: Bytes, structural: Bytes): (n: nat)
    ensures n <= |s| && (forall i :: 0 <= i < n ==> InSpan(s[i], structural))
    ensures n < |s| ==> !InSpan(s[n], structural)
  {
    if s == [] || !InSpan(s[0], structural) then 0 else 1 + RunLength(s[1..], structural)
  }

  function DigitsOf(run: Bytes): (ds: Bytes)
    ensures AllDigits(ds)
  {
    if run == [] then []
    else DigitsOf(run[..|run| - 1]) + if IsDigit(run[|run| - 1]) then [run[|run| - 1]] else []
  }

  /** The offset of the first digit, or the length of the run. */
  function FirstDigit(run: Bytes): (n: nat)
    ensures n <= |run| && (forall i :: 0 <= i < n ==> !IsDigit(run[i])) && (n < |run| ==> IsDigit(run[n]))
  {
    if run == [] || IsDigit(run[0]) then 0 else 1 + FirstDigit(run[1..])
  }

  /** The offset just after the last digit, or 0. */
  function LastDigit(run: Bytes): (n: nat)
    ensures n <= |run| && (forall i :: n <= i < |run| ==> !IsDigit(run[i])) && (n > 0 ==> IsDigit(run[n - 1]))
  {
    if run == [] then 0
    else if IsDigit(run[|run| - 1]) then |run|
    else LastDigit(run[..|run| - 1])
  }

  /** The span of a run of span bytes at this offset, if the run has a digit. */
  function RunSpan(run: Bytes, at: nat): seq<Span> {
    if FirstDigit(run) < |run|
    then [Span(at + FirstDigit(run), at + LastDigit(run), DigitsOf(run))]
    else []
  }

  /** The spans of the rest s of a text, which lies at this offset. */
  function SpansFrom(s: Bytes, structural: Bytes, at: nat): seq<Span>
    decreases |s|
  {
    if s == [] then []
    else if !InSpan(s[0], structural) then SpansFrom(s[1..], structural, at + 1)
    else
      var n := RunLength(s, structural);
      RunSpan(s[..n], at) + SpansFrom(s[n..], structural, at + n)
  }

  function Spans(text: Bytes, structural: Bytes): seq<Span> {
    SpansFrom(text, structural, 0)
  }

  lemma {:induction false} RunLengthIs(s: Bytes, structural: Bytes, n: nat)
    requires n <= |s| && (forall i :: 0 <= i < n ==> InSpan(s[i], structural))
    requires n < |s| ==> !InSpan(s[n], structural)
    ensures RunLength(s, structural) == n
  {
  }

  lemma SkipOne(s: Bytes, structural: Bytes, at: nat)
    requires s != [] && !InSpan(s[0], structural)
    ensures SpansFrom(s, structural, at) == SpansFrom(s[1..], structural, at + 1)
  {
  }

  lemma TakeRun(s: Bytes, structural: Bytes, at: nat, n: nat)
    requires 0 < n <= |s| && (forall i :: 0 <= i < n ==> InSpan(s[i], structural))
    requires n < |s| ==> !InSpan(s[n], structural)
    ensures SpansFrom(s, structural, at) == RunSpan(s[..n], at) + SpansFrom(s[n..], structural, at + n)
  {
    hide RunSpan;
    RunLengthIs(s, structural, n);
  }

  method ScanSpans(text: Bytes, structural: Bytes) returns (spans: seq<Span>)
    ensures spans == Spans(text, structural)
  {
    hide SpansFrom, RunSpan;
    spans := [];
    var i := 0;
    assert text[0..] == text;
    ghost var goal := Spans(text, structural);
    while i < |text|
      invariant 0 <= i <= |text|
      invariant goal == spans + SpansFrom(text[i..], structural, i)
      decreases |text| - i
    {
      ghost var i0 := i;
      while i < |text| && !InSpan(text[i], structural)
        invariant i0 <= i <= |text|
        invariant goal == spans + SpansFrom(text[i..], structural, i)
      {
        SkipOne(text[i..], structural, i);
        assert text[i..][1..] == text[i + 1..];
        i := i + 1;
      }
      if i >= |text| {
        break;
      }
      ghost var at := i;
      var span;
      i, span := ScanRun(text, structural, i);
      ghost var run := text[at..i];
      assert text[at..][..i - at] == run && text[at..][i - at..] == text[i..];
      TakeRun(text[at..], structural, at, i - at);
      spans := spans + span;
    }
    assert text[|text|..] == [];
    NoSpans(structural, |text|);
  }

  lemma NoSpans(structural: Bytes, at: nat)
    ensures SpansFrom([], structural, at) == []
  {
  }

  /** The inner loop: one run of span bytes. */
  method ScanRun(text: Bytes, structural: Bytes, at: nat) returns (i: nat, span: seq<Span>)
    requires at < |text| && InSpan(text[at], structural)
    ensures at < i <= |text| && (forall j :: at <= j < i ==> InSpan(text[j], structural))
    ensures i < |text| ==> !InSpan(text[i], structural)
    ensures span == RunSpan(text[at..i], at)
  {
    hide DigitsOf, FirstDigit, LastDigit;
    assert DigitsOf(text[at..at]) == [] by { NoDigitsYet(text[at..at]); }
    var firstDigit, lastDigit := -1, -1;
    var digits: Bytes := [];
    i := at;
    while i < |text| && InSpan(text[i], structural)
      invariant at <= i <= |text| && (forall j :: at <= j < i ==> InSpan(text[j], structural))
      invariant digits == DigitsOf(text[at..i])
      invariant firstDigit < 0 ==> firstDigit == lastDigit == -1 && forall j :: at <= j < i ==> !IsDigit(text[j])
      invariant firstDigit >= 0 ==>
                  && at <= firstDigit <= lastDigit < i && IsDigit(text[firstDigit]) && IsDigit(text[lastDigit])
                  && (forall j :: at <= j < firstDigit || lastDigit < j < i ==> !IsDigit(text[j]))
    {
      DigitsOneMore(text, at, i);
      if IsDigit(text[i]) {
        if firstDigit < 0 {
          firstDigit := i;
        }
        digits := digits + [text[i]];
        lastDigit := i;
      }
      i := i + 1;
    }
    ghost var run := text[at..i];
    RunDigits(text, at, i, firstDigit, lastDigit);
    span := if firstDigit >= 0 then [Span(firstDigit, lastDigit + 1, digits)] else [];
  }

  lemma NoDigitsYet(run: Bytes)
    requires run == []
    ensures DigitsOf(run) == []
  {
  }

  lemma DigitsOneMore(text: Bytes, at: nat, i: nat)
    requires at <= i < |text|
    ensures DigitsOf(text[at..i + 1]) == DigitsOf(text[at..i]) + if IsDigit(text[i]) then [text[i]] else []
  {
    assert text[at..i + 1][..i - at] == text[at..i];
  }

  lemma RunDigits(text: Bytes, at: nat, i: nat, firstDigit: int, lastDigit: int)
    requires at <= i <= |text|
    requires firstDigit < 0 ==> forall j :: at <= j < i ==> !IsDigit(text[j])
    requires firstDigit >= 0 ==>
               && at <= firstDigit <= lastDigit < i && IsDigit(text[firstDigit]) && IsDigit(text[lastDigit])
               && (forall j :: at <= j < firstDigit || lastDigit < j < i ==> !IsDigit(text[j]))
    ensures var run := text[at..i];
            if firstDigit < 0 then FirstDigit(run) == |run|
            else FirstDigit(run) == firstDigit - at < |run| && LastDigit(run) == lastDigit + 1 - at
  {
    var run := text[at..i];
    assert forall j :: 0 <= j < |run| ==> run[j] == text[at + j];
    var f, l := FirstDigit(run), LastDigit(run);
    if firstDigit >= 0 {
      assert IsDigit(run[firstDigit - at]) && IsDigit(run[lastDigit - at]);
    }
  }

  // ---- Which spans there are ----------------------------------------------------

  /** A decimal digit or one of these bytes. */
  ghost predicate DigitOrOneOf(b: Byte, marks: Bytes) {
    48 <= b <= 57 || b in marks
  }

  /** A maximal stretch of digits and structural bytes. */
  ghost predicate MaximalRun(text: Bytes, structural: Bytes, lo: nat, hi: nat) {
    && lo < hi <= |text| && (forall i :: lo <= i < hi ==> DigitOrOneOf(text[i], structural))
    && (lo > 0 ==> !DigitOrOneOf(text[lo - 1], structural)) && (hi < |text| ==> !DigitOrOneOf(text[hi], structural))
  }

  lemma DigitsStep(a: Bytes, x: Byte)
    ensures DigitsOf([]) == [] && DigitsOf(a + [x]) == DigitsOf(a) + if 48 <= x <= 57 then [x] else []
  {
    assert (a + [x])[..|a|] == a;
  }

  /** The digits of a run are all its digits, in order. */
  lemma {:induction false} DigitsAreKept(a: Bytes, b: Bytes, x: Byte)
    ensures DigitsOf(a + b) == DigitsOf(a) + DigitsOf(b)
    ensures DigitsOf([]) == [] && DigitsOf([x]) == if 48 <= x <= 57 then [x] else []
    decreases |b|
  {
    hide DigitsOf;
    DigitsStep([], x);
    assert [] + [x] == [x];
    if b == [] {
      assert a + b == a;
    } else {
      var n := |b| - 1;
      DigitsAreKept(a, b[..n], x);
      DigitsStep(a + b[..n], b[n]);
      DigitsStep(b[..n], b[n]);
      assert b[..n] + [b[n]] == b && a + b[..n] + [b[n]] == a + b;
    }
  }

  /** sp reaches from the first to the last digit of the run. */
  ghost predicate SpanInRun(text: Bytes, sp: Span, lo: nat, hi: nat)
    requires lo <= hi <= |text|
  {
    && lo <= sp.start < sp.end <= hi && IsDigit(text[sp.start]) && IsDigit(text[sp.end - 1])
    && (forall i :: lo <= i < sp.start || sp.end <= i < hi ==> !IsDigit(text[i]))
    && sp.digits == DigitsOf(text[lo..hi])
  }

  ghost predicate Maximal(text: Bytes, structural: Bytes, sp: Span) {
    exists lo: nat, hi: nat :: MaximalRun(text, structural, lo, hi) && SpanInRun(text, sp, lo, hi)
  }

  ghost predicate CoversDigit(spans: seq<Span>, i: nat) {
    exists sp :: sp in spans && sp.start <= i < sp.end
  }

  /** No run begins before this offset and goes on past it. */
  ghost predicate BetweenRuns(text: Bytes, structural: Bytes, at: nat)
    requires at <= |text|
  {
    0 < at < |text| && InSpan(text[at], structural) ==> !InSpan(text[at - 1], structural)
  }

  ghost predicate Scanned(text: Bytes, structural: Bytes, at: nat, spans: seq<Span>) {
    && (forall sp :: sp in spans ==> at <= sp.start && Maximal(text, structural, sp))
    && (forall i, j :: 0 <= i < j < |spans| ==> spans[i].end <= spans[j].start)
    && (forall i: nat :: at <= i < |text| && IsDigit(text[i]) ==> CoversDigit(spans, i))
  }

  lemma RunEdges(text: Bytes, at: nat, hi: nat)
    requires at < hi <= |text|
    ensures var run := text[at..hi]; var f, l := FirstDigit(run), LastDigit(run);
            if f < |run| then SpanInRun(text, Span(at + f, at + l, DigitsOf(run)), at, hi)
            else forall i :: at <= i < hi ==> !IsDigit(text[i])
  {
    hide DigitsOf, FirstDigit, LastDigit;
    var run := text[at..hi];
    assert forall i :: at <= i < hi ==> text[i] == run[i - at];
    if FirstDigit(run) < |run| {
      assert run[FirstDigit(run)] == text[at + FirstDigit(run)];
      assert FirstDigit(run) < LastDigit(run);
      assert run[LastDigit(run) - 1] == text[at + LastDigit(run) - 1];
    }
  }

  lemma RunIsScanned(text: Bytes, structural: Bytes, at: nat, hi: nat)
    requires MaximalRun(text, structural, at, hi)
    ensures forall sp :: sp in RunSpan(text[at..hi], at) ==>
              at <= sp.start && sp.end <= hi && Maximal(text, structural, sp)
    ensures forall i: nat :: at <= i < hi && IsDigit(text[i]) ==> CoversDigit(RunSpan(text[at..hi], at), i)
  {
    hide DigitsOf, FirstDigit, LastDigit, InSpan;
    var run := text[at..hi];
    RunEdges(text, at, hi);
    if FirstDigit(run) < |run| {
      var sp := Span(at + FirstDigit(run), at + LastDigit(run), DigitsOf(run));
      assert Maximal(text, structural, sp);
      assert sp in RunSpan(run, at);
    }
  }

  lemma ScannedJoin(text: Bytes, structural: Bytes, at: nat, hi: nat, s1: seq<Span>, s2: seq<Span>)
    requires Scanned(text, structural, hi, s2) && at <= hi && |s1| <= 1
    requires forall sp :: sp in s1 ==> at <= sp.start && sp.end <= hi && Maximal(text, structural, sp)
    requires forall i: nat :: at <= i < hi && i < |text| && IsDigit(text[i]) ==> CoversDigit(s1, i)
    ensures Scanned(text, structural, at, s1 + s2)
  {
    hide Maximal;
    var spans := s1 + s2;
    assert forall i :: 0 <= i < |s2| ==> s2[i] in s2;
    assert forall i :: 0 <= i < |s1| ==> s1[i] in s1;
    forall i: nat | at <= i < |text| && IsDigit(text[i]) ensures CoversDigit(spans, i) {
      if i < hi {
        var sp :| sp in s1 && sp.start <= i < sp.end;
        assert sp in spans;
      } else {
        assert CoversDigit(s2, i);
        var sp :| sp in s2 && sp.start <= i < sp.end;
        assert sp in spans;
      }
    }
  }

  lemma {:induction false} ScanIsMaximal(text: Bytes, structural: Bytes, at: nat)
    requires at <= |text| && BetweenRuns(text, structural, at)
    ensures Scanned(text, structural, at, SpansFrom(text[at..], structural, at))
    decreases |text| - at
  {
    hide RunSpan, Maximal, MaximalRun, CoversDigit, Scanned, BetweenRuns;
    var s := text[at..];
    if s == [] {
      NothingToScan(text, structural, at);
    } else if !InSpan(s[0], structural) {
      BetweenAfter(text, structural, at);
      ScanIsMaximal(text, structural, at + 1);
      assert s[1..] == text[at + 1..];
      var rest := SpansFrom(text[at + 1..], structural, at + 1);
      ScannedJoin(text, structural, at, at + 1, [], rest);
      assert [] + rest == rest;
    } else {
      var n := RunLength(s, structural);
      HeadRun(text, structural, at);
      RunIsScanned(text, structural, at, at + n);
      ScanIsMaximal(text, structural, at + n);
      assert |RunSpan(s[..n], at)| <= 1 by { AtMostOneSpan(s[..n], at); }
      ScannedJoin(text, structural, at, at + n, RunSpan(s[..n], at), SpansFrom(s[n..], structural, at + n));
    }
  }

  lemma BetweenAfter(text: Bytes, structural: Bytes, at: nat)
    requires at < |text| && !InSpan(text[at], structural)
    ensures BetweenRuns(text, structural, at + 1)
  {
  }

  /** A run that begins here. */
  lemma HeadRun(text: Bytes, structural: Bytes, at: nat)
    requires at < |text| && InSpan(text[at], structural) && BetweenRuns(text, structural, at)
    ensures var n := RunLength(text[at..], structural);
            && MaximalRun(text, structural, at, at + n) && BetweenRuns(text, structural, at + n)
            && text[at..][..n] == text[at..at + n] && text[at..][n..] == text[at + n..]
  {
    var s := text[at..];
    var n := RunLength(s, structural);
    assert forall i :: at <= i < at + n ==> text[i] == s[i - at];
  }

  lemma AtMostOneSpan(run: Bytes, at: nat)
    ensures |RunSpan(run, at)| <= 1
  {
  }

  lemma NothingToScan(text: Bytes, structural: Bytes, at: nat)
    requires at == |text|
    ensures Scanned(text, structural, at, [])
  {
  }

  /** The spans are exactly the maximal runs that hold a digit, each cut down to its
      first and last digit, in order; every digit of the text lies in one. */
  lemma SpansAreMaximal(text: Bytes, structural: Bytes)
    ensures Scanned(text, structural, 0, Spans(text, structural))
  {
    hide SpansFrom, Scanned;
    ScanIsMaximal(text, structural, 0);
    assert text[0..] == text;
  }

  // ---- Fields -----------------------------------------------------------------

  const SEMICOLON: Byte := 59
  const NEWLINE: Byte := 10
  const CARRIAGE_RETURN: Byte := 13

  predicate Delimits(b: Byte) {
    b == SEMICOLON || b == NEWLINE || b == CARRIAGE_RETURN
  }

  /** The start of the field that holds offset i. */
  function FieldStart(text: Bytes, i: nat): (lo: nat)
    requires i <= |text|
    ensures lo <= i && (lo > 0 ==> Delimits(text[lo - 1])) && forall j :: lo <= j < i ==> !Delimits(text[j])
  {
    if i > 0 && !Delimits(text[i - 1]) then FieldStart(text, i - 1) else i
  }

  /** The end of the field that holds offset i. */
  function FieldEnd(text: Bytes, i: nat): (hi: nat)
    requires i <= |text|
    ensures i <= hi <= |text| && (hi < |text| ==> Delimits(text[hi])) && forall j :: i <= j < hi ==> !Delimits(text[j])
    decreases |text| - i
  {
    if i < |text| && !Delimits(text[i]) then FieldEnd(text, i + 1) else i
  }

  method FieldBounds(text: Bytes, start: nat, end: nat) returns (lo: nat, hi: nat)
    requires start <= |text| && end <= |text|
    ensures lo == FieldStart(text, start) && hi == FieldEnd(text, end)
  {
    lo := start;
    while lo > 0 && text[lo - 1] != SEMICOLON && text[lo - 1] != NEWLINE && text[lo - 1] != CARRIAGE_RETURN
      invariant lo <= start && FieldStart(text, lo) == FieldStart(text, start)
    {
      lo := lo - 1;
    }
    hi := end;
    while hi < |text| && text[hi] != SEMICOLON && text[hi] != NEWLINE && text[hi] != CARRIAGE_RETURN
      invariant end <= hi <= |text| && FieldEnd(text, hi) == FieldEnd(text, end)
    {
      hi := hi + 1;
    }
  }

  // ---- Windows ----------------------------------------------------------------

  /** `utf8.RuneStart`. */
  predicate StartsRune(b: Byte) {
    b < 128 || b >= 192
  }

  function SnapUp(s: Bytes, off: nat): (r: nat)
    requires off <= |s|
    ensures off <= r <= |s| && (r < |s| ==> StartsRune(s[r])) && forall j :: off <= j < r ==> !StartsRune(s[j])
    decreases |s| - off
  {
    if off < |s| && !StartsRune(s[off]) then SnapUp(s, off + 1) else off
  }

  function SnapDown(s: Bytes, off: nat): (r: nat)
    requires off <= |s|
    ensures r <= off && (0 < r < |s| ==> StartsRune(s[r])) && forall j :: r < j <= off && j < |s| ==> !StartsRune(s[j])
  {
    if 0 < off < |s| && !StartsRune(s[off]) then SnapDown(s, off - 1) else off
  }

  method SnapToRuneStart(s: Bytes, off: nat) returns (r: nat)
    requires off <= |s|
    ensures r == SnapUp(s, off)
  {
    r := off;
    while r < |s| && !StartsRune(s[r])
      invariant r <= |s| && SnapUp(s, r) == SnapUp(s, off)
    {
      r := r + 1;
    }
  }

  method SnapToRuneEnd(s: Bytes, off: nat) returns (r: nat)
    requires off <= |s|
    ensures r == SnapDown(s, off)
  {
    r := off;
    while r > 0 && r < |s| && !StartsRune(s[r])
      invariant r <= off && SnapDown(s, r) == SnapDown(s, off)
    {
      r := r - 1;
    }
  }

  const REACH := 60

  function WindowStart(text: Bytes, start: nat): nat
    requires start <= |text|
  {
    var lo := FieldStart(text, start);
    SnapUp(text, if start - REACH < lo then lo else start - REACH)
  }

  function WindowEnd(text: Bytes, end: nat): nat
    requires end <= |text|
  {
    var hi := FieldEnd(text, end);
    SnapDown(text, if end + REACH > hi then hi else end + REACH)
  }

  /** The span begins and ends with a character of its own, as a span with a digit or
      a plus sign at its edges does. */
  predicate IsSpan(text: Bytes, start: int, end: int) {
    0 <= start < end <= |text| && StartsRune(text[start]) && StartsRune(text[end - 1])
  }

  /** The window around a span is a slice of the text that reaches at least from the
      start of the span to its last byte: snapping never crosses over. */
  lemma WindowHoldsSpan(text: Bytes, start: nat, end: nat)
    requires IsSpan(text, start, end)
    ensures WindowStart(text, start) <= start <= end - 1 <= WindowEnd(text, end) <= |text|
  {
  }

  function Window(text: Bytes, start: nat, end: nat): Bytes
    requires IsSpan(text, start, end)
  {
    WindowHoldsSpan(text, start, end);
    text[WindowStart(text, start)..WindowEnd(text, end)]
  }

  /** Whether a keyword stands in a window: `containsWord` on the lowered window. */
  type WordTest = (Bytes, Bytes) -> bool

  predicate InContext(word: WordTest, text: Bytes, start: nat, end: nat, keywords: seq<Bytes>)
    requires IsSpan(text, start, end)
  {
    exists kw :: kw in keywords && word(Window(text, start, end), kw)
  }

  method ContextWindow(text: Bytes, start: nat, end: nat) returns (window: Bytes)
    requires IsSpan(text, start, end)
    ensures window == Window(text, start, end)
  {
    hide FieldStart, FieldEnd, SnapUp, SnapDown;
    var flo, fhi := FieldBounds(text, start, end);
    var lo := start - REACH;
    if lo < flo {
      lo := flo;
    }
    var hi := end + REACH;
    if hi > fhi {
      hi := fhi;
    }
    lo := SnapToRuneStart(text, lo);
    hi := SnapToRuneEnd(text, hi);
    WindowHoldsSpan(text, start, end);
    window := text[lo..hi];
  }

  method HasContext(word: WordTest, text: Bytes, start: nat, end: nat, keywords: seq<Bytes>) returns (found: bool)
    requires IsSpan(text, start, end)
    ensures found == InContext(word, text, start, end, keywords)
  {
    hide Window;
    var window := ContextWindow(text, start, end);
    for k := 0 to |keywords|
      invariant forall j :: 0 <= j < k ==> !word(window, keywords[j])
    {
      if word(window, keywords[k]) {
        assert keywords[k] in keywords;
        return true;
      }
    }
    found := false;
  }
}
