/** Digit recognition works field by field: what is found in one field does not
    depend on any other field of the text. */
module Fields {
  import opened Bytes
  import opened Decimal
  import opened Scanning
  import opened Checksum
  import opened Resolving
  import opened DigitRecognizers

  // ---- Spans ------------------------------------------------------------------

  function MovedSpans(spans: seq<Span>, dist: nat): (r: seq<Span>)
    ensures |r| == |spans|
    ensures forall i :: 0 <= i < |r| ==> r[i] == Span(spans[i].start + dist, spans[i].end + dist, spans[i].digits)
  {
    seq(|spans|, i requires 0 <= i < |spans| => Span(spans[i].start + dist, spans[i].end + dist, spans[i].digits))
  }

  function MovedBy(frags: seq<Fragment>, dist: nat): (r: seq<Fragment>)
    ensures |r| == |frags|
    ensures forall i :: 0 <= i < |r| ==> r[i] == Fragment(frags[i].typ, frags[i].start + dist, frags[i].end + dist)
  {
    seq(|frags|, i requires 0 <= i < |frags| => Fragment(frags[i].typ, frags[i].start + dist, frags[i].end + dist))
  }

  lemma RunSpanMoves(run: Bytes, at: nat, dist: nat)
    ensures RunSpan(run, at + dist) == MovedSpans(RunSpan(run, at), dist)
  {
  }

  lemma MovedAppend(s1: seq<Span>, s2: seq<Span>, dist: nat)
    ensures MovedSpans(s1 + s2, dist) == MovedSpans(s1, dist) + MovedSpans(s2, dist)
  {
  }

  /** The spans of a text that lies further right. */
  lemma {:induction false} SpansMove(s: Bytes, structural: Bytes, at: nat, dist: nat)
    ensures SpansFrom(s, structural, at + dist) == MovedSpans(SpansFrom(s, structural, at), dist)
    decreases |s|
  {
    hide RunSpan, MovedSpans;
    if s == [] {
      MovedAppend([], [], dist);
    } else if !InSpan(s[0], structural) {
      SpansMove(s[1..], structural, at + 1, dist);
      assert at + 1 + dist == at + dist + 1;
    } else {
      var n := RunLength(s, structural);
      SpansMove(s[n..], structural, at + n, dist);
      assert at + n + dist == at + dist + n;
      RunSpanMoves(s[..n], at, dist);
      MovedAppend(RunSpan(s[..n], at), SpansFrom(s[n..], structural, at + n), dist);
    }
  }

  /** No span crosses a byte that cannot stand in one. */
  lemma {:induction false} SpansSplit(a: Bytes, d: Byte, b: Bytes, structural: Bytes, at: nat)
    requires !InSpan(d, structural)
    ensures SpansFrom(a + [d] + b, structural, at) ==
            SpansFrom(a, structural, at) + SpansFrom(b, structural, at + |a| + 1)
    decreases |a|
  {
    hide RunSpan, SpansFrom;
    var t := a + [d] + b;
    if a == [] {
      NoSpans(structural, at);
      SkipOne(t, structural, at);
      assert t[1..] == b;
    } else if !InSpan(a[0], structural) {
      SkipOne(t, structural, at);
      SkipOne(a, structural, at);
      assert t[1..] == a[1..] + [d] + b;
      SpansSplit(a[1..], d, b, structural, at + 1);
    } else {
      var n := RunLength(a, structural);
      assert n < |a| ==> t[n] == a[n];
      TakeRun(t, structural, at, n);
      TakeRun(a, structural, at, n);
      assert t[..n] == a[..n] && t[n..] == a[n..] + [d] + b;
      SpansSplit(a[n..], d, b, structural, at + n);
    }
  }

  // ---- Windows ----------------------------------------------------------------

  lemma {:induction false} FieldStartLeft(a: Bytes, d: Byte, b: Bytes, i: nat)
    requires i <= |a|
    ensures FieldStart(a + [d] + b, i) == FieldStart(a, i)
  {
    if i > 0 {
      FieldStartLeft(a, d, b, i - 1);
    }
  }

  lemma {:induction false} FieldEndLeft(a: Bytes, d: Byte, b: Bytes, i: nat)
    requires i <= |a| && Delimits(d)
    ensures FieldEnd(a + [d] + b, i) == FieldEnd(a, i)
    decreases |a| - i
  {
    if i < |a| {
      FieldEndLeft(a, d, b, i + 1);
    }
  }

  lemma {:induction false} SnapUpLeft(a: Bytes, d: Byte, b: Bytes, i: nat)
    requires i <= |a| && StartsRune(d)
    ensures SnapUp(a + [d] + b, i) == SnapUp(a, i)
    decreases |a| - i
  {
    if i < |a| {
      SnapUpLeft(a, d, b, i + 1);
    }
  }

  lemma {:induction false} SnapDownLeft(a: Bytes, d: Byte, b: Bytes, i: nat)
    requires i <= |a| && StartsRune(d)
    ensures SnapDown(a + [d] + b, i) == SnapDown(a, i)
  {
    if 0 < i < |a| {
      SnapDownLeft(a, d, b, i - 1);
    }
  }

  lemma {:induction false} FieldStartRight(a: Bytes, d: Byte, b: Bytes, i: nat)
    requires i <= |b| && Delimits(d)
    ensures FieldStart(a + [d] + b, |a| + 1 + i) == |a| + 1 + FieldStart(b, i)
  {
    if i > 0 {
      FieldStartRight(a, d, b, i - 1);
    }
  }

  lemma {:induction false} FieldEndRight(a: Bytes, d: Byte, b: Bytes, i: nat)
    requires i <= |b|
    ensures FieldEnd(a + [d] + b, |a| + 1 + i) == |a| + 1 + FieldEnd(b, i)
    decreases |b| - i
  {
    if i < |b| {
      FieldEndRight(a, d, b, i + 1);
    }
  }

  lemma {:induction false} SnapUpRight(a: Bytes, d: Byte, b: Bytes, i: nat)
    requires i <= |b|
    ensures SnapUp(a + [d] + b, |a| + 1 + i) == |a| + 1 + SnapUp(b, i)
    decreases |b| - i
  {
    if i < |b| {
      SnapUpRight(a, d, b, i + 1);
    }
  }

  /** With a character of the field at or before i, snapping does not leave the field. */
  lemma {:induction false} SnapDownRight(a: Bytes, d: Byte, b: Bytes, i: nat, p: nat)
    requires p <= i <= |b| && p < |b| && StartsRune(b[p])
    ensures SnapDown(a + [d] + b, |a| + 1 + i) == |a| + 1 + SnapDown(b, i)
    decreases i
  {
    if p < i {
      SnapDownRight(a, d, b, i - 1, p);
    }
  }

  lemma WindowEdgesLeft(a: Bytes, d: Byte, b: Bytes, start: nat, end: nat)
    requires Delimits(d) && start <= |a| && end <= |a|
    ensures WindowStart(a + [d] + b, start) == WindowStart(a, start)
    ensures WindowEnd(a + [d] + b, end) == WindowEnd(a, end)
  {
    hide FieldStart, FieldEnd, SnapUp, SnapDown;
    FieldStartLeft(a, d, b, start);
    FieldEndLeft(a, d, b, end);
    var flo, fhi := FieldStart(a, start), FieldEnd(a, end);
    SnapUpLeft(a, d, b, if start - REACH < flo then flo else start - REACH);
    SnapDownLeft(a, d, b, if end + REACH > fhi then fhi else end + REACH);
  }

  lemma WindowLeft(a: Bytes, d: Byte, b: Bytes, start: nat, end: nat)
    requires Delimits(d) && IsSpan(a, start, end)
    ensures IsSpan(a + [d] + b, start, end) && Window(a + [d] + b, start, end) == Window(a, start, end)
  {
    hide WindowStart, WindowEnd;
    WindowEdgesLeft(a, d, b, start, end);
    WindowHoldsSpan(a, start, end);
    SliceLeft(a, d, b, WindowStart(a, start), WindowEnd(a, end));
  }

  lemma SliceLeft(a: Bytes, d: Byte, b: Bytes, lo: nat, hi: nat)
    requires lo <= hi <= |a|
    ensures (a + [d] + b)[lo..hi] == a[lo..hi]
  {
  }

  lemma SliceRight(a: Bytes, d: Byte, b: Bytes, lo: nat, hi: nat)
    requires lo <= hi <= |b|
    ensures (a + [d] + b)[|a| + 1 + lo..|a| + 1 + hi] == b[lo..hi]
  {
  }

  lemma WindowStartRight(a: Bytes, d: Byte, b: Bytes, start: nat)
    requires Delimits(d) && start <= |b|
    ensures WindowStart(a + [d] + b, |a| + 1 + start) == |a| + 1 + WindowStart(b, start)
  {
    hide FieldStart, SnapUp;
    FieldStartRight(a, d, b, start);
    var flo := FieldStart(b, start);
    SnapUpRight(a, d, b, if start - REACH < flo then flo else start - REACH);
  }

  lemma WindowEndRight(a: Bytes, d: Byte, b: Bytes, start: nat, end: nat)
    requires Delimits(d) && IsSpan(b, start, end)
    ensures WindowEnd(a + [d] + b, |a| + 1 + end) == |a| + 1 + WindowEnd(b, end)
  {
    hide FieldEnd, SnapDown;
    FieldEndRight(a, d, b, end);
    var fhi := FieldEnd(b, end);
    SnapDownRight(a, d, b, if end + REACH > fhi then fhi else end + REACH, end - 1);
  }

  lemma WindowRight(a: Bytes, d: Byte, b: Bytes, start: nat, end: nat)
    requires Delimits(d) && IsSpan(b, start, end)
    ensures var m := |a| + 1;
            IsSpan(a + [d] + b, m + start, m + end) && Window(a + [d] + b, m + start, m + end) == Window(b, start, end)
  {
    hide WindowStart, WindowEnd;
    WindowStartRight(a, d, b, start);
    WindowEndRight(a, d, b, start, end);
    WindowHoldsSpan(b, start, end);
    SliceRight(a, d, b, WindowStart(b, start), WindowEnd(b, end));
  }

  // ---- Judgement --------------------------------------------------------------

  /** A rule whose spans stop at every field delimiter. */
  ghost predicate FieldBound(rule: Rule) {
    forall b :: b in Structural(rule) ==> !Delimits(b)
  }

  lemma JudgedLeft(lex: Lexicon, rule: Rule, a: Bytes, d: Byte, b: Bytes, sp: Span)
    requires Delimits(d) && SpanOf(a, sp)
    ensures SpanOf(a + [d] + b, sp) && Judged(lex, rule, a + [d] + b, sp) == Judged(lex, rule, a, sp)
  {
    hide Window, Checks, InnChecks;
    var t := a + [d] + b;
    WindowLeft(a, d, b, sp.start, sp.end);
    WindowLeft(a, d, b, PhoneStart(a, sp.start), sp.end);
    assert t[sp.start..sp.end] == a[sp.start..sp.end];
  }

  lemma JudgedRight(lex: Lexicon, rule: Rule, a: Bytes, d: Byte, b: Bytes, sp: Span)
    requires Delimits(d) && SpanOf(b, sp)
    ensures var m := |a| + 1; var sp' := Span(sp.start + m, sp.end + m, sp.digits);
            && SpanOf(a + [d] + b, sp')
            && Judged(lex, rule, a + [d] + b, sp') == MovedBy(Judged(lex, rule, b, sp), m)
  {
    hide Window, Checks, InnChecks;
    var t, m := a + [d] + b, |a| + 1;
    WindowRight(a, d, b, sp.start, sp.end);
    WindowRight(a, d, b, PhoneStart(b, sp.start), sp.end);
    assert t[m + sp.start..m + sp.end] == b[sp.start..sp.end];
    assert PhoneStart(t, m + sp.start) == m + PhoneStart(b, sp.start);
  }

  lemma {:induction false} FoundLeft(lex: Lexicon, rule: Rule, a: Bytes, d: Byte, b: Bytes, spans: seq<Span>)
    requires Delimits(d) && SpansOf(a, spans)
    ensures SpansOf(a + [d] + b, spans) && Found(lex, rule, a + [d] + b, spans) == Found(lex, rule, a, spans)
    decreases |spans|
  {
    hide Judged, SpanOf;
    if spans != [] {
      FoundLeft(lex, rule, a, d, b, spans[..|spans| - 1]);
      JudgedLeft(lex, rule, a, d, b, spans[|spans| - 1]);
    }
  }

  lemma MovedNothing(dist: nat)
    ensures MovedBy([], dist) == [] && MovedSpans([], dist) == []
  {
  }

  lemma MovedByAppend(f1: seq<Fragment>, f2: seq<Fragment>, dist: nat)
    ensures MovedBy(f1 + f2, dist) == MovedBy(f1, dist) + MovedBy(f2, dist)
  {
  }

  lemma {:induction false} FoundRight(lex: Lexicon, rule: Rule, a: Bytes, d: Byte, b: Bytes, spans: seq<Span>)
    requires Delimits(d) && SpansOf(b, spans)
    ensures SpansOf(a + [d] + b, MovedSpans(spans, |a| + 1))
    ensures Found(lex, rule, a + [d] + b, MovedSpans(spans, |a| + 1)) == MovedBy(Found(lex, rule, b, spans), |a| + 1)
    decreases |spans|
  {
    hide Judged, SpanOf, MovedSpans, MovedBy;
    MovedNothing(|a| + 1);
    if spans != [] {
      var before, last := spans[..|spans| - 1], spans[|spans| - 1];
      FoundRight(lex, rule, a, d, b, before);
      JudgedRight(lex, rule, a, d, b, last);
      MovedByAppend(Found(lex, rule, b, before), Judged(lex, rule, b, last), |a| + 1);
      assert MovedSpans(spans, |a| + 1)[..|spans| - 1] == MovedSpans(before, |a| + 1);
    }
  }

  lemma {:induction false} FoundAppend(lex: Lexicon, rule: Rule, text: Bytes, s1: seq<Span>, s2: seq<Span>)
    requires SpansOf(text, s1) && SpansOf(text, s2)
    ensures SpansOf(text, s1 + s2)
    ensures Found(lex, rule, text, s1 + s2) == Found(lex, rule, text, s1) + Found(lex, rule, text, s2)
    decreases |s2|
  {
    hide Judged, SpanOf;
    if s2 == [] {
      assert s1 + s2 == s1;
    } else {
      var before := s2[..|s2| - 1];
      FoundAppend(lex, rule, text, s1, before);
      assert (s1 + s2)[..|s1 + s2| - 1] == s1 + before;
    }
  }

  /** Two fields: recognition finds what it finds in the first one alone, and then,
      moved, what it finds in the second one alone. No byte of one field counts in
      the other, valid UTF-8 or not. */
  lemma FieldsAreIndependent(lex: Lexicon, rule: Rule, a: Bytes, d: Byte, b: Bytes)
    requires Delimits(d) && FieldBound(rule)
    ensures FindAll(lex, rule, a + [d] + b) == FindAll(lex, rule, a) + MovedBy(FindAll(lex, rule, b), |a| + 1)
  {
    hide Found, SpansFrom, SpansOf;
    var st, t := Structural(rule), a + [d] + b;
    var left, right := Spans(a, st), Spans(b, st);
    SpansAreSpans(a, st);
    SpansAreSpans(b, st);
    SpansAreSpans(t, st);
    SpansSplit(a, d, b, st, 0);
    SpansMove(b, st, 0, |a| + 1);
    FoundLeft(lex, rule, a, d, b, left);
    FoundRight(lex, rule, a, d, b, right);
    FoundAppend(lex, rule, t, left, MovedSpans(right, |a| + 1));
  }

  // ---- Any number of fields -----------------------------------------------------

  /** The fields, each but the last followed by its delimiter. */
  function Joined(fields: seq<Bytes>, ds: Bytes): Bytes
    requires |fields| == |ds| + 1
    decreases |ds|
  {
    if ds == [] then fields[0] else fields[0] + [ds[0]] + Joined(fields[1..], ds[1..])
  }

  /** What is found in every field alone, moved to where the field lies. */
  ghost function PerField(lex: Lexicon, rule: Rule, fields: seq<Bytes>, at: nat): seq<Fragment> {
    if fields == [] then []
    else MovedBy(FindAll(lex, rule, fields[0]), at) + PerField(lex, rule, fields[1..], at + |fields[0]| + 1)
  }

  lemma {:induction false} RecognizesFieldByField(lex: Lexicon, rule: Rule, fields: seq<Bytes>, ds: Bytes, at: nat)
    requires FieldBound(rule) && |fields| == |ds| + 1 && forall i :: 0 <= i < |ds| ==> Delimits(ds[i])
    ensures MovedBy(FindAll(lex, rule, Joined(fields, ds)), at) == PerField(lex, rule, fields, at)
    decreases |ds|
  {
    hide FindAll, FieldBound;
    if ds == [] {
      assert PerField(lex, rule, fields[1..], at + |fields[0]| + 1) == [];
    } else {
      var a, rest := fields[0], Joined(fields[1..], ds[1..]);
      FieldsAreIndependent(lex, rule, a, ds[0], rest);
      RecognizesFieldByField(lex, rule, fields[1..], ds[1..], at + |a| + 1);
      var whole := FindAll(lex, rule, a) + MovedBy(FindAll(lex, rule, rest), |a| + 1);
      assert MovedBy(whole, at) ==
             MovedBy(FindAll(lex, rule, a), at) + MovedBy(FindAll(lex, rule, rest), at + |a| + 1);
    }
  }

  /** No rule of the service reads across a delimiter: the short numbers that need a
      context word come without structural characters, or with dashes and spaces. */
  lemma BuiltInRulesAreFieldBound(rule: Rule)
    requires rule.Signed? ==> rule.structural == [] || rule.structural == DASHES
    ensures FieldBound(rule)
  {
  }
}
