/** What the digit recognizers find, said of the spans and their digits: which numbers
    pass the check of a tax number, and which spans become fragments. */
module DigitLaws {
  import opened Bytes
  import opened Decimal
  import opened Scanning
  import opened Checksum
  import opened Resolving
  import opened DigitRecognizers

  // ---- The check of a tax number ------------------------------------------------

  function V(d: Bytes, i: nat): (v: nat)
    requires AllDigits(d) && i < |d|
    ensures v <= 9
  {
    d[i] - 48
  }

  lemma DotStep(d: Bytes, weights: seq<nat>)
    requires 0 < |weights| <= |d| && AllDigits(d)
    ensures var n := |weights| - 1; Dot(d, weights) == Dot(d, weights[..n]) + V(d, n) * weights[n]
  {
  }

  lemma DotNothing(d: Bytes)
    requires AllDigits(d)
    ensures Dot(d, []) == 0
  {
  }

  lemma {:induction false} DotFront(d: Bytes, w: nat, weights: seq<nat>)
    requires AllDigits(d) && |weights| < |d|
    ensures Dot(d, [w] + weights) == V(d, 0) * w + Dot(d[1..], weights)
    decreases |weights|
  {
    hide Dot;
    var all, n := [w] + weights, |weights|;
    DotStep(d, all);
    if n == 0 {
      assert all[..0] == [] && weights == [];
      DotNothing(d);
      DotNothing(d[1..]);
    } else {
      DotFront(d, w, weights[..n - 1]);
      DotStep(d[1..], weights);
      assert all[..n] == [w] + weights[..n - 1];
      assert all[n] == weights[n - 1] && V(d, n) == V(d[1..], n - 1);
    }
  }

  lemma DotOfThree(d: Bytes, a: nat, b: nat, c: nat, weights: seq<nat>)
    requires AllDigits(d) && |weights| + 3 <= |d|
    ensures Dot(d, [a, b, c] + weights) == V(d, 0) * a + V(d, 1) * b + V(d, 2) * c + Dot(d[3..], weights)
  {
    hide Dot;
    DotFront(d, a, [b, c] + weights);
    DotFront(d[1..], b, [c] + weights);
    DotFront(d[2..], c, weights);
    assert [a] + ([b, c] + weights) == [a, b, c] + weights && [b] + ([c] + weights) == [b, c] + weights;
    assert d[1..][1..] == d[2..] && d[2..][1..] == d[3..];
  }

  lemma DotOfNine(d: Bytes)
    requires AllDigits(d) && |d| >= 9
    ensures Dot(d, WEIGHTS_9) ==
            2 * V(d, 0) + 4 * V(d, 1) + 10 * V(d, 2) + 3 * V(d, 3) + 5 * V(d, 4) + 9 * V(d, 5) + 4 * V(d, 6) +
            6 * V(d, 7) + 8 * V(d, 8)
  {
    hide Dot;
    DotOfThree(d, 2, 4, 10, [3, 5, 9, 4, 6, 8]);
    DotOfThree(d[3..], 3, 5, 9, [4, 6, 8]);
    DotOfThree(d[6..], 4, 6, 8, []);
    DotNothing(d[9..]);
    assert [2, 4, 10] + [3, 5, 9, 4, 6, 8] == WEIGHTS_9 && [3, 5, 9] + [4, 6, 8] == [3, 5, 9, 4, 6, 8];
    assert [4, 6, 8] + [] == [4, 6, 8];
    assert d[3..][3..] == d[6..] && d[6..][3..] == d[9..];
  }

  /** Ten digits pass exactly if the weighted sum of the first nine, modulo 11 and then
      modulo 10, is the last. */
  lemma TenDigitsCheck(d: Bytes)
    requires AllDigits(d) && |d| == 10
    ensures InnChecks(d) <==>
            (2 * V(d, 0) + 4 * V(d, 1) + 10 * V(d, 2) + 3 * V(d, 3) + 5 * V(d, 4) + 9 * V(d, 5) + 4 * V(d, 6) +
             6 * V(d, 7) + 8 * V(d, 8)) % 11 % 10 == V(d, 9)
  {
    hide Dot;
    DotOfNine(d);
  }

  /** Twelve digits pass exactly if the last but one checks the ten before it, and the
      last one all eleven. */
  lemma TwelveDigitsCheck(d: Bytes)
    requires AllDigits(d) && |d| == 12
    ensures InnChecks(d) <==>
            && (7 * V(d, 0) + 2 * V(d, 1) + 4 * V(d, 2) + 10 * V(d, 3) + 3 * V(d, 4) + 5 * V(d, 5) + 9 * V(d, 6) +
                4 * V(d, 7) + 6 * V(d, 8) + 8 * V(d, 9)) % 11 % 10 == V(d, 10)
            && (3 * V(d, 0) + 7 * V(d, 1) + 2 * V(d, 2) + 4 * V(d, 3) + 10 * V(d, 4) + 3 * V(d, 5) + 5 * V(d, 6) +
                9 * V(d, 7) + 4 * V(d, 8) + 6 * V(d, 9) + 8 * V(d, 10)) % 11 % 10 == V(d, 11)
  {
    hide Dot;
    assert WEIGHTS_10 == [7] + WEIGHTS_9 && WEIGHTS_11 == [3] + WEIGHTS_10;
    DotFront(d, 7, WEIGHTS_9);
    DotOfNine(d[1..]);
    DotFront(d, 3, WEIGHTS_10);
    DotFront(d[1..], 7, WEIGHTS_9);
    DotOfNine(d[1..][1..]);
  }

  /** No other length passes. */
  lemma OtherLengthsFail(d: Bytes)
    requires AllDigits(d) && InnChecks(d)
    ensures |d| == 10 || |d| == 12
  {
  }

  // ---- Slips of the pen -----------------------------------------------------------

  lemma Distributes(a: int, b: int, w: int)
    ensures a * w == b * w + (a - b) * w
  {
  }

  lemma {:induction false} DotAgrees(d: Bytes, e: Bytes, weights: seq<nat>)
    requires AllDigits(d) && AllDigits(e) && |weights| <= |d| && |weights| <= |e|
    requires forall i :: 0 <= i < |weights| ==> d[i] == e[i]
    ensures Dot(d, weights) == Dot(e, weights)
    decreases |weights|
  {
    if weights != [] {
      DotAgrees(d, e, weights[..|weights| - 1]);
    }
  }

  /** Changing a digit changes the sum by the weight of its place. */
  lemma {:induction false} DotAfterChange(d: Bytes, weights: seq<nat>, i: nat, x: Byte)
    requires AllDigits(d) && i < |weights| <= |d| && IsDigit(x)
    ensures AllDigits(d[i := x])
    ensures Dot(d[i := x], weights) == Dot(d, weights) + (x - d[i]) * weights[i]
    decreases |weights|
  {
    hide Dot;
    var n, e := |weights| - 1, d[i := x];
    DotStep(d, weights);
    DotStep(e, weights);
    if i < n {
      DotAfterChange(d, weights[..n], i, x);
      assert V(e, n) == V(d, n);
    } else {
      DotAgrees(d, e, weights[..n]);
      Distributes(V(e, n), V(d, n), weights[n]);
    }
  }

  /** No weight times a difference of digits is a multiple of eleven. */
  lemma NeverEleven(k: int, w: nat)
    requires -9 <= k <= 9 && k != 0 && 2 <= w <= 10
    ensures (k * w) % 11 != 0
  {
    match w
    case 2 =>
    case 3 =>
    case 4 =>
    case 5 =>
    case 6 =>
    case 7 =>
    case 8 =>
    case 9 =>
    case _ =>
  }

  /** Two sums with different remainders give the same check digit only if it is 0. */
  lemma SameCheckDigit(sum: nat, sum': nat, diff: int)
    requires sum' == sum + diff && diff % 11 != 0 && sum % 11 % 10 == sum' % 11 % 10
    ensures sum % 11 % 10 == 0
  {
  }

  lemma SlipInSum(d: Bytes, weights: seq<nat>, i: nat, x: Byte)
    requires AllDigits(d) && i < |weights| <= |d| && IsDigit(x) && x != d[i]
    requires forall j :: 0 <= j < |weights| ==> 2 <= weights[j] <= 10
    ensures AllDigits(d[i := x])
    ensures Dot(d[i := x], weights) % 11 % 10 == Dot(d, weights) % 11 % 10 ==> Dot(d, weights) % 11 % 10 == 0
  {
    hide Dot;
    DotAfterChange(d, weights, i, x);
    NeverEleven(x - d[i], weights[i]);
    if Dot(d[i := x], weights) % 11 % 10 == Dot(d, weights) % 11 % 10 {
      SameCheckDigit(Dot(d, weights), Dot(d[i := x], weights), (x - d[i]) * weights[i]);
    }
  }

  /** Changing one digit of a valid tax number is always detected, unless its check
      digits are zero and the changed digit is none of them. */
  lemma SlipIsDetected(d: Bytes, i: nat, x: Byte)
    requires AllDigits(d) && InnChecks(d) && i < |d| && IsDigit(x) && x != d[i]
    ensures AllDigits(d[i := x])
    ensures InnChecks(d[i := x]) ==>
              if |d| == 10 then i < 9 && d[9] == 48 else i < 10 && d[10] == 48 && d[11] == 48
  {
    hide Dot;
    var e := d[i := x];
    if |d| == 10 {
      if i < 9 {
        SlipInSum(d, WEIGHTS_9, i, x);
      } else {
        DotAgrees(d, e, WEIGHTS_9);
      }
    } else {
      if i < 10 {
        SlipInSum(d, WEIGHTS_10, i, x);
        SlipInSum(d, WEIGHTS_11, i, x);
      } else {
        DotAgrees(d, e, WEIGHTS_10);
        if i == 11 {
          DotAgrees(d, e, WEIGHTS_11);
        }
      }
    }
  }

  // ---- Windows ----------------------------------------------------------------------

  /** A character may begin or the text end here. */
  predicate Edge(text: Bytes, i: int)
    requires 0 <= i <= |text|
  {
    i == |text| || text[i] < 128 || text[i] >= 192
  }

  /** No semicolon, newline or carriage return between these offsets. */
  ghost predicate OneField(text: Bytes, a: int, b: int)
    requires 0 <= a && b <= |text|
  {
    forall i :: a <= i < b ==> text[i] != 59 && text[i] != 10 && text[i] != 13
  }

  ghost predicate OpensWindow(text: Bytes, start: nat, lo: int)
    requires start <= |text|
  {
    && 0 <= lo <= start <= lo + 60 && Edge(text, lo) && OneField(text, lo, start)
  }

  ghost predicate ClosesWindow(text: Bytes, end: nat, hi: int)
    requires end <= |text|
  {
    && 0 <= hi <= |text| && hi <= end + 60 && Edge(text, hi) && OneField(text, end, hi)
  }

  /** The window around a span is the widest one that begins and ends at a character, at
      most 60 bytes from the span and in the same field. */
  lemma WindowIsWidest(text: Bytes, start: nat, end: nat) returns (lo: nat, hi: nat)
    requires IsSpan(text, start, end)
    ensures OpensWindow(text, start, lo) && forall l :: OpensWindow(text, start, l) ==> lo <= l
    ensures ClosesWindow(text, end, hi) && forall h :: ClosesWindow(text, end, h) ==> h <= hi
    ensures lo <= start && end - 1 <= hi && Window(text, start, end) == text[lo..hi]
  {
    hide FieldStart, FieldEnd, SnapUp;
    WindowHoldsSpan(text, start, end);
    lo, hi := WindowStart(text, start), WindowEnd(text, end);
    assert FieldStart(text, start) > 0 ==> Delimits(text[FieldStart(text, start) - 1]);
    assert FieldEnd(text, end) < |text| ==> Delimits(text[FieldEnd(text, end)]);
  }

  // ---- Fragments --------------------------------------------------------------------

  /** Some of these words stands in the window around the span. */
  ghost predicate Near(lex: Lexicon, text: Bytes, start: nat, end: nat, words: seq<Bytes>) {
    IsSpan(text, start, end) && exists w :: w in words && lex.word(Window(text, start, end), w)
  }

  lemma {:induction false} FoundMembers(lex: Lexicon, rule: Rule, text: Bytes, spans: seq<Span>, f: Fragment)
    requires SpansOf(text, spans)
    ensures f in Found(lex, rule, text, spans) <==>
            exists i :: 0 <= i < |spans| && f in Judged(lex, rule, text, spans[i])
    decreases |spans|
  {
    hide Judged;
    if spans != [] {
      var n := |spans| - 1;
      FoundMembers(lex, rule, text, spans[..n], f);
      if f in Found(lex, rule, text, spans[..n]) {
        var i :| 0 <= i < n && f in Judged(lex, rule, text, spans[..n][i]);
        assert spans[i] == spans[..n][i];
      }
      if i :| 0 <= i < |spans| && f in Judged(lex, rule, text, spans[i]) {
        assert i < n ==> spans[..n][i] == spans[i];
      }
    }
  }

  ghost predicate IsSpanOf(text: Bytes, marks: Bytes, sp: Span) {
    sp in Spans(text, marks)
  }

  /** A fragment is found exactly for a span that the rule judges so. */
  lemma FoundForSpan(lex: Lexicon, rule: Rule, text: Bytes, f: Fragment)
    ensures f in FindAll(lex, rule, text) <==>
            exists sp :: IsSpanOf(text, Structural(rule), sp) && SpanOf(text, sp) && f in Judged(lex, rule, text, sp)
  {
    hide Judged, Found, Spans, SpanOf;
    var spans := Spans(text, Structural(rule));
    SpansAreSpans(text, Structural(rule));
    FoundMembers(lex, rule, text, spans, f);
    if sp :| IsSpanOf(text, Structural(rule), sp) && SpanOf(text, sp) && f in Judged(lex, rule, text, sp) {
      var i :| 0 <= i < |spans| && spans[i] == sp;
    }
    if i :| 0 <= i < |spans| && f in Judged(lex, rule, text, spans[i]) {
      assert IsSpanOf(text, Structural(rule), spans[i]);
    }
  }

  /** The span is f, and no negative word is near. */
  ghost predicate Stands(lex: Lexicon, typ: Type, text: Bytes, sp: Span, f: Fragment) {
    f == Fragment(typ, sp.start, sp.end) && !Near(lex, text, sp.start, sp.end, lex.negative)
  }

  lemma IsJudgeable(text: Bytes, marks: Bytes, sp: Span)
    requires IsSpanOf(text, marks, sp)
    ensures SpanOf(text, sp)
  {
    hide Spans, SpanOf;
    SpansAreSpans(text, marks);
    var spans := Spans(text, marks);
    var i :| 0 <= i < |spans| && spans[i] == sp;
  }

  /** Cards: 13 to 19 digits in a span of digits, hyphens and spaces, that pass the check
      or have a keyword near. */
  lemma CardsAreExact(lex: Lexicon, typ: Type, keywords: seq<Bytes>, text: Bytes, f: Fragment)
    ensures f in FindAll(lex, CardRule(typ, keywords), text) <==>
            exists sp :: IsSpanOf(text, [45, 32], sp) && AllDigits(sp.digits) && 13 <= |sp.digits| <= 19 &&
                         (PairSum(sp.digits) % 10 == 0 || Near(lex, text, sp.start, sp.end, keywords)) &&
                         Stands(lex, typ, text, sp, f)
  {
    hide IsSpanOf, Window, FindAll, PairSum, Checks;
    FoundForSpan(lex, CardRule(typ, keywords), text, f);
    forall sp | IsSpanOf(text, DASHES, sp)
      ensures SpanOf(text, sp) && (Checks(sp.digits) <==> PairSum(sp.digits) % 10 == 0)
    {
      IsJudgeable(text, DASHES, sp);
      ChecksByPairs(sp.digits);
    }
  }

  /** Tax numbers: digits that pass the check above, or 10 or 12 of any kind with a
      keyword near. */
  lemma TaxNumbersAreExact(lex: Lexicon, typ: Type, keywords: seq<Bytes>, text: Bytes, f: Fragment)
    ensures f in FindAll(lex, InnRule(typ, keywords), text) <==>
            exists sp :: IsSpanOf(text, [45, 32], sp) && AllDigits(sp.digits) &&
                         (InnChecks(sp.digits) ||
                          (|sp.digits| in {10, 12} && Near(lex, text, sp.start, sp.end, keywords))) &&
                         Stands(lex, typ, text, sp, f)
  {
    hide IsSpanOf, Window, FindAll, Dot;
    FoundForSpan(lex, InnRule(typ, keywords), text, f);
    forall sp | IsSpanOf(text, DASHES, sp) ensures SpanOf(text, sp) {
      IsJudgeable(text, DASHES, sp);
    }
  }

  /** Department codes: six digits and a hyphen, with a keyword near. */
  lemma DepartmentCodesAreExact(lex: Lexicon, typ: Type, keywords: seq<Bytes>, text: Bytes, f: Fragment)
    ensures f in FindAll(lex, DepartmentRule(typ, keywords), text) <==>
            exists sp :: IsSpanOf(text, [45, 32], sp) && |sp.digits| == 6 && sp.start <= sp.end <= |text| &&
                         45 in text[sp.start..sp.end] && Near(lex, text, sp.start, sp.end, keywords) &&
                         Stands(lex, typ, text, sp, f)
  {
    hide IsSpanOf, Window, FindAll;
    FoundForSpan(lex, DepartmentRule(typ, keywords), text, f);
    forall sp | IsSpanOf(text, DASHES, sp) ensures SpanOf(text, sp) {
      IsJudgeable(text, DASHES, sp);
    }
  }

  /** Short numbers: so many digits, with a keyword near. */
  lemma SignedNumbersAreExact(lex: Lexicon, typ: Type, marks: Bytes, length: nat, keywords: seq<Bytes>, text: Bytes,
                              f: Fragment)
    ensures f in FindAll(lex, Signed(typ, marks, length, keywords), text) <==>
            exists sp :: IsSpanOf(text, marks, sp) && |sp.digits| == length &&
                         Near(lex, text, sp.start, sp.end, keywords) && Stands(lex, typ, text, sp, f)
  {
    hide IsSpanOf, Window, FindAll;
    FoundForSpan(lex, Signed(typ, marks, length, keywords), text, f);
    forall sp | IsSpanOf(text, marks, sp) ensures SpanOf(text, sp) {
      IsJudgeable(text, marks, sp);
    }
  }

  /** A plus sign right before the span. */
  ghost predicate AfterPlus(text: Bytes, sp: Span) {
    0 < sp.start <= |text| && text[sp.start - 1] == 43
  }

  /** Phones: eleven digits in a span of digits and "+()- ". After a plus sign, which then
      belongs to the fragment, the first one is a 7; without it, an 8, or a 7 with a
      keyword near. */
  lemma PhonesAreExact(lex: Lexicon, typ: Type, keywords: seq<Bytes>, text: Bytes, f: Fragment)
    ensures f in FindAll(lex, PhoneRule(typ, keywords), text) <==>
            exists sp :: IsSpanOf(text, [43, 40, 41, 45, 32], sp) && |sp.digits| == 11 &&
                         f == Fragment(typ, if AfterPlus(text, sp) then sp.start - 1 else sp.start, sp.end) &&
                         (if AfterPlus(text, sp) then sp.digits[0] == 55
                          else sp.digits[0] == 56 ||
                               (sp.digits[0] == 55 && Near(lex, text, sp.start, sp.end, keywords))) &&
                         0 <= f.start && 0 <= f.end && !Near(lex, text, f.start, f.end, lex.negative)
  {
    hide IsSpanOf, Window, FindAll;
    FoundForSpan(lex, PhoneRule(typ, keywords), text, f);
    forall sp | IsSpanOf(text, PHONE_MARKS, sp) ensures SpanOf(text, sp) {
      IsJudgeable(text, PHONE_MARKS, sp);
    }
  }

  // ---- Order ------------------------------------------------------------------------

  ghost predicate InOrder(frags: seq<Fragment>) {
    forall i, j :: 0 <= i < j < |frags| ==> frags[i].end <= frags[j].start
  }

  lemma {:induction false} FoundInOrder(lex: Lexicon, rule: Rule, text: Bytes, spans: seq<Span>)
    requires SpansOf(text, spans) && forall i, j :: 0 <= i < j < |spans| ==> spans[i].end <= spans[j].start
    ensures InOrder(Found(lex, rule, text, spans))
    ensures forall f :: f in Found(lex, rule, text, spans) ==>
              exists sp :: sp in spans && f in Judged(lex, rule, text, sp)
    decreases |spans|
  {
    hide Judged;
    if spans != [] {
      var n := |spans| - 1;
      FoundInOrder(lex, rule, text, spans[..n]);
      var before, last := Found(lex, rule, text, spans[..n]), Judged(lex, rule, text, spans[n]);
      forall f, g | f in before && g in last ensures f.end <= g.start {
        var sp :| sp in spans[..n] && f in Judged(lex, rule, text, sp);
        JudgedInOrder(lex, rule, text, sp, spans[n], f, g);
      }
      JudgedOnce(lex, rule, text, spans[n]);
      forall f | f in before + last ensures exists sp :: sp in spans && f in Judged(lex, rule, text, sp) {
        if f in last {
          assert spans[n] in spans;
        }
      }
    }
  }

  lemma JudgedOnce(lex: Lexicon, rule: Rule, text: Bytes, sp: Span)
    requires SpanOf(text, sp)
    ensures |Judged(lex, rule, text, sp)| <= 1
  {
    hide Accepts, Signals;
  }

  lemma JudgedInOrder(lex: Lexicon, rule: Rule, text: Bytes, sp: Span, sp': Span, f: Fragment, g: Fragment)
    requires SpanOf(text, sp) && SpanOf(text, sp') && sp.end <= sp'.start
    requires f in Judged(lex, rule, text, sp) && g in Judged(lex, rule, text, sp')
    ensures f.end <= g.start
  {
    hide Accepts, Signals;
  }

  /** The fragments are found from left to right and never overlap, so each once. */
  lemma FoundFromLeftToRight(lex: Lexicon, rule: Rule, text: Bytes)
    ensures InOrder(FindAll(lex, rule, text))
    ensures forall f :: f in FindAll(lex, rule, text) ==> f.typ == rule.typ && 0 <= f.start < f.end <= |text|
  {
    hide Spans, Found, Accepts, Signals;
    SpansAreSpans(text, Structural(rule));
    SpansAreMaximal(text, Structural(rule));
    FoundInOrder(lex, rule, text, Spans(text, Structural(rule)));
  }
}
