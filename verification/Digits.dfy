/** The digit recognizers: cards, tax numbers, phones, department codes, and the
    short numbers that need a context word. */
module DigitRecognizers {
  import opened Bytes
  import opened Decimal
  import opened Scanning
  import opened Checksum
  import opened Resolving

  // ---- Rules --------------------------------------------------------------------

  /** The recognizers built on digit spans, with their context keywords. */
  datatype Rule =
    | Signed(typ: Type, structural: Bytes, length: nat, keywords: seq<Bytes>)
    | CardRule(typ: Type, keywords: seq<Bytes>)
    | InnRule(typ: Type, keywords: seq<Bytes>)
    | PhoneRule(typ: Type, keywords: seq<Bytes>)
    | DepartmentRule(typ: Type, keywords: seq<Bytes>)

  /** The word test, and the words near which no number is masked. */
  datatype Lexicon = Lexicon(word: WordTest, negative: seq<Bytes>)

  const PLUS: Byte := 43
  const HYPHEN: Byte := 45
  const SPACE: Byte := 32
  const SEVEN: Byte := 55
  const EIGHT: Byte := 56

  /** "- " and "+()- ". */
  const DASHES: Bytes := [HYPHEN, SPACE]
  const PHONE_MARKS: Bytes := [PLUS, 40, 41, HYPHEN, SPACE]

  function Structural(rule: Rule): Bytes {
    match rule
    case Signed(_, structural, _, _) => structural
    case PhoneRule(_, _) => PHONE_MARKS
    case _ => DASHES
  }

  // ---- The check of a tax number ------------------------------------------------

  function Dot(d: Bytes, weights: seq<nat>): nat
    requires |weights| <= |d| && AllDigits(d)
  {
    if weights == [] then 0
    else Dot(d, weights[..|weights| - 1]) + (d[|weights| - 1] - 48) * weights[|weights| - 1]
  }

  method InnCheck(d: Bytes, weights: seq<nat>) returns (r: nat)
    requires |weights| <= |d| && AllDigits(d)
    ensures r == Dot(d, weights) % 11 % 10
  {
    var sum := 0;
    for i := 0 to |weights|
      invariant sum == Dot(d, weights[..i])
    {
      assert weights[..i + 1][..i] == weights[..i];
      sum := sum + (d[i] - 48) * weights[i];
    }
    assert weights[..|weights|] == weights;
    r := sum % 11 % 10;
  }

  const WEIGHTS_9: seq<nat> := [2, 4, 10, 3, 5, 9, 4, 6, 8]
  const WEIGHTS_10: seq<nat> := [7, 2, 4, 10, 3, 5, 9, 4, 6, 8]
  const WEIGHTS_11: seq<nat> := [3, 7, 2, 4, 10, 3, 5, 9, 4, 6, 8]

  predicate InnChecks(d: Bytes)
    requires AllDigits(d)
  {
    if |d| == 10 then Dot(d, WEIGHTS_9) % 11 % 10 == d[9] - 48
    else
      |d| == 12 && Dot(d, WEIGHTS_10) % 11 % 10 == d[10] - 48 && Dot(d, WEIGHTS_11) % 11 % 10 == d[11] - 48
  }

  method ValidINN(d: Bytes) returns (ok: bool)
    requires AllDigits(d)
    ensures ok == InnChecks(d)
  {
    if |d| == 10 {
      var r := InnCheck(d, WEIGHTS_9);
      return r == d[9] - 48;
    }
    if |d| == 12 {
      var r := InnCheck(d, WEIGHTS_10);
      if r != d[10] - 48 {
        return false;
      }
      r := InnCheck(d, WEIGHTS_11);
      return r == d[11] - 48;
    }
    ok := false;
  }

  // ---- What a rule makes of a span ------------------------------------------------

  /** A span as `scanSpans` returns it: a digit at either edge. */
  ghost predicate SpanOf(text: Bytes, sp: Span) {
    && sp.start < sp.end <= |text| && IsDigit(text[sp.start]) && IsDigit(text[sp.end - 1])
    && AllDigits(sp.digits)
  }

  /** The start of a phone: a leading plus sign belongs to it. */
  function PhoneStart(text: Bytes, start: nat): nat
    requires start <= |text|
  {
    if start > 0 && text[start - 1] == PLUS then start - 1 else start
  }

  ghost predicate Signals(lex: Lexicon, text: Bytes, start: nat, end: nat, keywords: seq<Bytes>)
    requires IsSpan(text, start, end)
  {
    InContext(lex.word, text, start, end, keywords)
  }

  ghost predicate Accepts(lex: Lexicon, rule: Rule, text: Bytes, sp: Span)
    requires SpanOf(text, sp)
  {
    var d := sp.digits;
    match rule
    case Signed(_, _, length, keywords) => |d| == length && Signals(lex, text, sp.start, sp.end, keywords)
    case CardRule(_, keywords) =>
      13 <= |d| <= 19 && (Checks(d) || Signals(lex, text, sp.start, sp.end, keywords))
    case InnRule(_, keywords) =>
      (|d| == 10 || |d| == 12) && (InnChecks(d) || Signals(lex, text, sp.start, sp.end, keywords))
    case DepartmentRule(_, keywords) =>
      |d| == 6 && HYPHEN in text[sp.start..sp.end] && Signals(lex, text, sp.start, sp.end, keywords)
    case PhoneRule(_, keywords) =>
      var start := PhoneStart(text, sp.start);
      |d| == 11 &&
      if start < sp.start then d[0] == SEVEN
      else d[0] == EIGHT || (d[0] == SEVEN && Signals(lex, text, start, sp.end, keywords))
  }

  function StartOf(rule: Rule, text: Bytes, sp: Span): nat
    requires sp.start <= |text|
  {
    if rule.PhoneRule? then PhoneStart(text, sp.start) else sp.start
  }

  /** The fragment for a span, if the rule accepts it and no negative word is near. */
  ghost function Judged(lex: Lexicon, rule: Rule, text: Bytes, sp: Span): seq<Fragment>
    requires SpanOf(text, sp)
  {
    var start := StartOf(rule, text, sp);
    if Accepts(lex, rule, text, sp) && !Signals(lex, text, start, sp.end, lex.negative)
    then [Fragment(rule.typ, start, sp.end)]
    else []
  }

  ghost predicate SpansOf(text: Bytes, spans: seq<Span>) {
    forall i :: 0 <= i < |spans| ==> SpanOf(text, spans[i])
  }

  ghost function Found(lex: Lexicon, rule: Rule, text: Bytes, spans: seq<Span>): seq<Fragment>
    requires SpansOf(text, spans)
  {
    if spans == [] then []
    else Found(lex, rule, text, spans[..|spans| - 1]) + Judged(lex, rule, text, spans[|spans| - 1])
  }

  lemma RunSpanIsSpan(text: Bytes, at: nat, i: nat)
    requires at <= i <= |text|
    ensures SpansOf(text, RunSpan(text[at..i], at))
  {
    var run := text[at..i];
    assert forall j :: 0 <= j < |run| ==> run[j] == text[at + j];
    if FirstDigit(run) < |run| {
      assert LastDigit(run) > FirstDigit(run);
    }
  }

  lemma {:induction false} SpansFromAreSpans(text: Bytes, structural: Bytes, at: nat)
    requires at <= |text|
    ensures SpansOf(text, SpansFrom(text[at..], structural, at))
    decreases |text| - at
  {
    hide SpanOf, RunSpan;
    var s := text[at..];
    if s != [] {
      if !InSpan(s[0], structural) {
        SpansFromAreSpans(text, structural, at + 1);
        assert s[1..] == text[at + 1..];
      } else {
        var n := RunLength(s, structural);
        assert s[..n] == text[at..at + n] && s[n..] == text[at + n..];
        RunSpanIsSpan(text, at, at + n);
        SpansFromAreSpans(text, structural, at + n);
      }
    }
  }

  lemma SpansAreSpans(text: Bytes, structural: Bytes)
    ensures SpansOf(text, Spans(text, structural))
  {
    hide SpansFrom, SpansOf;
    SpansFromAreSpans(text, structural, 0);
    assert text[0..] == text;
  }

  ghost function FindAll(lex: Lexicon, rule: Rule, text: Bytes): seq<Fragment> {
    SpansAreSpans(text, Structural(rule));
    Found(lex, rule, text, Spans(text, Structural(rule)))
  }

  // ---- The recognizers ------------------------------------------------------------

  lemma FoundOneMore(lex: Lexicon, rule: Rule, text: Bytes, spans: seq<Span>, k: nat)
    requires SpansOf(text, spans) && k < |spans|
    ensures Found(lex, rule, text, spans[..k + 1]) ==
            Found(lex, rule, text, spans[..k]) + Judged(lex, rule, text, spans[k])
  {
    hide Judged;
    assert spans[..k + 1][..k] == spans[..k];
  }

  method FindContextSigned(lex: Lexicon, rule: Rule, text: Bytes) returns (frags: seq<Fragment>)
    requires rule.Signed?
    ensures frags == FindAll(lex, rule, text)
  {
    hide Found, InContext, FieldStart, FieldEnd, Spans;
    var spans := ScanSpans(text, rule.structural);
    SpansAreSpans(text, rule.structural);
    frags := [];
    FoundNothing(lex, rule, text, spans);
    for k := 0 to |spans|
      invariant frags == Found(lex, rule, text, spans[..k])
    {
      FoundOneMore(lex, rule, text, spans, k);
      var sp := spans[k];
      if |sp.digits| != rule.length {
        continue;
      }
      var signed := HasContext(lex.word, text, sp.start, sp.end, rule.keywords);
      if !signed {
        continue;
      }
      var negative := HasContext(lex.word, text, sp.start, sp.end, lex.negative);
      if negative {
        continue;
      }
      frags := frags + [Fragment(rule.typ, sp.start, sp.end)];
    }
    assert spans[..|spans|] == spans;
  }

  lemma FoundNothing(lex: Lexicon, rule: Rule, text: Bytes, spans: seq<Span>)
    ensures spans[..0] == [] && Found(lex, rule, text, []) == []
  {
  }

  method FindCards(lex: Lexicon, rule: Rule, text: Bytes) returns (frags: seq<Fragment>)
    requires rule.CardRule?
    ensures frags == FindAll(lex, rule, text)
  {
    hide Found, InContext, FieldStart, FieldEnd, Spans, Checks;
    var spans := ScanSpans(text, DASHES);
    SpansAreSpans(text, DASHES);
    frags := [];
    FoundNothing(lex, rule, text, spans);
    for k := 0 to |spans|
      invariant frags == Found(lex, rule, text, spans[..k])
    {
      FoundOneMore(lex, rule, text, spans, k);
      var sp := spans[k];
      var d := sp.digits;
      if |d| < 13 || |d| > 19 {
        continue;
      }
      var ok := Luhn(d);
      if !ok {
        var signed := HasContext(lex.word, text, sp.start, sp.end, rule.keywords);
        if !signed {
          continue;
        }
      }
      var negative := HasContext(lex.word, text, sp.start, sp.end, lex.negative);
      if negative {
        continue;
      }
      frags := frags + [Fragment(rule.typ, sp.start, sp.end)];
    }
    assert spans[..|spans|] == spans;
  }

  method FindINNs(lex: Lexicon, rule: Rule, text: Bytes) returns (frags: seq<Fragment>)
    requires rule.InnRule?
    ensures frags == FindAll(lex, rule, text)
  {
    hide Found, InContext, FieldStart, FieldEnd, Spans, InnChecks;
    var spans := ScanSpans(text, DASHES);
    SpansAreSpans(text, DASHES);
    frags := [];
    FoundNothing(lex, rule, text, spans);
    for k := 0 to |spans|
      invariant frags == Found(lex, rule, text, spans[..k])
    {
      FoundOneMore(lex, rule, text, spans, k);
      var sp := spans[k];
      var d := sp.digits;
      if |d| != 10 && |d| != 12 {
        continue;
      }
      var ok := ValidINN(d);
      if !ok {
        var signed := HasContext(lex.word, text, sp.start, sp.end, rule.keywords);
        if !signed {
          continue;
        }
      }
      var negative := HasContext(lex.word, text, sp.start, sp.end, lex.negative);
      if negative {
        continue;
      }
      frags := frags + [Fragment(rule.typ, sp.start, sp.end)];
    }
    assert spans[..|spans|] == spans;
  }

  method FindDepartmentCodes(lex: Lexicon, rule: Rule, text: Bytes) returns (frags: seq<Fragment>)
    requires rule.DepartmentRule?
    ensures frags == FindAll(lex, rule, text)
  {
    hide Found, InContext, FieldStart, FieldEnd, Spans;
    var spans := ScanSpans(text, DASHES);
    SpansAreSpans(text, DASHES);
    frags := [];
    FoundNothing(lex, rule, text, spans);
    for k := 0 to |spans|
      invariant frags == Found(lex, rule, text, spans[..k])
    {
      FoundOneMore(lex, rule, text, spans, k);
      var sp := spans[k];
      if |sp.digits| != 6 {
        continue;
      }
      if HYPHEN !in text[sp.start..sp.end] {
        continue;
      }
      var signed := HasContext(lex.word, text, sp.start, sp.end, rule.keywords);
      if !signed {
        continue;
      }
      var negative := HasContext(lex.word, text, sp.start, sp.end, lex.negative);
      if negative {
        continue;
      }
      frags := frags + [Fragment(rule.typ, sp.start, sp.end)];
    }
    assert spans[..|spans|] == spans;
  }

  method FindPhones(lex: Lexicon, rule: Rule, text: Bytes) returns (frags: seq<Fragment>)
    requires rule.PhoneRule?
    ensures frags == FindAll(lex, rule, text)
  {
    hide Found, InContext, FieldStart, FieldEnd, Spans;
    var spans := ScanSpans(text, PHONE_MARKS);
    SpansAreSpans(text, PHONE_MARKS);
    frags := [];
    FoundNothing(lex, rule, text, spans);
    for k := 0 to |spans|
      invariant frags == Found(lex, rule, text, spans[..k])
    {
      FoundOneMore(lex, rule, text, spans, k);
      var sp := spans[k];
      var d := sp.digits;
      if |d| != 11 || (d[0] != SEVEN && d[0] != EIGHT) {
        continue;
      }
      var start := sp.start;
      if start > 0 && text[start - 1] == PLUS {
        start := start - 1;
      }
      var raw := text[start..sp.end];
      var hasPlus := raw[0] == PLUS;
      if hasPlus && d[0] != SEVEN {
        continue;
      }
      if !hasPlus && d[0] != EIGHT {
        var signed := HasContext(lex.word, text, start, sp.end, rule.keywords);
        if !signed {
          continue;
        }
      }
      var negative := HasContext(lex.word, text, start, sp.end, lex.negative);
      if negative {
        continue;
      }
      frags := frags + [Fragment(rule.typ, start, sp.end)];
    }
    assert spans[..|spans|] == spans;
  }
}
