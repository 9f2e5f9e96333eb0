/** Recolouring one line (`highlightBlock`): each rule in order scans the
    line for successive non-overlapping matches and paints each one with the
    rule's style; later paint overwrites earlier paint. */
module Recolor {
  import opened Wrappers
  import opened Text
  import opened Patterns
  import opened Rules

  /** One match found by the scan: the half-open range [start, start + len). */
  datatype Match = Match(start: nat, len: nat) {
    function End(): nat { start + len }
  }

  /** One `setFormat(start, len, style)` call. */
  datatype Span = Span(start: nat, len: nat, style: Style)

  predicate Covers(s: Span, i: int) {
    s.start <= i < s.start + s.len
  }

  /** The inner loop of `highlightBlock` for one pattern, over the table
      of anchored matches: search from `from`, record the match, resume the
      search where the match ends. */
  function ScanFrom(t: seq<Option<nat>>, from: nat): (ms: seq<Match>)
    requires Advancing(t) && from <= |t|
    ensures ms == [] <==> Find(t, from).None?
    ensures |ms| + from <= |t|
    decreases |t| - from
  {
    match Find(t, from)
    case None => []
    case Some(p) => [Match(p, t[p].value)] + ScanFrom(t, p + t[p].value)
  }

  /** The matches one pattern's loop records on a line, searching from
      `from`. `ScanMatches` states what they are. */
  function Scan(text: string, pat: Pattern, from: nat): (ms: seq<Match>)
    requires from <= |text|
    requires WellFormed(pat)
    ensures |ms| + from <= |text| + 1
  {
    MatchesAdvance(text, pat);
    ScanFrom(Matches(text, pat), from)
  }

  /** One step of the scan: the first recorded match is the one the search
      finds, and the scan resumes where it ends. */
  lemma {:induction false} ScanStep(t: seq<Option<nat>>, from: nat) returns (p: nat, len: nat)
    requires Advancing(t) && from <= |t|
    requires ScanFrom(t, from) != []
    ensures Find(t, from) == Some(p) && t[p] == Some(len)
    ensures from <= p && 1 <= len && p + len < |t|
    ensures ScanFrom(t, from) == [Match(p, len)] + ScanFrom(t, p + len)
  {
    p := Find(t, from).value;
    len := t[p].value;
  }

  /** Every recorded match is a non-empty match found at or after the
      starting offset. */
  lemma {:induction false} ScanElement(t: seq<Option<nat>>, from: nat, i: nat)
    requires Advancing(t) && from <= |t|
    requires i < |ScanFrom(t, from)|
    ensures from <= ScanFrom(t, from)[i].start < |t|
    ensures t[ScanFrom(t, from)[i].start] == Some(ScanFrom(t, from)[i].len)
    decreases |t| - from
  {
    var p, len := ScanStep(t, from);
    if i > 0 {
      ScanElement(t, p + len, i - 1);
      assert ScanFrom(t, from)[i] == ScanFrom(t, p + len)[i - 1];
    }
  }

  /** Each recorded match ends at or before the next one starts. */
  lemma {:induction false} ScanOrdered(t: seq<Option<nat>>, from: nat, i: nat)
    requires Advancing(t) && from <= |t|
    requires i + 1 < |ScanFrom(t, from)|
    ensures ScanFrom(t, from)[i].End() <= ScanFrom(t, from)[i + 1].start
    decreases |t| - from
  {
    var p, len := ScanStep(t, from);
    var rest := ScanFrom(t, p + len);
    if i == 0 {
      ScanElement(t, p + len, 0);
      assert ScanFrom(t, from)[1] == rest[0];
    } else {
      ScanOrdered(t, p + len, i - 1);
      assert ScanFrom(t, from)[i] == rest[i - 1];
      assert ScanFrom(t, from)[i + 1] == rest[i];
    }
  }

  /** Any two recorded matches, taken in order, are disjoint. */
  lemma {:induction false} ScanDisjoint(t: seq<Option<nat>>, from: nat, i: nat, j: nat)
    requires Advancing(t) && from <= |t|
    requires i < j < |ScanFrom(t, from)|
    ensures ScanFrom(t, from)[i].End() <= ScanFrom(t, from)[j].start
    decreases j - i
  {
    ScanOrdered(t, from, j - 1);
    if i < j - 1 {
      ScanDisjoint(t, from, i, j - 1);
      var m := ScanFrom(t, from)[j - 1];
      ScanElement(t, from, j - 1);
      assert 1 <= m.len;
    }
  }

  /** The recorded match that contains a position where the pattern
      matches. */
  lemma {:induction false} ScanMatchIndex(t: seq<Option<nat>>, from: nat, q: nat) returns (j: nat)
    requires Advancing(t) && from <= q < |t|
    requires t[q].Some?
    ensures j < |ScanFrom(t, from)|
    ensures ScanFrom(t, from)[j].start <= q < ScanFrom(t, from)[j].End()
    decreases |t| - from
  {
    FindNotAfter(t, from, q);
    var p, len := ScanStep(t, from);
    var ms := ScanFrom(t, from);
    if q < p + len {
      j := 0;
      assert ms[0] == Match(p, len);
    } else {
      var k := ScanMatchIndex(t, p + len, q);
      j := k + 1;
      assert ms[j] == ScanFrom(t, p + len)[k];
    }
  }

  /** Recorded match `i` of a line: a non-empty match of the pattern inside
      the line, at or after the starting offset. */
  lemma {:induction false} ScanMatch(text: string, pat: Pattern, from: nat, i: nat)
    requires from <= |text| && WellFormed(pat)
    requires i < |Scan(text, pat, from)|
    ensures var m := Scan(text, pat, from)[i];
      && from <= m.start && 1 <= m.len && m.End() <= |text|
      && MatchAt(text, m.start, pat) == Some(m.len)
  {
    MatchesAdvance(text, pat);
    var t := Matches(text, pat);
    var m := ScanFrom(t, from)[i];
    ScanElement(t, from, i);
    MatchesAt(text, pat, m.start);
  }

  /** The scan's matches, all together: non-empty matches of the pattern
      inside the line, in strictly increasing order and pairwise disjoint. */
  lemma {:induction false} ScanMatches(text: string, pat: Pattern, from: nat)
    requires from <= |text| && WellFormed(pat)
    ensures var ms := Scan(text, pat, from);
      forall i :: 0 <= i < |ms| ==>
        && from <= ms[i].start && 1 <= ms[i].len && ms[i].End() <= |text|
        && MatchAt(text, ms[i].start, pat) == Some(ms[i].len)
    ensures var ms := Scan(text, pat, from);
      forall i, j :: 0 <= i < j < |ms| ==> ms[i].End() <= ms[j].start
  {
    MatchesAdvance(text, pat);
    var ms := Scan(text, pat, from);
    forall i | 0 <= i < |ms|
      ensures from <= ms[i].start && 1 <= ms[i].len && ms[i].End() <= |text|
      ensures MatchAt(text, ms[i].start, pat) == Some(ms[i].len)
    {
      ScanMatch(text, pat, from, i);
    }
    forall i, j | 0 <= i < j < |ms| ensures ms[i].End() <= ms[j].start {
      ScanDisjoint(Matches(text, pat), from, i, j);
    }
  }

  /** Some recorded match contains position `q`. */
  ghost predicate InSomeMatch(ms: seq<Match>, q: int) {
    exists i :: 0 <= i < |ms| && ms[i].start <= q < ms[i].End()
  }

  /** The recorded match of a line that contains a position where the
      pattern matches. */
  lemma {:induction false} ScanCovers(text: string, pat: Pattern, from: nat, q: nat) returns (j: nat)
    requires from <= q <= |text| && WellFormed(pat)
    requires MatchAt(text, q, pat).Some?
    ensures j < |Scan(text, pat, from)|
    ensures Scan(text, pat, from)[j].start <= q < Scan(text, pat, from)[j].End()
  {
    MatchesAdvance(text, pat);
    MatchesAt(text, pat, q);
    j := ScanMatchIndex(Matches(text, pat), from, q);
  }

  /** The scan skips no match except one that starts inside an earlier
      match: every position where the pattern matches lies in some
      recorded match. */
  lemma {:induction false} ScanCoversEveryMatch(text: string, pat: Pattern, from: nat, q: nat)
    requires from <= q <= |text|
    requires WellFormed(pat)
    requires MatchAt(text, q, pat).Some?
    ensures InSomeMatch(Scan(text, pat, from), q)
  {
    var j := ScanCovers(text, pat, from, q);
  }

  /** The scan's first match is the leftmost position at or after the
      starting offset where the pattern matches. */
  lemma {:induction false} ScanFirst(text: string, pat: Pattern, from: nat, q: nat)
    requires from <= q <= |text| && WellFormed(pat)
    requires Scan(text, pat, from) == [] || q < Scan(text, pat, from)[0].start
    ensures MatchAt(text, q, pat).None?
  {
    MatchesAdvance(text, pat);
    var t := Matches(text, pat);
    if ScanFrom(t, from) != [] {
      var p, len := ScanStep(t, from);
    }
    FindLeftmost(t, from, q);
    MatchesAt(text, pat, q);
  }

  /** The spans one rule paints on a line. */
  function RuleSpans(text: string, rule: Rule): (spans: seq<Span>)
    requires WellFormed(rule.pattern)
    ensures |spans| == |Scan(text, rule.pattern, 0)|
    ensures forall i :: 0 <= i < |spans| ==>
      spans[i] == Span(Scan(text, rule.pattern, 0)[i].start, Scan(text, rule.pattern, 0)[i].len, rule.style)
  {
    var ms := Scan(text, rule.pattern, 0);
    seq(|ms|, i requires 0 <= i < |ms| => Span(ms[i].start, ms[i].len, rule.style))
  }

  /** `highlightBlock`: every rule's spans, rules taken in list order. */
  function Highlight(text: string, rules: seq<Rule>): (paint: seq<Span>)
    requires WellFormedRules(rules)
    decreases |rules|
  {
    if rules == [] then [] else RuleSpans(text, rules[0]) + Highlight(text, rules[1..])
  }

  /** Applying a list of rules in two parts paints the first part's spans
      and then the second part's. */
  lemma {:induction false} HighlightAppend(text: string, a: seq<Rule>, b: seq<Rule>)
    requires WellFormedRules(a) && WellFormedRules(b)
    ensures WellFormedRules(a + b)
    ensures Highlight(text, a + b) == Highlight(text, a) + Highlight(text, b)
    decreases |a|
  {
    assert WellFormedRules(a + b) by {
      forall k | 0 <= k < |a + b| ensures WellFormed((a + b)[k].pattern) {
        if k < |a| { assert (a + b)[k] == a[k]; } else { assert (a + b)[k] == b[k - |a|]; }
      }
    }
    if a != [] {
      assert (a + b)[0] == a[0];
      assert (a + b)[1..] == a[1..] + b;
      assert WellFormedRules(a[1..]) by {
        forall k | 0 <= k < |a[1..]| ensures WellFormed(a[1..][k].pattern) {
          assert a[1..][k] == a[k + 1];
        }
      }
      HighlightAppend(text, a[1..], b);
      calc {
        Highlight(text, a + b);
        RuleSpans(text, a[0]) + Highlight(text, a[1..] + b);
        RuleSpans(text, a[0]) + (Highlight(text, a[1..]) + Highlight(text, b));
        (RuleSpans(text, a[0]) + Highlight(text, a[1..])) + Highlight(text, b);
      }
    } else {
      assert a + b == b;
    }
  }

  /** Rule `k` painted span `s`: `s` is a match of the rule's pattern, in
      the rule's style. */
  ghost predicate PaintedBy(text: string, rules: seq<Rule>, k: int, s: Span) {
    && 0 <= k < |rules|
    && s.start <= |text|
    && s.style == rules[k].style
    && MatchAt(text, s.start, rules[k].pattern) == Some(s.len)
  }

  /** The first rule's spans come first, then the rest of the rules'. */
  lemma {:induction false} HighlightFirst(text: string, rules: seq<Rule>)
    requires WellFormedRules(rules) && rules != []
    ensures WellFormedRules(rules[1..])
    ensures Highlight(text, rules) == RuleSpans(text, rules[0]) + Highlight(text, rules[1..])
  {
    var rest := rules[1..];
    forall k | 0 <= k < |rest| ensures WellFormed(rest[k].pattern) {
      assert rest[k] == rules[k + 1];
    }
  }

  /** A span painted by a rule of the tail of the list is painted by the
      corresponding rule of the whole list. */
  lemma {:induction false} PaintedByTail(text: string, rules: seq<Rule>, k: int, s: Span)
    requires rules != [] && PaintedBy(text, rules[1..], k, s)
    ensures PaintedBy(text, rules, k + 1, s)
  {
    assert rules[1..][k] == rules[k + 1];
  }

  /** A span of the first rule's spans is painted by the first rule. */
  lemma {:induction false} PaintedByFirst(text: string, rules: seq<Rule>, i: nat)
    requires rules != [] && WellFormed(rules[0].pattern)
    requires i < |RuleSpans(text, rules[0])|
    ensures PaintedBy(text, rules, 0, RuleSpans(text, rules[0])[i])
  {
    ScanMatch(text, rules[0].pattern, 0, i);
  }

  /** Nothing is painted but matches: every span of the line is a match of
      some rule's pattern, painted in that rule's style. */
  lemma {:induction false} HighlightSound(text: string, rules: seq<Rule>, i: nat)
    requires WellFormedRules(rules)
    requires i < |Highlight(text, rules)|
    ensures exists k :: PaintedBy(text, rules, k, Highlight(text, rules)[i])
    decreases |rules|
  {
    assert rules != [];
    HighlightFirst(text, rules);
    var first := RuleSpans(text, rules[0]);
    var rest := rules[1..];
    var h := Highlight(text, rules);
    if i < |first| {
      assert h[i] == first[i];
      PaintedByFirst(text, rules, i);
    } else {
      var r := Highlight(text, rest);
      assert h[i] == r[i - |first|];
      HighlightSound(text, rest, i - |first|);
      var k :| PaintedBy(text, rest, k, r[i - |first|]);
      PaintedByTail(text, rules, k, h[i]);
    }
  }

  /** A span a word rule painted is a non-empty whole word that the rule's
      keyword expression spells. */
  lemma {:induction false} WordRuleSpan(text: string, rules: seq<Rule>, k: int, s: Span)
    requires WellFormedRules(rules)
    requires PaintedBy(text, rules, k, s) && rules[k].pattern.Word?
    ensures 0 < s.len && s.start + s.len <= |text|
    ensures Boundary(text, s.start) && Boundary(text, s.start + s.len)
    ensures Spells(Atoms(rules[k].pattern.keyword), text[s.start..s.start + s.len])
  {
    WordMatchSpells(text, s.start, rules[k].pattern.keyword, s.len);
  }

  /** The rule that painted the span at index `x` of the paint. */
  lemma {:induction false} PaintedIndex(text: string, rules: seq<Rule>, x: nat) returns (k: nat)
    requires WellFormedRules(rules)
    requires x < |Highlight(text, rules)|
    ensures PaintedBy(text, rules, k, Highlight(text, rules)[x])
  {
    HighlightSound(text, rules, x);
    var k' :| PaintedBy(text, rules, k', Highlight(text, rules)[x]);
    k := k';
  }

  /** Where in the paint the `j`-th match of rule `k` lands: the paint
      holds it as a span in rule `k`'s style. */
  lemma {:induction false} HighlightIndex(text: string, rules: seq<Rule>, k: nat, j: nat) returns (i: nat)
    requires WellFormedRules(rules)
    requires k < |rules| && j < |Scan(text, rules[k].pattern, 0)|
    ensures i < |Highlight(text, rules)|
    ensures Highlight(text, rules)[i] == Span(Scan(text, rules[k].pattern, 0)[j].start, Scan(text, rules[k].pattern, 0)[j].len, rules[k].style)
    decreases |rules|
  {
    HighlightFirst(text, rules);
    var first := RuleSpans(text, rules[0]);
    var rest := rules[1..];
    var h := Highlight(text, rules);
    if k == 0 {
      i := j;
      assert h[j] == first[j];
    } else {
      assert rest[k - 1] == rules[k];
      var r := HighlightIndex(text, rest, k - 1, j);
      i := |first| + r;
      assert h[i] == Highlight(text, rest)[r];
    }
  }

  /** Nothing is left out: every match the scan of rule `k` records is
      painted, in rule `k`'s style. */
  lemma {:induction false} HighlightComplete(text: string, rules: seq<Rule>, k: nat, j: nat)
    requires WellFormedRules(rules)
    requires k < |rules| && j < |Scan(text, rules[k].pattern, 0)|
    ensures exists i ::
              && 0 <= i < |Highlight(text, rules)|
              && Highlight(text, rules)[i] == Span(Scan(text, rules[k].pattern, 0)[j].start, Scan(text, rules[k].pattern, 0)[j].len, rules[k].style)
  {
    var i := HighlightIndex(text, rules, k, j);
  }

  /** A scan records each start at most once: later matches start strictly
      later. */
  lemma {:induction false} ScanStartsIncrease(text: string, pat: Pattern, x: nat, y: nat)
    requires WellFormed(pat)
    requires x < y < |Scan(text, pat, 0)|
    ensures Scan(text, pat, 0)[x].start < Scan(text, pat, 0)[y].start
  {
    MatchesAdvance(text, pat);
    ScanDisjoint(Matches(text, pat), 0, x, y);
    ScanMatch(text, pat, 0, x);
  }

  /** One rule never paints the same span twice. */
  lemma {:induction false} RuleSpansOnce(text: string, rule: Rule, x: nat, y: nat)
    requires WellFormed(rule.pattern)
    requires x < |RuleSpans(text, rule)| && y < |RuleSpans(text, rule)|
    requires RuleSpans(text, rule)[x] == RuleSpans(text, rule)[y]
    ensures x == y
  {
    if x < y {
      ScanStartsIncrease(text, rule.pattern, x, y);
    } else if y < x {
      ScanStartsIncrease(text, rule.pattern, y, x);
    }
  }

  /** At most one rule of the list can paint span `s`. */
  ghost predicate SoleRule(text: string, rules: seq<Rule>, s: Span) {
    forall k1, k2 :: PaintedBy(text, rules, k1, s) && PaintedBy(text, rules, k2, s) ==> k1 == k2
  }

  /** A span both the first rule and a later rule paint has two painters. */
  lemma {:induction false} TwoRulesPaint(text: string, rules: seq<Rule>, a: nat, b: nat)
    requires WellFormedRules(rules) && rules != [] && WellFormedRules(rules[1..])
    requires a < |RuleSpans(text, rules[0])| && b < |Highlight(text, rules[1..])|
    requires RuleSpans(text, rules[0])[a] == Highlight(text, rules[1..])[b]
    ensures !SoleRule(text, rules, RuleSpans(text, rules[0])[a])
  {
    var s := RuleSpans(text, rules[0])[a];
    PaintedByFirst(text, rules, a);
    var k := PaintedIndex(text, rules[1..], b);
    PaintedByTail(text, rules, k, s);
  }

  /** A span only one rule of a list can paint has at most one painter in
      the list's tail too. */
  lemma {:induction false} SoleRuleTail(text: string, rules: seq<Rule>, s: Span)
    requires rules != [] && SoleRule(text, rules, s)
    ensures SoleRule(text, rules[1..], s)
  {
    forall k1, k2 | PaintedBy(text, rules[1..], k1, s) && PaintedBy(text, rules[1..], k2, s) ensures k1 == k2 {
      PaintedByTail(text, rules, k1, s);
      PaintedByTail(text, rules, k2, s);
    }
  }

  /** A character a list of rules leaves in the keyword style is covered by
      a keyword-style span that some rule of the list paints. */
  lemma {:induction false} KeywordStylePainter(text: string, rules: seq<Rule>, i: nat) returns (r: nat, s: Span)
    requires WellFormedRules(rules) && i < |text|
    requires Paint(|text|, Highlight(text, rules))[i] == Some(Keyword)
    ensures PaintedBy(text, rules, r, s) && Covers(s, i) && s.style == Keyword
  {
    var h := Highlight(text, rules);
    PaintSource(|text|, h, i);
    var x :| 0 <= x < |h| && Covers(h[x], i) && h[x].style == Keyword;
    r := PaintedIndex(text, rules, x);
    s := h[x];
  }

  /** When every keyword-style rule of a list matches a word, a character
      the list leaves in the keyword style lies in a stretch, with a word
      boundary at both ends, that one of those words describes. */
  lemma {:induction false} KeywordStyleWord(text: string, rules: seq<Rule>, i: nat) returns (r: nat, start: nat, len: nat)
    requires WellFormedRules(rules) && i < |text|
    requires forall k :: 0 <= k < |rules| && rules[k].style == Keyword ==> rules[k].pattern.Word?
    requires Paint(|text|, Highlight(text, rules))[i] == Some(Keyword)
    ensures r < |rules| && rules[r].style == Keyword && rules[r].pattern.Word?
    ensures start <= i < start + len <= |text|
    ensures Boundary(text, start) && Boundary(text, start + len)
    ensures Spells(Atoms(rules[r].pattern.keyword), text[start..start + len])
  {
    var s;
    r, s := KeywordStylePainter(text, rules, i);
    WordRuleSpan(text, rules, r, s);
    start, len := s.start, s.len;
  }

  /** The first-rule case of `HighlightOnce`: a span of the first rule that
      only one rule paints occurs once in the highlight. */
  lemma {:induction false} FirstRuleOnce(text: string, rules: seq<Rule>, x: nat, y: nat)
    requires WellFormedRules(rules) && rules != []
    requires x < |RuleSpans(text, rules[0])| && y < |Highlight(text, rules)|
    requires Highlight(text, rules)[x] == Highlight(text, rules)[y]
    requires SoleRule(text, rules, Highlight(text, rules)[x])
    ensures x == y
  {
    HighlightFirst(text, rules);
    var first := RuleSpans(text, rules[0]);
    if y < |first| {
      RuleSpansOnce(text, rules[0], x, y);
    } else {
      assert Highlight(text, rules)[y] == Highlight(text, rules[1..])[y - |first|];
      TwoRulesPaint(text, rules, x, y - |first|);
    }
  }

  /** A span only one rule can paint lands at one index of the paint. */
  lemma {:induction false} HighlightOnce(text: string, rules: seq<Rule>, x: nat, y: nat)
    requires WellFormedRules(rules)
    requires x < |Highlight(text, rules)| && y < |Highlight(text, rules)|
    requires Highlight(text, rules)[x] == Highlight(text, rules)[y]
    requires SoleRule(text, rules, Highlight(text, rules)[x])
    ensures x == y
    decreases |rules|
  {
    HighlightFirst(text, rules);
    var first := RuleSpans(text, rules[0]);
    var rest := rules[1..];
    if x < |first| {
      FirstRuleOnce(text, rules, x, y);
    } else if y < |first| {
      FirstRuleOnce(text, rules, y, x);
    } else {
      var h := Highlight(text, rules);
      assert h[x] == Highlight(text, rest)[x - |first|];
      assert h[y] == Highlight(text, rest)[y - |first|];
      SoleRuleTail(text, rules, h[x]);
      HighlightOnce(text, rest, x - |first|, y - |first|);
    }
  }

  /** When every rule has the same style, every span is painted in it. */
  lemma {:induction false} UniformStyle(text: string, rules: seq<Rule>, st: Style)
    requires WellFormedRules(rules)
    requires forall k :: 0 <= k < |rules| ==> rules[k].style == st
    ensures forall i :: 0 <= i < |Highlight(text, rules)| ==> Highlight(text, rules)[i].style == st
    decreases |rules|
  {
    if rules != [] {
      assert WellFormedRules(rules[1..]) by {
        forall k | 0 <= k < |rules[1..]| ensures WellFormed(rules[1..][k].pattern) {
          assert rules[1..][k] == rules[k + 1];
        }
      }
      UniformStyle(text, rules[1..], st);
    }
  }

  /** `setFormat`: paint one span over a line of formats, clipped to the line. */
  function SetFormat(colors: seq<Option<Style>>, s: Span): (r: seq<Option<Style>>)
    ensures |r| == |colors|
    ensures forall i :: 0 <= i < |colors| && Covers(s, i) ==> r[i] == Some(s.style)
    ensures forall i :: 0 <= i < |colors| && !Covers(s, i) ==> r[i] == colors[i]
  {
    seq(|colors|, i requires 0 <= i < |colors| => if Covers(s, i) then Some(s.style) else colors[i])
  }

  /** The formats of a line of `n` characters after the spans are applied
      in order to an unformatted line. */
  function Paint(n: nat, spans: seq<Span>): (colors: seq<Option<Style>>)
    ensures |colors| == n
    decreases |spans|
  {
    if spans == [] then seq(n, _ => None)
    else SetFormat(Paint(n, spans[..|spans| - 1]), spans[|spans| - 1])
  }

  /** A character no span covers stays unformatted. */
  lemma {:induction false} PaintUncovered(n: nat, spans: seq<Span>, i: nat)
    requires i < n
    requires forall k :: 0 <= k < |spans| ==> !Covers(spans[k], i)
    ensures Paint(n, spans)[i] == None
    decreases |spans|
  {
    if spans != [] {
      PaintUncovered(n, spans[..|spans| - 1], i);
    }
  }

  /** Later writes win: a character takes the style of the last span that
      covers it. */
  lemma {:induction false} PaintLastWriter(n: nat, spans: seq<Span>, k: nat, i: nat)
    requires i < n && k < |spans|
    requires Covers(spans[k], i)
    requires forall j :: k < j < |spans| ==> !Covers(spans[j], i)
    ensures Paint(n, spans)[i] == Some(spans[k].style)
    decreases |spans|
  {
    if k < |spans| - 1 {
      var init := spans[..|spans| - 1];
      assert init[k] == spans[k];
      PaintLastWriter(n, init, k, i);
    }
  }

  /** Every painted character owes its style to a span that covers it. */
  lemma {:induction false} PaintSource(n: nat, spans: seq<Span>, i: nat)
    requires i < n
    requires Paint(n, spans)[i].Some?
    ensures exists k :: 0 <= k < |spans| && Covers(spans[k], i) && spans[k].style == Paint(n, spans)[i].value
    decreases |spans|
  {
    if spans != [] {
      var last := spans[|spans| - 1];
      if !Covers(last, i) {
        var init := spans[..|spans| - 1];
        PaintSource(n, init, i);
        var k :| 0 <= k < |init| && Covers(init[k], i) && init[k].style == Paint(n, init)[i].value;
        assert spans[k] == init[k];
      }
    }
  }

  /** A character some span covers is painted. */
  lemma {:induction false} PaintCovered(n: nat, spans: seq<Span>, k: nat, i: nat)
    requires i < n && k < |spans|
    requires Covers(spans[k], i)
    ensures Paint(n, spans)[i].Some?
    decreases |spans|
  {
    if k < |spans| - 1 && !Covers(spans[|spans| - 1], i) {
      var init := spans[..|spans| - 1];
      assert init[k] == spans[k];
      PaintCovered(n, init, k, i);
    }
  }

  /** If a span among the final ones covers a character and all the final
      spans share one style, the character ends up in that style. */
  lemma {:induction false} PaintSuffixStyle(n: nat, pre: seq<Span>, post: seq<Span>, st: Style, i: nat, k: nat)
    requires i < n && k < |post|
    requires Covers(post[k], i)
    requires forall j :: 0 <= j < |post| ==> post[j].style == st
    ensures Paint(n, pre + post)[i] == Some(st)
    decreases |post|
  {
    var spans := pre + post;
    var last := post[|post| - 1];
    assert spans[|spans| - 1] == last;
    if !Covers(last, i) {
      var init := post[..|post| - 1];
      assert spans[..|spans| - 1] == pre + init;
      assert init[k] == post[k];
      PaintSuffixStyle(n, pre, init, st, i, k);
    }
  }

  /** The formats a highlighter for `language` leaves on a line. */
  function LineColors(text: string, language: string): (colors: seq<Option<Style>>)
    ensures |colors| == |text|
    ensures !KnownLanguage(language) ==> forall i :: 0 <= i < |text| ==> colors[i] == None
  {
    RulesWellFormed(language);
    Paint(|text|, Highlight(text, RulesFor(language)))
  }

  /** A comment rule paints at most one span on a line without a newline:
      from the first occurrence of its marker to the end of the line, and
      nothing when the marker does not occur. */
  lemma {:induction false} CommentScan(text: string, pat: Pattern)
    requires !pat.Word? && WellFormed(pat)
    requires forall k :: 0 <= k < |text| ==> text[k] != '\n'
    ensures |Scan(text, pat, 0)| <= 1
    ensures Scan(text, pat, 0) == [] <==> forall q :: 0 <= q <= |text| ==> !OccursAt(text, q, pat.marker)
    ensures |Scan(text, pat, 0)| == 1 ==>
      var m := Scan(text, pat, 0)[0];
      && OccursAt(text, m.start, pat.marker)
      && m.End() == |text|
      && forall q :: 0 <= q < m.start ==> !OccursAt(text, q, pat.marker)
  {
    var ms := Scan(text, pat, 0);
    if ms == [] {
      forall q | 0 <= q <= |text| ensures !OccursAt(text, q, pat.marker) {
        CommentMatch(text, q, pat);
        if MatchAt(text, q, pat).Some? {
          var j := ScanCovers(text, pat, 0, q);
        }
      }
    } else {
      var m := ms[0];
      ScanMatch(text, pat, 0, 0);
      CommentMatch(text, m.start, pat);
      if |ms| > 1 {
        MatchesAdvance(text, pat);
        ScanDisjoint(Matches(text, pat), 0, 0, 1);
        ScanMatch(text, pat, 0, 1);
      }
      forall q | 0 <= q < m.start ensures !OccursAt(text, q, pat.marker) {
        ScanFirst(text, pat, 0, q);
        CommentMatch(text, q, pat);
      }
    }
  }

  /** Every span a keyword rule paints is a whole word: both ends lie on a
      word boundary and the painted text is spelled by the keyword expression.
      For a keyword made only of word characters, the painted text is the
      keyword itself, with no word character just before or just after it. */
  lemma {:induction false} KeywordSpanIsWholeWord(text: string, keyword: string, from: nat, i: nat)
    requires from <= |text|
    requires WellFormed(Word(keyword))
    requires i < |Scan(text, Word(keyword), from)|
    ensures var m := Scan(text, Word(keyword), from)[i];
      && Boundary(text, m.start) && Boundary(text, m.End())
      && Spells(Atoms(keyword), text[m.start..m.End()])
    ensures var m := Scan(text, Word(keyword), from)[i];
      (forall j :: 0 <= j < |keyword| ==> IsWordChar(keyword[j])) ==>
        && text[m.start..m.End()] == keyword
        && !WordAt(text, m.start - 1)
        && !WordAt(text, m.End())
  {
    var m := Scan(text, Word(keyword), from)[i];
    ScanMatch(text, Word(keyword), from, i);
    WordMatchIsWholeWord(text, m.start, keyword);
    if forall j :: 0 <= j < |keyword| ==> IsWordChar(keyword[j]) {
      LiteralKeywordSpells(keyword, text[m.start..m.End()]);
      assert text[m.start..m.End()] == keyword;
      assert keyword != [];
      assert text[m.start] == keyword[0];
      assert text[m.End() - 1] == keyword[|keyword| - 1];
    }
  }

  /** Inside an occurrence of a word-character keyword there is no word
      boundary. */
  lemma {:induction false} NoBoundaryInsideWord(text: string, keyword: string, q: nat, e: nat)
    requires forall j :: 0 <= j < |keyword| ==> IsWordChar(keyword[j])
    requires OccursAt(text, q, keyword)
    requires q < e < q + |keyword|
    ensures !Boundary(text, e)
  {
    assert text[e - 1] == keyword[e - 1 - q];
    assert text[e] == keyword[e - q];
  }

  /** The recorded match that is a standalone occurrence of a keyword made
      of word characters: it covers exactly that occurrence. */
  lemma {:induction false} StandaloneKeywordIndex(text: string, keyword: string, q: nat) returns (i: nat)
    requires keyword != [] && forall j :: 0 <= j < |keyword| ==> IsWordChar(keyword[j])
    requires OccursAt(text, q, keyword)
    requires !WordAt(text, q - 1) && !WordAt(text, q + |keyword|)
    ensures WellFormed(Word(keyword))
    ensures i < |Scan(text, Word(keyword), 0)| && Scan(text, Word(keyword), 0)[i] == Match(q, |keyword|)
  {
    assert Atoms(keyword)[0] == Lit(keyword[0]);
    assert Boundary(text, q) && Boundary(text, q + |keyword|) by {
      assert text[q] == keyword[0];
      assert text[q + |keyword| - 1] == keyword[|keyword| - 1];
    }
    WholeWordIsMatch(text, q, keyword);
    i := ScanCovers(text, Word(keyword), 0, q);
    var ms := Scan(text, Word(keyword), 0);
    KeywordSpanIsWholeWord(text, keyword, 0, i);
    if ms[i].start < q {
      NoBoundaryInsideWord(text, keyword, q, ms[i].End());
      assert false;
    }
    assert ms[i] == Match(q, |keyword|);
  }

  /** Conversely, every standalone occurrence of a keyword made of word
      characters is recorded by the keyword's scan, as a match covering exactly
      it. */
  lemma {:induction false} StandaloneKeywordIsPainted(text: string, keyword: string, q: nat)
    requires keyword != [] && forall j :: 0 <= j < |keyword| ==> IsWordChar(keyword[j])
    requires OccursAt(text, q, keyword)
    requires !WordAt(text, q - 1) && !WordAt(text, q + |keyword|)
    ensures WellFormed(Word(keyword))
    ensures exists i :: 0 <= i < |Scan(text, Word(keyword), 0)| && Scan(text, Word(keyword), 0)[i] == Match(q, |keyword|)
  {
    var i := StandaloneKeywordIndex(text, keyword, q);
  }

  /** Keyword rules followed by one comment rule: the paint is the keyword
      spans, all in the keyword style, then the comment rule's spans. */
  lemma {:induction false} KeywordsThenComment(text: string, kw: seq<Rule>, pat: Pattern)
    requires WellFormedRules(kw) && WellFormed(pat)
    requires forall k :: 0 <= k < |kw| ==> kw[k].style == Keyword
    ensures WellFormedRules(kw + [Rule(pat, Comment)])
    ensures Highlight(text, kw + [Rule(pat, Comment)]) == Highlight(text, kw) + RuleSpans(text, Rule(pat, Comment))
    ensures forall j :: 0 <= j < |Highlight(text, kw)| ==> Highlight(text, kw)[j].style == Keyword
  {
    var c := [Rule(pat, Comment)];
    HighlightAppend(text, kw, c);
    assert Highlight(text, c) == RuleSpans(text, c[0]) + Highlight(text, c[1..]);
    assert c[1..] == [];
    UniformStyle(text, kw, Keyword);
  }

  /** A known language's rules are its keyword rules, well formed and all
      in the keyword style, followed by its comment rule. */
  lemma {:induction false} KnownLanguageRules(language: string)
    requires KnownLanguage(language)
    ensures WellFormedRules(KeywordRules(Vocabulary(language)))
    ensures WellFormed(CommentPattern(language))
    ensures forall k :: 0 <= k < |KeywordRules(Vocabulary(language))| ==> KeywordRules(Vocabulary(language))[k].style == Keyword
    ensures RulesFor(language) == KeywordRules(Vocabulary(language)) + [Rule(CommentPattern(language), Comment)]
  {
    RulesWellFormed(language);
    CommentRuleIsLast(language);
    var kw := KeywordRules(Vocabulary(language));
    var rules := RulesFor(language);
    forall k | 0 <= k < |kw| ensures WellFormed(kw[k].pattern) {
      assert kw[k] == rules[k];
    }
    assert rules[|rules| - 1] == Rule(CommentPattern(language), Comment);
  }

  /** Keyword spans followed by one comment span reaching the end of the
      line: exactly the characters from the comment's start on end up in the
      comment style. */
  lemma {:induction false} CommentSpanOverPaint(n: nat, pre: seq<Span>, c: nat, i: nat)
    requires c <= n && i < n
    requires forall j :: 0 <= j < |pre| ==> pre[j].style == Keyword
    ensures Paint(n, pre + [Span(c, n - c, Comment)])[i] == Some(Comment) <==> c <= i
  {
    var post := [Span(c, n - c, Comment)];
    var spans := pre + post;
    if c <= i {
      PaintSuffixStyle(n, pre, post, Comment, i, 0);
    } else if Paint(n, spans)[i] == Some(Comment) {
      PaintSource(n, spans, i);
    }
  }

  /** Keyword spans alone never produce the comment style. */
  lemma {:induction false} KeywordSpansOnly(n: nat, pre: seq<Span>, i: nat)
    requires i < n
    requires forall j :: 0 <= j < |pre| ==> pre[j].style == Keyword
    ensures Paint(n, pre)[i] != Some(Comment)
  {
    if Paint(n, pre)[i] == Some(Comment) {
      PaintSource(n, pre, i);
    }
  }

  /** Some occurrence of the marker starts at or before position `i`. */
  ghost predicate MarkerAtOrBefore(text: string, marker: string, i: int) {
    exists c :: 0 <= c <= i && OccursAt(text, c, marker)
  }

  /** A marker whose first character does not occur up to `i` occurs
      nowhere at or before `i`. */
  lemma {:induction false} NoMarkerUpTo(text: string, marker: string, i: int)
    requires marker != []
    requires forall c :: 0 <= c <= i && c < |text| ==> text[c] != marker[0]
    ensures forall j :: j <= i ==> !MarkerAtOrBefore(text, marker, j)
  {
    forall c | 0 <= c <= i ensures !OccursAt(text, c, marker) {
      if c + |marker| <= |text| {
        assert text[c..c + |marker|][0] == text[c];
      }
    }
  }

  /** With no comment match on the line, only keyword paint remains, and
      the marker occurs nowhere. */
  lemma {:induction false} NoCommentMatch(text: string, kw: seq<Rule>, pat: Pattern, i: nat)
    requires WellFormedRules(kw) && WellFormed(pat) && !pat.Word?
    requires forall k :: 0 <= k < |kw| ==> kw[k].style == Keyword
    requires forall k :: 0 <= k < |text| ==> text[k] != '\n'
    requires i < |text|
    requires Scan(text, pat, 0) == []
    ensures Paint(|text|, Highlight(text, kw) + RuleSpans(text, Rule(pat, Comment)))[i] != Some(Comment)
    ensures !MarkerAtOrBefore(text, pat.marker, i)
  {
    var pre := Highlight(text, kw);
    UniformStyle(text, kw, Keyword);
    CommentScan(text, pat);
    assert pre + RuleSpans(text, Rule(pat, Comment)) == pre;
    KeywordSpansOnly(|text|, pre, i);
  }

  /** With a comment match on the line, it starts at the first marker and
      runs to the end; the comment style covers exactly that range. */
  lemma {:induction false} OneCommentMatch(text: string, kw: seq<Rule>, pat: Pattern, i: nat)
    requires WellFormedRules(kw) && WellFormed(pat) && !pat.Word?
    requires forall k :: 0 <= k < |kw| ==> kw[k].style == Keyword
    requires forall k :: 0 <= k < |text| ==> text[k] != '\n'
    requires i < |text|
    requires Scan(text, pat, 0) != []
    ensures Paint(|text|, Highlight(text, kw) + RuleSpans(text, Rule(pat, Comment)))[i] == Some(Comment)
        <==> MarkerAtOrBefore(text, pat.marker, i)
  {
    var pre := Highlight(text, kw);
    UniformStyle(text, kw, Keyword);
    var c := CommentSpan(text, pat);
    CommentSpanOverPaint(|text|, pre, c, i);
    FirstMarker(text, pat.marker, c, i);
  }

  /** A comment rule that matches on a line without a newline paints one
      span, from the first occurrence of its marker to the end of the line. */
  lemma {:induction false} CommentSpan(text: string, pat: Pattern) returns (c: nat)
    requires WellFormed(pat) && !pat.Word?
    requires forall k :: 0 <= k < |text| ==> text[k] != '\n'
    requires Scan(text, pat, 0) != []
    ensures c <= |text| && RuleSpans(text, Rule(pat, Comment)) == [Span(c, |text| - c, Comment)]
    ensures OccursAt(text, c, pat.marker) && forall q :: 0 <= q < c ==> !OccursAt(text, q, pat.marker)
  {
    CommentScan(text, pat);
    c := Scan(text, pat, 0)[0].start;
  }

  /** When the first occurrence of the marker is at `c`, the marker occurs
      at or before `i` exactly when `c <= i`. */
  lemma {:induction false} FirstMarker(text: string, marker: string, c: nat, i: nat)
    requires OccursAt(text, c, marker)
    requires forall q :: 0 <= q < c ==> !OccursAt(text, q, marker)
    ensures MarkerAtOrBefore(text, marker, i) <==> c <= i
  {
  }

  /** The comment rule after keyword rules: on a line without a newline,
      exactly the characters from the first comment marker to the end of the
      line are in the comment style; with no marker, none is. */
  lemma {:induction false} CommentRuleOverridesKeywordRules(text: string, kw: seq<Rule>, pat: Pattern, i: nat)
    requires WellFormedRules(kw) && WellFormed(pat) && !pat.Word?
    requires forall k :: 0 <= k < |kw| ==> kw[k].style == Keyword
    requires forall k :: 0 <= k < |text| ==> text[k] != '\n'
    requires i < |text|
    ensures WellFormedRules(kw + [Rule(pat, Comment)])
    ensures Paint(|text|, Highlight(text, kw + [Rule(pat, Comment)]))[i] == Some(Comment)
        <==> MarkerAtOrBefore(text, pat.marker, i)
  {
    KeywordsThenComment(text, kw, pat);
    if Scan(text, pat, 0) == [] {
      NoCommentMatch(text, kw, pat, i);
    } else {
      OneCommentMatch(text, kw, pat, i);
    }
  }

  /** The comment style wins, for both known languages: on a line without a
      newline, a character is in the comment style exactly when the comment
      marker occurs at or before it; keywords after the marker are covered. */
  lemma {:induction false} CommentOverridesKeywords(text: string, language: string, i: nat)
    requires KnownLanguage(language)
    requires forall k :: 0 <= k < |text| ==> text[k] != '\n'
    requires i < |text|
    ensures LineColors(text, language)[i] == Some(Comment) <==> MarkerAtOrBefore(text, CommentMarker(language), i)
  {
    KnownLanguageRules(language);
    CommentRuleOverridesKeywordRules(text, KeywordRules(Vocabulary(language)), CommentPattern(language), i);
  }

  /** A line whose first comment marker starts at `c`: every character from
      `c` on is in the comment style, and none before it. */
  lemma {:induction false} CommentFrom(text: string, language: string, c: nat)
    requires KnownLanguage(language)
    requires forall k :: 0 <= k < |text| ==> text[k] != '\n'
    requires OccursAt(text, c, CommentMarker(language))
    requires forall k :: 0 <= k < c ==> !OccursAt(text, k, CommentMarker(language))
    ensures forall i :: c <= i < |text| ==> LineColors(text, language)[i] == Some(Comment)
    ensures forall i :: 0 <= i < c ==> LineColors(text, language)[i] != Some(Comment)
  {
    forall i | c <= i < |text| ensures LineColors(text, language)[i] == Some(Comment) {
      CommentOverridesKeywords(text, language, i);
    }
    forall i | 0 <= i < c ensures LineColors(text, language)[i] != Some(Comment) {
      CommentOverridesKeywords(text, language, i);
    }
  }

  /** An unknown language tag paints nothing: every character keeps its
      unformatted state. */
  lemma {:induction false} UnknownLanguagePaintsNothing(text: string, language: string)
    requires !KnownLanguage(language)
    ensures Highlight(text, RulesFor(language)) == []
    ensures forall i :: 0 <= i < |text| ==> LineColors(text, language)[i] == None
  {
  }

}
