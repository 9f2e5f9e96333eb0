/** The three regular-expression shapes the highlighter builds, and how the
    regex engine finds a match of one of them at a position of a line.

    - `Word(keyword)` is `\b` + keyword + `\b`, with the keyword text spliced
      into the expression unescaped: a character followed by `?` in the
      keyword becomes optional, every other character is literal.
    - `CommentToNewline(marker)` is the marker followed by `[^\n]*`.
    - `CommentToEnd(marker)` is the marker followed by `.*`, whose dot also
      matches a newline. */
module Patterns {
  import opened Wrappers
  import opened Text

  /** One element of a spliced keyword: a required or an optional character. */
  datatype Atom = Lit(c: char) | Opt(c: char)

  datatype Pattern =
    | Word(keyword: string)
    | CommentToNewline(marker: string)
    | CommentToEnd(marker: string)

  /** Reads the keyword text as regex syntax: `c?` is an optional `c`. */
  function Atoms(keyword: string): (atoms: seq<Atom>)
    ensures |atoms| <= |keyword| <= 2 * |atoms|
    decreases |keyword|
  {
    if keyword == [] then []
    else if |keyword| >= 2 && keyword[1] == '?' then [Opt(keyword[0])] + Atoms(keyword[2..])
    else [Lit(keyword[0])] + Atoms(keyword[1..])
  }

  /** Writes atoms back as regex text. */
  function Unsplice(atoms: seq<Atom>): string
    decreases |atoms|
  {
    if atoms == [] then []
    else
      (match atoms[0]
       case Lit(c) => [c]
       case Opt(c) => [c, '?'])
      + Unsplice(atoms[1..])
  }

  /** Reading a keyword as atoms loses nothing: writing them back gives the
      keyword text that was spliced in. */
  lemma {:induction false} AtomsRoundTrip(keyword: string)
    ensures Unsplice(Atoms(keyword)) == keyword
    decreases |keyword|
  {
    if keyword == [] {
    } else if |keyword| >= 2 && keyword[1] == '?' {
      AtomsRoundTrip(keyword[2..]);
      assert keyword == [keyword[0], '?'] + keyword[2..];
    } else {
      AtomsRoundTrip(keyword[1..]);
      assert keyword == [keyword[0]] + keyword[1..];
    }
  }

  /** Some atom is a required character, so every match is non-empty. */
  predicate HasLit(atoms: seq<Atom>)
    decreases |atoms|
  {
    atoms != [] && (atoms[0].Lit? || HasLit(atoms[1..]))
  }

  /** The declarative reading of a keyword expression: `w` is one of the
      strings the atoms describe. */
  ghost predicate Spells(atoms: seq<Atom>, w: string)
    decreases |atoms|
  {
    if atoms == [] then w == []
    else
      var taken := |w| > 0 && w[0] == atoms[0].c && Spells(atoms[1..], w[1..]);
      match atoms[0]
      case Lit(_) => taken
      case Opt(_) => taken || Spells(atoms[1..], w)
  }

  /** The backtracking matcher for `atoms` followed by the closing `\b`,
      anchored at `pos`: the end position of the first match found, trying
      to take each optional character before skipping it. */
  function MatchRest(text: string, pos: nat, atoms: seq<Atom>): (r: Option<nat>)
    requires pos <= |text|
    ensures r.Some? ==> pos <= r.value <= |text| && Boundary(text, r.value)
    ensures r.Some? && HasLit(atoms) ==> pos < r.value
    decreases |atoms|
  {
    if atoms == [] then
      if Boundary(text, pos) then Some(pos) else None
    else
      var here := pos < |text| && text[pos] == atoms[0].c;
      var taken := if here then MatchRest(text, pos + 1, atoms[1..]) else None;
      match atoms[0]
      case Lit(_) => taken
      case Opt(_) => if taken.Some? then taken else MatchRest(text, pos, atoms[1..])
  }

  /** Whatever the matcher returns is a string the atoms describe. */
  lemma {:induction false} MatchRestSound(text: string, pos: nat, atoms: seq<Atom>)
    requires pos <= |text|
    requires MatchRest(text, pos, atoms).Some?
    ensures Spells(atoms, text[pos..MatchRest(text, pos, atoms).value])
    decreases |atoms|
  {
    var e := MatchRest(text, pos, atoms).value;
    if atoms != [] {
      var here := pos < |text| && text[pos] == atoms[0].c;
      var taken := if here then MatchRest(text, pos + 1, atoms[1..]) else None;
      if taken.Some? {
        MatchRestSound(text, pos + 1, atoms[1..]);
        assert text[pos..e][1..] == text[pos + 1..e];
      } else {
        MatchRestSound(text, pos, atoms[1..]);
      }
    }
  }

  /** Backtracking misses nothing: if the atoms describe some piece of text
      starting at `pos` that ends on a word boundary, the matcher finds a match. */
  lemma {:induction false} MatchRestComplete(text: string, pos: nat, atoms: seq<Atom>, e: nat)
    requires pos <= e <= |text|
    requires Spells(atoms, text[pos..e]) && Boundary(text, e)
    ensures MatchRest(text, pos, atoms).Some?
    decreases |atoms|
  {
    var w := text[pos..e];
    if atoms != [] {
      if |w| > 0 && w[0] == atoms[0].c && Spells(atoms[1..], w[1..]) {
        assert w[1..] == text[pos + 1..e];
        MatchRestComplete(text, pos + 1, atoms[1..], e);
      } else {
        MatchRestComplete(text, pos, atoms[1..], e);
      }
    }
  }

  /** For a keyword with no `?`, the expression describes the keyword itself
      and nothing else. */
  lemma {:induction false} LiteralKeywordSpells(keyword: string, w: string)
    requires forall i :: 0 <= i < |keyword| ==> keyword[i] != '?'
    ensures Spells(Atoms(keyword), w) <==> w == keyword
    decreases |keyword|
  {
    if keyword != [] {
      var atoms := Atoms(keyword);
      assert atoms == [Lit(keyword[0])] + Atoms(keyword[1..]);
      assert atoms[1..] == Atoms(keyword[1..]);
      if |w| > 0 {
        LiteralKeywordSpells(keyword[1..], w[1..]);
        if w == keyword {
          assert w[1..] == keyword[1..];
        }
        if w[0] == keyword[0] && w[1..] == keyword[1..] {
          assert w == [w[0]] + w[1..];
          assert keyword == [keyword[0]] + keyword[1..];
        }
      }
    }
  }

  /** Run length of characters other than `stop`, starting at `i`: what a
      greedy `[^stop]*` consumes there. */
  function RunWithout(text: string, i: nat, stop: char): (n: nat)
    requires i <= |text|
    ensures i + n <= |text|
    ensures forall k :: i <= k < i + n ==> text[k] != stop
    ensures i + n == |text| || text[i + n] == stop
    decreases |text| - i
  {
    if i == |text| || text[i] == stop then 0 else 1 + RunWithout(text, i + 1, stop)
  }

  /** The anchored match of `pat` at position `p`: the match length, or None. */
  function MatchAt(text: string, p: nat, pat: Pattern): (len: Option<nat>)
    requires p <= |text|
    ensures len.Some? ==> p + len.value <= |text|
    ensures len.Some? && WellFormed(pat) ==> 1 <= len.value
  {
    match pat
    case Word(keyword) =>
      if !Boundary(text, p) then None
      else
        (match MatchRest(text, p, Atoms(keyword))
         case Some(e) => Some(e - p)
         case None => None)
    case CommentToNewline(marker) =>
      if OccursAt(text, p, marker) then Some(|marker| + RunWithout(text, p + |marker|, '\n')) else None
    case CommentToEnd(marker) =>
      if OccursAt(text, p, marker) then Some(|text| - p) else None
  }

  /** Every match of the pattern is non-empty; this is what lets the scan of
      a line move forward after each match. */
  predicate WellFormed(pat: Pattern) {
    match pat
    case Word(keyword) => HasLit(Atoms(keyword))
    case CommentToNewline(marker) => marker != []
    case CommentToEnd(marker) => marker != []
  }

  /** The anchored matches at positions 0 .. n - 1 of the line. */
  function Anchored(text: string, pat: Pattern, n: nat): (t: seq<Option<nat>>)
    requires n <= |text| + 1
    ensures |t| == n
    decreases n
  {
    if n == 0 then [] else Anchored(text, pat, n - 1) + [MatchAt(text, n - 1, pat)]
  }

  /** The anchored match at every position of the line, the end of the
      line included: the answers `indexIn` consults as it tries one
      position after another. */
  function Matches(text: string, pat: Pattern): (t: seq<Option<nat>>)
    ensures |t| == |text| + 1
  {
    Anchored(text, pat, |text| + 1)
  }

  lemma {:induction false} AnchoredAt(text: string, pat: Pattern, n: nat, p: nat)
    requires n <= |text| + 1 && p < n
    ensures Anchored(text, pat, n)[p] == MatchAt(text, p, pat)
    decreases n
  {
    if p < n - 1 {
      AnchoredAt(text, pat, n - 1, p);
    }
  }

  /** Entry `p` of the table is the anchored match at `p`. */
  lemma {:induction false} MatchesAt(text: string, pat: Pattern, p: nat)
    requires p <= |text|
    ensures Matches(text, pat)[p] == MatchAt(text, p, pat)
  {
    AnchoredAt(text, pat, |text| + 1, p);
  }

  /** A table of anchored matches in which every match is non-empty and
      ends at or before the last position. */
  predicate Advancing(t: seq<Option<nat>>) {
    forall p :: 0 <= p < |t| && t[p].Some? ==> 1 <= t[p].value && p + t[p].value < |t|
  }

  /** The table of a well-formed pattern advances. */
  lemma {:induction false} MatchesAdvance(text: string, pat: Pattern)
    requires WellFormed(pat)
    ensures Advancing(Matches(text, pat))
  {
    var t := Matches(text, pat);
    forall p | 0 <= p < |t| && t[p].Some? ensures 1 <= t[p].value && p + t[p].value < |t| {
      MatchesAt(text, pat, p);
    }
  }

  /** `indexIn(text, from)` over the table of anchored matches: the
      leftmost position at or after `from` where the pattern matches
      (leftmost by `FindLeftmost`). */
  function Find(t: seq<Option<nat>>, from: nat): (r: Option<nat>)
    requires from <= |t|
    ensures r.Some? ==> from <= r.value < |t| && t[r.value].Some?
    decreases |t| - from
  {
    if from == |t| then None
    else if t[from].Some? then Some(from)
    else Find(t, from + 1)
  }

  /** The search skips no match: the pattern matches nowhere between the
      offset and the position found, and nowhere after the offset when
      nothing is found. */
  lemma {:induction false} FindLeftmost(t: seq<Option<nat>>, from: nat, q: nat)
    requires from <= q < |t|
    requires Find(t, from).None? || q < Find(t, from).value
    ensures t[q].None?
    decreases |t| - from
  {
    if q > from {
      FindLeftmost(t, from + 1, q);
    }
  }

  /** Where the pattern matches, the search from any earlier offset finds a
      match at that position or before it. */
  lemma {:induction false} FindNotAfter(t: seq<Option<nat>>, from: nat, q: nat)
    requires from <= q < |t|
    requires t[q].Some?
    ensures Find(t, from).Some? && Find(t, from).value <= q
  {
    if Find(t, from).None? || q < Find(t, from).value {
      FindLeftmost(t, from, q);
    }
  }

  /** A match of a keyword pattern is a whole word: it begins and ends on a
      word boundary and spells the keyword expression. */
  lemma {:induction false} WordMatchIsWholeWord(text: string, p: nat, keyword: string)
    requires p <= |text|
    requires MatchAt(text, p, Word(keyword)).Some?
    ensures Boundary(text, p)
    ensures Boundary(text, p + MatchAt(text, p, Word(keyword)).value)
    ensures Spells(Atoms(keyword), text[p..p + MatchAt(text, p, Word(keyword)).value])
  {
    MatchRestSound(text, p, Atoms(keyword));
  }

  /** `WordMatchIsWholeWord` for a match of known length `len`. */
  lemma {:induction false} WordMatchSpells(text: string, p: nat, keyword: string, len: nat)
    requires p <= |text| && MatchAt(text, p, Word(keyword)) == Some(len)
    ensures Boundary(text, p) && Boundary(text, p + len)
    ensures Spells(Atoms(keyword), text[p..p + len])
  {
    WordMatchIsWholeWord(text, p, keyword);
  }

  /** A keyword occurrence with a word boundary on both sides is a match. */
  lemma {:induction false} WholeWordIsMatch(text: string, p: nat, keyword: string)
    requires (forall i :: 0 <= i < |keyword| ==> keyword[i] != '?')
    requires OccursAt(text, p, keyword)
    requires Boundary(text, p) && Boundary(text, p + |keyword|)
    ensures MatchAt(text, p, Word(keyword)) == Some(|keyword|)
  {
    LiteralKeywordSpells(keyword, text[p..p + |keyword|]);
    MatchRestComplete(text, p, Atoms(keyword), p + |keyword|);
    var e := MatchRest(text, p, Atoms(keyword)).value;
    MatchRestSound(text, p, Atoms(keyword));
    LiteralKeywordSpells(keyword, text[p..e]);
  }

  /** A comment pattern matches exactly where its marker occurs. On text
      without a newline, the match runs to the end of the text. */
  lemma {:induction false} CommentMatch(text: string, p: nat, pat: Pattern)
    requires p <= |text|
    requires !pat.Word?
    requires pat.CommentToNewline? ==> forall k :: 0 <= k < |text| ==> text[k] != '\n'
    ensures MatchAt(text, p, pat).Some? <==> OccursAt(text, p, pat.marker)
    ensures MatchAt(text, p, pat).Some? ==> p + MatchAt(text, p, pat).value == |text|
  {
  }

}
