/** What a known language's highlighter does to keywords on a line: which
    occurrences it paints and in which style they end up. */
module Keywords {
  import opened Wrappers
  import opened Text
  import opened Patterns
  import opened Rules
  import opened Recolor

  /** Only two styles exist, so a painted character that is not in the
      comment style is in the keyword style. */
  lemma {:induction false} OtherThanComment(c: Option<Style>)
    requires c.Some? && c != Some(Comment)
    ensures c == Some(Keyword)
  {
    match c.value
    case Keyword =>
    case Comment =>
  }

  /** The span at index `idx` of the paint covers exactly [q, q + n) in the
      keyword style, and no other keyword span touches a character of that
      range. */
  ghost predicate OnlyKeywordSpanAt(text: string, rules: seq<Rule>, q: nat, n: nat, idx: nat)
    requires WellFormedRules(rules)
  {
    && idx < |Highlight(text, rules)|
    && Highlight(text, rules)[idx] == Span(q, n, Keyword)
    && forall x, c ::
         && 0 <= x < |Highlight(text, rules)|
         && Highlight(text, rules)[x].style == Keyword
         && q <= c < q + n
         && Covers(Highlight(text, rules)[x], c)
         ==> x == idx
  }

  /** Every standalone occurrence of a vocabulary keyword made of word
      characters has its own keyword span, covering exactly it, and no other
      keyword span of the line touches any of its characters: it sits at one
      index of the paint. */
  lemma {:induction false} StandaloneKeywordSpan(text: string, language: string, k: nat, q: nat) returns (idx: nat)
    requires KnownLanguage(language) && k < |Vocabulary(language)|
    requires forall j :: 0 <= j < |Vocabulary(language)[k]| ==> IsWordChar(Vocabulary(language)[k][j])
    requires OccursAt(text, q, Vocabulary(language)[k])
    requires !WordAt(text, q - 1) && !WordAt(text, q + |Vocabulary(language)[k]|)
    ensures WellFormedRules(RulesFor(language))
    ensures OnlyKeywordSpanAt(text, RulesFor(language), q, |Vocabulary(language)[k]|, idx)
  {
    StandaloneKeywordIn(text, language, k, q);
    idx := StandaloneWordSpan(text, RulesFor(language), k, Vocabulary(language)[k], q);
  }

  /** A standalone occurrence at `q` of a word `kw` that only its own word
      rule `k` spells, in a rule list whose keyword spans are word-shaped. */
  ghost predicate StandaloneWordIn(text: string, rules: seq<Rule>, k: nat, kw: string, q: nat) {
    && WellFormedRules(rules) && KeywordRulesPaintWords(rules) && OnlyRuleSpells(rules, k, kw)
    && k < |rules| && rules[k] == Rule(Word(kw), Keyword)
    && kw != [] && kw[0] != 'p' && (forall j :: 0 <= j < |kw| ==> IsWordChar(kw[j]))
    && OccursAt(text, q, kw) && !WordAt(text, q - 1) && !WordAt(text, q + |kw|)
  }

  /** A standalone occurrence of a word-character keyword of a known
      language is a standalone word of its rule list. */
  lemma {:induction false} StandaloneKeywordIn(text: string, language: string, k: nat, q: nat)
    requires KnownLanguage(language) && k < |Vocabulary(language)|
    requires forall j :: 0 <= j < |Vocabulary(language)[k]| ==> IsWordChar(Vocabulary(language)[k][j])
    requires OccursAt(text, q, Vocabulary(language)[k])
    requires !WordAt(text, q - 1) && !WordAt(text, q + |Vocabulary(language)[k]|)
    ensures StandaloneWordIn(text, RulesFor(language), k, Vocabulary(language)[k], q)
  {
    RulesWellFormed(language);
    KnownLanguageShape(language);
    KnownRulesPaintWords(language);
    OnlyOwnRuleSpells(language, k);
    NoWordKeywordStartsWithP(language, k);
  }

  /** A standalone word that only its own rule spells has its own span,
      covering exactly it, and no other keyword span touches it. */
  lemma {:induction false} StandaloneWordSpan(text: string, rules: seq<Rule>, k: nat, kw: string, q: nat) returns (idx: nat)
    requires StandaloneWordIn(text, rules, k, kw, q)
    ensures WellFormedRules(rules)
    ensures OnlyKeywordSpanAt(text, rules, q, |kw|, idx)
  {
    var j := StandaloneKeywordIndex(text, kw, q);
    idx := HighlightIndex(text, rules, k, j);
    OneSpanPerWord(text, rules, k, kw, q, idx);
  }

  /** Every standalone occurrence of a vocabulary keyword made of word
      characters is painted by a keyword span covering exactly it (the only
      one touching it, by `StandaloneKeywordSpan`); its characters end up in
      the keyword style unless a comment marker occurs at or before them, in
      which case the comment style covers them. */
  lemma {:induction false} StandaloneKeywordColored(text: string, language: string, k: nat, q: nat)
    requires KnownLanguage(language) && k < |Vocabulary(language)|
    requires forall j :: 0 <= j < |Vocabulary(language)[k]| ==> IsWordChar(Vocabulary(language)[k][j])
    requires forall j :: 0 <= j < |text| ==> text[j] != '\n'
    requires OccursAt(text, q, Vocabulary(language)[k])
    requires !WordAt(text, q - 1) && !WordAt(text, q + |Vocabulary(language)[k]|)
    ensures WellFormedRules(RulesFor(language))
    ensures exists idx ::
              && 0 <= idx < |Highlight(text, RulesFor(language))|
              && Highlight(text, RulesFor(language))[idx] == Span(q, |Vocabulary(language)[k]|, Keyword)
    ensures forall i :: q <= i < q + |Vocabulary(language)[k]| ==>
              LineColors(text, language)[i]
                == if MarkerAtOrBefore(text, CommentMarker(language), i) then Some(Comment) else Some(Keyword)
  {
    var kw := Vocabulary(language)[k];
    var idx := StandaloneKeywordSpan(text, language, k, q);
    forall i | q <= i < q + |kw|
      ensures LineColors(text, language)[i]
                == if MarkerAtOrBefore(text, CommentMarker(language), i) then Some(Comment) else Some(Keyword)
    {
      CoveredCharColored(text, language, idx, i);
    }
  }

  /** A standalone keyword made of word characters, with no comment
      marker at or before its last character, is in the keyword style. */
  lemma {:induction false} KeywordBeforeComment(text: string, language: string, k: nat, q: nat)
    requires KnownLanguage(language) && k < |Vocabulary(language)|
    requires forall j :: 0 <= j < |Vocabulary(language)[k]| ==> IsWordChar(Vocabulary(language)[k][j])
    requires forall j :: 0 <= j < |text| ==> text[j] != '\n'
    requires OccursAt(text, q, Vocabulary(language)[k])
    requires !WordAt(text, q - 1) && !WordAt(text, q + |Vocabulary(language)[k]|)
    requires !MarkerAtOrBefore(text, CommentMarker(language), q + |Vocabulary(language)[k]| - 1)
    ensures forall i :: q <= i < q + |Vocabulary(language)[k]| ==> LineColors(text, language)[i] == Some(Keyword)
  {
    StandaloneKeywordColored(text, language, k, q);
  }

  /** The converse direction for the keyword style: every character in it
      lies in a stretch of the line with a word boundary at both ends that
      some keyword of the profile describes. */
  lemma {:induction false} KeywordStyleIsSpelledWord(text: string, language: string, i: nat)
      returns (k: nat, start: nat, len: nat)
    requires KnownLanguage(language) && i < |text|
    requires LineColors(text, language)[i] == Some(Keyword)
    ensures k < |Vocabulary(language)|
    ensures start <= i < start + len <= |text|
    ensures Boundary(text, start) && Boundary(text, start + len)
    ensures Spells(Atoms(Vocabulary(language)[k]), text[start..start + len])
  {
    var rules := RulesFor(language);
    RulesWellFormed(language);
    assert LineColors(text, language) == Paint(|text|, Highlight(text, rules));
    KnownLanguageShape(language);
    k, start, len := KeywordStyleWord(text, rules, i);
    KeywordRuleAt(language, k);
  }

  /** A character that is not a word character, and is not followed by `p`,
      with no comment marker at or before it, stays unformatted: no stretch
      a keyword describes can contain it. */
  lemma {:induction false} PlainCharacter(text: string, language: string, i: nat)
    requires KnownLanguage(language)
    requires forall j :: 0 <= j < |text| ==> text[j] != '\n'
    requires i < |text| && !IsWordChar(text[i]) && (i + 1 < |text| ==> text[i + 1] != 'p')
    requires !MarkerAtOrBefore(text, CommentMarker(language), i)
    ensures LineColors(text, language)[i] == None
  {
    CommentOverridesKeywords(text, language, i);
    if LineColors(text, language)[i].Some? {
      OtherThanComment(LineColors(text, language)[i]);
      var k, start, len := KeywordStyleIsSpelledWord(text, language, i);
      SpelledShape(language, k, text[start..start + len]);
      ShapedStretchAvoids(text, start, len, i);
      assert false;
    }
  }

  /** A stretch made of word characters, except for a first character
      followed by `p`, contains no other non-word character. */
  lemma {:induction false} ShapedStretchAvoids(text: string, start: nat, len: nat, i: nat)
    requires start + len <= |text| && WordShaped(text[start..start + len])
    requires i < |text| && !IsWordChar(text[i]) && (i + 1 < |text| ==> text[i + 1] != 'p')
    ensures !(start <= i < start + len)
  {
    SliceShaped(text, start, len);
  }

  /** A standalone word that is not a keyword of the profile, and does not
      start with `p`, stays unformatted where no comment marker occurs at or
      before it. */
  lemma {:induction false} PlainWord(text: string, language: string, word: string, q: nat, i: nat)
    requires KnownLanguage(language)
    requires forall j :: 0 <= j < |text| ==> text[j] != '\n'
    requires word != [] && word[0] != 'p' && forall j :: 0 <= j < |word| ==> IsWordChar(word[j])
    requires word !in Vocabulary(language)
    requires OccursAt(text, q, word) && !WordAt(text, q - 1) && !WordAt(text, q + |word|)
    requires q <= i < q + |word|
    requires !MarkerAtOrBefore(text, CommentMarker(language), i)
    ensures LineColors(text, language)[i] == None
  {
    CommentOverridesKeywords(text, language, i);
    if LineColors(text, language)[i].Some? {
      OtherThanComment(LineColors(text, language)[i]);
      var k, start, len := KeywordStyleIsSpelledWord(text, language, i);
      SpelledShape(language, k, text[start..start + len]);
      SliceShaped(text, start, len);
      OverlapIsOccurrence(text, word, q, start, len, i);
      assert text[start..start + len] == word;
      VocabularySpells(language, k, word);
      assert false;
    }
  }

  /** No vocabulary keyword made of word characters begins with `p`, so
      none of them is a text the php open tag's rule paints. */
  lemma {:induction false} NoWordKeywordStartsWithP(language: string, k: nat)
    requires KnownLanguage(language) && k < |Vocabulary(language)|
    requires forall j :: 0 <= j < |Vocabulary(language)[k]| ==> IsWordChar(Vocabulary(language)[k][j])
    ensures Vocabulary(language)[k] != [] && Vocabulary(language)[k][0] != 'p'
  {
  }

  /** A text a keyword rule paints holds a character other than a word
      character only when the rule is the php open tag's and the text is
      `<php`, at its first character. */
  lemma {:induction false} SpelledNonWordChar(language: string, k: nat, w: string, i: nat)
    requires KnownLanguage(language) && k < |Vocabulary(language)|
    requires Spells(Atoms(Vocabulary(language)[k]), w)
    requires i < |w| && !IsWordChar(w[i])
    ensures Vocabulary(language)[k] == "<?php" && w == "<php" && i == 0
  {
    VocabularySpells(language, k, w);
    VocabularyCharacters(language, k);
  }

  /** A text made of word characters, except that its first character may
      be another one when `p` follows it (the open tag's `<php`). */
  ghost predicate WordShaped(w: string) {
    && (forall i :: 0 < i < |w| ==> IsWordChar(w[i]))
    && (0 < |w| && !IsWordChar(w[0]) ==> 1 < |w| && w[1] == 'p')
  }

  /** Every keyword-style rule of the list is a word rule whose expression
      spells only word-shaped texts. */
  ghost predicate KeywordRulesPaintWords(rules: seq<Rule>) {
    && (forall k1 :: 0 <= k1 < |rules| && rules[k1].style == Keyword ==> rules[k1].pattern.Word?)
    && (forall k1, w ::
          && 0 <= k1 < |rules| && rules[k1].style == Keyword && rules[k1].pattern.Word?
          && Spells(Atoms(rules[k1].pattern.keyword), w)
          ==> WordShaped(w))
  }

  /** Of the keyword-style word rules of the list, only rule `k` spells
      `kw`. */
  ghost predicate OnlyRuleSpells(rules: seq<Rule>, k: int, kw: string) {
    forall k1 ::
      && 0 <= k1 < |rules| && rules[k1].style == Keyword && rules[k1].pattern.Word?
      && Spells(Atoms(rules[k1].pattern.keyword), kw)
      ==> k1 == k
  }

  /** For rules whose keyword spans are word-shaped, the span of a
      standalone word `kw` that only rule `k` spells is the one keyword span
      touching any character of `kw`. */
  lemma {:induction false} OneSpanPerWord(text: string, rules: seq<Rule>, k: int, kw: string, q: nat, idx: nat)
    requires WellFormedRules(rules) && KeywordRulesPaintWords(rules) && OnlyRuleSpells(rules, k, kw)
    requires kw != [] && kw[0] != 'p' && forall j :: 0 <= j < |kw| ==> IsWordChar(kw[j])
    requires OccursAt(text, q, kw) && !WordAt(text, q - 1) && !WordAt(text, q + |kw|)
    requires idx < |Highlight(text, rules)| && Highlight(text, rules)[idx] == Span(q, |kw|, Keyword)
    ensures forall x, c ::
              && 0 <= x < |Highlight(text, rules)|
              && Highlight(text, rules)[x].style == Keyword
              && q <= c < q + |kw|
              && Covers(Highlight(text, rules)[x], c)
              ==> x == idx
  {
    var h := Highlight(text, rules);
    forall x, c | 0 <= x < |h| && h[x].style == Keyword && q <= c < q + |kw| && Covers(h[x], c)
      ensures x == idx
    {
      OverlappingKeywordSpan(text, rules, kw, q, x, c);
      SoleRuleOfWord(text, rules, k, kw, q);
      HighlightOnce(text, rules, x, idx);
    }
  }

  /** For rules whose keyword spans are word-shaped, a keyword span that
      touches a standalone word not starting with `p` is that word's span:
      a whole-word match cannot start or end inside the word, nor reach
      across the characters other than word characters around it. */
  lemma {:induction false} OverlappingKeywordSpan(text: string, rules: seq<Rule>, kw: string, q: nat, x: nat, c: int)
    requires WellFormedRules(rules) && KeywordRulesPaintWords(rules)
    requires kw != [] && kw[0] != 'p' && forall j :: 0 <= j < |kw| ==> IsWordChar(kw[j])
    requires OccursAt(text, q, kw) && !WordAt(text, q - 1) && !WordAt(text, q + |kw|)
    requires x < |Highlight(text, rules)| && Highlight(text, rules)[x].style == Keyword
    requires q <= c < q + |kw| && Covers(Highlight(text, rules)[x], c)
    ensures Highlight(text, rules)[x] == Span(q, |kw|, Keyword)
  {
    var s := Highlight(text, rules)[x];
    var k1 := PaintedIndex(text, rules, x);
    WordRuleSpan(text, rules, k1, s);
    SliceShaped(text, s.start, s.len);
    OverlapIsOccurrence(text, kw, q, s.start, s.len, c);
  }

  /** A word-shaped slice, stated on the characters of the text. */
  lemma {:induction false} SliceShaped(text: string, start: nat, len: nat)
    requires start + len <= |text| && WordShaped(text[start..start + len])
    ensures forall i :: start < i < start + len ==> IsWordChar(text[i])
    ensures start < |text| && 0 < len && !IsWordChar(text[start]) ==> start + 1 < start + len && text[start + 1] == 'p'
  {
    var w := text[start..start + len];
    forall i | start < i < start + len ensures IsWordChar(text[i]) {
      assert w[i - start] == text[i];
    }
    if 0 < len {
      assert w[0] == text[start];
      if 1 < len {
        assert w[1] == text[start + 1];
      }
    }
  }

  /** Only rule `k` can paint the span of an occurrence of a word `kw` that
      only rule `k` spells. */
  lemma {:induction false} SoleRuleOfWord(text: string, rules: seq<Rule>, k: int, kw: string, q: nat)
    requires WellFormedRules(rules) && KeywordRulesPaintWords(rules) && OnlyRuleSpells(rules, k, kw)
    requires OccursAt(text, q, kw)
    ensures SoleRule(text, rules, Span(q, |kw|, Keyword))
  {
    var s := Span(q, |kw|, Keyword);
    forall k1, k2 | PaintedBy(text, rules, k1, s) && PaintedBy(text, rules, k2, s)
      ensures k1 == k2
    {
      PainterOfWord(text, rules, k, kw, q, k1);
      PainterOfWord(text, rules, k, kw, q, k2);
    }
  }

  /** The rule that paints the span of an occurrence of `kw` spells `kw`. */
  lemma {:induction false} PainterOfWord(text: string, rules: seq<Rule>, k: int, kw: string, q: nat, k1: int)
    requires WellFormedRules(rules) && KeywordRulesPaintWords(rules) && OnlyRuleSpells(rules, k, kw)
    requires OccursAt(text, q, kw)
    requires PaintedBy(text, rules, k1, Span(q, |kw|, Keyword))
    ensures k1 == k
  {
    WordRuleSpan(text, rules, k1, Span(q, |kw|, Keyword));
    assert text[q..q + |kw|] == kw;
  }

  /** The keyword rules of a known language paint only word-shaped texts. */
  lemma {:induction false} KnownRulesPaintWords(language: string)
    requires KnownLanguage(language)
    ensures KeywordRulesPaintWords(RulesFor(language))
  {
    var rules := RulesFor(language);
    forall k1 | 0 <= k1 < |rules| && rules[k1].style == Keyword ensures rules[k1].pattern.Word? {
      KeywordRuleAt(language, k1);
    }
    forall k1, w |
      && 0 <= k1 < |rules| && rules[k1].style == Keyword && rules[k1].pattern.Word?
      && Spells(Atoms(rules[k1].pattern.keyword), w)
      ensures WordShaped(w)
    {
      KeywordRuleAt(language, k1);
      SpelledShape(language, k1, w);
    }
  }

  /** Only its own rule spells a word-character keyword of a known
      language. */
  lemma {:induction false} OnlyOwnRuleSpells(language: string, k: nat)
    requires KnownLanguage(language) && k < |Vocabulary(language)|
    requires forall j :: 0 <= j < |Vocabulary(language)[k]| ==> IsWordChar(Vocabulary(language)[k][j])
    ensures OnlyRuleSpells(RulesFor(language), k, Vocabulary(language)[k])
  {
    var rules := RulesFor(language);
    forall k1 |
      && 0 <= k1 < |rules| && rules[k1].style == Keyword && rules[k1].pattern.Word?
      && Spells(Atoms(rules[k1].pattern.keyword), Vocabulary(language)[k])
      ensures k1 == k
    {
      KeywordRuleAt(language, k1);
      SpelledKeywordIsKeyword(language, k, k1);
    }
  }

  /** Every text a keyword rule of a known language spells is word-shaped. */
  lemma {:induction false} SpelledShape(language: string, k1: nat, w: string)
    requires KnownLanguage(language) && k1 < |Vocabulary(language)|
    requires Spells(Atoms(Vocabulary(language)[k1]), w)
    ensures WordShaped(w)
  {
    forall i | 0 < i < |w| ensures IsWordChar(w[i]) {
      if !IsWordChar(w[i]) {
        SpelledNonWordChar(language, k1, w, i);
      }
    }
    if 0 < |w| && !IsWordChar(w[0]) {
      SpelledNonWordChar(language, k1, w, 0);
    }
  }

  /** Rule `k1`'s pattern spells the word-character keyword `k` only when
      `k1` is `k`. */
  lemma {:induction false} SpelledKeywordIsKeyword(language: string, k: nat, k1: nat)
    requires KnownLanguage(language) && k < |Vocabulary(language)| && k1 < |Vocabulary(language)|
    requires forall j :: 0 <= j < |Vocabulary(language)[k]| ==> IsWordChar(Vocabulary(language)[k][j])
    requires Spells(Atoms(Vocabulary(language)[k1]), Vocabulary(language)[k])
    ensures k1 == k
  {
    VocabularySpells(language, k1, Vocabulary(language)[k]);
    NoWordKeywordStartsWithP(language, k);
    VocabularyDistinct(language, k1, k);
  }

  /** A rule of a known language that paints in the keyword style is the
      word rule of a vocabulary keyword. */
  lemma {:induction false} KeywordRuleAt(language: string, k: nat)
    requires KnownLanguage(language)
    requires k < |RulesFor(language)| && RulesFor(language)[k].style == Keyword
    ensures k < |Vocabulary(language)| && RulesFor(language)[k] == Rule(Word(Vocabulary(language)[k]), Keyword)
  {
    KnownLanguageShape(language);
  }

  /** The text-level core of `OverlappingKeywordSpan`: a range with word
      boundaries at both ends, whose only possible character other than a
      word character is a first one followed by `p`, that overlaps a
      standalone word not starting with `p` is exactly that word. */
  lemma {:induction false} OverlapIsOccurrence(text: string, word: string, q: nat, start: nat, len: nat, c: int)
    requires word != [] && word[0] != 'p'
    requires forall j :: 0 <= j < |word| ==> IsWordChar(word[j])
    requires OccursAt(text, q, word) && !WordAt(text, q - 1) && !WordAt(text, q + |word|)
    requires start + len <= |text| && Boundary(text, start) && Boundary(text, start + len)
    requires forall i :: start < i < start + len ==> IsWordChar(text[i])
    requires start < |text| && 0 < len && !IsWordChar(text[start]) ==> start + 1 < start + len && text[start + 1] == 'p'
    requires start <= c < start + len && q <= c < q + |word|
    ensures start == q && len == |word|
  {
    var e := start + len;
    if start > q {
      NoBoundaryInsideWord(text, word, q, start);
      assert false;
    } else if start < q {
      assert false;
    } else if e < q + |word| {
      NoBoundaryInsideWord(text, word, q, e);
      assert false;
    } else if e > q + |word| {
      assert false;
    }
  }

  /** A character some span covers is in the comment style when a comment
      marker occurs at or before it, and in the keyword style otherwise. */
  lemma {:induction false} CoveredCharColored(text: string, language: string, idx: nat, i: nat)
    requires KnownLanguage(language)
    requires forall j :: 0 <= j < |text| ==> text[j] != '\n'
    requires WellFormedRules(RulesFor(language))
    requires idx < |Highlight(text, RulesFor(language))| && Covers(Highlight(text, RulesFor(language))[idx], i)
    requires i < |text|
    ensures LineColors(text, language)[i]
              == if MarkerAtOrBefore(text, CommentMarker(language), i) then Some(Comment) else Some(Keyword)
  {
    PaintCovered(|text|, Highlight(text, RulesFor(language)), idx, i);
    CommentOverridesKeywords(text, language, i);
    if !MarkerAtOrBefore(text, CommentMarker(language), i) {
      OtherThanComment(LineColors(text, language)[i]);
    }
  }

  /** The php open tag `<?php` is spliced in unescaped, so its `<` is
      optional: the pattern matches exactly the text `<php` and `php`. */
  lemma {:induction false} OpenTagSpells(w: string)
    ensures Spells(Atoms("<?php"), w) <==> w == "<php" || w == "php"
  {
    var atoms := Atoms("<?php");
    assert atoms == [Opt('<')] + Atoms("php");
    assert atoms[1..] == Atoms("php");
    LiteralKeywordSpells("php", w);
    if |w| > 0 {
      LiteralKeywordSpells("php", w[1..]);
      if w[0] == '<' && w[1..] == "php" {
        assert w == ['<'] + w[1..];
      }
    }
    if w == "<php" {
      assert w[1..] == "php";
    }
  }

  /** The texts the `k`-th keyword rule of a language can paint: the keyword
      itself, and for the php open tag also `<php` and `php`. */
  lemma {:induction false} VocabularySpells(language: string, k: nat, w: string)
    requires KnownLanguage(language) && k < |Vocabulary(language)|
    ensures Spells(Atoms(Vocabulary(language)[k]), w)
        <==> if Vocabulary(language)[k] == "<?php" then w == "<php" || w == "php" else w == Vocabulary(language)[k]
  {
    var kw := Vocabulary(language)[k];
    VocabularyCharacters(language, k);
    if kw == "<?php" {
      OpenTagSpells(w);
    } else {
      LiteralKeywordSpells(kw, w);
    }
  }

  /** A line made only of word characters has word boundaries only at its two
      ends, so a keyword match there covers the whole line. */
  lemma {:induction false} WordLineMatch(text: string, keyword: string, p: nat)
    requires forall j :: 0 <= j < |text| ==> IsWordChar(text[j])
    requires WellFormed(Word(keyword))
    requires p <= |text| && MatchAt(text, p, Word(keyword)).Some?
    ensures p == 0 && MatchAt(text, p, Word(keyword)) == Some(|text|)
    ensures Spells(Atoms(keyword), text)
  {
    WordMatchIsWholeWord(text, p, keyword);
    var e := p + MatchAt(text, p, Word(keyword)).value;
    assert p == 0;
    assert e == |text|;
    assert text[0..|text|] == text;
  }

  /** Some vocabulary keyword of the language matches the whole of `w`. */
  ghost predicate SpelledByVocabulary(language: string, w: string)
    requires KnownLanguage(language)
  {
    exists k :: 0 <= k < |Vocabulary(language)| && Spells(Atoms(Vocabulary(language)[k]), w)
  }

  /** A line of word characters contains no comment marker. */
  lemma {:induction false} WordLineHasNoMarker(text: string, language: string, i: nat)
    requires KnownLanguage(language)
    requires forall j :: 0 <= j < |text| ==> IsWordChar(text[j])
    ensures !MarkerAtOrBefore(text, CommentMarker(language), i)
  {
    var marker := CommentMarker(language);
    forall c | 0 <= c <= i ensures !OccursAt(text, c, marker) {
      assert c < |text| ==> text[c] != marker[0];
    }
  }

  /** No character of a line of word characters is in the comment style. */
  lemma {:induction false} WordLineNotComment(text: string, language: string, i: nat)
    requires KnownLanguage(language)
    requires forall j :: 0 <= j < |text| ==> IsWordChar(text[j])
    requires i < |text|
    ensures LineColors(text, language)[i] != Some(Comment)
  {
    WordLineHasNoMarker(text, language, i);
    assert forall j :: 0 <= j < |text| ==> text[j] != '\n' by {
      forall j | 0 <= j < |text| ensures text[j] != '\n' {
        assert IsWordChar(text[j]);
      }
    }
    CommentOverridesKeywords(text, language, i);
  }

  /** A keyword rule whose expression matches the whole of a one-word line
      paints the whole line in its style. */
  lemma {:induction false} WholeLineSpan(text: string, rules: seq<Rule>, k: nat) returns (idx: nat)
    requires WellFormedRules(rules) && k < |rules| && rules[k].pattern.Word?
    requires forall j :: 0 <= j < |text| ==> IsWordChar(text[j])
    requires text != [] && Spells(Atoms(rules[k].pattern.keyword), text)
    ensures idx < |Highlight(text, rules)|
    ensures Highlight(text, rules)[idx] == Span(0, |text|, rules[k].style)
  {
    var kw := rules[k].pattern.keyword;
    assert Boundary(text, 0) && Boundary(text, |text|);
    assert text[0..|text|] == text;
    MatchRestComplete(text, 0, Atoms(kw), |text|);
    assert MatchAt(text, 0, Word(kw)).Some?;
    var j := ScanCovers(text, Word(kw), 0, 0);
    var ms := Scan(text, Word(kw), 0);
    ScanMatch(text, Word(kw), 0, j);
    WordLineMatch(text, kw, ms[j].start);
    idx := HighlightIndex(text, rules, k, j);
  }

  /** A one-word line that some keyword expression matches as a whole is
      painted in the keyword style throughout. */
  lemma {:induction false} SpelledWordLine(text: string, language: string, k: nat, i: nat)
    requires KnownLanguage(language) && k < |Vocabulary(language)|
    requires forall j :: 0 <= j < |text| ==> IsWordChar(text[j])
    requires Spells(Atoms(Vocabulary(language)[k]), text)
    requires i < |text|
    ensures LineColors(text, language)[i] == Some(Keyword)
  {
    var rules := RulesFor(language);
    RulesWellFormed(language);
    assert rules[k] == Rule(Word(Vocabulary(language)[k]), Keyword);
    var idx := WholeLineSpan(text, rules, k);
    PaintCovered(|text|, Highlight(text, rules), idx, i);
    WordLineNotComment(text, language, i);
    OtherThanComment(LineColors(text, language)[i]);
  }

  /** On a one-word line, a rule list that has no keyword expression
      matching the whole word and no rule for a marker in the line paints
      nothing. */
  lemma {:induction false} NoWholeWordMatch(text: string, rules: seq<Rule>)
    requires WellFormedRules(rules)
    requires forall j :: 0 <= j < |text| ==> IsWordChar(text[j])
    requires NoRuleFits(text, rules)
    ensures Highlight(text, rules) == []
  {
    var h := Highlight(text, rules);
    if h != [] {
      HighlightSound(text, rules, 0);
      var k :| PaintedBy(text, rules, k, h[0]);
      var pat := rules[k].pattern;
      if pat.Word? {
        WordLineMatch(text, pat.keyword, h[0].start);
      } else {
        CommentMatch(text, h[0].start, pat);
      }
    }
  }

  /** No rule of the list can match anywhere on the one-word line `text`:
      keyword expressions do not describe it, comment markers start with a
      non-word character. */
  ghost predicate NoRuleFits(text: string, rules: seq<Rule>)
    requires WellFormedRules(rules)
  {
    forall k :: 0 <= k < |rules| ==>
      if rules[k].pattern.Word? then !Spells(Atoms(rules[k].pattern.keyword), text)
      else !IsWordChar(rules[k].pattern.marker[0])
  }

  /** The rule list of a known language, in general form: keyword rules
      for a vocabulary none of whose expressions describes the line, then a
      comment rule whose marker starts with a non-word character. */
  lemma {:induction false} UnspelledRulesFit(text: string, vocabulary: seq<string>, comment: Pattern)
    requires WellFormedRules(KeywordRules(vocabulary) + [Rule(comment, Comment)])
    requires !comment.Word? && comment.marker != [] && !IsWordChar(comment.marker[0])
    requires forall k :: 0 <= k < |vocabulary| ==> !Spells(Atoms(vocabulary[k]), text)
    ensures NoRuleFits(text, KeywordRules(vocabulary) + [Rule(comment, Comment)])
  {
    var rules := KeywordRules(vocabulary) + [Rule(comment, Comment)];
    forall k | 0 <= k < |rules|
      ensures if rules[k].pattern.Word? then !Spells(Atoms(rules[k].pattern.keyword), text)
              else !IsWordChar(rules[k].pattern.marker[0])
    {
      if k < |vocabulary| {
        assert rules[k] == Rule(Word(vocabulary[k]), Keyword);
      } else {
        assert rules[k] == Rule(comment, Comment);
      }
    }
  }

  /** The rule list of a known language is its keyword rules followed by
      a comment rule whose marker starts with a non-word character. */
  lemma {:induction false} KnownLanguageShape(language: string)
    requires KnownLanguage(language)
    ensures RulesFor(language) == KeywordRules(Vocabulary(language)) + [Rule(CommentPattern(language), Comment)]
    ensures WellFormedRules(RulesFor(language))
    ensures !CommentPattern(language).Word? && !IsWordChar(CommentMarker(language)[0])
  {
    RulesWellFormed(language);
    CommentRuleIsLast(language);
  }

  /** A one-word line that no keyword expression matches as a whole gets no
      span at all. */
  lemma {:induction false} UnspelledWordLine(text: string, language: string)
    requires KnownLanguage(language)
    requires forall j :: 0 <= j < |text| ==> IsWordChar(text[j])
    requires forall k :: 0 <= k < |Vocabulary(language)| ==> !Spells(Atoms(Vocabulary(language)[k]), text)
    ensures WellFormedRules(RulesFor(language))
    ensures Highlight(text, RulesFor(language)) == []
  {
    KnownLanguageShape(language);
    UnspelledRulesFit(text, Vocabulary(language), CommentPattern(language));
    NoWholeWordMatch(text, RulesFor(language));
  }

  /** A line consisting of one word: it is painted entirely in the keyword
      style when some keyword expression matches the whole word, and not at
      all otherwise. In particular a keyword inside a longer word (`echo` in
      `echoing`, `if` in `elseif`) is never painted. */
  lemma {:induction false} SingleWordLine(text: string, language: string, i: nat)
    requires KnownLanguage(language)
    requires forall j :: 0 <= j < |text| ==> IsWordChar(text[j])
    requires i < |text|
    ensures LineColors(text, language)[i] == if SpelledByVocabulary(language, text) then Some(Keyword) else None
  {
    if SpelledByVocabulary(language, text) {
      var k :| 0 <= k < |Vocabulary(language)| && Spells(Atoms(Vocabulary(language)[k]), text);
      SpelledWordLine(text, language, k, i);
    } else {
      UnspelledWordLine(text, language);
      PaintUncovered(|text|, [], i);
    }
  }

  /** A character that a keyword rule's scan covers, with no comment marker
      at or before it on a line without a newline, ends up in the keyword
      style. */
  lemma {:induction false} ScannedKeywordColored(text: string, language: string, k: nat, j: nat, i: nat)
    requires KnownLanguage(language) && k < |Vocabulary(language)|
    requires WellFormed(Word(Vocabulary(language)[k]))
    requires forall c :: 0 <= c < |text| ==> text[c] != '\n'
    requires j < |Scan(text, Word(Vocabulary(language)[k]), 0)|
    requires Scan(text, Word(Vocabulary(language)[k]), 0)[j].start <= i < Scan(text, Word(Vocabulary(language)[k]), 0)[j].End()
    requires !MarkerAtOrBefore(text, CommentMarker(language), i)
    ensures i < |text| && LineColors(text, language)[i] == Some(Keyword)
  {
    var rules := RulesFor(language);
    RulesWellFormed(language);
    assert rules[k] == Rule(Word(Vocabulary(language)[k]), Keyword);
    var idx := HighlightIndex(text, rules, k, j);
    ScanMatch(text, Word(Vocabulary(language)[k]), 0, j);
    var h := Highlight(text, rules);
    PaintCovered(|text|, h, idx, i);
    CommentOverridesKeywords(text, language, i);
    OtherThanComment(LineColors(text, language)[i]);
  }

  /** The pattern matches nowhere at or before position `i`. */
  ghost predicate NoMatchUpTo(text: string, pat: Pattern, i: int) {
    forall q :: 0 <= q <= i && q <= |text| ==> MatchAt(text, q, pat).None?
  }

  /** A character that no rule can start a match at or before is left
      unformatted. */
  lemma {:induction false} UnformattedWhereNoRuleStarts(text: string, rules: seq<Rule>, i: nat)
    requires WellFormedRules(rules) && i < |text|
    requires forall k :: 0 <= k < |rules| ==> NoMatchUpTo(text, rules[k].pattern, i)
    ensures Paint(|text|, Highlight(text, rules))[i] == None
  {
    var h := Highlight(text, rules);
    if Paint(|text|, h)[i].Some? {
      PaintSource(|text|, h, i);
      var j :| 0 <= j < |h| && Covers(h[j], i) && h[j].style == Paint(|text|, h)[i].value;
      HighlightSound(text, rules, j);
    }
  }

  /** A character with no word boundary and no comment marker at or before
      it is left unformatted. */
  lemma {:induction false} UnformattedBeforeAnyMatch(text: string, language: string, i: nat)
    requires KnownLanguage(language) && i < |text|
    requires forall q :: 0 <= q <= i ==> !Boundary(text, q)
    requires !MarkerAtOrBefore(text, CommentMarker(language), i)
    ensures LineColors(text, language)[i] == None
  {
    var rules := RulesFor(language);
    RulesWellFormed(language);
    forall k | 0 <= k < |rules| ensures NoMatchUpTo(text, rules[k].pattern, i) {
      if k < |Vocabulary(language)| {
        assert rules[k] == Rule(Word(Vocabulary(language)[k]), Keyword);
      } else {
        assert rules[k] == Rule(CommentPattern(language), Comment);
      }
    }
    UnformattedWhereNoRuleStarts(text, rules, i);
  }

}
