# SimpleTex syntax highlighter: a Dafny model

SimpleTex is a small PyQt text editor. Its core is a syntax highlighter with
two language profiles, `php` and `bash`. The model covers four parts of it:

- **Rule construction** (`SyntaxHighlighter.__init__`). A known tag gets one
  whole-word keyword rule `\b<keyword>\b` per vocabulary entry, in order, and
  then one comment rule: `//[^\n]*` for php, `#.*` for bash. Keyword rules
  paint bold blue and the comment rule paints dark green. Any other tag gets
  no rules.
- **Line recolouring** (`highlightBlock`). Each rule in order searches the
  line from the start. It paints each match with `setFormat` and resumes the
  search where the match ends. Later paint overwrites earlier paint.
- **Highlighter choice** (`set_highlighter`). The file path's extension, as
  `os.path.splitext` returns it, is lowered. `.php` selects php; `.sh` and
  `.bash` select bash; anything else drops the window's reference to the
  highlighter.
- **Window state** (`mark_unsaved`, `load_file`, `open_file`, `save_file`,
  `closeEvent`). These cover the unsaved-changes flag, the associated file,
  and the close decision.

The modules, in dependency order:

- `Wrappers`: `Option`.
- `Text`: word characters, the `\b` word boundary, and occurrence of a
  substring.
- `Patterns`: the three regular-expression shapes the highlighter builds.
  Also a backtracking matcher for the keyword shape, anchored matching, the
  table of anchored matches at every position of a line, and `indexIn` as a
  search of that table.
- `Rules`: the rule list per language tag.
- `Recolor`: the scan loop, the paint list, and the formats a line ends up
  with.
- `Keywords`: consequences for keywords on a line under a known profile.
- `Scenarios`: concrete lines.
- `Extension`: `splitext`, lowering, and the extension-to-language map.
- `Editor`: the window state.

Regular-expression semantics modelled:

- Each keyword is spliced into the expression unescaped. The only
  metacharacter any keyword contains is the `?` of `<?php`, which makes the
  `<` optional (`Patterns.Atoms`). The rule for `<?php` therefore matches the
  texts `<php` and `php`, never the open tag itself. On the line `<?php` it
  paints only `php` (`Scenarios.OpenTagLine`), and a bare `php` is painted as
  a keyword (`Scenarios.BarePhpIsKeyword`).
- `\b` is judged against the whole line, including characters before the
  search offset. Positions outside the line count as non-word characters.
- The dot in `#.*` also matches a newline. `[^\n]*` stops at one. Lines
  handed to the highlighter contain no newline, so both comment rules run to
  the end of the line.

## Model

| member | source | states |
|---|---|---|
| Patterns.AtomsRoundTrip | simpletex.py:26 | reading a keyword as regex atoms and writing them back gives the keyword text: the splicing loses nothing |
| Patterns.Atoms | simpletex.py:26 | splicing a keyword into the expression reads each character as one atom, except that a `?` makes the character before it optional: there are at most as many atoms as characters and at least half as many |
| Patterns.MatchRest | simpletex.py:26 | the backtracking matcher for a keyword followed by `\b` returns an end position that is on a word boundary, not before the start, and strictly after it when the keyword has a required character |
| Patterns.MatchRestSound | simpletex.py:26 | whatever the matcher returns is a text the keyword expression describes |
| Patterns.MatchRestComplete | simpletex.py:26 | backtracking misses nothing: any text the expression describes that ends on a word boundary yields a match |
| Patterns.LiteralKeywordSpells | simpletex.py:25-26 | a keyword with no `?` describes exactly itself |
| Patterns.RunWithout | simpletex.py:27 | `[^\n]*` consumes the longest run without a newline: it stays in the line, contains no newline, and stops at a newline or the end |
| Patterns.MatchAt | simpletex.py:26-27 | an anchored match stays inside the line and is non-empty for every pattern the highlighter builds |
| Patterns.MatchesAt | simpletex.py:36 | entry `p` of the table `indexIn` consults is the anchored match of the pattern at position `p` |
| Patterns.Anchored | simpletex.py:36 | helper: the anchored matches at the first `n` positions of a line, one entry per position |
| Patterns.Matches | simpletex.py:36 | helper: the table `indexIn` consults, one entry per position of the line and one for its end |
| Patterns.AnchoredAt | simpletex.py:36 | helper: entry `p` of the partial table is the anchored match at `p` |
| Patterns.MatchesAdvance | simpletex.py:26-27 | for every pattern the highlighter builds, each match in the table is non-empty and ends inside the line |
| Patterns.Find | simpletex.py:36 | `indexIn` returns a position at or after the offset where the pattern matches |
| Patterns.FindLeftmost | simpletex.py:36 | the position `indexIn` returns is the leftmost match: no position between the offset and it matches, and none from the offset on when it finds nothing |
| Patterns.FindNotAfter | simpletex.py:36 | wherever the pattern matches, `indexIn` from any earlier offset finds that position or an earlier one |
| Patterns.WordMatchIsWholeWord | simpletex.py:26 | a keyword match begins and ends on a word boundary, and the matched text is spelled by the keyword |
| Patterns.WordMatchSpells | simpletex.py:26 | helper: the same fact as `WordMatchIsWholeWord` for a match of a given length |
| Patterns.WholeWordIsMatch | simpletex.py:26 | conversely, a keyword occurrence with a word boundary on both sides is matched, with exactly the keyword's length |
| Patterns.CommentMatch | simpletex.py:27 | a comment pattern matches exactly where its marker occurs; on a line without a newline the match runs to the end of the line |
| Rules.KeywordRules | simpletex.py:26 | helper: one keyword-style whole-word rule per keyword, in vocabulary order |
| Rules.RulesFor | simpletex.py:24-31 | an unknown tag gets no rules; a known tag gets its keyword rules in vocabulary order followed by its comment rule, last |
| Rules.RulesWellFormed | simpletex.py:24-31 | every rule the constructor builds has only non-empty matches, so the scan of a line always advances |
| Rules.CommentRuleIsLast | simpletex.py:24-31 | the rule list is the keyword rules plus the comment rule at the end; every other rule has the keyword style |
| Rules.VocabularyCharacters | simpletex.py:25 | `<?php` is the only keyword with a non-word character; it reads as optional `<` then `p`, `h`, `p` |
| Rules.Vocabulary | simpletex.py:24-30 | each known profile has eight keywords |
| Rules.VocabularyDistinct | simpletex.py:25-29 | no keyword appears twice in a vocabulary |
| Rules.CommentPattern | simpletex.py:27-31 | each known profile has one comment expression with a non-empty marker; it stops at a newline exactly for php (`//[^\n]*`), while bash's `#.*` does not |
| Rules.CommentMarker | simpletex.py:27-31 | helper: the literal text a comment match starts with, `//` or `#`, never empty |
| Recolor.ScanStep | simpletex.py:36-40 | helper: the scan's first match is the one `indexIn` finds from the offset, with the length the table gives, and the scan resumes where it ends |
| Recolor.ScanElement | simpletex.py:36-40 | every recorded match is a match from the table at or after the offset |
| Recolor.ScanOrdered | simpletex.py:36-40 | each recorded match ends at or before the next one starts |
| Recolor.ScanDisjoint | simpletex.py:36-40 | any two recorded matches, in order, are disjoint |
| Recolor.ScanMatchIndex | simpletex.py:36-40 | every position where the table has a match lies inside some recorded match |
| Recolor.ScanMatch | simpletex.py:36-40 | each match recorded on a line is a non-empty match of the pattern inside the line, at or after the offset |
| Recolor.ScanMatches | simpletex.py:36-40 | the matches one rule paints are non-empty, inside the line, matches of the pattern, in increasing order and pairwise disjoint |
| Recolor.ScanCovers | simpletex.py:36-40 | every position of a line where the pattern matches lies inside a recorded match |
| Recolor.ScanFirst | simpletex.py:36-40 | the pattern matches nowhere between the offset and the scan's first match, and nowhere from the offset on when the scan is empty |
| Recolor.ScanCoversEveryMatch | simpletex.py:36-40 | every position where the pattern matches lies inside some recorded match: the scan skips only matches that start inside an earlier match |
| Recolor.ScanFrom | simpletex.py:36-40 | the `while index >= 0` loop over the match table: it records nothing exactly when `indexIn` finds nothing from the offset, and records at most one match per remaining position |
| Recolor.Scan | simpletex.py:36-40 | the loop on a line: at most one recorded match per position of the line and its end |
| Recolor.ScanStartsIncrease | simpletex.py:36-40 | the recorded matches start at strictly increasing positions |
| Recolor.RuleSpans | simpletex.py:38-39 | helper: one rule paints one span per scanned match, in the rule's style |
| Recolor.RuleSpansOnce | simpletex.py:36-40 | one rule never paints the same span twice |
| Recolor.Highlight | simpletex.py:33-40 | the paint list: each rule's spans, rules in list order; what it contains is stated by `HighlightSound`, `HighlightComplete` and `HighlightOnce` |
| Recolor.HighlightFirst | simpletex.py:34 | helper: the paint list is the first rule's spans followed by the rest's |
| Recolor.PaintedByTail | simpletex.py:34 | helper: a span a rule of the tail paints is painted by the same rule of the whole list |
| Recolor.PaintedByFirst | simpletex.py:34-40 | helper: every span of the first rule is painted by rule 0 |
| Recolor.PaintedIndex | simpletex.py:33-40 | every entry of the paint list has a rule that paints it |
| Recolor.KeywordStylePainter | simpletex.py:33-40 | a character left in the keyword style is covered by a keyword-style span that some rule of the list paints |
| Recolor.KeywordStyleWord | simpletex.py:33-40 | when every keyword-style rule of a list matches a word, a character left in the keyword style lies in a stretch with a word boundary at both ends that one of those words describes |
| Recolor.WordRuleSpan | simpletex.py:26 | a span painted by a keyword rule is non-empty, inside the line, starts and ends on a word boundary and is spelled by the keyword |
| Recolor.HighlightAppend | simpletex.py:34 | rules are applied in list order: applying two lists in turn paints the first list's spans and then the second's |
| Recolor.HighlightSound | simpletex.py:33-40 | every painted span is a match of some rule's pattern, in that rule's style |
| Recolor.HighlightIndex | simpletex.py:33-40 | the position in the paint list of a given match of a given rule, painted in that rule's style |
| Recolor.HighlightComplete | simpletex.py:33-40 | every match a rule's scan records is painted, in that rule's style |
| Recolor.TwoRulesPaint | simpletex.py:33-40 | a span painted both by the first rule and by a later one has two painters |
| Recolor.SoleRuleTail | simpletex.py:34 | helper: a span with one painter in a list has at most one in its tail |
| Recolor.FirstRuleOnce | simpletex.py:33-40 | helper: the first-rule case of `HighlightOnce` |
| Recolor.HighlightOnce | simpletex.py:33-40 | a span that only one rule can paint occurs at most once in the paint list |
| Recolor.UniformStyle | simpletex.py:26 | rules that all share one style paint only in that style |
| Recolor.PaintUncovered | simpletex.py:39 | a character no span covers stays unformatted |
| Recolor.PaintLastWriter | simpletex.py:39 | later writes win: a character has the style of the last span covering it |
| Recolor.PaintSource | simpletex.py:39 | every formatted character has a covering span of its style |
| Recolor.PaintCovered | simpletex.py:39 | every covered character is formatted |
| Recolor.PaintSuffixStyle | simpletex.py:39 | a character covered by one of the final spans, all of one style, ends up in that style |
| Recolor.SetFormat | simpletex.py:39 | one `setFormat` call gives exactly the covered characters the span's style and leaves every other character as it was |
| Recolor.Paint | simpletex.py:39 | the formats of a line after a list of `setFormat` calls, one per character; what they are is stated by `PaintUncovered`, `PaintLastWriter`, `PaintSource` and `PaintCovered` |
| Recolor.LineColors | simpletex.py:33-40 | the formats `highlightBlock` leaves on a line, one per character; an unknown tag leaves every character unformatted |
| Recolor.CommentScan | simpletex.py:27 | a comment rule paints at most one span on a line: nothing when the marker does not occur, otherwise from the first occurrence of the marker to the end of the line |
| Recolor.KeywordSpanIsWholeWord | simpletex.py:26 | every keyword span is a whole word; for keywords made of word characters it is exactly the keyword, with no word character just before or after |
| Recolor.NoBoundaryInsideWord | simpletex.py:26 | there is no `\b` strictly inside an occurrence of a word of word characters |
| Recolor.StandaloneKeywordIndex | simpletex.py:26 | the recorded match that is a given standalone occurrence of a keyword made of word characters, covering exactly that occurrence |
| Recolor.StandaloneKeywordIsPainted | simpletex.py:26 | every standalone occurrence of such a keyword is recorded by the keyword's scan, as a match covering exactly it |
| Recolor.KeywordsThenComment | simpletex.py:24-31 | keyword rules followed by the comment rule paint the keyword spans, all in the keyword style, then the comment spans |
| Recolor.KnownLanguageRules | simpletex.py:24-31 | a known language's rules are well-formed keyword-style rules followed by its comment rule |
| Recolor.CommentSpanOverPaint | simpletex.py:39 | one comment span to the end of the line over keyword paint: exactly the characters from its start are in the comment style |
| Recolor.CommentSpan | simpletex.py:27 | a comment rule that matches on a line paints one span, from the first occurrence of its marker to the end of the line |
| Recolor.NoCommentMatch | simpletex.py:27-40 | on a line with no comment match, no character is in the comment style and no marker occurs |
| Recolor.OneCommentMatch | simpletex.py:27-40 | on a line with a comment match, a character is in the comment style exactly when a marker occurs at or before it |
| Recolor.FirstMarker | simpletex.py:36 | a marker occurs at or before a position exactly when its first occurrence does |
| Recolor.NoMarkerUpTo | simpletex.py:27-31 | a line whose characters up to a position differ from the marker's first character has no marker at or before any earlier position |
| Recolor.KeywordSpansOnly | simpletex.py:26 | keyword paint alone never gives the comment style |
| Recolor.CommentRuleOverridesKeywordRules | simpletex.py:34-40 | with the comment rule last, a character is in the comment style exactly when a marker occurs at or before it |
| Recolor.CommentOverridesKeywords | simpletex.py:24-40 | for both profiles, the comment style wins: a character is in the comment style exactly when the comment marker occurs at or before it, even over a keyword |
| Recolor.UnknownLanguagePaintsNothing | simpletex.py:24-31 | a highlighter for an unknown tag paints nothing and leaves every character unformatted |
| Recolor.CommentFrom | simpletex.py:24-40 | on a line whose first comment marker starts at `c`, everything from `c` on is in the comment style and nothing before it is |
| Keywords.StandaloneKeywordColored | simpletex.py:24-40 | a standalone vocabulary keyword made of word characters gets a keyword span; its characters are in the keyword style unless a comment marker occurs at or before them |
| Keywords.StandaloneKeywordSpan | simpletex.py:24-40 | a standalone vocabulary keyword made of word characters is painted by exactly one keyword span, covering exactly it, and no other keyword span touches any of its characters |
| Keywords.StandaloneKeywordIn | simpletex.py:24-31 | helper: gathers the profile facts `StandaloneWordSpan` needs |
| Keywords.StandaloneWordSpan | simpletex.py:33-40 | the same uniqueness for any rule list whose keyword rules paint whole words and in which only one rule spells the keyword |
| Keywords.KeywordBeforeComment | simpletex.py:24-40 | a standalone keyword made of word characters, with no comment marker at or before its last character, is in the keyword style throughout |
| Keywords.KeywordStyleIsSpelledWord | simpletex.py:24-40 | conversely, every character in the keyword style lies in a stretch with a word boundary at both ends that some keyword of the profile describes |
| Keywords.PlainCharacter | simpletex.py:24-40 | a non-word character not followed by `p`, with no comment marker at or before it, stays unformatted |
| Keywords.ShapedStretchAvoids | simpletex.py:26 | helper: a stretch a keyword describes contains no such character |
| Keywords.PlainWord | simpletex.py:24-40 | a standalone word that is no keyword of the profile and does not start with `p`, with no comment marker at or before it, stays unformatted |
| Keywords.OneSpanPerWord | simpletex.py:33-40 | no keyword span other than the keyword's own covers any of its characters |
| Keywords.OverlappingKeywordSpan | simpletex.py:26 | a keyword span that covers a character of a standalone keyword is that keyword's span |
| Keywords.OverlapIsOccurrence | simpletex.py:26 | two whole-word stretches of a line that share a character are the same stretch |
| Keywords.SliceShaped | simpletex.py:26 | helper: the character shape of a spelled stretch, position by position |
| Keywords.SoleRuleOfWord | simpletex.py:24-31 | only the keyword's own rule can paint its span |
| Keywords.PainterOfWord | simpletex.py:24-31 | helper: any rule painting the keyword's span is the keyword's own rule |
| Keywords.KnownRulesPaintWords | simpletex.py:24-31 | every keyword-style rule of a known profile is a whole-word rule, and every text it spells is made of word characters, except that its first character may be another one when `p` follows it |
| Keywords.OnlyOwnRuleSpells | simpletex.py:25-29 | no keyword rule of its profile other than its own describes a keyword made of word characters |
| Keywords.SpelledShape | simpletex.py:25-29 | every text a keyword describes is made of word characters, except that its first character may be another one when `p` follows it |
| Keywords.SpelledKeywordIsKeyword | simpletex.py:25-29 | a keyword of word characters is described by no other keyword of its vocabulary |
| Keywords.KeywordRuleAt | simpletex.py:24-31 | a keyword-style rule of a known profile is the whole-word rule of the keyword at the same index |
| Keywords.NoWordKeywordStartsWithP | simpletex.py:25-29 | a keyword made of word characters is non-empty and does not start with `p` |
| Keywords.SpelledNonWordChar | simpletex.py:25-29 | the only spelled text with a non-word character is `<php`, from `<?php`, with `<` first |
| Keywords.OtherThanComment | simpletex.py:17-22 | helper: a formatted character not in the comment style is in the keyword style |
| Keywords.CoveredCharColored | simpletex.py:24-40 | a character some span covers is in the comment style when a comment marker occurs at or before it, and in the keyword style otherwise |
| Keywords.OpenTagSpells | simpletex.py:25-26 | the spliced `<?php` expression describes exactly `<php` and `php` |
| Keywords.VocabularySpells | simpletex.py:25-30 | the texts each keyword rule can paint: the keyword itself, and for `<?php` the texts `<php` and `php` |
| Keywords.WordLineMatch | simpletex.py:26 | on a line of word characters, a keyword match starts at 0 and covers the whole line |
| Keywords.WordLineHasNoMarker | simpletex.py:27 | a line of word characters contains no comment marker |
| Keywords.WordLineNotComment | simpletex.py:27 | no character of such a line is in the comment style |
| Keywords.WholeLineSpan | simpletex.py:33-40 | a keyword rule whose expression describes the whole one-word line paints the whole line |
| Keywords.SpelledWordLine | simpletex.py:24-40 | a one-word line that some keyword describes is in the keyword style throughout |
| Keywords.NoWholeWordMatch | simpletex.py:33-40 | a rule list with no rule that fits a one-word line paints nothing on it |
| Keywords.UnspelledRulesFit | simpletex.py:24-31 | no rule of a known profile fits a one-word line that no keyword describes |
| Keywords.KnownLanguageShape | simpletex.py:24-31 | a known profile's rules are its keyword rules then a comment rule whose marker starts with a non-word character |
| Keywords.UnspelledWordLine | simpletex.py:24-40 | a one-word line that no keyword describes gets no span at all |
| Keywords.SingleWordLine | simpletex.py:24-40 | a one-word line is painted in the keyword style exactly when some keyword describes the whole word, and otherwise left unformatted; a keyword inside a longer word is never painted |
| Keywords.ScannedKeywordColored | simpletex.py:24-40 | a character inside a keyword rule's match with no comment marker at or before it is in the keyword style |
| Keywords.UnformattedWhereNoRuleStarts | simpletex.py:33-40 | a character with no match of any rule starting at or before it stays unformatted |
| Keywords.UnformattedBeforeAnyMatch | simpletex.py:24-40 | under a known profile, a character with no word boundary and no comment marker at or before it stays unformatted |
| Scenarios.OpenTagScan | simpletex.py:25-26 | on the line `<?php` the open-tag rule's only match is `php`, at position 2 |
| Scenarios.OpenTagHasNoMarker | simpletex.py:27 | the line `<?php` contains no `//` |
| Scenarios.OpenTagText | simpletex.py:26 | the line `<?php` has no newline and no word boundary before `p` |
| Scenarios.OpenTagPrefix | simpletex.py:24-40 | under php, the `<?` of `<?php` stays unformatted |
| Scenarios.OpenTagName | simpletex.py:24-40 | under php, the `php` of `<?php` is in the keyword style |
| Scenarios.OpenTagLine | simpletex.py:24-40 | under php, the line `<?php` has `<?` unformatted and `php` in the keyword style |
| Scenarios.BarePhpIsKeyword | simpletex.py:24-40 | under php, the line `php` is in the keyword style throughout |
| Scenarios.EchoingIsPlain | simpletex.py:28-40 | under bash, `echoing` is left unformatted: `echo` inside a longer word is not a keyword |
| Scenarios.ElseifIsPlain | simpletex.py:24-40 | under php, `elseif` is left unformatted: neither `else` nor `if` is painted inside it |
| Scenarios.PhpLineText | simpletex.py:27 | helper: the example php line has no newline and its first `//` at position 22 |
| Scenarios.PhpLineWords | simpletex.py:25 | helper: where `if` and `echo` stand in the example php line |
| Scenarios.PhpLineIf | simpletex.py:24-40 | helper: `if` of the example php line is in the keyword style |
| Scenarios.PhpLineEcho | simpletex.py:24-40 | helper: `echo` of the example php line is in the keyword style |
| Scenarios.PhpLineGapChar | simpletex.py:26 | helper: the punctuation and blanks of the example php line are no word characters and precede no `p` |
| Scenarios.PhpLineGapWords | simpletex.py:26 | helper: `x` and `hi` stand alone in the example php line |
| Scenarios.PhpLineFirstGap | simpletex.py:24-40 | under php, `(x) { ` of the example line stays unformatted |
| Scenarios.PhpLineSecondGap | simpletex.py:24-40 | under php, ` "hi"; } ` of the example line stays unformatted |
| Scenarios.PhpExampleLine | simpletex.py:24-40 | under php, `if (x) { echo "hi"; } // show` has `if` and `echo` in the keyword style, every other character before `//` unformatted, and exactly `// show` in the comment style |
| Scenarios.BashLineText | simpletex.py:31 | helper: the example bash line has no newline and its first `#` at position 33 |
| Scenarios.BashLineWords | simpletex.py:30 | helper: where `for`, `do`, `echo` and `done` stand in the example bash line |
| Scenarios.BashLineFirstKeywords | simpletex.py:28-40 | helper: `for` and `do` of the example bash line are in the keyword style |
| Scenarios.BashLineLastKeywords | simpletex.py:28-40 | helper: `echo` and `done` of the example bash line are in the keyword style |
| Scenarios.BashLineGapChar | simpletex.py:30 | helper: the punctuation and blanks of the example bash line are no word characters and precede no `p` |
| Scenarios.BashLineGapWords | simpletex.py:30 | helper: `i`, `in` and the later `i` stand alone in the example bash line |
| Scenarios.BashLineNumberWords | simpletex.py:30 | helper: `1`, `2` and `3` stand alone in the example bash line |
| Scenarios.BashLineNonKeywords | simpletex.py:28-30 | helper: `i`, `in`, `1`, `2` and `3` are no bash keywords |
| Scenarios.BashLineDigit | simpletex.py:28-40 | under bash, each digit of `1 2 3` in the example line stays unformatted |
| Scenarios.BashLineFirstGap | simpletex.py:28-40 | under bash, ` i in ` of the example line stays unformatted |
| Scenarios.BashLineNumbers | simpletex.py:28-40 | under bash, `1 2 3; ` of the example line stays unformatted |
| Scenarios.BashLineLastGaps | simpletex.py:28-40 | under bash, the blanks between the later keywords and ` $i; ` stay unformatted |
| Scenarios.BashExampleLine | simpletex.py:28-40 | under bash, `for i in 1 2 3; do echo $i; done # loop` has `for`, `do`, `echo` and `done` in the keyword style, every other character before `#` unformatted, and exactly `# loop` in the comment style |
| Extension.LastIndexOf | simpletex.py:158 | the index of the last occurrence of a character, or -1 when there is none |
| Extension.SplitExt | simpletex.py:158 | `splitext` splits the path into a root and an extension that together give the path back; the extension is empty or a dot followed by characters that are neither dots nor slashes |
| Extension.LastIndexOfAt | simpletex.py:158 | helper: a position holding the character with none after it is the last index |
| Extension.ExtStartsAtLastDot | simpletex.py:158 | the extension starts at the last dot when that dot is in the last path component and something other than a dot precedes it there, and is empty otherwise |
| Extension.SplitExtExamples | simpletex.py:158 | `a..php` has extension `.php`, `archive.tar.sh` has `.sh`, `conf.d/run` and `...php` have none |
| Extension.Ext | simpletex.py:158 | the extension is empty or starts with a dot, and is no longer than the path |
| Extension.LowerChar | simpletex.py:158 | helper: lowering maps `A`-`Z` to `a`-`z` and leaves every other character unchanged |
| Extension.Lower | simpletex.py:158 | helper: lowering a string lowers each character and keeps the length |
| Extension.LanguageFor | simpletex.py:157-164 | the lowered extension `.php` selects php, `.sh` and `.bash` select bash, anything else selects no highlighter; every selected tag is a known one |
| Extension.LowerCharKeeps | simpletex.py:158 | lowering turns no other character into a dot or a slash, and leaves dots and slashes alone |
| Extension.LowerIdempotent | simpletex.py:158 | lowering twice is lowering once |
| Extension.LowerDotted | simpletex.py:158 | helper: lowering a dot followed by a suffix is a dot followed by the lowered suffix |
| Extension.LastIndexOfLower | simpletex.py:158 | lowering does not move the last dot or the last slash |
| Extension.ExtLower | simpletex.py:158 | splitting off the extension commutes with lowering |
| Extension.LanguageIgnoresCase | simpletex.py:157-164 | two paths that agree once lowered get the same highlighter |
| Extension.ExtOfStemAndSuffix | simpletex.py:158 | a stem plus `.` plus a dot-free suffix has the dot and the suffix as its extension |
| Extension.HiddenFileHasNoExtension | simpletex.py:157-164 | a hidden file such as `.bash` or `.php`, given alone or after a directory ending in `/`, has no extension and gets no highlighter |
| Extension.LanguageOfSuffix | simpletex.py:157-164 | a file named stem plus suffix gets php when the suffix is `php` in any case, bash for `sh` or `bash` in any case, and no highlighter otherwise |
| Editor.MarkUnsaved | simpletex.py:102-103 | helper: `mark_unsaved` sets the unsaved flag and changes nothing else |
| Editor.SetText | simpletex.py:50 | a content change replaces the text and, through `textChanged`, sets the unsaved flag; file and highlighter are kept |
| Editor.LoadFile | simpletex.py:105-115 | a successful load shows the content, taken as plain text, records the file, clears the unsaved flag and attaches the highlighter the path selects; a failed one shows the error, which counts as an unsaved change, and keeps file and highlighter |
| Editor.OpenFile | simpletex.py:117-120 | a cancelled open dialog changes nothing; otherwise the chosen file is loaded |
| Editor.Launch | simpletex.py:55-62 | the window starts clean with no file and no highlighter, then loads the file named on the command line, if any: a successful read shows the content, taken as plain text, clean, with that file and the highlighter its path selects; a failed read shows the error, with unsaved changes and still no file and no highlighter |
| Editor.PlainText | simpletex.py:133 | `toPlainText` keeps the length and every character except a non-breaking space, U+2028, U+2029, U+FDD0 and U+FDD1, which it replaces by a space or a newline, so none of them is handed out |
| Editor.PlainTextIdempotent | simpletex.py:133 | converting the converted text again changes nothing |
| Editor.PlainTextKeeps | simpletex.py:133 | text without those characters is handed out unchanged |
| Editor.NonBreakingSpaceSavedAsSpace | simpletex.py:133 | `a`, a non-breaking space, `b` is saved as `a b` |
| Editor.SaveFile | simpletex.py:122-138 | nothing is written or changed exactly when there is no file and the save dialog is cancelled; otherwise the text as `toPlainText` hands it out is written to the window's file or the chosen path, which becomes the window's file; success clears the unsaved flag and keeps the text, failure shows the error and leaves the flag set |
| Editor.CloseEvent | simpletex.py:140-155 | the window closes unless it has unsaved changes and the answer is Cancel; a clean window closes without consulting the answer; No and Cancel change nothing; Yes saves first |
| Editor.WindowLineColors | simpletex.py:157-164 | without a highlighter no character of any line is formatted |
| Editor.EditMarksUnsaved | simpletex.py:50 | after any edit the window has unsaved changes, so Cancel keeps it open |
| Editor.LoadedWindowClosesSilently | simpletex.py:105-155 | a window just loaded successfully closes without consulting the answer |
| Editor.SavedWindowClosesSilently | simpletex.py:122-155 | after a successful save the window closes without consulting the answer |
| Editor.LoadThenSaveRoundTrip | simpletex.py:105-138 | saving a file just loaded writes exactly the content read back to the same path, when the content holds none of the characters `toPlainText` converts |
| Editor.YesClosesEvenWithoutSaving | simpletex.py:122-153 | Yes closes the window even when the save dialog is cancelled or the write fails, so the unsaved changes are lost |
| Editor.LoadReplacesHighlighter | simpletex.py:113 | after a load the formats of every line depend only on the loaded path, not on the previous highlighter |
| Editor.LoadPhpFile | simpletex.py:113 | loading a file whose suffix is `php` in any case attaches the php highlighter |

## Left out

- Unicode word characters: Qt counts letters, marks and digits of every script as word characters for `\b`. The model uses ASCII letters, digits and `_`.
- `str.lower` on non-ASCII characters: only `A`-`Z` are lowered. No non-ASCII character lowers to a letter of `php`, `sh` or `bash`, so the choice of highlighter is unaffected.
- Windows path separators: `splitext` is modelled with `/` as the only separator.
- Regex metacharacters other than `?`: no keyword of either vocabulary contains one.
- Colours and font weight: the two character formats become the styles `Keyword` and `Comment`.
- The paint list for a line is computed in full and then applied; how Qt stores formats and calls `highlightBlock` per block is not modelled.
- File I/O and the dialogs: read and write outcomes, the question's answer and the dialogs' paths are parameters. The error message text comes in with the outcome.
- The window title, the status bar, the cursor-position display, the menus and the clipboard actions have no effect on the modelled state.
- Qt object ownership: a replaced highlighter is a child of the document in Qt. The model treats the window's highlighter as the only one.
- Editor.LoadFile: the window's text equals the file content only when Qt takes that content as plain text. `QTextEdit.setText` guesses the format (`Qt::mightBeRichText`), and content that looks like HTML, such as a tag on the first line, is rendered as a rich document; the text then held, and later saved through `toPlainText`, loses the markup. The guess and the rendering happen inside Qt and are not modelled.
- Editor.Launch: the same gap, for a file named on the command line.
- Editor.SaveFile: an error message is put in the text area as plain text; the same rich-text guess applies to it.
- Carriage returns: Python's text-mode read already turns `\r\n` and `\r` into `\n`, so loaded content holds none; a carriage return that reaches the document another way becomes a line break in Qt, which `PlainText` does not follow. Python's newline translation on write is the identity on POSIX and is not modelled.
- Recolor.LineColors: is indexed by Unicode code point, as Dafny strings are. Qt's block positions and `setFormat` offsets count UTF-16 units, so on a line with a character outside the Basic Multilingual Plane the two positions differ by one for each such character before them; the formats agree character for character.
- Signals from the highlighter itself: whether re-highlighting a document emits `textChanged` is decided inside Qt and is not modelled.
- Editor.WindowLineColors: says a window without a highlighter formats nothing. In Qt a highlighter the window dropped stays attached to the document, as its child, and keeps painting; the model does not promise what such a document shows.
- Editor.LoadReplacesHighlighter: says the formats depend only on the loaded path. In Qt the previous highlighter stays attached to the document and keeps painting alongside the new one, so this holds only for the window's own highlighter.
- Editor.LoadedWindowClosesSilently: says a freshly loaded window is clean. In Qt attaching a highlighter re-highlights the document, which can emit `textChanged` and so call `mark_unsaved` after the flag was cleared; the model does not follow that signal.
- Recolouring twice gives the same paint list. This holds because `Recolor.Highlight` is a function; it is not stated as a lemma.
