/** The highlighter's rule set: for a language tag, the ordered list of
    (pattern, style) pairs built when the highlighter is constructed. */
module Rules {
  import opened Patterns
  import Text

  /** The two character formats: bold blue keywords, dark green comments. */
  datatype Style = Keyword | Comment

  datatype Rule = Rule(pattern: Pattern, style: Style)

  /** The keyword list of the `php` profile, in declaration order. */
  const PhpKeywords: seq<string> := ["<?php", "echo", "if", "else", "while", "for", "function", "return"]

  /** The keyword list of the `bash` profile, in declaration order. */
  const BashKeywords: seq<string> := ["echo", "if", "then", "fi", "for", "while", "do", "done"]

  /** True for the two tags the highlighter knows. */
  predicate KnownLanguage(language: string) {
    language == "php" || language == "bash"
  }

  /** The vocabulary of a known language. */
  function Vocabulary(language: string): (keywords: seq<string>)
    requires KnownLanguage(language)
    ensures |keywords| == 8
  {
    if language == "php" then PhpKeywords else BashKeywords
  }

  /** The comment pattern of a known language: `//[^\n]*` or `#.*`. */
  function CommentPattern(language: string): (pat: Pattern)
    requires KnownLanguage(language)
    ensures !pat.Word? && pat.marker != []
    ensures pat.CommentToNewline? <==> language == "php"
  {
    if language == "php" then CommentToNewline("//") else CommentToEnd("#")
  }

  /** The comment marker of a known language. */
  function CommentMarker(language: string): (marker: string)
    requires KnownLanguage(language)
    ensures marker == CommentPattern(language).marker && marker != []
  {
    if language == "php" then "//" else "#"
  }

  /** One whole-word keyword rule per vocabulary entry, in order. */
  function KeywordRules(keywords: seq<string>): (rules: seq<Rule>)
    ensures |rules| == |keywords|
    ensures forall i :: 0 <= i < |keywords| ==> rules[i] == Rule(Word(keywords[i]), Keyword)
  {
    seq(|keywords|, i requires 0 <= i < |keywords| => Rule(Word(keywords[i]), Keyword))
  }

  /** The constructor's rule list. A known tag gets its keyword rules in
      vocabulary order and then its single comment rule, last; any other tag
      gets no rules at all. */
  function RulesFor(language: string): (rules: seq<Rule>)
    ensures !KnownLanguage(language) ==> rules == []
    ensures KnownLanguage(language) ==>
      && |rules| == |Vocabulary(language)| + 1
      && (forall i :: 0 <= i < |Vocabulary(language)| ==> rules[i] == Rule(Word(Vocabulary(language)[i]), Keyword))
      && rules[|rules| - 1] == Rule(CommentPattern(language), Comment)
  {
    if language == "php" then KeywordRules(PhpKeywords) + [Rule(CommentToNewline("//"), Comment)]
    else if language == "bash" then KeywordRules(BashKeywords) + [Rule(CommentToEnd("#"), Comment)]
    else []
  }

  /** Every pattern in the list has only non-empty matches. */
  predicate WellFormedRules(rules: seq<Rule>) {
    forall k :: 0 <= k < |rules| ==> WellFormed(rules[k].pattern)
  }

  /** No keyword occurs twice in a vocabulary, so each keyword has exactly
      one rule. */
  lemma {:induction false} VocabularyDistinct(language: string, i: nat, j: nat)
    requires KnownLanguage(language)
    requires i < |Vocabulary(language)| && j < |Vocabulary(language)|
    requires Vocabulary(language)[i] == Vocabulary(language)[j]
    ensures i == j
  {
  }

  /** Every keyword in both vocabularies contains a required character, so
      every rule the constructor builds has only non-empty matches and the
      scan of a line always terminates. */
  lemma {:induction false} RulesWellFormed(language: string)
    ensures WellFormedRules(RulesFor(language))
  {
    var rules := RulesFor(language);
    if KnownLanguage(language) {
      forall k | 0 <= k < |rules|
        ensures WellFormed(rules[k].pattern)
      {
        if k < |rules| - 1 {
          var kw := Vocabulary(language)[k];
          VocabularyCharacters(language, k);
          if kw == "<?php" {
            assert Atoms(kw) == [Opt('<')] + Atoms("php");
            assert HasLit(Atoms("php"));
          } else {
            assert Atoms(kw)[0] == Lit(kw[0]);
          }
        }
      }
    }
  }

  /** Only the last rule of a rule list paints in the comment style: the
      comment rule is applied after every keyword rule. */
  lemma {:induction false} CommentRuleIsLast(language: string)
    requires KnownLanguage(language)
    ensures var rules := RulesFor(language);
      && rules == KeywordRules(Vocabulary(language)) + [Rule(CommentPattern(language), Comment)]
      && forall k :: 0 <= k < |rules| - 1 ==> rules[k].style == Keyword
  {
  }

  /** The only keyword whose text contains a regex metacharacter is the php
      open tag: `?` makes its `<` optional. Every other keyword is made only
      of word characters. */
  lemma {:induction false} VocabularyCharacters(language: string, i: nat)
    requires KnownLanguage(language) && i < |Vocabulary(language)|
    ensures Vocabulary(language)[i] != "<?php" ==>
      forall j :: 0 <= j < |Vocabulary(language)[i]| ==> Text.IsWordChar(Vocabulary(language)[i][j])
    ensures Atoms("<?php") == [Opt('<'), Lit('p'), Lit('h'), Lit('p')]
  {
  }

}
