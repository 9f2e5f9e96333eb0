/** Concrete lines under the two profiles: what the highlighter paints on
    them, derived from the general lemmas. */
module Scenarios {
  import opened Wrappers
  import opened Text
  import opened Patterns
  import opened Rules
  import opened Recolor
  import opened Keywords

  /** The first php keyword rule, `\b<?php\b`, does not paint the whole open
      tag `<?php`: there is no word boundary before `<` or before `?`, so its
      only match on that line is `php`. */
  lemma {:induction false} OpenTagScan()
    ensures WellFormed(Word("<?php"))
    ensures Scan("<?php", Word("<?php"), 0) == [Match(2, 3)]
  {
    var t := "<?php";
    var pat := Word("<?php");
    var atoms := Atoms("<?php");
    VocabularyCharacters("php", 0);
    assert WellFormed(pat) by { assert HasLit(atoms[1..]); }
    assert !Boundary(t, 0) && !Boundary(t, 1) && Boundary(t, 2);
    assert MatchRest(t, 4, atoms[3..]) == Some(5);
    assert MatchRest(t, 3, atoms[2..]) == Some(5);
    assert MatchRest(t, 2, atoms[1..]) == Some(5);
    assert MatchRest(t, 2, atoms) == Some(5);
    assert MatchRest(t, 5, atoms) == None;
    MatchesAdvance(t, pat);
    var table := Matches(t, pat);
    MatchesAt(t, pat, 0);
    MatchesAt(t, pat, 1);
    MatchesAt(t, pat, 2);
    MatchesAt(t, pat, 5);
    assert table[0] == None && table[1] == None && table[2] == Some(3) && table[5] == None;
    assert Find(table, 2) == Some(2);
    assert Find(table, 1) == Some(2);
    assert Find(table, 0) == Some(2);
    assert Find(table, 5) == None;
    assert ScanFrom(table, 5) == [];
  }

  /** The line `<?php` contains no php comment marker. */
  lemma {:induction false} OpenTagHasNoMarker(i: nat)
    ensures !MarkerAtOrBefore("<?php", CommentMarker("php"), i)
  {
    var t := "<?php";
    forall c | 0 <= c <= i ensures !OccursAt(t, c, "//") {
      if c + 2 <= |t| {
        assert t[c..c + 2][0] == t[c] != '/';
      }
    }
  }

  /** The line `<?php` has no newline and no word boundary before `p`. */
  lemma {:induction false} OpenTagText()
    ensures forall c :: 0 <= c < |"<?php"| ==> "<?php"[c] != '\n'
    ensures forall q :: 0 <= q < 2 ==> !Boundary("<?php", q)
  {
    var t := "<?php";
    assert !Boundary(t, 0) && !Boundary(t, 1);
  }

  /** No php rule matches at the first two positions of `<?php`, so `<?`
      stays unformatted. */
  lemma {:induction false} OpenTagPrefix(i: nat)
    requires i < 2
    ensures LineColors("<?php", "php")[i] == None
  {
    OpenTagText();
    OpenTagHasNoMarker(i);
    UnformattedBeforeAnyMatch("<?php", "php", i);
  }

  /** The open-tag rule's match `php` is painted, and no comment covers it. */
  lemma {:induction false} OpenTagName(i: nat)
    requires 2 <= i < 5
    ensures LineColors("<?php", "php")[i] == Some(Keyword)
  {
    OpenTagScan();
    OpenTagText();
    OpenTagHasNoMarker(i);
    assert Vocabulary("php")[0] == "<?php";
    ScannedKeywordColored("<?php", "php", 0, 0, i);
  }

  /** Under php, the line `<?php` keeps `<?` unformatted and paints `php` in
      the keyword style. */
  lemma {:induction false} OpenTagLine(i: nat)
    requires i < 5
    ensures LineColors("<?php", "php")[i] == if i < 2 then None else Some(Keyword)
  {
    if i < 2 {
      OpenTagPrefix(i);
    } else {
      OpenTagName(i);
    }
  }

  /** Under php, the bare word `php` is painted in the keyword style: it is
      one of the texts the open-tag expression describes. */
  lemma {:induction false} BarePhpIsKeyword(i: nat)
    requires i < 3
    ensures LineColors("php", "php")[i] == Some(Keyword)
  {
    var t := "php";
    VocabularySpells("php", 0, t);
    assert SpelledByVocabulary("php", t);
    SingleWordLine(t, "php", i);
  }

  /** Under bash, `echo` inside the longer word `echoing` is not painted. */
  lemma {:induction false} EchoingIsPlain(i: nat)
    requires i < 7
    ensures LineColors("echoing", "bash")[i] == None
  {
    var t := "echoing";
    forall k | 0 <= k < |Vocabulary("bash")| ensures !Spells(Atoms(Vocabulary("bash")[k]), t) {
      VocabularySpells("bash", k, t);
      assert |Vocabulary("bash")[k]| <= 5;
    }
    SingleWordLine(t, "bash", i);
  }

  /** Under php, `if` at the end of the longer word `elseif` is not painted,
      and neither is `else` at its start. */
  lemma {:induction false} ElseifIsPlain(i: nat)
    requires i < 6
    ensures LineColors("elseif", "php")[i] == None
  {
    var t := "elseif";
    forall k | 0 <= k < |Vocabulary("php")| ensures !Spells(Atoms(Vocabulary("php")[k]), t) {
      VocabularySpells("php", k, t);
      assert Vocabulary("php")[k] != t;
    }
    SingleWordLine(t, "php", i);
  }

  /** A php line with two keywords and a trailing comment. */
  const PhpLine := "if (x) { echo \"hi\"; } // show"

  /** The characters of `PhpLine` that the php profile reacts to: no
      newline, and no `//` before position 22, where one begins. */
  lemma {:induction false} PhpLineText()
    ensures |PhpLine| == 29
    ensures forall j :: 0 <= j < |PhpLine| ==> PhpLine[j] != '\n'
    ensures forall j :: j < 22 ==> !MarkerAtOrBefore(PhpLine, CommentMarker("php"), j)
    ensures OccursAt(PhpLine, 22, CommentMarker("php"))
  {
    var t := PhpLine;
    assert '\n' !in t;
    assert '/' !in t[..22];
    forall j | 0 <= j < 22 ensures t[j] != '/' { assert t[j] == t[..22][j]; }
    NoMarkerUpTo(t, "//", 21);
    assert t[22..24] == "//" by { assert t[22] == '/' && t[23] == '/'; }
  }

  /** Where the php keywords `if` and `echo` stand alone in `PhpLine`. */
  lemma {:induction false} PhpLineWords()
    ensures OccursAt(PhpLine, 0, "if") && OccursAt(PhpLine, 9, "echo")
    ensures !WordAt(PhpLine, -1) && !WordAt(PhpLine, 2) && !WordAt(PhpLine, 8) && !WordAt(PhpLine, 13)
  {
    var t := PhpLine;
    assert t[2] == ' ' && t[8] == ' ' && t[13] == ' ';
    assert t[0..2] == "if" by { assert t[0] == 'i' && t[1] == 'f'; }
    assert t[9..13] == "echo" by { assert t[9] == 'e' && t[10] == 'c' && t[11] == 'h' && t[12] == 'o'; }
  }

  /** The php keyword `if` of `PhpLine`. */
  lemma {:induction false} PhpLineIf()
    ensures forall i :: 0 <= i < 2 ==> LineColors(PhpLine, "php")[i] == Some(Keyword)
  {
    PhpLineText();
    PhpLineWords();
    assert Vocabulary("php")[2] == "if";
    KeywordBeforeComment(PhpLine, "php", 2, 0);
  }

  /** The php keyword `echo` of `PhpLine`. */
  lemma {:induction false} PhpLineEcho()
    ensures forall i :: 9 <= i < 13 ==> LineColors(PhpLine, "php")[i] == Some(Keyword)
  {
    PhpLineText();
    PhpLineWords();
    assert Vocabulary("php")[1] == "echo";
    KeywordBeforeComment(PhpLine, "php", 1, 9);
  }

  /** A character of `PhpLine` between its keywords and its comment, other
      than the words `x` and `hi`, is not a word character and is not
      followed by `p`. */
  lemma {:induction false} PhpLineGapChar(j: int)
    requires (2 <= j < 9 && j != 4) || (13 <= j < 22 && j != 15 && j != 16)
    ensures !IsWordChar(PhpLine[j]) && PhpLine[j + 1] != 'p'
  {
    assert j == 2 || j == 3 || j == 5 || j == 6 || j == 7 || j == 8 || j == 13 || j == 14
        || j == 17 || j == 18 || j == 19 || j == 20 || j == 21;
  }

  /** The words `x` and `hi` stand alone in `PhpLine`. */
  lemma {:induction false} PhpLineGapWords()
    ensures OccursAt(PhpLine, 4, "x") && !WordAt(PhpLine, 3) && !WordAt(PhpLine, 5)
    ensures OccursAt(PhpLine, 15, "hi") && !WordAt(PhpLine, 14) && !WordAt(PhpLine, 17)
  {
    var t := PhpLine;
    assert t[3] == '(' && t[5] == ')' && t[14] == '"' && t[17] == '"';
    assert t[4..5] == "x" by { assert t[4] == 'x'; }
    assert t[15..17] == "hi" by { assert t[15] == 'h' && t[16] == 'i'; }
  }

  /** `(x) { ` of `PhpLine` stays unformatted: `x` is no php keyword. */
  lemma {:induction false} PhpLineFirstGap()
    ensures forall i :: 2 <= i < 9 ==> LineColors(PhpLine, "php")[i] == None
  {
    PhpLineText();
    PhpLineGapWords();
    assert "x" !in Vocabulary("php");
    forall i | 2 <= i < 9 ensures LineColors(PhpLine, "php")[i] == None {
      if i == 4 {
        PlainWord(PhpLine, "php", "x", 4, i);
      } else {
        PhpLineGapChar(i);
        PlainCharacter(PhpLine, "php", i);
      }
    }
  }

  /** ` "hi"; } ` of `PhpLine` stays unformatted: `hi` is no php keyword. */
  lemma {:induction false} PhpLineSecondGap()
    ensures forall i :: 13 <= i < 22 ==> LineColors(PhpLine, "php")[i] == None
  {
    PhpLineText();
    PhpLineGapWords();
    assert "hi" !in Vocabulary("php");
    forall i | 13 <= i < 22 ensures LineColors(PhpLine, "php")[i] == None {
      if 15 <= i < 17 {
        PlainWord(PhpLine, "php", "hi", 15, i);
      } else {
        PhpLineGapChar(i);
        PlainCharacter(PhpLine, "php", i);
      }
    }
  }

  /** `if (x) { echo "hi"; } // show` under php: `if` and `echo` are in the
      keyword style, every other character before `//` is unformatted, and
      everything from `//` on is in the comment style. */
  lemma {:induction false} PhpExampleLine()
    ensures |LineColors(PhpLine, "php")| == 29
    ensures forall i :: 0 <= i < 2 ==> LineColors(PhpLine, "php")[i] == Some(Keyword)
    ensures forall i :: 9 <= i < 13 ==> LineColors(PhpLine, "php")[i] == Some(Keyword)
    ensures forall i :: 2 <= i < 9 || 13 <= i < 22 ==> LineColors(PhpLine, "php")[i] == None
    ensures forall i :: 22 <= i < 29 ==> LineColors(PhpLine, "php")[i] == Some(Comment)
    ensures forall i :: 0 <= i < 22 ==> LineColors(PhpLine, "php")[i] != Some(Comment)
  {
    PhpLineText();
    PhpLineIf();
    PhpLineEcho();
    PhpLineFirstGap();
    PhpLineSecondGap();
    assert !MarkerAtOrBefore(PhpLine, CommentMarker("php"), 21);
    CommentFrom(PhpLine, "php", 22);
  }

  /** A bash line with four keywords and a trailing comment. */
  const BashLine := "for i in 1 2 3; do echo $i; done # loop"

  /** The characters of `BashLine` that the bash profile reacts to: no
      newline, and no `#` before position 33, where one stands. */
  lemma {:induction false} BashLineText()
    ensures |BashLine| == 39
    ensures forall j :: 0 <= j < |BashLine| ==> BashLine[j] != '\n'
    ensures forall j :: j < 33 ==> !MarkerAtOrBefore(BashLine, CommentMarker("bash"), j)
    ensures OccursAt(BashLine, 33, CommentMarker("bash"))
  {
    var t := BashLine;
    assert '\n' !in t;
    assert '#' !in t[..33];
    forall j | 0 <= j < 33 ensures t[j] != '#' { assert t[j] == t[..33][j]; }
    NoMarkerUpTo(t, "#", 32);
    assert t[33..34] == "#" by { assert t[33] == '#'; }
  }

  /** Where the bash keywords `for`, `do`, `echo` and `done` stand alone in
      `BashLine`. */
  lemma {:induction false} BashLineWords()
    ensures OccursAt(BashLine, 0, "for") && OccursAt(BashLine, 16, "do") && OccursAt(BashLine, 19, "echo")
    ensures OccursAt(BashLine, 28, "done")
    ensures !WordAt(BashLine, -1) && !WordAt(BashLine, 3) && !WordAt(BashLine, 15) && !WordAt(BashLine, 18)
    ensures !WordAt(BashLine, 23) && !WordAt(BashLine, 27) && !WordAt(BashLine, 32)
  {
    var t := BashLine;
    assert t[3] == ' ' && t[15] == ' ' && t[18] == ' ' && t[23] == ' ' && t[27] == ' ' && t[32] == ' ';
    assert t[0..3] == "for" by { assert t[0] == 'f' && t[1] == 'o' && t[2] == 'r'; }
    assert t[16..18] == "do" by { assert t[16] == 'd' && t[17] == 'o'; }
    assert t[19..23] == "echo" by { assert t[19] == 'e' && t[20] == 'c' && t[21] == 'h' && t[22] == 'o'; }
    assert t[28..32] == "done" by { assert t[28] == 'd' && t[29] == 'o' && t[30] == 'n' && t[31] == 'e'; }
  }

  /** The first two bash keywords of `BashLine`, `for` and `do`. */
  lemma {:induction false} BashLineFirstKeywords()
    ensures forall i :: 0 <= i < 3 ==> LineColors(BashLine, "bash")[i] == Some(Keyword)
    ensures forall i :: 16 <= i < 18 ==> LineColors(BashLine, "bash")[i] == Some(Keyword)
  {
    BashLineText();
    BashLineWords();
    assert Vocabulary("bash")[4] == "for" && Vocabulary("bash")[6] == "do";
    KeywordBeforeComment(BashLine, "bash", 4, 0);
    KeywordBeforeComment(BashLine, "bash", 6, 16);
  }

  /** The last two bash keywords of `BashLine`, `echo` and `done`. */
  lemma {:induction false} BashLineLastKeywords()
    ensures forall i :: 19 <= i < 23 ==> LineColors(BashLine, "bash")[i] == Some(Keyword)
    ensures forall i :: 28 <= i < 32 ==> LineColors(BashLine, "bash")[i] == Some(Keyword)
  {
    BashLineText();
    BashLineWords();
    assert Vocabulary("bash")[0] == "echo" && Vocabulary("bash")[7] == "done";
    KeywordBeforeComment(BashLine, "bash", 0, 19);
    KeywordBeforeComment(BashLine, "bash", 7, 28);
  }

  /** A character of `BashLine` between its keywords and its comment, other
      than the words `i`, `in`, `1`, `2` and `3`, is not a word character
      and is not followed by `p`. */
  lemma {:induction false} BashLineGapChar(j: int)
    requires j == 3 || j == 5 || j == 8 || j == 10 || j == 12 || j == 14 || j == 15
          || j == 18 || j == 23 || j == 24 || j == 26 || j == 27 || j == 32
    ensures !IsWordChar(BashLine[j]) && BashLine[j + 1] != 'p'
  {
  }

  /** The words `i` and `in`, and later again `i`, stand alone in
      `BashLine`. */
  lemma {:induction false} BashLineGapWords()
    ensures OccursAt(BashLine, 4, "i") && OccursAt(BashLine, 6, "in") && OccursAt(BashLine, 25, "i")
    ensures !WordAt(BashLine, 3) && !WordAt(BashLine, 5) && !WordAt(BashLine, 8)
    ensures !WordAt(BashLine, 24) && !WordAt(BashLine, 26)
  {
    var t := BashLine;
    assert t[3] == ' ' && t[5] == ' ' && t[8] == ' ' && t[24] == '$' && t[26] == ';';
    assert t[4..5] == "i" by { assert t[4] == 'i'; }
    assert t[6..8] == "in" by { assert t[6] == 'i' && t[7] == 'n'; }
    assert t[25..26] == "i" by { assert t[25] == 'i'; }
  }

  /** The numbers `1`, `2` and `3` stand alone in `BashLine`. */
  lemma {:induction false} BashLineNumberWords()
    ensures OccursAt(BashLine, 9, "1") && OccursAt(BashLine, 11, "2") && OccursAt(BashLine, 13, "3")
    ensures !WordAt(BashLine, 8) && !WordAt(BashLine, 10) && !WordAt(BashLine, 12) && !WordAt(BashLine, 14)
  {
    var t := BashLine;
    assert t[8] == ' ' && t[10] == ' ' && t[12] == ' ' && t[14] == ';';
    assert t[9..10] == "1" by { assert t[9] == '1'; }
    assert t[11..12] == "2" by { assert t[11] == '2'; }
    assert t[13..14] == "3" by { assert t[13] == '3'; }
  }

  /** The words of `BashLine` that are no bash keywords. */
  lemma {:induction false} BashLineNonKeywords()
    ensures "i" !in Vocabulary("bash") && "in" !in Vocabulary("bash")
    ensures "1" !in Vocabulary("bash") && "2" !in Vocabulary("bash") && "3" !in Vocabulary("bash")
  {
  }

  /** ` i in ` of `BashLine` stays unformatted: `i` and `in` are no bash
      keywords. */
  lemma {:induction false} BashLineFirstGap()
    ensures forall i :: 3 <= i < 9 ==> LineColors(BashLine, "bash")[i] == None
  {
    BashLineText();
    BashLineGapWords();
    BashLineNonKeywords();
    forall i | 3 <= i < 9 ensures LineColors(BashLine, "bash")[i] == None {
      if i == 4 {
        PlainWord(BashLine, "bash", "i", 4, i);
      } else if 6 <= i < 8 {
        PlainWord(BashLine, "bash", "in", 6, i);
      } else {
        BashLineGapChar(i);
        PlainCharacter(BashLine, "bash", i);
      }
    }
  }

  /** Each digit `1`, `2` and `3` of `BashLine` stays unformatted: numbers
      are no bash keywords. */
  lemma {:induction false} BashLineDigit(q: int)
    requires q == 9 || q == 11 || q == 13
    ensures LineColors(BashLine, "bash")[q] == None
  {
    BashLineText();
    BashLineNumberWords();
    BashLineNonKeywords();
    var d := BashLine[q..q + 1];
    assert d == "1" || d == "2" || d == "3";
    assert OccursAt(BashLine, q, d) && !WordAt(BashLine, q - 1) && !WordAt(BashLine, q + 1);
    PlainWord(BashLine, "bash", d, q, q);
  }

  /** `1 2 3; ` of `BashLine` stays unformatted. */
  lemma {:induction false} BashLineNumbers()
    ensures forall i :: 9 <= i < 16 ==> LineColors(BashLine, "bash")[i] == None
  {
    BashLineText();
    forall i | 9 <= i < 16 ensures LineColors(BashLine, "bash")[i] == None {
      if i == 9 || i == 11 || i == 13 {
        BashLineDigit(i);
      } else {
        BashLineGapChar(i);
        PlainCharacter(BashLine, "bash", i);
      }
    }
  }

  /** The blanks between the later keywords of `BashLine`, and the ` $i; `
      after `echo`, stay unformatted: `i` is no bash keyword. */
  lemma {:induction false} BashLineLastGaps()
    ensures forall i :: i == 18 || 23 <= i < 28 || i == 32 ==> LineColors(BashLine, "bash")[i] == None
  {
    BashLineText();
    BashLineGapWords();
    BashLineNonKeywords();
    forall i | i == 18 || 23 <= i < 28 || i == 32 ensures LineColors(BashLine, "bash")[i] == None {
      if i == 25 {
        PlainWord(BashLine, "bash", "i", 25, i);
      } else {
        BashLineGapChar(i);
        PlainCharacter(BashLine, "bash", i);
      }
    }
  }

  /** `for i in 1 2 3; do echo $i; done # loop` under bash: `for`, `do`,
      `echo` and `done` are in the keyword style, every other character
      before `#` is unformatted, and everything from `#` on is in the
      comment style. */
  lemma {:induction false} BashExampleLine()
    ensures |LineColors(BashLine, "bash")| == 39
    ensures forall i :: 0 <= i < 3 ==> LineColors(BashLine, "bash")[i] == Some(Keyword)
    ensures forall i :: 16 <= i < 18 ==> LineColors(BashLine, "bash")[i] == Some(Keyword)
    ensures forall i :: 19 <= i < 23 ==> LineColors(BashLine, "bash")[i] == Some(Keyword)
    ensures forall i :: 28 <= i < 32 ==> LineColors(BashLine, "bash")[i] == Some(Keyword)
    ensures forall i :: 3 <= i < 16 || i == 18 || 23 <= i < 28 || i == 32 ==> LineColors(BashLine, "bash")[i] == None
    ensures forall i :: 33 <= i < 39 ==> LineColors(BashLine, "bash")[i] == Some(Comment)
    ensures forall i :: 0 <= i < 33 ==> LineColors(BashLine, "bash")[i] != Some(Comment)
  {
    BashLineText();
    BashLineFirstKeywords();
    BashLineLastKeywords();
    BashLineFirstGap();
    BashLineNumbers();
    BashLineLastGaps();
    assert !MarkerAtOrBefore(BashLine, CommentMarker("bash"), 32);
    CommentFrom(BashLine, "bash", 33);
  }
}
