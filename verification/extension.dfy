/** Choosing a highlighter from a file path (`set_highlighter`): the path's
    extension, split off the way POSIX `os.path.splitext` does and lowered,
    selects the php profile for `.php`, the bash profile for `.sh` and
    `.bash`, and no highlighter otherwise. */
module Extension {
  import opened Wrappers
  import Rules

  /** Index of the last `c` in `s`, or -1 when `c` does not occur. */
  function LastIndexOf(s: string, c: char): (r: int)
    ensures -1 <= r < |s|
    ensures r >= 0 ==> s[r] == c
    ensures forall k :: r < k < |s| ==> s[k] != c
    decreases |s|
  {
    if s == [] then -1
    else if s[|s| - 1] == c then |s| - 1
    else LastIndexOf(s[..|s| - 1], c)
  }

  /** Some character of `s[from..to]` is not a dot. */
  predicate HasNonDot(s: string, from: int, to: int)
    requires 0 <= from <= to <= |s|
  {
    exists k :: from <= k < to && s[k] != '.'
  }

  /** `os.path.splitext` with `/` as separator: the extension starts at the
      last dot, provided that dot lies in the last path component and some
      non-dot character of that component precedes it (so `.bashrc` has no
      extension); otherwise the extension is empty. */
  function SplitExt(path: string): (r: (string, string))
    ensures r.0 + r.1 == path
    ensures r.1 == [] || (r.1[0] == '.' && forall k :: 1 <= k < |r.1| ==> r.1[k] != '.' && r.1[k] != '/')
  {
    var sep := LastIndexOf(path, '/');
    var dot := LastIndexOf(path, '.');
    if dot > sep && HasNonDot(path, sep + 1, dot) then
      assert forall k :: 1 <= k < |path[dot..]| ==> path[dot..][k] == path[dot + k];
      (path[..dot], path[dot..])
    else
      (path, [])
  }

  /** The extension of `path`, as `os.path.splitext(path)[1]`: empty, or
      a dot followed by the rest of the last component. */
  function Ext(path: string): (ext: string)
    ensures |ext| <= |path|
    ensures ext == [] || ext[0] == '.'
  {
    SplitExt(path).1
  }

  /** The last occurrence is the one with no occurrence after it. */
  lemma {:induction false} LastIndexOfAt(s: string, c: char, i: int)
    requires -1 <= i < |s|
    requires i >= 0 ==> s[i] == c
    requires forall k :: i < k < |s| ==> s[k] != c
    ensures LastIndexOf(s, c) == i
  {
  }

  /** Where `splitext` splits: the extension is the tail from the last dot
      when that dot lies after the last slash and some non-dot character of
      the last component precedes it, and empty otherwise. */
  lemma {:induction false} ExtStartsAtLastDot(path: string)
    ensures var sep := LastIndexOf(path, '/');
      var dot := LastIndexOf(path, '.');
      Ext(path) == if dot > sep && HasNonDot(path, sep + 1, dot) then path[dot..] else []
  {
  }

  /** Examples of the split: only the last dot counts, a dot in a directory
      name does not, and a run of leading dots is part of the name. */
  lemma {:induction false} SplitExtExamples()
    ensures Ext("a..php") == ".php"
    ensures Ext("archive.tar.sh") == ".sh"
    ensures Ext("conf.d/run") == []
    ensures Ext("...php") == []
  {
    LastIndexOfAt("a..php", '.', 2);
    LastIndexOfAt("a..php", '/', -1);
    assert HasNonDot("a..php", 0, 2) by { assert "a..php"[0] != '.'; }
    LastIndexOfAt("archive.tar.sh", '.', 11);
    LastIndexOfAt("archive.tar.sh", '/', -1);
    assert HasNonDot("archive.tar.sh", 0, 11) by { assert "archive.tar.sh"[0] != '.'; }
    LastIndexOfAt("conf.d/run", '.', 4);
    LastIndexOfAt("conf.d/run", '/', 6);
    LastIndexOfAt("...php", '.', 2);
    LastIndexOfAt("...php", '/', -1);
    assert !HasNonDot("...php", 0, 2);
  }

  /** `str.lower` on ASCII letters. */
  function LowerChar(c: char): (r: char)
    ensures ('A' <= c <= 'Z') ==> r as int == c as int + 32
    ensures !('A' <= c <= 'Z') ==> r == c
  {
    if 'A' <= c <= 'Z' then (c as int + 32) as char else c
  }

  function Lower(s: string): (r: string)
    ensures |r| == |s|
    ensures forall k :: 0 <= k < |s| ==> r[k] == LowerChar(s[k])
  {
    seq(|s|, k requires 0 <= k < |s| => LowerChar(s[k]))
  }

  /** The language tag `set_highlighter` constructs a highlighter for, or
      None when it clears the highlighter. */
  function LanguageFor(path: string): (language: Option<string>)
    ensures language.Some? ==> Rules.KnownLanguage(language.value)
    ensures language == Some("php") <==> Lower(Ext(path)) == ".php"
    ensures language == Some("bash") <==> Lower(Ext(path)) == ".sh" || Lower(Ext(path)) == ".bash"
  {
    var ext := Lower(Ext(path));
    if ext == ".php" then Some("php")
    else if ext in [".sh", ".bash"] then Some("bash")
    else None
  }

  /** Lowering leaves exactly the characters that are not upper-case ASCII
      letters alone, and lowers nothing to a dot or a slash. */
  lemma {:induction false} LowerCharKeeps(c: char, d: char)
    requires d == '.' || d == '/'
    ensures LowerChar(c) == d <==> c == d
  {
  }

  /** Lowering twice is lowering once. */
  lemma {:induction false} LowerIdempotent(s: string)
    ensures Lower(Lower(s)) == Lower(s)
  {
  }

  /** Lowering commutes with finding the last dot or slash. */
  lemma {:induction false} LastIndexOfLower(s: string, c: char)
    requires c == '.' || c == '/'
    ensures LastIndexOf(Lower(s), c) == LastIndexOf(s, c)
    decreases |s|
  {
    if s != [] {
      LowerCharKeeps(s[|s| - 1], c);
      assert Lower(s)[..|s| - 1] == Lower(s[..|s| - 1]);
      LastIndexOfLower(s[..|s| - 1], c);
    }
  }

  /** Splitting off the extension commutes with lowering. */
  lemma {:induction false} ExtLower(path: string)
    ensures Ext(Lower(path)) == Lower(Ext(path))
  {
    var low := Lower(path);
    LastIndexOfLower(path, '/');
    LastIndexOfLower(path, '.');
    var sep := LastIndexOf(path, '/');
    var dot := LastIndexOf(path, '.');
    if dot > sep {
      forall k | sep + 1 <= k < dot ensures (low[k] != '.') == (path[k] != '.') {
        LowerCharKeeps(path[k], '.');
      }
      if HasNonDot(path, sep + 1, dot) {
        var k :| sep + 1 <= k < dot && path[k] != '.';
        assert low[k] != '.';
        assert Lower(path)[dot..] == Lower(path[dot..]);
      }
    }
  }

  /** The choice of highlighter ignores case: two paths that agree once
      lowered get the same highlighter. */
  lemma {:induction false} LanguageIgnoresCase(p: string, q: string)
    requires Lower(p) == Lower(q)
    ensures LanguageFor(p) == LanguageFor(q)
  {
    ExtLower(p);
    ExtLower(q);
    LowerIdempotent(Ext(p));
    LowerIdempotent(Ext(q));
  }

  /** A file name with a stem and a dot-less suffix: the extension is the dot
      and the suffix. */
  lemma {:induction false} ExtOfStemAndSuffix(stem: string, suffix: string)
    requires stem != [] && stem[|stem| - 1] != '.' && stem[|stem| - 1] != '/'
    requires forall k :: 0 <= k < |suffix| ==> suffix[k] != '.' && suffix[k] != '/'
    ensures Ext(stem + "." + suffix) == "." + suffix
  {
    var path := stem + "." + suffix;
    var dot := |stem|;
    assert path[dot] == '.';
    assert forall k :: dot < k < |path| ==> path[k] == suffix[k - dot - 1];
    assert LastIndexOf(path, '.') == dot;
    var sep := LastIndexOf(path, '/');
    assert sep != dot && path[dot - 1] != '/';
    assert sep < dot - 1;
    assert HasNonDot(path, sep + 1, dot) by { assert path[dot - 1] == stem[dot - 1]; }
    assert path[dot..] == "." + suffix;
  }

  /** A file whose name is a dot followed by dot-less characters (a hidden
      file such as `.bash` or `.php`), alone or after a directory prefix
      ending in `/`, has no extension and gets no highlighter. */
  lemma {:induction false} HiddenFileHasNoExtension(prefix: string, name: string)
    requires prefix == [] || prefix[|prefix| - 1] == '/'
    requires forall k :: 0 <= k < |name| ==> name[k] != '.' && name[k] != '/'
    ensures Ext(prefix + "." + name) == []
    ensures LanguageFor(prefix + "." + name) == None
  {
    var path := prefix + "." + name;
    var dot := |prefix|;
    assert path[dot] == '.';
    assert forall k :: dot < k < |path| ==> path[k] == name[k - dot - 1];
    LastIndexOfAt(path, '.', dot);
    assert prefix != [] ==> path[dot - 1] == prefix[|prefix| - 1];
    LastIndexOfAt(path, '/', dot - 1);
    assert !HasNonDot(path, dot, dot);
  }

  /** Lowering keeps a leading dot. */
  lemma {:induction false} LowerDotted(suffix: string)
    ensures Lower("." + suffix) == "." + Lower(suffix)
  {
    var a := Lower("." + suffix);
    var b := "." + Lower(suffix);
    assert |a| == |b|;
    forall k | 0 <= k < |a| ensures a[k] == b[k] {
      if k > 0 {
        assert ("." + suffix)[k] == suffix[k - 1];
      }
    }
  }

  /** A file name with a stem and a dot-less suffix gets the php highlighter
      when the suffix is `php` in any case, the bash highlighter when it is
      `sh` or `bash` in any case, and none otherwise. */
  lemma {:induction false} LanguageOfSuffix(stem: string, suffix: string)
    requires stem != [] && stem[|stem| - 1] != '.' && stem[|stem| - 1] != '/'
    requires forall k :: 0 <= k < |suffix| ==> suffix[k] != '.' && suffix[k] != '/'
    ensures LanguageFor(stem + "." + suffix)
      == if Lower(suffix) == "php" then Some("php")
         else if Lower(suffix) == "sh" || Lower(suffix) == "bash" then Some("bash")
         else None
  {
    ExtOfStemAndSuffix(stem, suffix);
    var low := Lower("." + suffix);
    LowerDotted(suffix);
    if low == ".php" {
      assert Lower(suffix) == low[1..];
    }
    if low == ".sh" || low == ".bash" {
      assert Lower(suffix) == low[1..];
    }
  }

}
