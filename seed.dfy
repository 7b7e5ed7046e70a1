/**
 * `kebabCase` from the seeding script: trim, lower-case, turn every run of
 * characters outside `[a-z0-9]` into one '-', then drop the hyphens at
 * both ends. Its result is characterised as the input's alphanumeric
 * words joined with '-'.
 */
module Seed {
  import opened Wrappers
  import opened Text

  // ---------------------------------------------------------------------
  // The steps of the chain.

  /** The characters `String.prototype.trim` removes: white space and line terminators. */
  predicate IsJsSpace(c: char) {
    var cp := c as int;
    cp == 0x09 || cp == 0x0A || cp == 0x0B || cp == 0x0C || cp == 0x0D || cp == 0x20
    || cp == 0xA0 || cp == 0x1680 || (0x2000 <= cp <= 0x200A) || cp == 0x2028 || cp == 0x2029
    || cp == 0x202F || cp == 0x205F || cp == 0x3000 || cp == 0xFEFF
  }

  function TrimStart(s: string): string {
    if s != [] && IsJsSpace(s[0]) then TrimStart(s[1..]) else s
  }

  function TrimEnd(s: string): string {
    if s != [] && IsJsSpace(s[|s| - 1]) then TrimEnd(s[..|s| - 1]) else s
  }

  /** `s.trim()`. */
  function Trim(s: string): string {
    TrimEnd(TrimStart(s))
  }

  function LowerChar(c: char): char {
    if 'A' <= c <= 'Z' then (c as int + 32) as char else c
  }

  /** `s.toLowerCase()` on the ASCII letters. */
  function Lower(s: string): (r: string)
    ensures |r| == |s|
  {
    if s == [] then [] else [LowerChar(s[0])] + Lower(s[1..])
  }

  /** Lower-casing maps each character on its own. */
  lemma {:induction false} LowerCharwise(s: string)
    ensures forall i :: 0 <= i < |s| ==> Lower(s)[i] == LowerChar(s[i])
  {
    if s != [] {
      LowerCharwise(s[1..]);
    }
  }

  /** A character of `[a-z0-9]`. */
  predicate IsWordChar(c: char) {
    'a' <= c <= 'z' || '0' <= c <= '9'
  }

  /** What is left once the run of non-word characters at the front is dropped. */
  function DropRun(s: string): (r: string)
    ensures |r| <= |s|
    ensures s != [] && !IsWordChar(s[0]) ==> |r| < |s|
  {
    if s != [] && !IsWordChar(s[0]) then DropRun(s[1..]) else s
  }

  /** DropRun leaves a suffix that is empty or starts with a word character, and drops only non-word characters. */
  lemma {:induction false} DropRunSuffix(s: string)
    ensures DropRun(s) == s[|s| - |DropRun(s)|..]
    ensures DropRun(s) == [] || IsWordChar(DropRun(s)[0])
    ensures forall i :: 0 <= i < |s| - |DropRun(s)| ==> !IsWordChar(s[i])
    decreases |s|
  {
    if s != [] && !IsWordChar(s[0]) {
      DropRunSuffix(s[1..]);
      assert s[1..][|s| - 1 - |DropRun(s)|..] == s[|s| - |DropRun(s)|..];
      assert forall i :: 1 <= i < |s| - |DropRun(s)| ==> s[i] == s[1..][i - 1];
    }
  }

  /** `s.replace(/[^a-z0-9]+/g, '-')`. */
  function Hyphenate(s: string): string
    decreases |s|
  {
    if s == [] then []
    else if IsWordChar(s[0]) then [s[0]] + Hyphenate(s[1..])
    else "-" + Hyphenate(DropRun(s))
  }

  function StripLeading(s: string): string {
    if s != [] && s[0] == '-' then StripLeading(s[1..]) else s
  }

  function StripTrailing(s: string): string {
    if s != [] && s[|s| - 1] == '-' then StripTrailing(s[..|s| - 1]) else s
  }

  /** `s.replace(/^-+|-+$/g, '')`. */
  function StripHyphens(s: string): string {
    StripTrailing(StripLeading(s))
  }

  /** `kebabCase(input)`. */
  function KebabCase(input: string): string {
    StripHyphens(Hyphenate(Lower(Trim(input))))
  }

  /** `g.keyName ?? kebabCase(g.name)`. */
  function KeyName(name: string, keyName: Option<string>): string {
    keyName.GetOr(KebabCase(name))
  }

  // ---------------------------------------------------------------------
  // The words of a text.

  /** The run of word characters at the front of s. */
  function Run(s: string): (w: string)
    ensures w <= s
    ensures forall i :: 0 <= i < |w| ==> IsWordChar(w[i])
    ensures w == s || !IsWordChar(s[|w|])
    ensures s != [] && IsWordChar(s[0]) ==> w != []
  {
    if s != [] && IsWordChar(s[0]) then [s[0]] + Run(s[1..]) else []
  }

  /** The maximal runs of `[a-z0-9]` in s, in order. */
  function Words(s: string): seq<string>
    decreases |s|
  {
    if s == [] then []
    else if !IsWordChar(s[0]) then Words(s[1..])
    else
      var w := Run(s);
      [w] + Words(s[|w|..])
  }

  /** A non-empty string of word characters. */
  predicate IsWord(w: string) {
    w != [] && forall i :: 0 <= i < |w| ==> IsWordChar(w[i])
  }

  predicate AllWords(ws: seq<string>) {
    forall i :: 0 <= i < |ws| ==> IsWord(ws[i])
  }

  lemma {:induction false} WordsAreWords(s: string)
    ensures AllWords(Words(s))
    decreases |s|
  {
    if s != [] {
      if !IsWordChar(s[0]) {
        WordsAreWords(s[1..]);
      } else {
        WordsAreWords(s[|Run(s)|..]);
      }
    }
  }

  /** Dropping non-word characters at the front leaves the words alone. */
  lemma {:induction false} WordsDropRun(s: string)
    ensures Words(DropRun(s)) == Words(s)
    decreases |s|
  {
    if s != [] && !IsWordChar(s[0]) {
      WordsDropRun(s[1..]);
    }
  }

  lemma {:induction false} WordsEmptyIff(s: string)
    ensures Words(s) == [] <==> forall i :: 0 <= i < |s| ==> !IsWordChar(s[i])
    decreases |s|
  {
    if s != [] {
      WordsEmptyIff(s[1..]);
      if !IsWordChar(s[0]) {
        assert forall i :: 1 <= i < |s| ==> s[i] == s[1..][i - 1];
      }
    }
  }

  // ---------------------------------------------------------------------
  // The shape of words joined by '-'.

  /** The join of words: word characters and single hyphens, with a word character at each end. */
  predicate KebabShaped(k: string) {
    (forall i :: 0 <= i < |k| ==> IsWordChar(k[i]) || k[i] == '-')
    && (k != [] ==> IsWordChar(k[0]) && IsWordChar(k[|k| - 1]))
    && (forall i :: 0 <= i < |k| - 1 && k[i] == '-' ==> k[i + 1] != '-')
  }

  lemma JoinCons(w: string, ws: seq<string>)
    requires ws != []
    ensures Join([w] + ws, "-") == w + "-" + Join(ws, "-")
  {
    assert ([w] + ws)[1..] == ws;
  }

  lemma {:induction false} JoinShape(ws: seq<string>)
    requires AllWords(ws)
    ensures KebabShaped(Join(ws, "-"))
    ensures ws != [] ==> Join(ws, "-") != []
    decreases |ws|
  {
    if |ws| > 1 {
      JoinShape(ws[1..]);
      var w, rest := ws[0], Join(ws[1..], "-");
      JoinCons(w, ws[1..]);
      assert ws == [w] + ws[1..];
      var k := w + "-" + rest;
      assert IsWord(w) && rest != [];
      assert forall i :: 0 <= i < |w| ==> k[i] == w[i];
      assert k[|w|] == '-';
      assert forall i :: |w| < i < |k| ==> k[i] == rest[i - |w| - 1];
      assert k[|k| - 1] == rest[|rest| - 1];
    } else if |ws| == 1 {
      assert IsWord(ws[0]);
    }
  }

  // ---------------------------------------------------------------------
  // The chain computes the join of the words.

  lemma HyphenateWordFirst(s: string)
    requires s != [] && IsWordChar(s[0])
    ensures Hyphenate(s) == [s[0]] + Hyphenate(s[1..])
  {
  }

  lemma {:induction false} HyphenateWordPrefix(w: string, rest: string)
    requires forall i :: 0 <= i < |w| ==> IsWordChar(w[i])
    ensures Hyphenate(w + rest) == w + Hyphenate(rest)
    decreases |w|
  {
    if w != [] {
      var s := w + rest;
      assert s[0] == w[0];
      assert s[1..] == w[1..] + rest;
      HyphenateWordFirst(s);
      HyphenateWordPrefix(w[1..], rest);
      assert [w[0]] + (w[1..] + Hyphenate(rest)) == w + Hyphenate(rest);
    } else {
      assert w + rest == rest;
    }
  }

  /** A trailing '-' is left exactly when the text ends outside a word. */
  function Tail(t: string): string {
    if t != [] && !IsWordChar(t[|t| - 1]) then "-" else ""
  }

  lemma HyphenateNonWord(r: string)
    requires r != [] && !IsWordChar(r[0])
    ensures Hyphenate(r) == "-" + Hyphenate(DropRun(r))
  {
  }

  lemma WordsFromWord(t: string)
    requires t != [] && IsWordChar(t[0])
    ensures t == Run(t) + t[|Run(t)|..]
    ensures Words(t) == [Run(t)] + Words(t[|Run(t)|..])
    ensures t[|Run(t)|..] == [] || !IsWordChar(t[|Run(t)|..][0])
  {
  }

  lemma TailAppend(a: string, b: string)
    requires b != []
    ensures Tail(a + b) == Tail(b)
  {
    assert (a + b)[|a + b| - 1] == b[|b| - 1];
  }

  lemma TailOfWord(w: string)
    requires w != [] && forall i :: 0 <= i < |w| ==> IsWordChar(w[i])
    ensures Tail(w) == ""
  {
    assert IsWordChar(w[|w| - 1]);
  }

  /** A text of non-word characters hyphenates to "-" and ends in one. */
  lemma NonWordOnly(r: string)
    requires r != [] && !IsWordChar(r[0]) && DropRun(r) == []
    ensures Hyphenate(r) == "-" && Tail(r) == "-" && Words(r) == []
  {
    HyphenateNonWord(r);
    WordsDropRun(r);
    DropRunSuffix(r);
    assert !IsWordChar(r[|r| - 1]);
  }

  /** The tail of a text is the tail of what DropRun leaves, when something is left. */
  lemma TailDropRun(r: string)
    requires DropRun(r) != []
    ensures Tail(r) == Tail(DropRun(r))
  {
    var u := DropRun(r);
    DropRunSuffix(r);
    assert r == r[..|r| - |u|] + u;
    TailAppend(r[..|r| - |u|], u);
  }

  /** For a text starting with a word, hyphenation is the joined words plus the trailing hyphen. */
  lemma {:induction false} HyphenateFromWord(t: string)
    requires t != [] && IsWordChar(t[0])
    ensures Hyphenate(t) == Join(Words(t), "-") + Tail(t)
    ensures Words(t) != []
    decreases |t|
  {
    var w := Run(t);
    var r := t[|w|..];
    WordsFromWord(t);
    HyphenateWordPrefix(w, r);
    if r == [] {
      WordOnly(t, w);
    } else if DropRun(r) == [] {
      WordThenSeparator(t, w, r);
    } else {
      var u := DropRun(r);
      DropRunSuffix(r);
      HyphenateFromWord(u);
      WordThenMore(t, w, r, u);
    }
  }

  lemma WordOnly(t: string, w: string)
    requires IsWord(w) && t == w + []
    requires Hyphenate(t) == w + Hyphenate([])
    requires Words(t) == [w] + Words([])
    ensures Hyphenate(t) == Join(Words(t), "-") + Tail(t)
    ensures Words(t) != []
  {
    TailOfWord(w);
  }

  lemma WordThenSeparator(t: string, w: string, r: string)
    requires r != [] && !IsWordChar(r[0]) && DropRun(r) == []
    requires IsWord(w) && t == w + r
    requires Hyphenate(t) == w + Hyphenate(r)
    requires Words(t) == [w] + Words(r)
    ensures Hyphenate(t) == Join(Words(t), "-") + Tail(t)
    ensures Words(t) != []
  {
    TailAppend(w, r);
    NonWordOnly(r);
  }

  lemma WordThenMore(t: string, w: string, r: string, u: string)
    requires r != [] && !IsWordChar(r[0]) && u == DropRun(r) && u != []
    requires IsWord(w) && t == w + r
    requires Hyphenate(t) == w + Hyphenate(r)
    requires Words(t) == [w] + Words(r)
    requires Hyphenate(u) == Join(Words(u), "-") + Tail(u) && Words(u) != []
    ensures Hyphenate(t) == Join(Words(t), "-") + Tail(t)
    ensures Words(t) != []
  {
    var ju := Join(Words(u), "-");
    HyphenateNonWord(r);
    TailDropRun(r);
    TailAppend(w, r);
    assert Hyphenate(t) == w + ("-" + (ju + Tail(t)));
    WordsDropRun(r);
    JoinCons(w, Words(u));
    assert Join(Words(t), "-") == w + "-" + ju;
    Regroup(Hyphenate(t), Join(Words(t), "-"), w, ju, Tail(t));
  }

  lemma Regroup(h: string, j: string, w: string, ju: string, tail: string)
    requires h == w + ("-" + (ju + tail))
    requires j == w + "-" + ju
    ensures h == j + tail
  {
    assert w + "-" + ju + tail == w + ("-" + (ju + tail));
  }

  lemma {:induction false} StripLeadingKeeps(k: string, tail: string)
    requires k != [] && k[0] != '-'
    ensures StripLeading(k + tail) == k + tail
  {
    assert (k + tail)[0] == k[0];
  }

  /** Stripping one trailing hyphen (or none) after a text that ends in a word character. */
  lemma StripTrailingTail(k: string, tail: string)
    requires k != [] && k[|k| - 1] != '-'
    requires tail == "" || tail == "-"
    ensures StripTrailing(k + tail) == k
  {
    if tail == "-" {
      assert (k + tail)[..|k + tail| - 1] == k;
    } else {
      assert k + tail == k;
    }
  }

  lemma StripLeadingHyphen(x: string)
    ensures StripLeading("-" + x) == StripLeading(x)
  {
    assert ("-" + x)[1..] == x;
  }

  /** For a text starting with a word, stripping leaves exactly the joined words. */
  lemma StripHyphenateFromWord(t: string)
    requires t != [] && IsWordChar(t[0])
    ensures StripHyphens(Hyphenate(t)) == Join(Words(t), "-")
  {
    HyphenateFromWord(t);
    WordsAreWords(t);
    JoinShape(Words(t));
    var k := Join(Words(t), "-");
    StripLeadingKeeps(k, Tail(t));
    StripTrailingTail(k, Tail(t));
  }

  /** Hyphenating and stripping a text gives its words joined by '-'. */
  lemma StripHyphenate(t: string)
    ensures StripHyphens(Hyphenate(t)) == Join(Words(t), "-")
  {
    if t == [] {
    } else if IsWordChar(t[0]) {
      StripHyphenateFromWord(t);
    } else {
      var u := DropRun(t);
      if u == [] {
        NonWordOnly(t);
        StripLeadingHyphen([]);
      } else {
        WordsDropRun(t);
        DropRunSuffix(t);
        HyphenateNonWord(t);
        StripLeadingHyphen(Hyphenate(u));
        StripHyphenateFromWord(u);
      }
    }
  }

  /** `kebabCase(s)` is the alphanumeric words of the trimmed, lower-cased input joined by '-'. */
  lemma KebabCaseIsJoinedWords(input: string)
    ensures KebabCase(input) == Join(Words(Lower(Trim(input))), "-")
  {
    StripHyphenate(Lower(Trim(input)));
  }

  // ---------------------------------------------------------------------
  // Properties of the result.

  /**
   * The result holds only `a-z`, `0-9` and '-', never starts or ends with
   * '-', and never holds two hyphens in a row.
   */
  lemma KebabCaseShape(input: string)
    ensures KebabShaped(KebabCase(input))
  {
    KebabCaseIsJoinedWords(input);
    WordsAreWords(Lower(Trim(input)));
    JoinShape(Words(Lower(Trim(input))));
  }

  /** The result is empty exactly when the trimmed, lower-cased input has no character of `[a-z0-9]`. */
  lemma KebabCaseEmpty(input: string)
    ensures KebabCase(input) == [] <==>
      forall i :: 0 <= i < |Lower(Trim(input))| ==> !IsWordChar(Lower(Trim(input))[i])
  {
    var t := Lower(Trim(input));
    KebabCaseIsJoinedWords(input);
    WordsEmptyIff(t);
    WordsAreWords(t);
    JoinShape(Words(t));
  }

  lemma {:induction false} RunOfWordThenSeparator(w: string, rest: string)
    requires IsWord(w)
    requires rest == [] || !IsWordChar(rest[0])
    ensures Run(w + rest) == w
    decreases |w|
  {
    assert (w + rest)[0] == w[0];
    if |w| > 1 {
      assert (w + rest)[1..] == w[1..] + rest;
      RunOfWordThenSeparator(w[1..], rest);
      assert [w[0]] + w[1..] == w;
    } else {
      assert (w + rest)[1..] == rest;
      assert [w[0]] == w;
    }
  }

  /** The words of words joined by '-' are those words. */
  lemma {:induction false} WordsOfJoin(ws: seq<string>)
    requires AllWords(ws)
    ensures Words(Join(ws, "-")) == ws
    decreases |ws|
  {
    if |ws| == 1 {
      var w := ws[0];
      RunOfWordThenSeparator(w, []);
      assert w + [] == w;
      assert w[|w|..] == [];
    } else if |ws| > 1 {
      var w := ws[0];
      var rest := Join(ws[1..], "-");
      JoinCons(w, ws[1..]);
      assert ws == [w] + ws[1..];
      var k := w + ("-" + rest);
      assert k == w + "-" + rest;
      RunOfWordThenSeparator(w, "-" + rest);
      assert k[|w|..] == "-" + rest;
      assert ("-" + rest)[1..] == rest;
      WordsOfJoin(ws[1..]);
    }
  }

  lemma {:induction false} TrimStartShaped(k: string)
    requires k == [] || !IsJsSpace(k[0])
    ensures TrimStart(k) == k
  {
  }

  lemma {:induction false} LowerShaped(k: string)
    requires KebabShaped(k)
    ensures Lower(k) == k
  {
    LowerCharwise(k);
  }

  /** `kebabCase` is idempotent. */
  lemma KebabCaseIdempotent(input: string)
    ensures KebabCase(KebabCase(input)) == KebabCase(input)
  {
    var ws := Words(Lower(Trim(input)));
    var k := KebabCase(input);
    KebabCaseIsJoinedWords(input);
    WordsAreWords(Lower(Trim(input)));
    JoinShape(ws);
    assert Trim(k) == k by {
      if k != [] {
        assert !IsJsSpace(k[0]) && !IsJsSpace(k[|k| - 1]);
      }
    }
    LowerShaped(k);
    KebabCaseIsJoinedWords(k);
    WordsOfJoin(ws);
  }

  /** The word characters of a text, in order. */
  function WordChars(s: string): string {
    if s == [] then [] else (if IsWordChar(s[0]) then [s[0]] else []) + WordChars(s[1..])
  }

  function Concat(ws: seq<string>): string {
    if ws == [] then [] else ws[0] + Concat(ws[1..])
  }

  lemma {:induction false} WordCharsAppend(a: string, b: string)
    ensures WordChars(a + b) == WordChars(a) + WordChars(b)
    decreases |a|
  {
    if a != [] {
      assert (a + b)[1..] == a[1..] + b;
      WordCharsAppend(a[1..], b);
    } else {
      assert a + b == b;
    }
  }

  lemma {:induction false} WordCharsOfWord(w: string)
    requires forall i :: 0 <= i < |w| ==> IsWordChar(w[i])
    ensures WordChars(w) == w
    decreases |w|
  {
    if w != [] {
      WordCharsOfWord(w[1..]);
      assert [w[0]] + w[1..] == w;
    }
  }

  lemma {:induction false} WordCharsAreWords(s: string)
    ensures WordChars(s) == Concat(Words(s))
    decreases |s|
  {
    if s != [] {
      if !IsWordChar(s[0]) {
        WordCharsAreWords(s[1..]);
      } else {
        var w := Run(s);
        assert s == w + s[|w|..];
        WordCharsAppend(w, s[|w|..]);
        WordCharsOfWord(w);
        WordCharsAreWords(s[|w|..]);
        assert Words(s) == [w] + Words(s[|w|..]);
      }
    }
  }

  lemma {:induction false} WordCharsOfJoin(ws: seq<string>)
    requires AllWords(ws)
    ensures WordChars(Join(ws, "-")) == Concat(ws)
    decreases |ws|
  {
    if |ws| == 1 {
      WordCharsOfWord(ws[0]);
      assert Concat(ws[1..]) == [];
    } else if |ws| > 1 {
      JoinCons(ws[0], ws[1..]);
      WordCharsAppend(ws[0] + "-", Join(ws[1..], "-"));
      WordCharsAppend(ws[0], "-");
      WordCharsOfWord(ws[0]);
      WordCharsOfJoin(ws[1..]);
    }
  }

  /** The alphanumerics of the lower-cased, trimmed input appear in the result, in the same order. */
  lemma KebabCaseKeepsAlphanumerics(input: string)
    ensures WordChars(KebabCase(input)) == WordChars(Lower(Trim(input)))
  {
    var t := Lower(Trim(input));
    KebabCaseIsJoinedWords(input);
    WordsAreWords(t);
    WordCharsOfJoin(Words(t));
    WordCharsAreWords(t);
  }

  /** A given key name wins; a missing one falls back to the kebab case of the name. */
  lemma KeyNameFallback(name: string, keyName: Option<string>)
    ensures keyName.Some? ==> KeyName(name, keyName) == keyName.value
    ensures keyName.None? ==> KeyName(name, keyName) == KebabCase(name)
  {
  }

  /** Two words with one separator between them. */
  lemma TwoWords(a: string, sep: char, b: string)
    requires IsWord(a) && IsWord(b) && !IsWordChar(sep)
    ensures Words(a + [sep] + b) == [a, b]
  {
    var t := a + ([sep] + b);
    assert a + [sep] + b == t;
    RunOfWordThenSeparator(a, [sep] + b);
    assert t[|a|..] == [sep] + b;
    assert ([sep] + b)[1..] == b;
    assert Words([sep] + b) == Words(b);
    RunOfWordThenSeparator(b, []);
    assert b + [] == b;
    assert b[|b|..] == [];
  }

  lemma WordsScienceFiction()
    ensures Words("science fiction") == ["science", "fiction"]
  {
    assert IsWord("science") && IsWord("fiction");
    assert "science fiction" == "science" + [' '] + "fiction";
    TwoWords("science", ' ', "fiction");
  }

  lemma ScienceFictionTrimmed(name: string)
    requires name == "Science Fiction"
    ensures Trim(name) == name
  {
    assert name[0] == 'S' && name[|name| - 1] == 'n';
  }

  lemma ScienceFictionLower(name: string)
    requires name == "Science Fiction"
    ensures Lower(name) == "science fiction"
  {
    LowerCharwise(name);
  }

  lemma KebabOfScienceFiction(name: string)
    requires Trim(name) == name
    requires Lower(name) == "science fiction"
    ensures KebabCase(name) == Join(["science", "fiction"], "-")
  {
    KebabCaseIsJoinedWords(name);
    WordsScienceFiction();
  }

  lemma JoinScienceFiction()
    ensures Join(["science", "fiction"], "-") == "science-fiction"
  {
    JoinCons("science", ["fiction"]);
    assert ["science"] + ["fiction"] == ["science", "fiction"];
  }

  /** The seeded genre 'Science Fiction' carries the key name its kebab case gives. */
  lemma ScienceFictionKey(name: string)
    requires name == "Science Fiction"
    ensures KebabCase(name) == "science-fiction"
    ensures KeyName(name, None) == "science-fiction"
  {
    ScienceFictionTrimmed(name);
    ScienceFictionLower(name);
    KebabOfScienceFiction(name);
    JoinScienceFiction();
  }
}
