/** The string operations the repository takes from its standard library. */
module Text {

  predicate HasPrefix(s: string, p: string) { p <= s }

  predicate HasSuffix(s: string, p: string) { |p| <= |s| && s[|s| - |p|..] == p }

  function TrimPrefix(s: string, p: string): string {
    if HasPrefix(s, p) then s[|p|..] else s
  }

  function TrimSuffix(s: string, p: string): string {
    if HasSuffix(s, p) then s[..|s| - |p|] else s
  }

  predicate IsSpace(c: char) {
    c in {' ', '\t', '\n', '\r', '\U{b}', '\U{c}', '\U{85}', '\U{a0}', '\U{1680}', '\U{2028}', '\U{2029}', '\U{202f}',
      '\U{205f}', '\U{3000}'}
    || '\U{2000}' <= c <= '\U{200a}'
  }

  function TrimLeft(s: string): string {
    if s != [] && IsSpace(s[0]) then TrimLeft(s[1..]) else s
  }

  function TrimRight(s: string): string {
    if s != [] && IsSpace(s[|s| - 1]) then TrimRight(s[..|s| - 1]) else s
  }

  function TrimSpace(s: string): string { TrimRight(TrimLeft(s)) }

  predicate Blank(s: string) { forall c | c in s :: IsSpace(c) }

  /** A text that neither starts nor ends with white space. */
  predicate Tight(s: string) { s != "" && !IsSpace(s[0]) && !IsSpace(s[|s| - 1]) }

  lemma {:induction false} TrimLeftPadded(left: string, core: string)
    requires Blank(left) && (core == "" || !IsSpace(core[0]))
    ensures TrimLeft(left + core) == core
  {
    if left == "" {
      assert left + core == core;
    } else {
      assert (left + core)[1..] == left[1..] + core;
      TrimLeftPadded(left[1..], core);
    }
  }

  lemma {:induction false} TrimRightPadded(core: string, right: string)
    requires Blank(right) && (core == "" || !IsSpace(core[|core| - 1]))
    ensures TrimRight(core + right) == core
  {
    if right == "" {
      assert core + right == core;
    } else {
      var n := |right| - 1;
      assert (core + right)[..|core| + n] == core + right[..n];
      TrimRightPadded(core, right[..n]);
    }
  }

  /** Trimming takes away all white space around a text and nothing else. */
  lemma TrimPadded(left: string, core: string, right: string)
    requires Blank(left) && Blank(right) && Tight(core)
    ensures TrimSpace(left + core + right) == core
  {
    assert left + core + right == left + (core + right);
    TrimLeftPadded(left, core + right);
    TrimRightPadded(core, right);
  }

  lemma TrimBlank(s: string)
    requires Blank(s)
    ensures TrimSpace(s) == ""
  {
    assert s + "" == s;
    TrimLeftPadded(s, "");
  }

  /** Somewhere in `s` stands `t`. */
  ghost predicate Contains(s: string, t: string) {
    exists i, j | 0 <= i <= j <= |s| :: s[i..j] == t
  }

  /** The first position where `p` occurs in `s`, or -1. */
  function Index(s: string, p: string): (i: int)
    ensures i == -1 || (0 <= i <= |s| - |p| && s[i..i + |p|] == p)
  {
    if p <= s then 0
    else if s == [] then -1
    else
      var i := Index(s[1..], p);
      assert i >= 0 ==> s[1..][i..i + |p|] == s[i + 1..i + 1 + |p|];
      if i < 0 then -1 else i + 1
  }

  /** The position found is the first one, and without one there is none. */
  lemma {:induction false} IndexIsFirst(s: string, p: string)
    ensures forall k | 0 <= k <= |s| && (Index(s, p) < 0 || k < Index(s, p)) :: !HasPrefix(s[k..], p)
  {
    if s == [] {
    } else if !(p <= s) {
      IndexIsFirst(s[1..], p);
      forall k | 0 < k <= |s| && (Index(s, p) < 0 || k < Index(s, p)) ensures !HasPrefix(s[k..], p) {
        assert s[1..][k - 1..] == s[k..];
      }
    }
  }

  lemma IndexFindsIff(s: string, p: string)
    ensures Index(s, p) >= 0 <==> Contains(s, p)
  {
    IndexIsFirst(s, p);
    forall i, j | 0 <= i <= j <= |s| && s[i..j] == p ensures HasPrefix(s[i..], p) {
      assert s[i..][..j - i] == s[i..j];
    }
  }

  function Join(parts: seq<string>, sep: string): string {
    if parts == [] then ""
    else if |parts| == 1 then parts[0]
    else parts[0] + sep + Join(parts[1..], sep)
  }

  /** The pieces between line breaks; there is always at least one. */
  function SplitLines(s: string): (lines: seq<string>)
    ensures lines != []
  {
    if s == [] then [""]
    else
      var rest := SplitLines(s[1..]);
      if s[0] == '\n' then [""] + rest else [[s[0]] + rest[0]] + rest[1..]
  }

  /** The length of the leading run without white space. */
  function WordLength(s: string): (n: nat)
    ensures n <= |s|
  {
    if s == [] || IsSpace(s[0]) then 0 else 1 + WordLength(s[1..])
  }

  /** The maximal runs without white space, in order. */
  function Fields(s: string): seq<string> {
    if s == [] then []
    else if IsSpace(s[0]) then Fields(s[1..])
    else [s[..WordLength(s)]] + Fields(s[WordLength(s)..])
  }

  function LowerChar(c: char): char {
    if 'A' <= c <= 'Z' then c - 'A' + 'a' else c
  }

  /** ASCII case folding. */
  function ToLower(s: string): string {
    seq(|s|, i requires 0 <= i < |s| => LowerChar(s[i]))
  }

  // ---------- words ----------

  predicate IsWord(s: string) { s != "" && forall c | c in s :: !IsSpace(c) }

  lemma {:induction false} WordLengthOf(word: string, rest: string)
    requires (forall c | c in word :: !IsSpace(c)) && (rest == "" || IsSpace(rest[0]))
    ensures WordLength(word + rest) == |word|
  {
    if word == "" {
      assert word + rest == rest;
    } else {
      assert (word + rest)[1..] == word[1..] + rest;
      WordLengthOf(word[1..], rest);
    }
  }

  lemma {:induction false} LeadingWord(s: string)
    ensures forall c | c in s[..WordLength(s)] :: !IsSpace(c)
    ensures WordLength(s) == |s| || IsSpace(s[WordLength(s)])
  {
    if s != [] && !IsSpace(s[0]) {
      LeadingWord(s[1..]);
      assert s[..WordLength(s)] == [s[0]] + s[1..][..WordLength(s[1..])];
    }
  }

  lemma FieldsOfWord(word: string, rest: string)
    requires IsWord(word) && (rest == "" || IsSpace(rest[0]))
    ensures Fields(word + rest) == [word] + Fields(rest)
  {
    WordLengthOf(word, rest);
    assert (word + rest)[0] == word[0];
    assert (word + rest)[..|word|] == word && (word + rest)[|word|..] == rest;
  }

  lemma {:induction false} FieldsSkipBlank(blank: string, rest: string)
    requires Blank(blank)
    ensures Fields(blank + rest) == Fields(rest)
  {
    if blank == "" {
      assert blank + rest == rest;
    } else {
      assert (blank + rest)[1..] == blank[1..] + rest;
      FieldsSkipBlank(blank[1..], rest);
    }
  }

  lemma {:induction false} FieldsAreWords(s: string)
    ensures forall word | word in Fields(s) :: IsWord(word)
  {
    if s != [] {
      if IsSpace(s[0]) {
        FieldsAreWords(s[1..]);
      } else {
        LeadingWord(s);
        FieldsAreWords(s[WordLength(s)..]);
      }
    }
  }

  lemma {:induction false} FieldsIgnoreTail(s: string, blank: string)
    requires Blank(blank)
    ensures Fields(s + blank) == Fields(s)
    decreases |s|
  {
    if s == [] {
      assert s + blank == blank + [];
      FieldsSkipBlank(blank, []);
    } else if IsSpace(s[0]) {
      assert (s + blank)[1..] == s[1..] + blank;
      FieldsIgnoreTail(s[1..], blank);
    } else {
      var n := WordLength(s);
      LeadingWord(s);
      assert s == s[..n] + s[n..] && s + blank == s[..n] + (s[n..] + blank);
      assert s[..n][0] == s[0];
      FieldsOfWord(s[..n], s[n..]);
      FieldsOfWord(s[..n], s[n..] + blank);
      FieldsIgnoreTail(s[n..], blank);
    }
  }

  lemma {:induction false} TrimLeftFields(s: string)
    ensures Fields(TrimLeft(s)) == Fields(s)
  {
    if s != [] && IsSpace(s[0]) {
      TrimLeftFields(s[1..]);
    }
  }

  lemma {:induction false} TrimRightFields(s: string)
    ensures Fields(TrimRight(s)) == Fields(s)
  {
    if s != [] && IsSpace(s[|s| - 1]) {
      TrimRightFields(s[..|s| - 1]);
      assert s == s[..|s| - 1] + [s[|s| - 1]];
      FieldsIgnoreTail(s[..|s| - 1], [s[|s| - 1]]);
    }
  }

  /** The words of a text are the same with and without white space around it. */
  lemma TrimKeepsFields(s: string)
    ensures Fields(TrimSpace(s)) == Fields(s)
  {
    TrimLeftFields(s);
    TrimRightFields(TrimLeft(s));
  }

  /** Words with single spaces between them are read back as these words. */
  lemma {:induction false} FieldsOfJoin(words: seq<string>)
    requires forall word | word in words :: IsWord(word)
    ensures Fields(Join(words, " ")) == words
  {
    if |words| == 1 {
      assert words[0] + "" == words[0];
      FieldsOfWord(words[0], "");
      assert words == [words[0]];
    } else if words != [] {
      var rest := Join(words[1..], " ");
      assert words[0] + " " + rest == words[0] + (" " + rest);
      FieldsOfWord(words[0], " " + rest);
      FieldsSkipBlank(" ", rest);
      FieldsOfJoin(words[1..]);
      assert words == [words[0]] + words[1..];
    }
  }
}
