/**
 Suffixes of words, relative to a prefix-closed set of words (the nodes of a trie) and to a set
 of patterns: the mathematics behind the pattern matcher's fail links and outputs.
 */
module Words {

  type Word = seq<char>

  function Ext(w: Word, r: char): Word { w + [r] }

  ghost predicate PrefixClosed(trie: set<Word>) {
    [] in trie && forall w, r | Ext(w, r) in trie :: w in trie
  }

  predicate IsSuffix(u: Word, w: Word) {
    |u| <= |w| && w[|w| - |u|..] == u
  }

  /** The longest suffix of `w` that is a word of the trie. */
  function LongestSuffix(trie: set<Word>, w: Word): Word
    requires [] in trie
    ensures LongestSuffix(trie, w) in trie
  {
    if w in trie then w else LongestSuffix(trie, w[1..])
  }

  /** Where a fail link should point: the longest proper suffix that is a word of the trie. */
  function FailWord(trie: set<Word>, w: Word): (u: Word)
    requires [] in trie && w != []
    ensures u in trie && |u| < |w|
  {
    SuffixShrinks(trie, w[1..]);
    LongestSuffix(trie, w[1..])
  }

  /** The longest non-empty pattern that is a suffix of `w`, or the empty word. */
  function LongestPattern(patterns: set<Word>, w: Word): Word {
    if w == [] then [] else if w in patterns then w else LongestPattern(patterns, w[1..])
  }

  lemma {:induction false} SuffixShrinks(trie: set<Word>, w: Word)
    requires [] in trie
    ensures |LongestSuffix(trie, w)| <= |w|
  {
    if w !in trie {
      SuffixShrinks(trie, w[1..]);
    }
  }

  /** `LongestSuffix` is what its name says: a suffix, in the trie, and no other is longer. */
  lemma {:induction false} LongestSuffixIsLongest(trie: set<Word>, w: Word)
    requires [] in trie
    ensures IsSuffix(LongestSuffix(trie, w), w)
    ensures forall u | u in trie && IsSuffix(u, w) :: |u| <= |LongestSuffix(trie, w)|
  {
    if w !in trie {
      LongestSuffixIsLongest(trie, w[1..]);
      forall u | u in trie && IsSuffix(u, w) ensures IsSuffix(u, w[1..]) {
        TailKeepsSuffix(u, w);
      }
      var u := LongestSuffix(trie, w[1..]);
      assert w[|w| - |u|..] == w[1..][|w[1..]| - |u|..];
    }
  }

  lemma TailKeepsSuffix(u: Word, w: Word)
    requires IsSuffix(u, w) && u != w
    ensures w != [] && IsSuffix(u, w[1..])
  {
    assert w[|w| - |u|..] == w[1..][|w[1..]| - |u|..];
  }

  /** `LongestPattern` is a pattern and a suffix, unless empty, and no pattern that is a suffix is longer. */
  lemma {:induction false} LongestPatternIsLongest(patterns: set<Word>, w: Word)
    ensures var p := LongestPattern(patterns, w);
            IsSuffix(p, w) && (p != [] ==> p in patterns)
    ensures forall p | p in patterns && IsSuffix(p, w) :: |p| <= |LongestPattern(patterns, w)|
  {
    if w != [] && w !in patterns {
      LongestPatternIsLongest(patterns, w[1..]);
      forall p | p in patterns && IsSuffix(p, w) ensures IsSuffix(p, w[1..]) {
        TailKeepsSuffix(p, w);
      }
      var u := LongestPattern(patterns, w[1..]);
      assert w[|w| - |u|..] == w[1..][|w[1..]| - |u|..];
    }
  }

  /** Extending a text by one letter only needs the longest suffix of the text, not the text. */
  lemma {:induction false} SuffixOfExtension(trie: set<Word>, w: Word, r: char)
    requires PrefixClosed(trie)
    ensures LongestSuffix(trie, Ext(w, r)) == LongestSuffix(trie, Ext(LongestSuffix(trie, w), r))
  {
    if w !in trie {
      assert Ext(w, r) !in trie;
      assert Ext(w, r)[1..] == Ext(w[1..], r);
      SuffixOfExtension(trie, w[1..], r);
    }
  }

  /** One turn of a fail-chasing loop: if `u` has no `r` child, its fail word gives the same answer. */
  lemma ChaseFail(trie: set<Word>, u: Word, r: char)
    requires PrefixClosed(trie) && u in trie && Ext(u, r) !in trie
    ensures LongestSuffix(trie, Ext(u, r)) ==
            if u == [] then [] else LongestSuffix(trie, Ext(FailWord(trie, u), r))
  {
    if u == [] {
      assert Ext([], r)[1..] == [];
    } else {
      assert Ext(u, r)[1..] == Ext(u[1..], r);
      SuffixOfExtension(trie, u[1..], r);
    }
  }

  /** Patterns ending a text are found at the text's longest suffix in any trie holding them all. */
  lemma {:induction false} PatternAtSuffix(trie: set<Word>, patterns: set<Word>, w: Word)
    requires [] in trie && patterns <= trie
    ensures LongestPattern(patterns, w) == LongestPattern(patterns, LongestSuffix(trie, w))
  {
    if w !in trie {
      PatternAtSuffix(trie, patterns, w[1..]);
    }
  }
}
