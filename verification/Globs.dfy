/**
 The two glob matchers. Waiting for a URL uses a dynamic program over two rows; asserting a URL
 compiles the glob to a regular expression. Both are related to one notion of matching: a value
 is cut into consecutive pieces, one for each symbol of the pattern.
 */
module Globs {
  import opened Options
  import opened Text

  // ---------- cutting a value into pieces ----------

  /** `value` is a concatenation of pieces, the i-th of which fits the i-th symbol. */
  ghost predicate Accepts<T>(fits: (T, string) -> bool, symbols: seq<T>, value: string) {
    if symbols == [] then value == []
    else exists cut | 0 <= cut <= |value| ::
      LastFits(fits, symbols, value, cut) && Accepts(fits, symbols[..|symbols| - 1], value[..cut])
  }

  ghost predicate LastFits<T>(fits: (T, string) -> bool, symbols: seq<T>, value: string, cut: int)
    requires symbols != [] && 0 <= cut <= |value|
  {
    fits(symbols[|symbols| - 1], value[cut..])
  }

  lemma AcceptsSnoc<T>(fits: (T, string) -> bool, symbols: seq<T>, symbol: T, value: string, cut: nat)
    requires cut <= |value| && Accepts(fits, symbols, value[..cut]) && fits(symbol, value[cut..])
    ensures Accepts(fits, symbols + [symbol], value)
  {
    assert (symbols + [symbol])[..|symbols|] == symbols;
    assert LastFits(fits, symbols + [symbol], value, cut);
  }

  lemma AcceptsUnsnoc<T>(fits: (T, string) -> bool, symbols: seq<T>, symbol: T, value: string) returns (cut: nat)
    requires Accepts(fits, symbols + [symbol], value)
    ensures cut <= |value| && Accepts(fits, symbols, value[..cut]) && fits(symbol, value[cut..])
  {
    assert (symbols + [symbol])[..|symbols|] == symbols;
    cut :| 0 <= cut <= |value| && LastFits(fits, symbols + [symbol], value, cut)
      && Accepts(fits, symbols, value[..cut]);
  }

  lemma {:induction false} AcceptsConcat<T>(fits: (T, string) -> bool, a: seq<T>, b: seq<T>, u: string, v: string)
    requires Accepts(fits, a, u) && Accepts(fits, b, v)
    ensures Accepts(fits, a + b, u + v)
    decreases |b|
  {
    if b == [] {
      assert a + b == a && u + v == u;
    } else {
      var init, last := b[..|b| - 1], b[|b| - 1];
      assert b == init + [last] && a + b == (a + init) + [last];
      var cut := AcceptsUnsnoc(fits, init, last, v);
      AcceptsConcat(fits, a, init, u, v[..cut]);
      assert (u + v)[..|u| + cut] == u + v[..cut] && (u + v)[|u| + cut..] == v[cut..];
      AcceptsSnoc(fits, a + init, last, u + v, |u| + cut);
    }
  }

  lemma CutTwice(value: string, cut: nat, at: nat)
    requires cut <= at <= |value|
    ensures value[..at][..cut] == value[..cut]
    ensures value[cut..][..at - cut] == value[..at][cut..]
    ensures value[cut..][at - cut..] == value[at..]
  {
  }

  lemma {:induction false} AcceptsSplit<T>(fits: (T, string) -> bool, a: seq<T>, b: seq<T>, value: string)
    returns (cut: nat)
    requires Accepts(fits, a + b, value)
    ensures cut <= |value| && Accepts(fits, a, value[..cut]) && Accepts(fits, b, value[cut..])
    decreases |b|
  {
    if b == [] {
      assert a + b == a && value[..|value|] == value;
      cut := |value|;
    } else {
      var init, last := b[..|b| - 1], b[|b| - 1];
      assert b == init + [last] && a + b == (a + init) + [last];
      var at := AcceptsUnsnoc(fits, a + init, last, value);
      cut := AcceptsSplit(fits, a, init, value[..at]);
      CutTwice(value, cut, at);
      AcceptsSnoc(fits, init, last, value[cut..], at - cut);
    }
  }

  lemma AcceptsOne<T>(fits: (T, string) -> bool, symbol: T, value: string)
    ensures Accepts(fits, [symbol], value) <==> fits(symbol, value)
  {
    assert [] + [symbol] == [symbol];
    if Accepts(fits, [symbol], value) {
      var cut := AcceptsUnsnoc(fits, [], symbol, value);
      assert value[cut..] == value;
    }
    if fits(symbol, value) {
      assert value[0..] == value;
      AcceptsSnoc(fits, [], symbol, value, 0);
    }
  }

  // ---------- the wait matcher ----------

  const MAX_WAIT_VALUE_BYTES := 0x10_0000

  function Utf8Length(s: string): nat {
    if s == [] then 0
    else
      (if s[0] < '\U{80}' then 1 else if s[0] < '\U{800}' then 2 else if s[0] < '\U{10000}' then 3 else 4)
      + Utf8Length(s[1..])
  }

  predicate WithinCap(pattern: string, value: string) {
    Utf8Length(pattern) <= MAX_WAIT_VALUE_BYTES && Utf8Length(value) <= MAX_WAIT_VALUE_BYTES
  }

  /** `*` stands for anything, `?` for any one letter, everything else for itself. */
  predicate WaitFits(symbol: char, piece: string) {
    symbol == '*' || (|piece| == 1 && (symbol == '?' || piece[0] == symbol))
  }

  ghost predicate WaitMatches(pattern: string, value: string) {
    Accepts(WaitFits, pattern, value)
  }

  /** Row `i` of the table: which prefixes of the value the first `i` symbols match. */
  ghost predicate IsRow(row: seq<bool>, pattern: string, value: string, i: nat) {
    i <= |pattern| && |row| == |value| + 1
      && forall j | 0 <= j <= |value| :: row[j] <==> WaitMatches(pattern[..i], value[..j])
  }

  lemma StarStep(pattern: string, value: string, i: nat, j: nat)
    requires i < |pattern| && pattern[i] == '*' && j <= |value|
    ensures WaitMatches(pattern[..i + 1], value[..j]) <==>
            WaitMatches(pattern[..i], value[..j]) || (j > 0 && WaitMatches(pattern[..i + 1], value[..j - 1]))
  {
    assert pattern[..i + 1] == pattern[..i] + ['*'];
    if WaitMatches(pattern[..i + 1], value[..j]) {
      var cut := AcceptsUnsnoc(WaitFits, pattern[..i], '*', value[..j]);
      assert value[..j][..cut] == value[..cut];
      if cut < j {
        assert value[..j - 1][..cut] == value[..cut];
        AcceptsSnoc(WaitFits, pattern[..i], '*', value[..j - 1], cut);
      }
    }
    if WaitMatches(pattern[..i], value[..j]) {
      assert value[..j][..j] == value[..j];
      AcceptsSnoc(WaitFits, pattern[..i], '*', value[..j], j);
    }
    if j > 0 && WaitMatches(pattern[..i + 1], value[..j - 1]) {
      var cut := AcceptsUnsnoc(WaitFits, pattern[..i], '*', value[..j - 1]);
      assert value[..j][..cut] == value[..j - 1][..cut];
      AcceptsSnoc(WaitFits, pattern[..i], '*', value[..j], cut);
    }
  }

  lemma LetterStep(pattern: string, value: string, i: nat, j: nat)
    requires i < |pattern| && pattern[i] != '*' && j <= |value|
    ensures WaitMatches(pattern[..i + 1], value[..j]) <==>
            j > 0 && (pattern[i] == '?' || pattern[i] == value[j - 1]) && WaitMatches(pattern[..i], value[..j - 1])
  {
    assert pattern[..i + 1] == pattern[..i] + [pattern[i]];
    if WaitMatches(pattern[..i + 1], value[..j]) {
      var cut := AcceptsUnsnoc(WaitFits, pattern[..i], pattern[i], value[..j]);
      assert cut == j - 1 && value[..j][..cut] == value[..j - 1];
    }
    if j > 0 && (pattern[i] == '?' || pattern[i] == value[j - 1]) && WaitMatches(pattern[..i], value[..j - 1]) {
      assert value[..j][..j - 1] == value[..j - 1] && value[..j][j - 1..] == [value[j - 1]];
      AcceptsSnoc(WaitFits, pattern[..i], pattern[i], value[..j], j - 1);
    }
  }

  /** The row after a star: once a prefix matches, every longer one does. */
  method StarRow(previous: array<bool>, ghost pattern: string, value: string, ghost i: nat)
    returns (current: array<bool>)
    requires i < |pattern| && pattern[i] == '*' && IsRow(previous[..], pattern, value, i)
    ensures fresh(current) && IsRow(current[..], pattern, value, i + 1)
  {
    current := new bool[|value| + 1];
    current[0] := previous[0];
    StarStep(pattern, value, i, 0);
    assert previous[..][0] == previous[0];
    for j := 1 to |value| + 1
      invariant forall k | 0 <= k < j :: current[k] <==> WaitMatches(pattern[..i + 1], value[..k])
    {
      StarStep(pattern, value, i, j);
      assert previous[..][j] == previous[j];
      current[j] := current[j - 1] || previous[j];
    }
  }

  /** The row after any other symbol: it consumes one letter. */
  method LetterRow(previous: array<bool>, ghost pattern: string, symbol: char, value: string, ghost i: nat)
    returns (current: array<bool>)
    requires i < |pattern| && pattern[i] == symbol != '*' && IsRow(previous[..], pattern, value, i)
    ensures fresh(current) && IsRow(current[..], pattern, value, i + 1)
  {
    current := new bool[|value| + 1](k => false);
    LetterStep(pattern, value, i, 0);
    for j := 0 to |value|
      invariant forall k | 0 <= k <= j :: current[k] <==> WaitMatches(pattern[..i + 1], value[..k])
      invariant forall k | j < k <= |value| :: !current[k]
    {
      LetterStep(pattern, value, i, j + 1);
      assert previous[..][j] == previous[j];
      if symbol == '?' || symbol == value[j] {
        current[j + 1] := previous[j];
      }
    }
  }

  /** The dynamic program decides matching, for values within the cap. */
  method MatchGlob(pattern: string, value: string) returns (matched: bool)
    ensures matched <==> WithinCap(pattern, value) && WaitMatches(pattern, value)
  {
    if Utf8Length(pattern) > MAX_WAIT_VALUE_BYTES || Utf8Length(value) > MAX_WAIT_VALUE_BYTES {
      return false;
    }
    var previous := new bool[|value| + 1](k => k == 0);
    for i := 0 to |pattern|
      invariant IsRow(previous[..], pattern, value, i)
    {
      if pattern[i] == '*' {
        previous := StarRow(previous, pattern, value, i);
      } else {
        previous := LetterRow(previous, pattern, pattern[i], value, i);
      }
    }
    assert pattern[..|pattern|] == pattern && value[..|value|] == value;
    assert previous[..][|value|] == previous[|value|];
    return previous[|value|];
  }

  // ---------- the assert matcher: globs ----------

  datatype Glob = AnyRun | SegmentRun | Letter(c: char)

  /** `**` is one symbol, a remaining `*` another, everything else stands for itself. */
  function ParseGlob(pattern: string): seq<Glob> {
    if pattern == [] then []
    else if HasPrefix(pattern, "**") then [AnyRun] + ParseGlob(pattern[2..])
    else if HasPrefix(pattern, "*") then [SegmentRun] + ParseGlob(pattern[1..])
    else [Letter(pattern[0])] + ParseGlob(pattern[1..])
  }

  /** `**` stands for any run without a line break, `*` for any run without a slash. */
  predicate GlobFits(symbol: Glob, piece: string) {
    match symbol
    case AnyRun => '\n' !in piece
    case SegmentRun => '/' !in piece
    case Letter(c) => piece == [c]
  }

  ghost predicate AssertMatches(pattern: string, value: string) {
    Accepts(GlobFits, ParseGlob(pattern), value)
  }

  // ---------- regular expressions, as far as globs need them ----------

  datatype Class = Only(c: char) | NotNewline | NotSlash

  datatype Atom = Atom(class_: Class, star: bool)

  predicate InClass(k: Class, c: char) {
    match k
    case Only(x) => c == x
    case NotNewline => c != '\n'
    case NotSlash => c != '/'
  }

  predicate AtomFits(atom: Atom, piece: string) {
    (!atom.star ==> |piece| == 1) && forall i | 0 <= i < |piece| :: InClass(atom.class_, piece[i])
  }

  const META := "\\.+*?()|[]{}^$"

  predicate IsMeta(c: char) { c in META }

  /** One letter or class at the start of a regular expression, and how long it is written. */
  function ParseClass(re: string): Option<(Class, nat)>
    ensures ParseClass(re).Some? ==> 0 < ParseClass(re).value.1 <= |re|
  {
    if re == [] then None
    else if re[0] == '\\' then if |re| > 1 && IsMeta(re[1]) then Some((Only(re[1]), 2)) else None
    else if re[0] == '.' then Some((NotNewline, 1))
    else if HasPrefix(re, "[^/]") then Some((NotSlash, 4))
    else if IsMeta(re[0]) then None
    else Some((Only(re[0]), 1))
  }

  function ParseAtoms(re: string): Option<seq<Atom>> {
    if re == [] then Some([])
    else
      match ParseClass(re)
      case None => None
      case Some((class_, n)) =>
        var star := n < |re| && re[n] == '*';
        match ParseAtoms(re[if star then n + 1 else n..])
        case None => None
        case Some(rest) => Some([Atom(class_, star)] + rest)
  }

  /** An anchored regular expression matches whole values; one that does not parse matches nothing. */
  ghost predicate RegexMatches(re: string, value: string) {
    && |re| >= 2 && re[0] == '^' && re[|re| - 1] == '$'
    && ParseAtoms(re[1..|re| - 1]).Some? && Accepts(AtomFits, ParseAtoms(re[1..|re| - 1]).value, value)
  }

  // ---------- compiling globs to regular expressions ----------

  function QuoteMeta(s: string): string {
    if s == [] then "" else (if IsMeta(s[0]) then ['\\', s[0]] else [s[0]]) + QuoteMeta(s[1..])
  }

  /** The regular expression for a glob, without its anchors. */
  function Compile(pattern: string): string {
    if pattern == [] then ""
    else if HasPrefix(pattern, "**") then ".*" + Compile(pattern[2..])
    else if HasPrefix(pattern, "*") then "[^/]*" + Compile(pattern[1..])
    else QuoteMeta([pattern[0]]) + Compile(pattern[1..])
  }

  function AtomOf(symbol: Glob): Atom {
    match symbol
    case AnyRun => Atom(NotNewline, true)
    case SegmentRun => Atom(NotSlash, true)
    case Letter(c) => Atom(Only(c), false)
  }

  function AtomsOf(symbols: seq<Glob>): (atoms: seq<Atom>)
    ensures |atoms| == |symbols|
  {
    if symbols == [] then [] else [AtomOf(symbols[0])] + AtomsOf(symbols[1..])
  }

  lemma CompiledStart(pattern: string)
    ensures Compile(pattern) == [] || Compile(pattern)[0] != '*'
  {
  }

  /** The compiled text parses back to one atom for each symbol of the glob. */
  lemma {:induction false} CompiledParses(pattern: string)
    ensures ParseAtoms(Compile(pattern)) == Some(AtomsOf(ParseGlob(pattern)))
    decreases |pattern|
  {
    if pattern != [] {
      var re := Compile(pattern);
      if HasPrefix(pattern, "**") {
        CompiledParses(pattern[2..]);
        assert re[2..] == Compile(pattern[2..]);
      } else if HasPrefix(pattern, "*") {
        CompiledParses(pattern[1..]);
        assert re[..4] == "[^/]" && re[4] == '*' && re[5..] == Compile(pattern[1..]);
      } else {
        LetterParses(pattern[0], Compile(pattern[1..]));
        CompiledStart(pattern[1..]);
        CompiledParses(pattern[1..]);
      }
    }
  }

  lemma LetterParses(c: char, rest: string)
    requires rest == [] || rest[0] != '*'
    ensures var re := QuoteMeta([c]) + rest;
            && ParseClass(re) == Some((Only(c), |QuoteMeta([c])|))
            && re[|QuoteMeta([c])|..] == rest
  {
    var re := QuoteMeta([c]) + rest;
    assert QuoteMeta([c]) == (if IsMeta(c) then ['\\', c] else [c]) + QuoteMeta([]);
    if !IsMeta(c) {
      assert '\\' in META && '.' in META && '[' in META;
      assert re[0] == c && "[^/]"[0] == '[';
    }
  }

  lemma {:induction false} AtomsAt(symbols: seq<Glob>, i: nat)
    requires i < |symbols|
    ensures AtomsOf(symbols)[i] == AtomOf(symbols[i])
  {
    if i > 0 {
      AtomsAt(symbols[1..], i - 1);
    }
  }

  lemma AtomFitsLikeGlob(symbol: Glob, piece: string)
    ensures AtomFits(AtomOf(symbol), piece) <==> GlobFits(symbol, piece)
  {
    match symbol
    case AnyRun =>
    case SegmentRun =>
    case Letter(c) =>
      assert |piece| == 1 && piece[0] == c <==> piece == [c];
  }

  lemma {:induction false} AtomsAcceptLikeGlobs(symbols: seq<Glob>, value: string)
    ensures Accepts(AtomFits, AtomsOf(symbols), value) <==> Accepts(GlobFits, symbols, value)
    decreases |symbols|
  {
    if symbols != [] {
      var init, last := symbols[..|symbols| - 1], symbols[|symbols| - 1];
      forall i | 0 <= i < |symbols| ensures AtomsOf(symbols)[i] == AtomOf(symbols[i]) {
        AtomsAt(symbols, i);
      }
      forall i | 0 <= i < |init| ensures AtomsOf(init)[i] == AtomOf(init[i]) {
        AtomsAt(init, i);
      }
      assert AtomsOf(symbols) == AtomsOf(init) + [AtomOf(last)] && symbols == init + [last];
      if Accepts(AtomFits, AtomsOf(symbols), value) {
        var cut := AcceptsUnsnoc(AtomFits, AtomsOf(init), AtomOf(last), value);
        AtomsAcceptLikeGlobs(init, value[..cut]);
        AtomFitsLikeGlob(last, value[cut..]);
        AcceptsSnoc(GlobFits, init, last, value, cut);
      }
      if Accepts(GlobFits, symbols, value) {
        var cut := AcceptsUnsnoc(GlobFits, init, last, value);
        AtomsAcceptLikeGlobs(init, value[..cut]);
        AtomFitsLikeGlob(last, value[cut..]);
        AcceptsSnoc(AtomFits, AtomsOf(init), AtomOf(last), value, cut);
      }
    }
  }

  /** The anchored regular expression of a glob means what the glob means. */
  lemma CompilePreservesMeaning(pattern: string, value: string)
    ensures RegexMatches("^" + Compile(pattern) + "$", value) <==> AssertMatches(pattern, value)
  {
    var re := "^" + Compile(pattern) + "$";
    assert re[1..|re| - 1] == Compile(pattern);
    CompiledParses(pattern);
    AtomsAcceptLikeGlobs(ParseGlob(pattern), value);
  }

  /** The position of the first star, or -1. */
  function FirstStar(s: string): (i: int)
    ensures -1 <= i < |s|
    ensures i >= 0 ==> s[i] == '*' && '*' !in s[..i]
    ensures i < 0 ==> '*' !in s
  {
    if s == [] then -1
    else if s[0] == '*' then 0
    else
      var i := FirstStar(s[1..]);
      if i < 0 then -1 else assert s[..i + 1] == [s[0]] + s[1..][..i]; i + 1
  }

  function Quoted(c: char): string {
    if IsMeta(c) then ['\\', c] else [c]
  }

  lemma CompileLetter(pattern: string)
    requires pattern != [] && pattern[0] != '*'
    ensures Compile(pattern) == Quoted(pattern[0]) + Compile(pattern[1..])
  {
    assert QuoteMeta([pattern[0]]) == Quoted(pattern[0]) + QuoteMeta([]);
  }

  /** A run without stars compiles to its quotation. */
  lemma {:induction false} CompileRun(run: string, rest: string)
    requires '*' !in run
    ensures Compile(run + rest) == QuoteMeta(run) + Compile(rest)
  {
    if run == [] {
      assert run + rest == rest;
    } else {
      assert (run + rest)[1..] == run[1..] + rest && (run + rest)[0] == run[0];
      CompileLetter(run + rest);
      CompileRun(run[1..], rest);
    }
  }

  /** Building the expression run by run gives the compiled glob. */
  method GlobToRegex(pattern: string) returns (re: string)
    ensures re == "^" + Compile(pattern) + "$"
  {
    re := "^";
    var rest := pattern;
    while rest != ""
      invariant re + Compile(rest) == "^" + Compile(pattern)
      decreases |rest|
    {
      var piece, left := NextPiece(rest);
      assert re + (piece + Compile(left)) == (re + piece) + Compile(left);
      re, rest := re + piece, left;
    }
    re := re + "$";
  }

  /** One turn of the loop: a star, a double star or the run before the next star. */
  method NextPiece(rest: string) returns (piece: string, left: string)
    requires rest != ""
    ensures Compile(rest) == piece + Compile(left) && |left| < |rest|
  {
    if HasPrefix(rest, "**") {
      return ".*", rest[2..];
    }
    if HasPrefix(rest, "*") {
      return "[^/]*", rest[1..];
    }
    var next := FirstStar(rest);
    if next < 0 {
      CompileRun(rest, "");
      assert rest + "" == rest;
      return QuoteMeta(rest), "";
    }
    CompileRun(rest[..next], rest[next..]);
    assert rest[..next] + rest[next..] == rest;
    return QuoteMeta(rest[..next]), rest[next..];
  }

  // ---------- the two matchers together ----------

  /** Whatever the assert matcher accepts, the wait matcher accepts too. */
  lemma {:induction false} AssertImpliesWait(pattern: string, value: string)
    requires AssertMatches(pattern, value)
    ensures WaitMatches(pattern, value)
    decreases |pattern|
  {
    if pattern != [] {
      var symbols := ParseGlob(pattern);
      var n := if HasPrefix(pattern, "**") then 2 else 1;
      var cut := AcceptsSplit(GlobFits, [symbols[0]], ParseGlob(pattern[n..]), value);
      AcceptsOne(GlobFits, symbols[0], value[..cut]);
      AssertImpliesWait(pattern[n..], value[cut..]);
      AcceptsOne(WaitFits, pattern[0], value[..cut]);
      if n == 2 {
        WaitDoubleStar(value[..cut]);
        assert pattern[..2] == "**";
      }
      AcceptsConcat(WaitFits, pattern[..n], pattern[n..], value[..cut], value[cut..]);
      assert pattern[..n] + pattern[n..] == pattern && value[..cut] + value[cut..] == value;
    }
  }

  lemma WaitDoubleStar(value: string)
    ensures WaitMatches("**", value)
  {
    AcceptsOne(WaitFits, '*', value);
    AcceptsOne(WaitFits, '*', "");
    AcceptsConcat(WaitFits, "*", "*", value, "");
    assert "*" + "*" == "**" && value + "" == value;
  }

  /** Without question marks in the pattern, and slashes and line breaks in the value, the matchers agree. */
  lemma {:induction false} WaitImpliesAssert(pattern: string, value: string)
    requires WaitMatches(pattern, value) && '?' !in pattern && '/' !in value && '\n' !in value
    ensures AssertMatches(pattern, value)
    decreases |pattern|
  {
    if pattern != [] {
      var symbols := ParseGlob(pattern);
      var n := if HasPrefix(pattern, "**") then 2 else 1;
      assert pattern[..n] + pattern[n..] == pattern;
      var cut := AcceptsSplit(WaitFits, pattern[..n], pattern[n..], value);
      WaitImpliesAssert(pattern[n..], value[cut..]);
      if n == 1 {
        assert pattern[..1] == [pattern[0]];
        AcceptsOne(WaitFits, pattern[0], value[..cut]);
      }
      AcceptsFirst(GlobFits, symbols[0], ParseGlob(pattern[n..]), value, cut);
    }
  }

  lemma AcceptsFirst<T>(fits: (T, string) -> bool, symbol: T, symbols: seq<T>, value: string, cut: nat)
    requires cut <= |value| && fits(symbol, value[..cut]) && Accepts(fits, symbols, value[cut..])
    ensures Accepts(fits, [symbol] + symbols, value)
  {
    AcceptsOne(fits, symbol, value[..cut]);
    AcceptsConcat(fits, [symbol], symbols, value[..cut], value[cut..]);
    assert value[..cut] + value[cut..] == value;
  }

  /**
   The two meanings agree on a value, for every pattern without `?`, exactly when it has no slash and no line
   break.
   */
  lemma MeaningsAgreeOnValueIff(value: string)
    ensures (forall pattern | '?' !in pattern :: Agree(pattern, value)) <==> '/' !in value && '\n' !in value
  {
    if '/' !in value && '\n' !in value {
      forall pattern | '?' !in pattern ensures Agree(pattern, value) {
        AgreeOnFlatValue(pattern, value);
      }
    } else if forall pattern | '?' !in pattern :: Agree(pattern, value) {
      assert Agree("*", value) && Agree("**", value);
      StarsAccept(value);
    }
  }

  ghost predicate Agree(pattern: string, value: string) {
    WaitMatches(pattern, value) <==> AssertMatches(pattern, value)
  }

  lemma AgreeOnFlatValue(pattern: string, value: string)
    requires '?' !in pattern && '/' !in value && '\n' !in value
    ensures Agree(pattern, value)
  {
    if WaitMatches(pattern, value) {
      WaitImpliesAssert(pattern, value);
    }
    if AssertMatches(pattern, value) {
      AssertImpliesWait(pattern, value);
    }
  }

  /** What `*` and `**` stand for in the two matchers. */
  lemma StarsAccept(value: string)
    ensures WaitMatches("*", value) && WaitMatches("**", value)
    ensures AssertMatches("*", value) <==> '/' !in value
    ensures AssertMatches("**", value) <==> '\n' !in value
  {
    AcceptsOne(WaitFits, '*', value);
    WaitDoubleStar(value);
    assert ParseGlob("*") == [SegmentRun] + ParseGlob("") == [SegmentRun];
    assert ParseGlob("**") == [AnyRun] + ParseGlob("") == [AnyRun];
    AcceptsOne(GlobFits, SegmentRun, value);
    AcceptsOne(GlobFits, AnyRun, value);
  }

  /** The two meanings agree on a pattern, for every value, exactly when it has neither `*` nor `?`. */
  lemma MeaningsAgreeOnPatternIff(pattern: string)
    ensures (forall value :: Agree(pattern, value)) <==> '*' !in pattern && '?' !in pattern
  {
    if '*' in pattern {
      var value := StarTellsApart(pattern);
      assert !Agree(pattern, value);
    } else if '?' in pattern {
      var value := QuestionTellsApart(pattern);
      assert !Agree(pattern, value);
    } else {
      forall value ensures Agree(pattern, value) {
        PlainForWait(pattern, value);
        PlainForAssert(pattern, value);
      }
    }
  }

  /** Every pattern matches itself in the wait matcher, since wildcards match their own letter too. */
  lemma {:induction false} WaitMatchesItself(pattern: string)
    ensures WaitMatches(pattern, pattern)
  {
    if pattern != [] {
      var n := |pattern| - 1;
      WaitMatchesItself(pattern[..n]);
      assert pattern[..n] + [pattern[n]] == pattern;
      assert pattern[n..] == [pattern[n]];
      AcceptsSnoc(WaitFits, pattern[..n], pattern[n], pattern, n);
    }
  }

  lemma PlainForWait(pattern: string, value: string)
    requires '*' !in pattern && '?' !in pattern
    ensures WaitMatches(pattern, value) <==> value == pattern
  {
    WaitMatchesItself(pattern);
    if WaitMatches(pattern, value) {
      WaitMatchesOnlyItself(pattern, value);
    }
  }

  lemma {:induction false} WaitMatchesOnlyItself(pattern: string, value: string)
    requires '*' !in pattern && '?' !in pattern && WaitMatches(pattern, value)
    ensures value == pattern
  {
    if pattern != [] {
      var n := |pattern| - 1;
      assert pattern[..n] + [pattern[n]] == pattern;
      var cut := AcceptsUnsnoc(WaitFits, pattern[..n], pattern[n], value);
      WaitMatchesOnlyItself(pattern[..n], value[..cut]);
      assert value == value[..cut] + value[cut..];
    }
  }

  lemma PlainForAssert(pattern: string, value: string)
    requires '*' !in pattern
    ensures AssertMatches(pattern, value) <==> value == pattern
  {
    AssertMatchesItself(pattern);
    if AssertMatches(pattern, value) {
      AssertMatchesOnlyItself(pattern, value);
    }
  }

  lemma {:induction false} AssertMatchesItself(pattern: string)
    requires '*' !in pattern
    ensures AssertMatches(pattern, pattern)
  {
    if pattern != [] {
      AssertMatchesItself(pattern[1..]);
      assert pattern[..1] == [pattern[0]];
      AcceptsFirst(GlobFits, Letter(pattern[0]), ParseGlob(pattern[1..]), pattern, 1);
    }
  }

  lemma {:induction false} AssertMatchesOnlyItself(pattern: string, value: string)
    requires '*' !in pattern && AssertMatches(pattern, value)
    ensures value == pattern
  {
    if pattern != [] {
      var first, rest := Letter(pattern[0]), ParseGlob(pattern[1..]);
      var cut := AcceptsSplit(GlobFits, [first], rest, value);
      AcceptsOne(GlobFits, first, value[..cut]);
      AssertMatchesOnlyItself(pattern[1..], value[cut..]);
      assert value == value[..cut] + value[cut..] && pattern == [pattern[0]] + pattern[1..];
    }
  }

  /** Put another text where one wildcard stands; the wait matcher still matches. */
  lemma WaitMatchesReplaced(pattern: string, k: nat, text: string)
    requires k < |pattern| && WaitFits(pattern[k], text)
    ensures WaitMatches(pattern, pattern[..k] + (text + pattern[k + 1..]))
  {
    WaitMatchesItself(pattern[..k]);
    WaitMatchesItself(pattern[k + 1..]);
    AcceptsOne(WaitFits, pattern[k], text);
    AcceptsConcat(WaitFits, [pattern[k]], pattern[k + 1..], text, pattern[k + 1..]);
    AcceptsConcat(WaitFits, pattern[..k], [pattern[k]] + pattern[k + 1..], pattern[..k], text + pattern[k + 1..]);
    assert pattern == pattern[..k] + ([pattern[k]] + pattern[k + 1..]);
  }

  lemma SameLengthReplaced(before: string, after: string)
    ensures Utf8Length(before + ("x" + after)) == Utf8Length(before + ("?" + after))
  {
    Utf8Concat(before, "x" + after);
    Utf8Concat(before, "?" + after);
    assert ("x" + after)[1..] == after == ("?" + after)[1..];
  }

  lemma QuestionTellsApart(pattern: string) returns (value: string)
    requires '?' in pattern && '*' !in pattern
    ensures WaitMatches(pattern, value) && !AssertMatches(pattern, value) && Utf8Length(value) == Utf8Length(pattern)
  {
    var k :| 0 <= k < |pattern| && pattern[k] == '?';
    value := pattern[..k] + ("x" + pattern[k + 1..]);
    SameLengthReplaced(pattern[..k], pattern[k + 1..]);
    assert pattern == pattern[..k] + ("?" + pattern[k + 1..]);
    WaitMatchesReplaced(pattern, k, "x");
    PlainForAssert(pattern, value);
    assert value[k] == 'x';
  }

  /** Line breaks and slashes in turn, from `i` up to `j`. */
  ghost predicate Alternating(text: string, i: nat, j: nat) {
    && i <= j <= |text|
    && (forall k | i <= k < j :: text[k] == '\n' || text[k] == '/')
    && (forall k | i <= k < j - 1 :: text[k] != text[k + 1])
  }

  function Alternate(n: nat): (text: string)
    ensures |text| == n && Alternating(text, 0, n)
  {
    if n == 0 then "" else if n == 1 then "/"
    else
      var rest := Alternate(n - 1);
      (if rest[0] == '/' then "\n" else "/") + rest
  }

  /** No glob symbol fits a piece in which a slash and a line break stand side by side. */
  lemma PieceHoldsOne(symbol: Glob, piece: string, i: nat, j: nat)
    requires GlobFits(symbol, piece) && Alternating(piece, i, j)
    ensures j - i <= 1
  {
    if i + 1 < j {
      NeverNeighbours(symbol, piece, i);
    }
  }

  lemma NeverNeighbours(symbol: Glob, piece: string, i: nat)
    requires GlobFits(symbol, piece) && i + 1 < |piece|
    ensures !(piece[i] == '\n' && piece[i + 1] == '/') && !(piece[i] == '/' && piece[i + 1] == '\n')
  {
    assert piece[i] in piece && piece[i + 1] in piece;
  }

  /** Alternating text in an accepted value is no longer than the list of symbols. */
  lemma {:induction false} AlternatingIsShort(symbols: seq<Glob>, value: string, i: nat, j: nat)
    requires Accepts(GlobFits, symbols, value) && Alternating(value, i, j)
    ensures j - i <= |symbols|
  {
    if symbols != [] {
      var n := |symbols| - 1;
      assert symbols == symbols[..n] + [symbols[n]];
      var cut := AcceptsUnsnoc(GlobFits, symbols[..n], symbols[n], value);
      LastHoldsOne(symbols[n], value, i, j, cut);
      if i < cut {
        var k := if j <= cut then j else cut;
        AlternatingBefore(value, i, k, cut);
        AlternatingIsShort(symbols[..n], value[..cut], i, k);
      }
    }
  }

  lemma LastHoldsOne(symbol: Glob, value: string, i: nat, j: nat, cut: nat)
    requires cut <= |value| && GlobFits(symbol, value[cut..]) && Alternating(value, i, j)
    ensures j - (if i < cut then cut else i) <= 1
  {
    if cut < j {
      AlternatingAfter(value, if i < cut then cut else i, j, cut);
      PieceHoldsOne(symbol, value[cut..], if i < cut then 0 else i - cut, j - cut);
    }
  }

  lemma AlternatingBefore(value: string, i: nat, j: nat, cut: nat)
    requires cut <= |value| && j <= cut && Alternating(value, i, j)
    ensures Alternating(value[..cut], i, j)
  {
  }

  lemma AlternatingAfter(value: string, i: nat, j: nat, cut: nat)
    requires cut <= i && Alternating(value, i, j)
    ensures Alternating(value[cut..], i - cut, j - cut)
  {
  }

  lemma StarTellsApart(pattern: string) returns (value: string)
    requires '*' in pattern
    ensures WaitMatches(pattern, value) && !AssertMatches(pattern, value)
  {
    var k :| 0 <= k < |pattern| && pattern[k] == '*';
    var text := Alternate(|ParseGlob(pattern)| + 1);
    value := pattern[..k] + (text + pattern[k + 1..]);
    WaitMatchesReplaced(pattern, k, text);
    assert Alternating(value, k, k + |text|);
    if AssertMatches(pattern, value) {
      AlternatingIsShort(ParseGlob(pattern), value, k, k + |text|);
    }
  }

  // ---------- the matchers with the size cap ----------

  /** The wait matcher as it is, which rejects everything over the cap, against the assert matcher. */
  ghost predicate MatchersAgree(pattern: string, value: string) {
    WithinCap(pattern, value) && WaitMatches(pattern, value) <==> AssertMatches(pattern, value)
  }

  predicate Short(s: string) {
    Utf8Length(s) <= MAX_WAIT_VALUE_BYTES
  }

  /**
   On a value within the cap the matchers agree, for every such pattern without `?`, exactly when it has no slash
   and no line break.
   */
  lemma AgreeOnValueIff(value: string)
    requires Short(value)
    ensures (forall pattern | '?' !in pattern && Short(pattern) :: MatchersAgree(pattern, value))
            <==> '/' !in value && '\n' !in value
  {
    if '/' !in value && '\n' !in value {
      forall pattern | '?' !in pattern && Short(pattern) ensures MatchersAgree(pattern, value) {
        AgreeOnFlatValue(pattern, value);
      }
    } else if forall pattern | '?' !in pattern && Short(pattern) :: MatchersAgree(pattern, value) {
      StarsAreShort();
      assert MatchersAgree("*", value) && MatchersAgree("**", value);
      StarsAccept(value);
    }
  }

  lemma StarsAreShort()
    ensures Short("*") && Short("**")
  {
    assert "**"[1..] == "*" && "*"[1..] == "";
    assert Utf8Length("*") == 1 + Utf8Length("");
    assert Utf8Length("**") == 1 + Utf8Length("*");
  }

  /** Over the cap the assert matcher can accept what the wait matcher rejects. */
  lemma LongValuesTellApart(value: string)
    requires !Short(value) && ('/' !in value || '\n' !in value)
    ensures !MatchersAgree("*", value) || !MatchersAgree("**", value)
  {
    StarsAccept(value);
  }

  /**
   The matchers agree on a pattern, for every value, exactly when it has neither `*` nor `?` and is within the
   cap.
   */
  lemma AgreeOnPatternIff(pattern: string)
    ensures (forall value :: MatchersAgree(pattern, value)) <==> '*' !in pattern && '?' !in pattern && Short(pattern)
  {
    if '*' in pattern {
      var value := LongAccepted(pattern, MAX_WAIT_VALUE_BYTES + 1);
      AtLeastOneByteEach(value);
      assert !MatchersAgree(pattern, value);
    } else if !Short(pattern) {
      PlainForAssert(pattern, pattern);
      assert !MatchersAgree(pattern, pattern);
    } else if '?' in pattern {
      var value := QuestionTellsApart(pattern);
      assert !MatchersAgree(pattern, value);
    } else {
      forall value ensures MatchersAgree(pattern, value) {
        PlainForWait(pattern, value);
        PlainForAssert(pattern, value);
      }
    }
  }

  /** The size of a text counts one to four bytes for a character, by its code point. */
  lemma {:induction false} BytesByCodePoint(s: string)
    ensures (forall c | c in s :: c < '\U{80}') ==> Utf8Length(s) == |s|
    ensures (forall c | c in s :: '\U{80}' <= c < '\U{800}') ==> Utf8Length(s) == 2 * |s|
    ensures (forall c | c in s :: '\U{800}' <= c < '\U{10000}') ==> Utf8Length(s) == 3 * |s|
    ensures (forall c | c in s :: '\U{10000}' <= c) ==> Utf8Length(s) == 4 * |s|
  {
    if s != [] {
      BytesByCodePoint(s[1..]);
      assert s[0] in s && forall c | c in s[1..] :: c in s;
    }
  }

  lemma {:induction false} AtLeastOneByteEach(s: string)
    ensures |s| <= Utf8Length(s)
  {
    if s != [] {
      AtLeastOneByteEach(s[1..]);
    }
  }

  lemma {:induction false} Utf8Concat(s: string, t: string)
    ensures Utf8Length(s + t) == Utf8Length(s) + Utf8Length(t)
  {
    if s == [] {
      assert s + t == t;
    } else {
      assert (s + t)[1..] == s[1..] + t;
      Utf8Concat(s[1..], t);
    }
  }

  function Letters(n: nat): (text: string)
    ensures |text| == n && forall c | c in text :: c == 'a'
  {
    if n == 0 then "" else "a" + Letters(n - 1)
  }

  /** A value the assert matcher accepts, with nothing for every run. */
  lemma {:induction false} SomeAccepted(pattern: string) returns (value: string)
    ensures AssertMatches(pattern, value)
    decreases |pattern|
  {
    value := "";
    if pattern != [] {
      var n := if HasPrefix(pattern, "**") then 2 else 1;
      var rest := SomeAccepted(pattern[n..]);
      value := AcceptedAfter(pattern, if pattern[0] == '*' then "" else [pattern[0]], rest);
    }
  }

  /** Put a piece for the first symbol in front of a value for the others. */
  lemma AcceptedAfter(pattern: string, piece: string, rest: string) returns (value: string)
    requires pattern != [] && GlobFits(ParseGlob(pattern)[0], piece)
    requires AssertMatches(pattern[if HasPrefix(pattern, "**") then 2 else 1..], rest)
    ensures AssertMatches(pattern, value) && |value| == |piece| + |rest|
  {
    var n := if HasPrefix(pattern, "**") then 2 else 1;
    value := piece + rest;
    assert value[..|piece|] == piece && value[|piece|..] == rest;
    AcceptsFirst(GlobFits, ParseGlob(pattern)[0], ParseGlob(pattern[n..]), value, |piece|);
  }

  /** A pattern with a run accepts values of any length. */
  lemma {:induction false} LongAccepted(pattern: string, length: nat) returns (value: string)
    requires '*' in pattern
    ensures AssertMatches(pattern, value) && |value| >= length
    decreases |pattern|
  {
    if pattern[0] == '*' {
      var n := if HasPrefix(pattern, "**") then 2 else 1;
      var rest := SomeAccepted(pattern[n..]);
      value := AcceptedAfter(pattern, Letters(length), rest);
    } else {
      var rest := LongAccepted(pattern[1..], length);
      value := AcceptedAfter(pattern, [pattern[0]], rest);
    }
  }
}
