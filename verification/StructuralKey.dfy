/**
 The structural key of a snapshot element: its path with accessible names, written in square
 brackets, taken out again. Names are removed pair by pair from the right.
 */
module StructuralKey {
  import opened Snapshots
  import opened Text
  import RefModel

  function LastOpen(s: string): (i: int)
    ensures -1 <= i < |s|
    ensures i >= 0 ==> s[i] == '[' && '[' !in s[i + 1..]
    ensures i < 0 ==> '[' !in s
  {
    if s == [] then -1 else if s[|s| - 1] == '[' then |s| - 1 else LastOpen(s[..|s| - 1])
  }

  function FirstClose(s: string): (i: int)
    ensures -1 <= i < |s|
    ensures i >= 0 ==> s[i] == ']' && ']' !in s[..i]
    ensures i < 0 ==> ']' !in s
  {
    if s == [] then -1
    else if s[0] == ']' then 0
    else
      var i := FirstClose(s[1..]);
      if i < 0 then -1 else assert s[..i + 1] == [s[0]] + s[1..][..i]; i + 1
  }

  predicate HasPair(path: string) {
    LastOpen(path) >= 0 && FirstClose(path[LastOpen(path)..]) >= 0
  }

  /** Take out the last opened bracket with everything up to its closing one. */
  function Cut(path: string): (shorter: string)
    requires HasPair(path)
    ensures |shorter| < |path|
  {
    var start := LastOpen(path);
    path[..start] + path[start + FirstClose(path[start..]) + 1..]
  }

  function Strip(path: string): string {
    if HasPair(path) then Strip(Cut(path)) else path
  }

  function IntString(n: int): string {
    if n < 0 then "-" + RefModel.Decimal(-n) else RefModel.Decimal(n)
  }

  function Key(ref: SnapshotRef): string {
    ref.role + "|" + Strip(ref.domPath) + "|" + IntString(ref.siblingOrdinal)
  }

  method SnapshotStructuralKey(ref: SnapshotRef) returns (key: string)
    ensures key == Key(ref)
  {
    var path := ref.domPath;
    while true
      invariant Strip(path) == Strip(ref.domPath)
      decreases |path|
    {
      var start := LastOpen(path);
      if start < 0 {
        break;
      }
      var end := FirstClose(path[start..]);
      if end < 0 {
        break;
      }
      path := path[..start] + path[start + end + 1..];
    }
    key := ref.role + "|" + path + "|" + IntString(ref.siblingOrdinal);
  }

  // ---------- what equal keys mean ----------

  lemma {:induction false} DecimalHasDigits(n: nat)
    ensures forall c | c in RefModel.Decimal(n) :: '0' <= c <= '9'
  {
    if n >= 10 {
      DecimalHasDigits(n / 10);
    }
  }

  lemma IntStringHasNoBar(n: int)
    ensures '|' !in IntString(n)
  {
    DecimalHasDigits(if n < 0 then -n else n);
  }

  lemma SignShows(n: int)
    ensures IntString(n) != "" && (IntString(n)[0] == '-' <==> n < 0)
  {
    var digits := RefModel.Decimal(if n < 0 then -n else n);
    DecimalHasDigits(if n < 0 then -n else n);
    RefModel.DecimalNonEmpty(if n < 0 then -n else n);
    assert digits[0] in digits;
  }

  lemma IntStringInjective(m: int, n: int)
    requires IntString(m) == IntString(n)
    ensures m == n
  {
    SignShows(m);
    SignShows(n);
    if m < 0 {
      assert IntString(m)[1..] == RefModel.Decimal(-m) && IntString(n)[1..] == RefModel.Decimal(-n);
      RefModel.DecimalInjective(-m, -n);
    } else {
      RefModel.DecimalInjective(m, n);
    }
  }

  /** Texts around a bar can be told apart when the bar is the last one of both. */
  lemma LastBar(a: string, x: string, b: string, y: string)
    requires a + "|" + x == b + "|" + y && '|' !in x && '|' !in y
    ensures a == b && x == y
  {
    var whole := a + "|" + x;
    assert whole[|a|] == '|' && whole[|b|] == '|';
    assert forall k | |a| < k < |whole| :: whole[k] == x[k - |a| - 1];
    assert forall k | |b| < k < |whole| :: whole[k] == y[k - |b| - 1];
    assert whole[..|a|] == a && whole[..|b|] == b;
    assert whole[|a| + 1..] == x && whole[|b| + 1..] == y;
  }

  /** Or the first one of both. */
  lemma FirstBar(a: string, x: string, b: string, y: string)
    requires a + "|" + x == b + "|" + y && '|' !in a && '|' !in b
    ensures a == b && x == y
  {
    var whole := a + "|" + x;
    assert whole[|a|] == '|' && whole[|b|] == '|';
    assert forall k | 0 <= k < |a| :: whole[k] == a[k];
    assert forall k | 0 <= k < |b| :: whole[k] == b[k];
    assert whole[..|a|] == a && whole[..|b|] == b;
    assert whole[|a| + 1..] == x && whole[|b| + 1..] == y;
  }

  /** Elements with equal keys have the same place among their siblings. */
  lemma EqualKeysEqualOrdinals(a: SnapshotRef, b: SnapshotRef)
    requires Key(a) == Key(b)
    ensures a.siblingOrdinal == b.siblingOrdinal
    ensures a.role + "|" + Strip(a.domPath) == b.role + "|" + Strip(b.domPath)
  {
    IntStringHasNoBar(a.siblingOrdinal);
    IntStringHasNoBar(b.siblingOrdinal);
    LastBar(a.role + "|" + Strip(a.domPath), IntString(a.siblingOrdinal),
            b.role + "|" + Strip(b.domPath), IntString(b.siblingOrdinal));
    IntStringInjective(a.siblingOrdinal, b.siblingOrdinal);
  }

  /** For roles without a bar, keys are equal exactly when role, stripped path and ordinal are. */
  lemma EqualKeysIff(a: SnapshotRef, b: SnapshotRef)
    requires '|' !in a.role && '|' !in b.role
    ensures Key(a) == Key(b) <==>
            a.role == b.role && Strip(a.domPath) == Strip(b.domPath) && a.siblingOrdinal == b.siblingOrdinal
  {
    if Key(a) == Key(b) {
      EqualKeysEqualOrdinals(a, b);
      FirstBar(a.role, Strip(a.domPath), b.role, Strip(b.domPath));
    }
  }

  lemma PlainStays(path: string)
    requires '[' !in path
    ensures Strip(path) == path
  {
  }

  /** A bar in a role can make elements of different roles and paths have one key. */
  lemma BarInRoleConfuses(ref: SnapshotRef)
    ensures Key(ref.(role := "a|b", domPath := "c")) == Key(ref.(role := "a", domPath := "b|c"))
  {
    PlainStays("c");
    PlainStays("b|c");
    assert "a|b" + "|" + "c" == "a" + "|" + "b|c";
  }

  // ---------- what stripping means ----------

  /** The nesting depth after reading `s` from depth `d`, or -1 once a bracket closes that was never opened. */
  function Depth(s: string, d: int): int {
    if d < 0 then -1
    else if s == [] then d
    else Depth(s[1..], if s[0] == '[' then d + 1 else if s[0] == ']' then d - 1 else d)
  }

  predicate Balanced(s: string) { Depth(s, 0) == 0 }

  /** The letters of `s` outside all brackets, reading from depth `d`. */
  function Outside(s: string, d: int): string {
    if s == [] then ""
    else if s[0] == '[' then Outside(s[1..], d + 1)
    else if s[0] == ']' then Outside(s[1..], d - 1)
    else (if d == 0 then [s[0]] else []) + Outside(s[1..], d)
  }

  predicate NoBrackets(s: string) { '[' !in s && ']' !in s }

  lemma {:induction false} DepthConcat(s: string, t: string, d: int)
    ensures Depth(s + t, d) == Depth(t, Depth(s, d))
    ensures Depth(s, d) >= 0 ==> Outside(s + t, d) == Outside(s, d) + Outside(t, Depth(s, d))
  {
    if s == [] {
      assert s + t == t;
    } else if d >= 0 {
      assert (s + t)[1..] == s[1..] + t;
      DepthConcat(s[1..], t, if s[0] == '[' then d + 1 else if s[0] == ']' then d - 1 else d);
    }
  }

  lemma {:induction false} PlainText(s: string, d: int)
    requires NoBrackets(s) && d >= 0
    ensures Depth(s, d) == d
    ensures Outside(s, d) == if d == 0 then s else ""
  {
    if s != [] {
      PlainText(s[1..], d);
    }
  }

  /** Taking out an innermost pair of brackets changes neither the balance nor what is outside. */
  lemma RemovePair(before: string, inner: string, after: string)
    requires NoBrackets(inner)
    ensures Balanced(before + ("[" + inner + "]" + after)) <==> Balanced(before + after)
    ensures Balanced(before + after) ==> Outside(before + ("[" + inner + "]" + after), 0) == Outside(before + after, 0)
  {
    var d := Depth(before, 0);
    var pair := "[" + inner + "]";
    DepthConcat(before, after, 0);
    DepthConcat(before, pair + after, 0);
    DepthConcat(pair, after, d);
    if d >= 0 {
      DepthConcat("[", inner + "]", d);
      DepthConcat(inner, "]", d + 1);
      PlainText(inner, d + 1);
      assert pair == "[" + (inner + "]");
    }
  }

  lemma StripStep(path: string) returns (before: string, inner: string, after: string)
    requires HasPair(path)
    ensures path == before + ("[" + inner + "]" + after) && NoBrackets(inner)
    ensures Cut(path) == before + after
  {
    var start := LastOpen(path);
    var end := FirstClose(path[start..]);
    inner := SplitPair(path, start, end);
    before, after := path[..start], path[start + end + 1..];
  }

  lemma SplitPair(path: string, start: nat, end: nat) returns (inner: string)
    requires start + end < |path| && path[start] == '[' && '[' !in path[start + 1..]
    requires path[start..][end] == ']' && ']' !in path[start..][..end]
    ensures path == path[..start] + ("[" + inner + "]" + path[start + end + 1..]) && NoBrackets(inner)
  {
    inner := path[start + 1..start + end];
    assert path[start..][..end] == "[" + inner;
    assert inner == path[start + 1..][..end - 1];
  }

  lemma CloseComesFirst(before: string, after: string)
    requires NoBrackets(before)
    ensures !Balanced(before + ("]" + after))
  {
    PlainText(before, 0);
    DepthConcat(before, "]" + after, 0);
  }

  lemma OpenComesLast(before: string, after: string)
    requires NoBrackets(after)
    ensures !Balanced(before + ("[" + after))
  {
    DepthConcat(before, "[" + after, 0);
    if Depth(before, 0) >= 0 {
      PlainText(after, Depth(before, 0) + 1);
      assert ("[" + after)[1..] == after;
    }
  }

  lemma NoCloseAfter(path: string, start: nat)
    requires start < |path| && ']' !in path[start..]
    ensures ']' !in path[start + 1..]
  {
    assert path[start..] == [path[start]] + path[start + 1..];
  }

  /** When no pair is left to take out, the text is balanced only if it has no brackets at all. */
  lemma StuckIsPlain(path: string)
    requires !HasPair(path) && Balanced(path)
    ensures NoBrackets(path)
  {
    var start := LastOpen(path);
    if start < 0 {
      var i := FirstClose(path);
      if i >= 0 {
        assert path == path[..i] + ("]" + path[i + 1..]);
        CloseComesFirst(path[..i], path[i + 1..]);
      }
    } else {
      assert path == path[..start] + ("[" + path[start + 1..]);
      NoCloseAfter(path, start);
      OpenComesLast(path[..start], path[start + 1..]);
    }
  }

  /**
   Stripping leaves no bracket exactly when the brackets of the path are balanced, and then it
   leaves precisely the letters outside all brackets.
   */
  lemma {:induction false} StripMeaning(path: string)
    ensures NoBrackets(Strip(path)) <==> Balanced(path)
    ensures Balanced(path) ==> Strip(path) == Outside(path, 0)
    decreases |path|
  {
    if HasPair(path) {
      var before, inner, after := StripStep(path);
      RemovePair(before, inner, after);
      StripMeaning(Cut(path));
    } else {
      if NoBrackets(path) {
        PlainText(path, 0);
      } else if Balanced(path) {
        StuckIsPlain(path);
      }
    }
  }

  datatype Segment = Plain(role: string) | Named(role: string, name: string)

  function SegmentText(segment: Segment): string {
    match segment
    case Plain(role) => "/" + role
    case Named(role, name) => "/" + role + ("[" + name + "]")
  }

  function PathText(segments: seq<Segment>): string {
    if segments == [] then "" else SegmentText(segments[0]) + PathText(segments[1..])
  }

  function RolesText(segments: seq<Segment>): string {
    if segments == [] then "" else "/" + segments[0].role + RolesText(segments[1..])
  }

  /** In its brackets the name is closed and leaves nothing outside them. */
  predicate Vanishes(name: string) {
    Balanced("[" + name + "]") && Outside("[" + name + "]", 0) == ""
  }

  predicate WellNamed(segment: Segment) {
    NoBrackets(segment.role) && (segment.Named? ==> Vanishes(segment.name))
  }

  /** Between these two texts nothing of the name gets into the key. */
  predicate Traceless(before: string, name: string, after: string) {
    Strip(before + ("[" + name + "]" + after)) == before + after
  }

  lemma BracketedOutside(before: string, name: string, after: string)
    requires NoBrackets(before) && NoBrackets(after) && Balanced("[" + name + "]")
    ensures var path := before + ("[" + name + "]" + after);
            Balanced(path) && Outside(path, 0) == before + (Outside("[" + name + "]", 0) + after)
  {
    var shown := "[" + name + "]";
    PlainText(before, 0);
    PlainText(after, 0);
    DepthConcat(before, shown + after, 0);
    DepthConcat(shown, after, 0);
  }

  lemma VanishingIsTraceless(before: string, name: string, after: string)
    requires NoBrackets(before) && NoBrackets(after) && Vanishes(name)
    ensures Traceless(before, name, after)
  {
    VanishedOutside(before, name, after);
    StripMeaning(before + ("[" + name + "]" + after));
  }

  lemma VanishedOutside(before: string, name: string, after: string)
    requires NoBrackets(before) && NoBrackets(after) && Vanishes(name)
    ensures Balanced(before + ("[" + name + "]" + after))
            && Outside(before + ("[" + name + "]" + after), 0) == before + after
  {
    BracketedOutside(before, name, after);
    assert before + ("" + after) == before + after;
  }

  lemma TracelessVanishes(name: string)
    requires Traceless("", name, "")
    ensures Vanishes(name)
  {
    assert "" + ("[" + name + "]" + "") == "[" + name + "]";
    StripMeaning("[" + name + "]");
  }

  /** A name leaves no trace in any path around it exactly when it vanishes in its own brackets. */
  lemma NameVanishesIff(name: string)
    ensures (forall before, after | NoBrackets(before) && NoBrackets(after) :: Traceless(before, name, after))
            <==> Vanishes(name)
  {
    if Vanishes(name) {
      forall before, after | NoBrackets(before) && NoBrackets(after) ensures Traceless(before, name, after) {
        VanishingIsTraceless(before, name, after);
      }
    } else if forall before, after | NoBrackets(before) && NoBrackets(after) :: Traceless(before, name, after) {
      assert Traceless("", name, "");
      TracelessVanishes(name);
    }
  }

  /** Names with balanced brackets vanish, but so do others. */
  lemma BalancedNamesVanish(name: string)
    ensures Balanced(name) ==> Vanishes(name)
    ensures Vanishes("][") && !Balanced("][")
  {
    if Balanced(name) {
      assert "[" + name + "]" == "[" + (name + "]");
      DepthConcat("[", name + "]", 0);
      DepthConcat(name, "]", 1);
      DeeperStaysOutside(name, 0, 1);
    }
    assert "[" + "][" + "]" == "[][]";
    DepthConcat("[]", "[]", 0);
    DepthConcat("[", "]", 0);
    DepthConcat("]", "[", 0);
  }

  /** A name can leave its brackets and put any text of its own into the key, although the path stays balanced. */
  lemma NameLeaksIntoKey(role: string, a: string, leak: string, b: string)
    requires NoBrackets(role) && NoBrackets(a) && NoBrackets(leak) && NoBrackets(b)
    ensures var path := PathText([Named(role, a + ("]" + (leak + ("[" + b))))]);
            Balanced(path) && Strip(path) == "/" + role + leak
    ensures RolesText([Named(role, a + ("]" + (leak + ("[" + b))))]) == "/" + role
  {
    var name := a + ("]" + (leak + ("[" + b)));
    var segments := [Named(role, name)];
    assert segments[1..] == [];
    LeakOutside(a, leak, b);
    assert PathText(segments) == ("/" + role) + ("[" + name + "]" + "");
    BracketedOutside("/" + role, name, "");
    StripMeaning(PathText(segments));
    assert "/" + role + (leak + "") == "/" + role + leak;
  }

  lemma LeakOutside(a: string, leak: string, b: string)
    requires NoBrackets(a) && NoBrackets(leak) && NoBrackets(b)
    ensures var shown := "[" + (a + ("]" + (leak + ("[" + b)))) + "]";
            Depth(shown, 0) == 0 && Outside(shown, 0) == leak
  {
    var first, second := "[" + a + "]", "[" + b + "]";
    assert "[" + (a + ("]" + (leak + ("[" + b)))) + "]" == first + (leak + second);
    PlainPair(a);
    PlainPair(b);
    PlainText(leak, 0);
    DepthConcat(first, leak + second, 0);
    DepthConcat(leak, second, 0);
  }

  lemma PlainPair(inner: string)
    requires NoBrackets(inner)
    ensures Depth("[" + inner + "]", 0) == 0 && Outside("[" + inner + "]", 0) == ""
  {
    assert "[" + inner + "]" == "[" + (inner + "]");
    DepthConcat("[", inner + "]", 0);
    DepthConcat(inner, "]", 1);
    PlainText(inner, 1);
  }

  lemma {:induction false} DeeperStaysOutside(s: string, d: int, k: nat)
    requires Depth(s, d) >= 0 && d >= 0
    ensures Depth(s, d + k) == Depth(s, d) + k
    ensures k > 0 ==> Outside(s, d + k) == ""
  {
    if s != [] {
      DeeperStaysOutside(s[1..], if s[0] == '[' then d + 1 else if s[0] == ']' then d - 1 else d, k);
    }
  }

  lemma SegmentOutside(segment: Segment)
    requires WellNamed(segment)
    ensures Depth(SegmentText(segment), 0) == 0 && Outside(SegmentText(segment), 0) == "/" + segment.role
  {
    PlainText("/" + segment.role, 0);
    if segment.Named? {
      DepthConcat("/" + segment.role, "[" + segment.name + "]", 0);
    }
  }

  /** A path keeps its structural form whatever names its elements have, if each name vanishes. */
  lemma {:induction false} NamesDoNotMatter(segments: seq<Segment>)
    requires forall segment | segment in segments :: WellNamed(segment)
    ensures Balanced(PathText(segments)) && Strip(PathText(segments)) == RolesText(segments)
  {
    PathOutside(segments);
    StripMeaning(PathText(segments));
  }

  lemma {:induction false} PathOutside(segments: seq<Segment>)
    requires forall segment | segment in segments :: WellNamed(segment)
    ensures Depth(PathText(segments), 0) == 0 && Outside(PathText(segments), 0) == RolesText(segments)
  {
    if segments != [] {
      SegmentOutside(segments[0]);
      PathOutside(segments[1..]);
      DepthConcat(SegmentText(segments[0]), PathText(segments[1..]), 0);
    }
  }
}
