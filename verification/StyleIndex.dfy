/**
 The scanner's CSS rule index. Rules are bucketed by their rightmost simple selector; a lookup
 collects the buckets an element falls into, puts the rules back in order and keeps those whose
 whole selector matches by a greedy climb through the ancestors.
 */
module StyleIndex {
  import opened Declarations
  import opened Sorting
  import opened Text

  datatype Attr = Attr(key: string, val: string)

  /** A parsed HTML node, seen from below: `Nil` is the missing parent of a root. */
  datatype HtmlNode = Nil | Html(isElement: bool, data: string, attrs: seq<Attr>, parent: HtmlNode)

  datatype Rule = Rule(selector: string, parts: seq<string>, declarations: map<string, string>)

  datatype Index = Index(rules: seq<Rule>, byId: map<string, seq<nat>>, byClass: map<string, seq<nat>>,
    byTag: map<string, seq<nat>>)

  // ---------- selectors ----------

  predicate IsElement(node: HtmlNode) { node.Html? && node.isElement }

  /** A simple selector matches an element by exact attribute key, or by tag name in either case. */
  predicate SimpleMatches(node: HtmlNode, part: string)
    requires node.Html?
  {
    if HasPrefix(part, "#") then exists a | a in node.attrs :: a.key == "id" && a.val == TrimPrefix(part, "#")
    else if HasPrefix(part, ".") then
      exists a | a in node.attrs :: a.key == "class" && TrimPrefix(part, ".") in Fields(a.val)
    else ToLower(node.data) == ToLower(part)
  }

  /** The elements met by climbing from `node`; the climb ends at the first node that is not an element. */
  function Chain(node: HtmlNode): seq<HtmlNode> {
    if IsElement(node) then [node] + Chain(node.parent) else []
  }

  /** Part `i` sits on chain element `at[i]`, and parts further left sit strictly higher. */
  ghost predicate IsPlacement(chain: seq<HtmlNode>, parts: seq<string>, at: seq<nat>) {
    && |at| == |parts|
    && (forall i | 0 <= i < |at| :: at[i] < |chain| && chain[at[i]].Html? && SimpleMatches(chain[at[i]], parts[i]))
    && (forall i, j | 0 <= i < j < |at| :: at[i] > at[j])
  }

  ghost predicate CanPlace(node: HtmlNode, parts: seq<string>) {
    exists at :: IsPlacement(Chain(node), parts, at)
  }

  /** The same by recursion: the last part goes on this element or on a higher one. */
  predicate Placeable(node: HtmlNode, parts: seq<string>)
    decreases node
  {
    parts == [] ||
    (IsElement(node) &&
     ((SimpleMatches(node, Last(parts)) && Placeable(node.parent, Init(parts))) || Placeable(node.parent, parts)))
  }

  function Last(parts: seq<string>): string
    requires parts != []
  {
    parts[|parts| - 1]
  }

  function Init(parts: seq<string>): seq<string>
    requires parts != []
  {
    parts[..|parts| - 1]
  }

  function Shift(at: seq<nat>): (at': seq<nat>)
    ensures |at'| == |at| && forall i | 0 <= i < |at| :: at'[i] == at[i] + 1
  {
    if at == [] then [] else [at[0] + 1] + Shift(at[1..])
  }

  function Unshift(at: seq<nat>): (at': seq<nat>)
    requires forall i | 0 <= i < |at| :: at[i] > 0
    ensures |at'| == |at| && forall i | 0 <= i < |at| :: at'[i] == at[i] - 1
  {
    if at == [] then [] else [at[0] - 1] + Unshift(at[1..])
  }

  lemma ShiftPlacement(node: HtmlNode, parts: seq<string>, at: seq<nat>)
    requires IsElement(node) && IsPlacement(Chain(node.parent), parts, at)
    ensures IsPlacement(Chain(node), parts, Shift(at))
  {
    var up, up' := Chain(node.parent), Chain(node);
    forall i | 0 <= i < |at| ensures up'[at[i] + 1] == up[at[i]] {
    }
  }

  lemma PlaceLast(node: HtmlNode, parts: seq<string>, at: seq<nat>)
    requires IsElement(node) && parts != [] && SimpleMatches(node, Last(parts))
    requires IsPlacement(Chain(node), Init(parts), at) && forall i | 0 <= i < |at| :: at[i] > 0
    ensures IsPlacement(Chain(node), parts, at + [0])
  {
  }

  lemma UnshiftPlacement(node: HtmlNode, parts: seq<string>, at: seq<nat>)
    requires IsElement(node) && IsPlacement(Chain(node), parts, at)
    requires forall i | 0 <= i < |at| :: at[i] > 0
    ensures IsPlacement(Chain(node.parent), parts, Unshift(at))
  {
    var up, up' := Chain(node.parent), Chain(node);
    forall i | 0 <= i < |at| ensures up'[at[i]] == up[at[i] - 1] {
    }
  }

  lemma {:induction false} PlaceableIffPlacement(node: HtmlNode, parts: seq<string>)
    ensures Placeable(node, parts) <==> CanPlace(node, parts)
    decreases node
  {
    if Placeable(node, parts) {
      var at := FindPlacement(node, parts);
    }
    if at :| IsPlacement(Chain(node), parts, at) {
      UsePlacement(node, parts, at);
    }
  }

  lemma {:induction false} FindPlacement(node: HtmlNode, parts: seq<string>) returns (at: seq<nat>)
    requires Placeable(node, parts)
    ensures IsPlacement(Chain(node), parts, at)
    decreases node
  {
    if parts == [] {
      at := [];
    } else if SimpleMatches(node, Last(parts)) && Placeable(node.parent, Init(parts)) {
      var higher := FindPlacement(node.parent, Init(parts));
      ShiftPlacement(node, Init(parts), higher);
      at := Shift(higher) + [0];
      PlaceLast(node, parts, Shift(higher));
    } else {
      var higher := FindPlacement(node.parent, parts);
      ShiftPlacement(node, parts, higher);
      at := Shift(higher);
    }
  }

  lemma {:induction false} UsePlacement(node: HtmlNode, parts: seq<string>, at: seq<nat>)
    requires IsPlacement(Chain(node), parts, at)
    ensures Placeable(node, parts)
    decreases node
  {
    if parts != [] {
      var last := |at| - 1;
      assert at[last] < |Chain(node)|;
      if at[last] == 0 {
        UnshiftPlacement(node, Init(parts), at[..last]);
        UsePlacement(node.parent, Init(parts), Unshift(at[..last]));
      } else {
        UnshiftPlacement(node, parts, at);
        UsePlacement(node.parent, parts, Unshift(at));
      }
    }
  }

  /** Leaving out the rightmost part, or starting lower, keeps a selector placeable. */
  lemma {:induction false} PlaceFewer(node: HtmlNode, parts: seq<string>)
    requires parts != [] && Placeable(node, parts)
    ensures Placeable(node, Init(parts))
    ensures Placeable(node.parent, Init(parts))
    decreases node
  {
    if Placeable(node.parent, parts) {
      PlaceFewer(node.parent, parts);
    }
  }

  /** The greedy choice loses nothing: the nearest match for the rightmost part may as well be used. */
  lemma NearestMatchSuffices(node: HtmlNode, parts: seq<string>)
    requires parts != [] && IsElement(node) && SimpleMatches(node, Last(parts))
    ensures Placeable(node, parts) <==> Placeable(node.parent, Init(parts))
  {
    if Placeable(node.parent, parts) {
      PlaceFewer(node.parent, parts);
    }
  }

  /** The greedy climb succeeds exactly when the parts can be placed at all. */
  method SelectorPartsMatch(node: HtmlNode, parts: seq<string>) returns (ok: bool)
    ensures ok <==> parts != [] && CanPlace(node, parts)
  {
    PlaceableIffPlacement(node, parts);
    if |parts| == 0 {
      return false;
    }
    var current, index := node, |parts| - 1;
    assert parts[..|parts|] == parts;
    while index >= 0
      invariant 0 <= index < |parts|
      invariant Placeable(node, parts) <==> Placeable(current, parts[..index + 1])
      decreases index
    {
      var part := parts[index];
      ghost var todo := parts[..index + 1];
      assert Last(todo) == part && Init(todo) == parts[..index];
      var matched := false;
      while IsElement(current) && !matched
        invariant Placeable(node, parts) <==> Placeable(current, todo)
        invariant matched ==> IsElement(current) && SimpleMatches(current, part) && index > 0
        decreases if matched then 0 else 1, current
      {
        if SimpleMatches(current, part) {
          matched := true;
          if index == 0 {
            NearestMatchSuffices(current, todo);
            return true;
          }
        } else {
          current := current.parent;
        }
      }
      if !matched {
        return false;
      }
      NearestMatchSuffices(current, todo);
      current := current.parent;
      index := index - 1;
    }
    return false;
  }

  // ---------- buckets ----------

  datatype Bucket = ById(id: string) | ByClass(name: string) | ByTag(tag: string)

  function BucketOf(part: string): Bucket {
    if HasPrefix(part, "#") then ById(TrimPrefix(part, "#"))
    else if HasPrefix(part, ".") then ByClass(TrimPrefix(part, "."))
    else ByTag(ToLower(part))
  }

  function Get(m: map<string, seq<nat>>, k: string): seq<nat> {
    if k in m then m[k] else []
  }

  function Lookup(index: Index, b: Bucket): seq<nat> {
    match b
    case ById(k) => Get(index.byId, k)
    case ByClass(k) => Get(index.byClass, k)
    case ByTag(k) => Get(index.byTag, k)
  }

  /** Every rule is in the bucket of its rightmost part, and in no other. */
  ghost predicate Bucketed(index: Index) {
    && (forall i | 0 <= i < |index.rules| :: index.rules[i].parts != [])
    && (forall b, i: nat :: i in Lookup(index, b) <==> FiledUnder(index.rules, i, b))
  }

  predicate FiledUnder(rules: seq<Rule>, i: nat, b: Bucket) {
    i < |rules| && rules[i].parts != [] && BucketOf(Last(rules[i].parts)) == b
  }

  function AddRule(index: Index, rule: Rule): Index
    requires rule.parts != []
  {
    var i := |index.rules|;
    var grown := index.(rules := index.rules + [rule]);
    match BucketOf(Last(rule.parts))
    case ById(k) => grown.(byId := index.byId[k := Get(index.byId, k) + [i]])
    case ByClass(k) => grown.(byClass := index.byClass[k := Get(index.byClass, k) + [i]])
    case ByTag(k) => grown.(byTag := index.byTag[k := Get(index.byTag, k) + [i]])
  }

  lemma AddRuleBuckets(index: Index, rule: Rule)
    requires Bucketed(index) && rule.parts != []
    ensures Bucketed(AddRule(index, rule))
  {
    var grown := AddRule(index, rule);
    assert grown.rules == index.rules + [rule];
    forall b, i: nat ensures i in Lookup(grown, b) <==> FiledUnder(grown.rules, i, b) {
      AddRuleLookup(index, rule, b);
      assert i < |index.rules| ==> grown.rules[i] == index.rules[i];
    }
  }

  lemma AddRuleLookup(index: Index, rule: Rule, b: Bucket)
    requires rule.parts != []
    ensures Lookup(AddRule(index, rule), b) == Lookup(index, b)
            + if b == BucketOf(Last(rule.parts)) then [|index.rules|] else []
  {
  }

  // ---------- building the index ----------

  /** Raw declarations by selector, as collected from the page. */
  type Sheet = map<string, seq<string>>

  function Raws(sheet: Sheet, selector: string): seq<string> {
    if selector in sheet then sheet[selector] else []
  }

  function MakeRule(sheet: Sheet, selector: string): Rule {
    Rule(selector, Fields(selector), Collected(ParseDeclaration, Raws(sheet, selector)))
  }

  /** The rules of an index: one per selector with at least one part, in selector order, with its declarations. */
  ghost predicate RulesOf(rules: seq<Rule>, sheet: Sheet, selectors: set<string>) {
    && (forall i | 0 <= i < |rules| ::
      rules[i].selector in selectors && rules[i] == MakeRule(sheet, rules[i].selector) && rules[i].parts != [])
    && (forall s | s in selectors && Fields(s) != [] :: exists i :: 0 <= i < |rules| && rules[i].selector == s)
    && (forall i, j | 0 <= i < j < |rules| ::
      rules[i].selector != rules[j].selector && StringLeq(rules[i].selector, rules[j].selector))
  }

  ghost function Names(names: seq<string>): set<string> {
    set s | s in names
  }

  /** The rules for a list of selectors, skipping those without parts. */
  function RuleList(sheet: Sheet, names: seq<string>): seq<Rule> {
    if names == [] then []
    else RuleList(sheet, Init(names)) + if Fields(Last(names)) == [] then [] else [MakeRule(sheet, Last(names))]
  }

  lemma {:induction false} RuleListMeaning(sheet: Sheet, names: seq<string>)
    requires Sorted(names, StringLeq) && forall i, j | 0 <= i < j < |names| :: names[i] != names[j]
    ensures RulesOf(RuleList(sheet, names), sheet, Names(names))
  {
    if names != [] {
      LastName(names);
      RuleListMeaning(sheet, Init(names));
      RulesOfNext(RuleList(sheet, Init(names)), sheet, Names(Init(names)), Last(names));
    }
  }

  lemma LastName(names: seq<string>)
    requires names != [] && Sorted(names, StringLeq) && forall i, j | 0 <= i < j < |names| :: names[i] != names[j]
    ensures Names(names) == Names(Init(names)) + {Last(names)} && Last(names) !in Names(Init(names))
    ensures forall s | s in Names(Init(names)) :: StringLeq(s, Last(names))
  {
  }

  lemma RulesOfNext(rules: seq<Rule>, sheet: Sheet, selectors: set<string>, s: string)
    requires RulesOf(rules, sheet, selectors) && s !in selectors && forall t | t in selectors :: StringLeq(t, s)
    ensures RulesOf(rules + if Fields(s) == [] then [] else [MakeRule(sheet, s)], sheet, selectors + {s})
  {
    var grown := rules + if Fields(s) == [] then [] else [MakeRule(sheet, s)];
    forall t | t in selectors + {s} && Fields(t) != [] ensures exists i :: 0 <= i < |grown| && grown[i].selector == t {
      if t == s {
        assert grown[|rules|].selector == t;
      } else {
        var i :| 0 <= i < |rules| && rules[i].selector == t;
        assert grown[i].selector == t;
      }
    }
  }

  method NewStyleRuleIndex(sheet: Sheet) returns (index: Index)
    ensures RulesOf(index.rules, sheet, sheet.Keys) && Bucketed(index)
    ensures forall i, property | 0 <= i < |index.rules| :: Describes(sheet, index.rules[i], property)
  {
    StringOrder();
    var sorted := SortedElements(sheet.Keys, StringLeq);
    index := IndexRules(sheet, sorted);
    RuleListMeaning(sheet, sorted);
    assert sheet.Keys == Names(sorted);
    forall i, property | 0 <= i < |index.rules| ensures Describes(sheet, index.rules[i], property) {
      RuleDescribes(sheet, index.rules[i], property);
    }
  }

  /** The rule has the words of its selector as parts, and the property's value from its first declaration there. */
  ghost predicate Describes(sheet: Sheet, rule: Rule, property: string) {
    && rule.selector in sheet && rule.parts == Fields(rule.selector)
    && if property in rule.declarations
       then exists k: nat :: DeclaresFirst(ParseDeclaration, sheet[rule.selector], k, property)
                             && ParseDeclaration(sheet[rule.selector][k]).value.1 == rule.declarations[property]
       else forall k: nat :: !Declares(ParseDeclaration, sheet[rule.selector], k, property)
  }

  lemma RuleDescribes(sheet: Sheet, rule: Rule, property: string)
    requires rule.selector in sheet && rule == MakeRule(sheet, rule.selector)
    ensures Describes(sheet, rule, property)
  {
    FirstDeclarationWins(ParseDeclaration, sheet[rule.selector], property);
  }

  /** Number the rules in the given order and put each in its bucket. */
  method IndexRules(sheet: Sheet, sorted: seq<string>) returns (index: Index)
    ensures index.rules == RuleList(sheet, sorted) && Bucketed(index)
  {
    index := Index([], map[], map[], map[]);
    assert forall b :: Lookup(index, b) == [];
    assert sorted[..|sorted|] == sorted;
    for n := 0 to |sorted|
      invariant index.rules == RuleList(sheet, sorted[..n]) && Bucketed(index)
    {
      assert sorted[..n + 1] == sorted[..n] + [sorted[n]];
      index := IndexOne(sheet, index, sorted[n]);
    }
  }

  method IndexOne(sheet: Sheet, index: Index, selector: string) returns (index': Index)
    requires Bucketed(index)
    ensures Bucketed(index') && index'.rules == index.rules
            + if Fields(selector) == [] then [] else [MakeRule(sheet, selector)]
  {
    var parts := Fields(selector);
    if |parts| == 0 {
      return index;
    }
    var declarations := Collect(ParseDeclaration, Raws(sheet, selector));
    var rule := Rule(selector, parts, declarations);
    AddRuleBuckets(index, rule);
    return AddRule(index, rule);
  }

  // ---------- lookup ----------

  /** Whether the lookup collects the bucket of `part`: attribute keys count in either case here. */
  predicate Candidate(node: HtmlNode, part: string)
    requires node.Html?
  {
    match BucketOf(part)
    case ById(k) => exists a | a in node.attrs :: ToLower(a.key) == "id" && a.val == k
    case ByClass(k) => exists a | a in node.attrs :: ToLower(a.key) == "class" && k in Fields(a.val)
    case ByTag(k) => k == ToLower(node.data)
  }

  predicate Found(node: HtmlNode, parts: seq<string>) {
    node.Html? && parts != [] && Candidate(node, Last(parts)) && Placeable(node, parts)
  }

  /** The rules found among the first `n`, in order. */
  function FoundRules(node: HtmlNode, rules: seq<Rule>, n: nat): seq<Rule>
    requires n <= |rules|
  {
    if n == 0 then []
    else FoundRules(node, rules, n - 1) + if Found(node, rules[n - 1].parts) then [rules[n - 1]] else []
  }

  lemma {:induction false} SkipUnfound(node: HtmlNode, rules: seq<Rule>, m: nat, n: nat)
    requires m <= n <= |rules| && forall i | m <= i < n :: !Found(node, rules[i].parts)
    ensures FoundRules(node, rules, m) == FoundRules(node, rules, n)
  {
    if m < n {
      SkipUnfound(node, rules, m, n - 1);
    }
  }

  /** The buckets one attribute puts its element into. */
  function AttrBuckets(attr: Attr): set<Bucket> {
    if ToLower(attr.key) == "id" then {ById(attr.val)}
    else if ToLower(attr.key) == "class" then set name | name in Fields(attr.val) :: ByClass(name)
    else {}
  }

  ghost function AllBuckets(attrs: seq<Attr>): set<Bucket> {
    set a, b | a in attrs && b in AttrBuckets(a) :: b
  }

  function Numbers(index: Index, buckets: set<Bucket>): set<nat> {
    set b, i | b in buckets && i in Lookup(index, b) :: i
  }

  lemma NumbersMeaning(index: Index, buckets: set<Bucket>, i: nat)
    requires Bucketed(index)
    ensures i in Numbers(index, buckets) <==> i < |index.rules| && BucketOf(Last(index.rules[i].parts)) in buckets
  {
    if i in Numbers(index, buckets) {
      var b :| b in buckets && i in Lookup(index, b);
      assert FiledUnder(index.rules, i, b);
    }
    if i < |index.rules| && BucketOf(Last(index.rules[i].parts)) in buckets {
      var b := BucketOf(Last(index.rules[i].parts));
      assert FiledUnder(index.rules, i, b);
      assert i in Numbers(index, buckets);
    }
  }

  lemma CandidateIffBucket(node: HtmlNode, part: string)
    requires node.Html?
    ensures Candidate(node, part) <==> BucketOf(part) in AllBuckets(node.attrs) + {ByTag(ToLower(node.data))}
  {
    var b := BucketOf(part);
    if b in AllBuckets(node.attrs) {
      var a :| a in node.attrs && b in AttrBuckets(a);
    }
    if Candidate(node, part) && !b.ByTag? {
      var a :| a in node.attrs && b in AttrBuckets(a);
    }
  }

  /** The rule numbers in all buckets the node falls into. */
  method Candidates(index: Index, node: HtmlNode) returns (numbers: set<nat>)
    requires node.Html? && Bucketed(index)
    ensures forall i: nat :: i in numbers <==> i < |index.rules| && Candidate(node, Last(index.rules[i].parts))
  {
    numbers := {};
    for n := 0 to |node.attrs|
      invariant numbers == Numbers(index, AllBuckets(node.attrs[..n]))
    {
      var attr := node.attrs[n];
      assert node.attrs[..n + 1] == node.attrs[..n] + [attr];
      assert AllBuckets(node.attrs[..n + 1]) == AllBuckets(node.attrs[..n]) + AttrBuckets(attr);
      numbers := numbers + Numbers(index, AttrBuckets(attr));
    }
    assert node.attrs[..|node.attrs|] == node.attrs;
    numbers := numbers + Numbers(index, {ByTag(ToLower(node.data))});
    assert numbers == Numbers(index, AllBuckets(node.attrs) + {ByTag(ToLower(node.data))});
    forall i: nat ensures i in numbers <==> i < |index.rules| && Candidate(node, Last(index.rules[i].parts)) {
      NumbersMeaning(index, AllBuckets(node.attrs) + {ByTag(ToLower(node.data))}, i);
      if i < |index.rules| {
        CandidateIffBucket(node, Last(index.rules[i].parts));
      }
    }
  }

  predicate NatLeq(a: nat, b: nat) {
    a <= b
  }

  ghost predicate Ascending(numbers: seq<nat>) {
    forall i, j | 0 <= i < j < |numbers| :: numbers[i] < numbers[j]
  }

  method SortedCandidates(index: Index, node: HtmlNode) returns (candidates: seq<nat>)
    requires node.Html? && Bucketed(index)
    ensures Ascending(candidates)
    ensures forall i: nat :: i in candidates <==> i < |index.rules| && Candidate(node, Last(index.rules[i].parts))
  {
    var numbers := Candidates(index, node);
    candidates := SortedElements(numbers, NatLeq);
  }

  method CheckCandidate(node: HtmlNode, parts: seq<string>) returns (ok: bool)
    requires node.Html? && parts != [] && Candidate(node, Last(parts))
    ensures ok <==> Found(node, parts)
  {
    ok := SelectorPartsMatch(node, parts);
    PlaceableIffPlacement(node, parts);
  }

  /** The lookup returns, in rule order, the candidates whose whole selector can be placed. */
  method Matching(index: Index, node: HtmlNode) returns (matched: seq<Rule>)
    requires Bucketed(index)
    ensures matched == FoundRules(node, index.rules, |index.rules|)
  {
    if node.Nil? || |index.rules| == 0 {
      SkipUnfound(node, index.rules, 0, |index.rules|);
      return [];
    }
    var candidates := SortedCandidates(index, node);
    matched := [];
    ghost var upTo := 0;
    for k := 0 to |candidates|
      invariant upTo == (if k == 0 then 0 else candidates[k - 1] + 1) <= |index.rules|
      invariant matched == FoundRules(node, index.rules, upTo)
    {
      assert candidates[k] in candidates;
      var rule := index.rules[candidates[k]];
      NoneBetween(candidates, k, index.rules, node, upTo, candidates[k]);
      var ok := CheckCandidate(node, rule.parts);
      if ok {
        matched := matched + [rule];
      }
      upTo := candidates[k] + 1;
    }
    NoneBetween(candidates, |candidates|, index.rules, node, upTo, |index.rules|);
  }

  /** Rule numbers between two neighbouring candidates are not candidates. */
  lemma NoneBetween(candidates: seq<nat>, k: nat, rules: seq<Rule>, node: HtmlNode, lo: nat, hi: nat)
    requires k <= |candidates| && Ascending(candidates) && node.Html?
    requires forall i | 0 <= i < |rules| ::
             rules[i].parts != [] && (Candidate(node, Last(rules[i].parts)) <==> i in candidates)
    requires lo == if k == 0 then 0 else candidates[k - 1] + 1
    requires lo <= hi <= |rules| && (k < |candidates| ==> hi == candidates[k])
    ensures FoundRules(node, rules, lo) == FoundRules(node, rules, hi)
  {
    forall i: nat | lo <= i < hi ensures i !in candidates {
      assert forall j | 0 <= j < k - 1 :: candidates[j] <= candidates[k - 1];
      assert forall j | k < j < |candidates| :: candidates[k] <= candidates[j];
    }
    SkipUnfound(node, rules, lo, hi);
  }

  // ---------- the lookup against the plain meaning of a descendant selector ----------

  /** The rightmost part matches the element itself, and the rest can be placed strictly above it. */
  ghost predicate Applies(node: HtmlNode, parts: seq<string>) {
    IsElement(node) && parts != [] && SimpleMatches(node, Last(parts)) && CanPlace(node.parent, Init(parts))
  }

  ghost function ApplicableRules(node: HtmlNode, rules: seq<Rule>, n: nat): seq<Rule>
    requires n <= |rules|
  {
    if n == 0 then []
    else ApplicableRules(node, rules, n - 1) + if Applies(node, rules[n - 1].parts) then [rules[n - 1]] else []
  }

  /** `part` matches the element, or nothing above it. */
  predicate Harmless(node: HtmlNode, part: string)
    requires IsElement(node)
  {
    SimpleMatches(node, part) || !Placeable(node.parent, [part])
  }

  /** No id or class spelled with an upper-case key on the element is also carried by an ancestor. */
  predicate FoldedKeysHarmless(node: HtmlNode) {
    IsElement(node) ==>
      forall a | a in node.attrs ::
        && (ToLower(a.key) == "id" ==> Harmless(node, "#" + a.val))
        && (ToLower(a.key) == "class" ==> forall name | name in Fields(a.val) :: Harmless(node, "." + name))
  }

  lemma MatchIsCandidate(node: HtmlNode, part: string)
    requires node.Html? && SimpleMatches(node, part)
    ensures Candidate(node, part)
  {
    assert ToLower("id") == "id" && ToLower("class") == "class";
  }

  lemma {:induction false} LastPartAlone(node: HtmlNode, parts: seq<string>)
    requires parts != [] && Placeable(node, parts)
    ensures Placeable(node, [Last(parts)])
    decreases node
  {
    if Placeable(node.parent, parts) {
      LastPartAlone(node.parent, parts);
    }
  }

  lemma PartSpelling(k: string)
    ensures HasPrefix("#" + k, "#") && TrimPrefix("#" + k, "#") == k
    ensures !HasPrefix("." + k, "#") && HasPrefix("." + k, ".") && TrimPrefix("." + k, ".") == k
  {
    assert ("." + k)[0] == '.' && "#"[0] == '#';
  }

  lemma StrayCandidateIsHarmless(node: HtmlNode, part: string)
    requires IsElement(node) && FoldedKeysHarmless(node) && Candidate(node, part)
    ensures Harmless(node, part)
  {
    match BucketOf(part)
    case ById(k) =>
      assert part == "#" + k;
    case ByClass(k) =>
      assert part == "." + k;
    case ByTag(k) =>
  }

  /**
   Looking a selector up agrees with its plain meaning, for every selector, exactly when folded
   keys are harmless on the element.
   */
  lemma FoundIffApplies(node: HtmlNode)
    ensures FoldedKeysHarmless(node) <==> forall parts :: Found(node, parts) <==> Applies(node, parts)
  {
    if FoldedKeysHarmless(node) {
      forall parts ensures Found(node, parts) <==> Applies(node, parts) {
        HarmlessLookup(node, parts);
      }
    }
    if forall parts :: Found(node, parts) <==> Applies(node, parts) {
      if IsElement(node) {
        forall a | a in node.attrs && ToLower(a.key) == "id" ensures Harmless(node, "#" + a.val) {
          PartSpelling(a.val);
          AgreeingPartIsHarmless(node, "#" + a.val);
        }
        forall a, name | a in node.attrs && ToLower(a.key) == "class" && name in Fields(a.val)
          ensures Harmless(node, "." + name)
        {
          PartSpelling(name);
          AgreeingPartIsHarmless(node, "." + name);
        }
      }
    }
  }

  lemma HarmlessLookup(node: HtmlNode, parts: seq<string>)
    requires FoldedKeysHarmless(node)
    ensures Found(node, parts) <==> Applies(node, parts)
  {
    if IsElement(node) && parts != [] {
      PlaceableIffPlacement(node.parent, Init(parts));
      if SimpleMatches(node, Last(parts)) {
        MatchIsCandidate(node, Last(parts));
        NearestMatchSuffices(node, parts);
      } else if Found(node, parts) {
        StrayCandidateIsHarmless(node, Last(parts));
        LastPartAlone(node.parent, parts);
      }
    }
  }

  lemma AgreeingPartIsHarmless(node: HtmlNode, part: string)
    requires IsElement(node) && Candidate(node, part) && (Found(node, [part]) <==> Applies(node, [part]))
    ensures Harmless(node, part)
  {
    assert Last([part]) == part;
  }

  /** Attribute keys as the HTML parser delivers them, in lower case, are harmless. */
  lemma LowerCaseKeysAreHarmless(node: HtmlNode)
    requires node.Html? && forall a | a in node.attrs :: ToLower(a.key) == a.key
    ensures FoldedKeysHarmless(node)
  {
    if IsElement(node) {
      forall a | a in node.attrs && ToLower(a.key) == "id" ensures Harmless(node, "#" + a.val) {
        PartSpelling(a.val);
      }
      forall a, name | a in node.attrs && ToLower(a.key) == "class" && name in Fields(a.val)
        ensures Harmless(node, "." + name)
      {
        PartSpelling(name);
      }
    }
  }

  /** An id under an upper-case key makes the lookup return a rule that applies only to an ancestor. */
  lemma UpperCaseKeyFindsTooMuch()
    ensures var node := Html(true, "p", [Attr("ID", "x")], Html(true, "div", [Attr("id", "x")], Nil));
            Found(node, ["#x"]) && !Applies(node, ["#x"])
  {
    var top := Html(true, "div", [Attr("id", "x")], Nil);
    var node := Html(true, "p", [Attr("ID", "x")], top);
    assert TrimPrefix("#x", "#") == "x" && ToLower("ID") == "id";
    assert Attr("id", "x") in top.attrs && Attr("ID", "x") in node.attrs;
    assert SimpleMatches(top, "#x") && !SimpleMatches(node, "#x");
    assert Last(["#x"]) == "#x" && Init(["#x"]) == [];
    assert Placeable(top, ["#x"]);
  }

  /** With harmless keys the lookup is the plain filter, in rule order. */
  lemma {:induction false} LookupIsFilter(node: HtmlNode, rules: seq<Rule>, n: nat)
    requires n <= |rules| && FoldedKeysHarmless(node)
    ensures FoundRules(node, rules, n) == ApplicableRules(node, rules, n)
  {
    if n > 0 {
      LookupIsFilter(node, rules, n - 1);
      HarmlessLookup(node, rules[n - 1].parts);
    }
  }
}
