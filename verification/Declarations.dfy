/** The declarations of a style rule: each is a property with a value, and the first one of a property counts. */
module Declarations {
  import opened Options
  import opened Text

  type Parser = string -> Option<(string, string)>

  /** A property and its value; the colon must not come first, and neither part may be empty. */
  function ParseDeclaration(raw: string): Option<(string, string)> {
    var colon := Index(raw, ":");
    if colon <= 0 then None
    else
      var property, value := ToLower(TrimSpace(raw[..colon])), TrimSpace(raw[colon + 1..]);
      if property == "" || value == "" then None else Some((property, value))
  }

  /** A property and a value with white space around them are read without it, the property in lower case. */
  lemma PaddedDeclaration(a: string, property: string, b: string, c: string, value: string, d: string)
    requires Blank(a) && Blank(b) && Blank(c) && Blank(d) && Tight(property) && Tight(value) && ':' !in property
    ensures ParseDeclaration((a + property + b) + ":" + (c + value + d)) == Some((ToLower(property), value))
  {
    ColonFound(a + property + b, c + value + d);
    TrimPadded(a, property, b);
    TrimPadded(c, value, d);
  }

  /** Without a colon, or with nothing on one side of the first one, there is no declaration. */
  lemma NoDeclaration(left: string, right: string)
    requires ':' !in left
    ensures ParseDeclaration(left).None?
    ensures Blank(left) || Blank(right) ==> ParseDeclaration(left + ":" + right).None?
  {
    ColonInText(left);
    ColonFound(left, right);
    if Blank(left) {
      TrimBlank(left);
    }
    if Blank(right) {
      TrimBlank(right);
    }
  }

  lemma ColonInText(s: string)
    ensures Index(s, ":") >= 0 ==> ':' in s
  {
    var i := Index(s, ":");
    if i >= 0 {
      assert s[i] == s[i..i + 1][0];
    }
  }

  lemma ColonFound(left: string, right: string)
    requires ':' !in left
    ensures Index(left + ":" + right, ":") == |left|
    ensures (left + ":" + right)[..|left|] == left && (left + ":" + right)[|left| + 1..] == right
  {
    var raw := left + ":" + right;
    IndexIsFirst(raw, ":");
    assert raw[|left|..][0] == ":"[0];
    assert HasPrefix(raw[|left|..], ":");
    assert forall k | 0 <= k < |left| :: raw[k] == left[k];
  }

  function Collected(parse: Parser, raws: seq<string>): map<string, string> {
    if raws == [] then map[]
    else
      var before := Collected(parse, raws[..|raws| - 1]);
      match parse(raws[|raws| - 1])
      case None => before
      case Some((property, value)) => if property in before then before else before[property := value]
  }

  predicate Declares(parse: Parser, raws: seq<string>, i: nat, property: string) {
    i < |raws| && parse(raws[i]).Some? && parse(raws[i]).value.0 == property
  }

  ghost predicate DeclaresFirst(parse: Parser, raws: seq<string>, i: nat, property: string) {
    Declares(parse, raws, i, property) && forall j: nat | j < i :: !Declares(parse, raws, j, property)
  }

  /** A property has a value exactly when some declaration gives it one, and then the first one counts. */
  lemma {:induction false} FirstDeclarationWins(parse: Parser, raws: seq<string>, property: string)
    ensures property !in Collected(parse, raws) ==> forall i: nat :: !Declares(parse, raws, i, property)
    ensures property in Collected(parse, raws) ==>
              exists i: nat ::
                DeclaresFirst(parse, raws, i, property) && Collected(parse, raws)[property] == parse(raws[i]).value.1
  {
    if raws != [] {
      var n := |raws| - 1;
      FirstDeclarationWins(parse, raws[..n], property);
      if property in Collected(parse, raws[..n]) {
        var i: nat :| DeclaresFirst(parse, raws[..n], i, property)
          && Collected(parse, raws[..n])[property] == parse(raws[..n][i]).value.1;
        FirstStays(parse, raws, n, i, property);
      } else {
        NoneBefore(parse, raws, n, property);
        if property in Collected(parse, raws) {
          assert DeclaresFirst(parse, raws, n, property);
        }
      }
    }
  }

  lemma FirstStays(parse: Parser, raws: seq<string>, n: nat, i: nat, property: string)
    requires n <= |raws| && DeclaresFirst(parse, raws[..n], i, property)
    ensures DeclaresFirst(parse, raws, i, property) && raws[i] == raws[..n][i]
  {
    forall j: nat | j < i ensures !Declares(parse, raws, j, property) {
      assert !Declares(parse, raws[..n], j, property);
    }
  }

  lemma NoneBefore(parse: Parser, raws: seq<string>, n: nat, property: string)
    requires n <= |raws| && forall i: nat :: !Declares(parse, raws[..n], i, property)
    ensures forall i: nat | i < n :: !Declares(parse, raws, i, property)
  {
    forall i: nat | i < n ensures !Declares(parse, raws, i, property) {
      assert !Declares(parse, raws[..n], i, property);
    }
  }

  method Collect(parse: Parser, raws: seq<string>) returns (declarations: map<string, string>)
    ensures declarations == Collected(parse, raws)
  {
    declarations := map[];
    assert raws[..|raws|] == raws;
    for i := 0 to |raws|
      invariant declarations == Collected(parse, raws[..i])
    {
      assert raws[..i + 1][..i] == raws[..i];
      var parsed := parse(raws[i]);
      if parsed.Some? && parsed.value.0 !in declarations {
        declarations := declarations[parsed.value.0 := parsed.value.1];
      }
    }
  }
}
