/**
 Content boundaries: page content is wrapped between two marker lines that carry a fresh nonce,
 and parsed back by looking for exactly that nonce.
 */
module Boundary {
  import opened Options
  import opened Text

  /** `start` and `end` are the marker lines. */
  datatype Boundary = Boundary(nonce: string, origin: string, start: string, end: string)

  const START_PREFIX := "SYMBROWSE_CONTENT_START"
  const END_PREFIX := "SYMBROWSE_CONTENT_END"
  const RULE := "\U{2500}\U{2500}\U{2500}\U{2500}"
  const ORIGIN_KEY := " origin="

  function Stem(prefix: string): string { RULE + " " + prefix + " nonce=" }

  function MarkerLine(prefix: string, nonce: string, origin: string): string {
    Stem(prefix) + (nonce + (ORIGIN_KEY + (origin + (" " + RULE))))
  }

  function New(nonce: string, origin: string): Boundary {
    Boundary(nonce, origin, MarkerLine(START_PREFIX, nonce, origin), MarkerLine(END_PREFIX, nonce, origin))
  }

  /** The nonces the generator makes are hexadecimal. */
  predicate IsNonce(nonce: string) {
    nonce != "" && forall c | c in nonce :: '0' <= c <= '9' || 'a' <= c <= 'f'
  }

  /** The content stands between the markers, unchanged but for a line break where its last line has none. */
  method WrapText(b: Boundary, content: string) returns (wrapped: string)
    ensures wrapped == b.start + "\n" + content + (if HasSuffix(content, "\n") then "" else "\n") + b.end + "\n"
    ensures wrapped == Wrapped(b, content)
  {
    wrapped := b.start + "\n";
    wrapped := wrapped + content;
    if !HasSuffix(content, "\n") {
      wrapped := wrapped + "\n";
    }
    wrapped := wrapped + b.end;
    wrapped := wrapped + "\n";
  }

  /** The content without its final line break, if it has one. */
  function Body(content: string): string { TrimSuffix(content, "\n") }

  /** Start marker, content and end marker, each ending its line. */
  function Wrapped(b: Boundary, content: string): string {
    b.start + "\n" + (Body(content) + "\n" + (b.end + "\n"))
  }

  /** What was parsed is the boundary and the content, less one final line break. */
  predicate GivesBack(parsed: Option<(string, Boundary)>, b: Boundary, content: string) {
    && parsed.Some? && parsed.value.1 == b
    && (if HasSuffix(content, "\n") then parsed.value.0 + "\n" == content else parsed.value.0 == content)
  }

  // ---------- parsing ----------

  /** The nonce and the origin of a marker line. */
  function ParseMarker(line: string, prefix: string): Option<(string, string)> {
    var trimmed := TrimSpace(line);
    if !HasPrefix(trimmed, Stem(prefix)) then None
    else
      var rest := TrimPrefix(trimmed, Stem(prefix));
      var nonceEnd := Index(rest, ORIGIN_KEY);
      if nonceEnd < 0 then None
      else
        var nonce := rest[..nonceEnd];
        var origin := TrimSuffix(TrimPrefix(rest[nonceEnd..], ORIGIN_KEY), " " + RULE);
        if nonce == "" || origin == "" then None else Some((nonce, origin))
  }

  predicate IsMarker(line: string, prefix: string, nonce: string) {
    ParseMarker(line, prefix).Some? && ParseMarker(line, prefix).value.0 == nonce
  }

  /** The first line from position `from` on with a property, or -1. */
  function FindFirst(lines: seq<string>, from: nat, wanted: string -> bool): (i: int)
    requires from <= |lines|
    ensures i == -1 || (from <= i < |lines| && wanted(lines[i]))
    decreases |lines| - from
  {
    if from == |lines| then -1
    else if wanted(lines[from]) then from
    else FindFirst(lines, from + 1, wanted)
  }

  function Marker(prefix: string, nonce: string): string -> bool {
    line => IsMarker(line, prefix, nonce)
  }

  function FindMarker(lines: seq<string>, from: nat, prefix: string, nonce: string): (i: int)
    requires from <= |lines|
    ensures i == -1 || (from <= i < |lines| && IsMarker(lines[i], prefix, nonce))
  {
    FindFirst(lines, from, Marker(prefix, nonce))
  }

  function Parsed(wrapped: string, nonce: string): Option<(string, Boundary)> {
    ParsedLines(SplitLines(wrapped), START_PREFIX, END_PREFIX, nonce)
  }

  function ParsedLines(lines: seq<string>, opening: string, closing: string, nonce: string)
    : Option<(string, Boundary)>
  {
    var start := FindMarker(lines, 0, opening, nonce);
    if start < 0 then None
    else
      var end := FindMarker(lines, start + 1, closing, nonce);
      if end < 0 then None
      else Some((Join(lines[start + 1..end], "\n"),
                 Boundary(nonce, ParseMarker(lines[start], opening).value.1, lines[start], lines[end])))
  }

  /** Scan the lines for a marker with the expected nonce. */
  method ScanFor(lines: seq<string>, from: nat, prefix: string, expectedNonce: string)
    returns (index: int, origin: string)
    requires from <= |lines|
    ensures index == FindMarker(lines, from, prefix, expectedNonce)
    ensures index >= 0 ==> origin == ParseMarker(lines[index], prefix).value.1
  {
    for i := from to |lines|
      invariant FindMarker(lines, from, prefix, expectedNonce) == FindMarker(lines, i, prefix, expectedNonce)
    {
      var marker := ParseMarker(lines[i], prefix);
      if marker.Some? && marker.value.0 == expectedNonce {
        return i, marker.value.1;
      }
    }
    return -1, "";
  }

  method ParseText(wrapped: string, expectedNonce: string) returns (r: Option<(string, Boundary)>)
    ensures r == Parsed(wrapped, expectedNonce)
  {
    r := ParseLines(SplitLines(wrapped), START_PREFIX, END_PREFIX, expectedNonce);
  }

  method ParseLines(lines: seq<string>, opening: string, closing: string, expectedNonce: string)
    returns (r: Option<(string, Boundary)>)
    ensures r == ParsedLines(lines, opening, closing, expectedNonce)
  {
    var start, origin := ScanFor(lines, 0, opening, expectedNonce);
    if start < 0 {
      return None;
    }
    var end, _ := ScanFor(lines, start + 1, closing, expectedNonce);
    if end < 0 {
      return None;
    }
    return Some((Join(lines[start + 1..end], "\n"), Boundary(expectedNonce, origin, lines[start], lines[end])));
  }

  // ---------- lines ----------

  lemma {:induction false} SplitConcat(a: string, b: string)
    ensures SplitLines(a + "\n" + b) == SplitLines(a) + SplitLines(b)
  {
    var s := a + "\n" + b;
    if a == [] {
      assert s == "\n" + b && s[1..] == b;
    } else {
      assert s[0] == a[0] && s[1..] == a[1..] + "\n" + b;
      SplitConcat(a[1..], b);
    }
  }

  lemma {:induction false} SplitOneLine(a: string)
    requires '\n' !in a
    ensures SplitLines(a) == [a]
  {
    if a != [] {
      SplitOneLine(a[1..]);
      assert a == [a[0]] + a[1..];
    }
  }

  lemma {:induction false} JoinSplit(a: string)
    ensures Join(SplitLines(a), "\n") == a
  {
    if a != [] {
      JoinSplit(a[1..]);
      var rest := SplitLines(a[1..]);
      if a[0] == '\n' {
        assert ([""] + rest)[1..] == rest;
        assert a == "\n" + a[1..];
      } else {
        assert ([[a[0]] + rest[0]] + rest[1..])[1..] == rest[1..];
        assert a == [a[0]] + a[1..];
      }
    }
  }

  lemma SliceOfSlice(s: string, i: nat, j: nat, a: nat, b: nat)
    requires i <= j <= |s| && a <= b <= j - i
    ensures s[i..j][a..b] == s[i + a..i + b]
  {
    var l, r := s[i..j][a..b], s[i + a..i + b];
    assert forall k | 0 <= k < |l| :: l[k] == s[i..j][a + k] == s[i + (a + k)];
    assert forall k | 0 <= k < |r| :: r[k] == s[(i + a) + k];
    assert l == r;
  }

  lemma ContainsInside(s: string, i: nat, j: nat, t: string)
    requires i <= j <= |s| && Contains(s[i..j], t)
    ensures Contains(s, t)
  {
    var a, b :| 0 <= a <= b <= |s[i..j]| && s[i..j][a..b] == t;
    SliceOfSlice(s, i, j, a, b);
  }

  /** Every line is part of the text and has no line break. */
  lemma {:induction false} LineIsPart(a: string, k: nat) returns (i: nat, j: nat)
    requires k < |SplitLines(a)|
    ensures i <= j <= |a| && a[i..j] == SplitLines(a)[k] && '\n' !in SplitLines(a)[k]
    ensures k == 0 ==> i == 0
  {
    if a == [] {
      i, j := 0, 0;
    } else {
      assert a[1..|a|] == a[1..];
      if a[0] == '\n' {
        if k == 0 {
          i, j := 0, 0;
        } else {
          i, j := LineIsPart(a[1..], k - 1);
          SliceOfSlice(a, 1, |a|, i, j);
          i, j := i + 1, j + 1;
        }
      } else {
        i, j := LineIsPart(a[1..], k);
        SliceOfSlice(a, 1, |a|, i, j);
        if k == 0 {
          assert a[0..j + 1] == [a[0]] + a[1..j + 1];
          i, j := 0, j + 1;
        } else {
          i, j := i + 1, j + 1;
        }
      }
    }
  }

  // ---------- markers ----------

  lemma {:induction false} TrimLeftKeepsEnd(s: string)
    ensures |TrimLeft(s)| <= |s| && TrimLeft(s) == s[|s| - |TrimLeft(s)|..]
  {
    if s != [] && IsSpace(s[0]) {
      TrimLeftKeepsEnd(s[1..]);
    }
  }

  lemma {:induction false} TrimRightKeepsStart(s: string)
    ensures |TrimRight(s)| <= |s| && TrimRight(s) == s[..|TrimRight(s)|]
  {
    if s != [] && IsSpace(s[|s| - 1]) {
      TrimRightKeepsStart(s[..|s| - 1]);
    }
  }

  /** A line read as a marker contains the nonce read from it, and the origin is not empty. */
  lemma MarkerContainsNonce(line: string, prefix: string)
    requires ParseMarker(line, prefix).Some?
    ensures Contains(line, ParseMarker(line, prefix).value.0)
    ensures ParseMarker(line, prefix).value.1 != ""
    ensures '\n' !in line ==> '\n' !in ParseMarker(line, prefix).value.1
  {
    var trimmed := TrimSpace(line);
    var i := TrimmedIsPart(line);
    MarkerParts(line, prefix);
    ContainsInside(line, i, i + |trimmed|, ParseMarker(line, prefix).value.0);
    ContainsInside(line, i, i + |trimmed|, ParseMarker(line, prefix).value.1);
  }

  lemma TrimmedIsPart(line: string) returns (i: nat)
    ensures i + |TrimSpace(line)| <= |line| && TrimSpace(line) == line[i..i + |TrimSpace(line)|]
  {
    TrimLeftKeepsEnd(line);
    TrimRightKeepsStart(TrimLeft(line));
    i := |line| - |TrimLeft(line)|;
  }

  lemma MarkerParts(line: string, prefix: string)
    requires ParseMarker(line, prefix).Some?
    ensures Contains(TrimSpace(line), ParseMarker(line, prefix).value.0)
    ensures Contains(TrimSpace(line), ParseMarker(line, prefix).value.1)
  {
    var trimmed, k := TrimSpace(line), |Stem(prefix)|;
    var rest := trimmed[k..|trimmed|];
    assert TrimPrefix(trimmed, Stem(prefix)) == rest;
    var n := Index(rest, ORIGIN_KEY);
    assert rest[0..n] == rest[..n];
    ContainsInside(trimmed, k, |trimmed|, rest[..n]);
    OriginIsPart(rest, n);
    ContainsInside(trimmed, k, |trimmed|, ParseMarker(line, prefix).value.1);
  }

  lemma OriginIsPart(rest: string, n: nat)
    requires n <= |rest|
    ensures Contains(rest, TrimSuffix(TrimPrefix(rest[n..], ORIGIN_KEY), " " + RULE))
  {
    var tail := TrimPrefix(rest[n..], ORIGIN_KEY);
    var from := |rest| - |tail|;
    assert tail == rest[from..];
    var origin := TrimSuffix(tail, " " + RULE);
    assert origin == rest[from..from + |origin|];
  }

  lemma {:induction false} IndexAfter(s: string, key: string, tail: string)
    requires key != [] && key[0] !in s
    ensures Index(s + (key + tail), key) == |s|
  {
    var t := s + (key + tail);
    if s == [] {
      assert t == key + tail;
    } else {
      assert t[0] == s[0] && t[1..] == s[1..] + (key + tail);
      IndexAfter(s[1..], key, tail);
    }
  }

  lemma MarkerNotTrimmed(s: string)
    requires s != [] && !IsSpace(s[0]) && !IsSpace(s[|s| - 1])
    ensures TrimSpace(s) == s
  {
  }

  /** A marker line with a proper nonce and a non-empty origin reads back as itself. */
  lemma MarkerRoundTrip(prefix: string, nonce: string, origin: string)
    requires IsNonce(nonce) && origin != ""
    ensures ParseMarker(MarkerLine(prefix, nonce, origin), prefix) == Some((nonce, origin))
  {
    var line := MarkerLine(prefix, nonce, origin);
    assert line[0] == '\U{2500}' && line[|line| - 1] == '\U{2500}';
    MarkerNotTrimmed(line);
    var tail := origin + (" " + RULE);
    var rest := nonce + (ORIGIN_KEY + tail);
    assert TrimPrefix(line, Stem(prefix)) == rest;
    IndexAfter(nonce, ORIGIN_KEY, tail);
    assert rest[|nonce|..] == ORIGIN_KEY + tail && rest[..|nonce|] == nonce;
    assert TrimPrefix(ORIGIN_KEY + tail, ORIGIN_KEY) == tail;
    assert TrimSuffix(tail, " " + RULE) == origin;
  }

  // ---------- round trips ----------

  lemma NoMarkerInside(text: string, prefix: string, nonce: string)
    requires !Contains(text, nonce)
    ensures forall line | line in SplitLines(text) :: !Marker(prefix, nonce)(line)
  {
    forall k | 0 <= k < |SplitLines(text)| ensures !IsMarker(SplitLines(text)[k], prefix, nonce) {
      var i, j := LineIsPart(text, k);
      if IsMarker(SplitLines(text)[k], prefix, nonce) {
        MarkerContainsNonce(SplitLines(text)[k], prefix);
        ContainsInside(text, i, j, nonce);
      }
    }
  }

  lemma {:induction false} FindSkips(lines: seq<string>, from: nat, at: nat, wanted: string -> bool)
    requires from <= at < |lines| && wanted(lines[at])
    requires forall k | from <= k < at :: !wanted(lines[k])
    ensures FindFirst(lines, from, wanted) == at
    decreases at - from
  {
    if from < at {
      FindSkips(lines, from + 1, at, wanted);
    }
  }

  lemma Layout(before: seq<string>, first: string, inner: seq<string>, second: string, rest: seq<string>)
    ensures var lines := before + ([first] + (inner + ([second] + rest)));
            var from, end := |before| + 1, |before| + 1 + |inner|;
            && lines[..|before|] == before && lines[|before|] == first
            && end < |lines| && lines[from..end] == inner && lines[end] == second
  {
    var tail := inner + ([second] + rest);
    var lines := before + ([first] + tail);
    assert lines[|before| + 1..] == tail;
    assert tail[..|inner|] == inner;
    assert lines[|before| + 1..|before| + 1 + |inner|] == lines[|before| + 1..][..|inner|];
  }

  /** The content is what stands between the first start marker and the first end marker after it. */
  lemma ParsedAt(wrapped: string, lines: seq<string>, nonce: string, start: nat, end: nat)
    requires lines == SplitLines(wrapped) && start < end < |lines|
    requires FindMarker(lines, 0, START_PREFIX, nonce) == start
             && FindMarker(lines, start + 1, END_PREFIX, nonce) == end
    ensures Parsed(wrapped, nonce) == Some((Join(lines[start + 1..end], "\n"),
                                            Boundary(nonce, ParseMarker(lines[start], START_PREFIX).value.1,
                                              lines[start], lines[end])))
  {
  }

  lemma MarkersFound(lines: seq<string>, start: nat, end: nat, opens: string -> bool, closes: string -> bool)
    requires start < end < |lines| && opens(lines[start]) && closes(lines[end])
    requires forall line | line in lines[..start] :: !opens(line)
    requires forall line | line in lines[start + 1..end] :: !closes(line)
    ensures FindFirst(lines, 0, opens) == start
    ensures FindFirst(lines, start + 1, closes) == end
  {
    forall k | 0 <= k < start ensures !opens(lines[k]) {
      assert lines[..start][k] == lines[k];
    }
    forall k | start + 1 <= k < end ensures !closes(lines[k]) {
      assert lines[start + 1..end][k - start - 1] == lines[k];
    }
    FindSkips(lines, 0, start, opens);
    FindSkips(lines, start + 1, end, closes);
  }

  lemma MarkersAreLines(nonce: string, origin: string)
    requires IsNonce(nonce) && '\n' !in origin
    ensures '\n' !in New(nonce, origin).start && '\n' !in New(nonce, origin).end
  {
    assert '\n' !in Stem(START_PREFIX) && '\n' !in Stem(END_PREFIX) && '\n' !in ORIGIN_KEY && '\n' !in " " + RULE;
  }

  lemma WrappedLines(nonce: string, origin: string, content: string)
    requires IsNonce(nonce) && '\n' !in origin
    ensures var b := New(nonce, origin);
            SplitLines(Wrapped(b, content)) == [b.start] + (SplitLines(Body(content)) + ([b.end] + [""]))
  {
    var b := New(nonce, origin);
    MarkersAreLines(nonce, origin);
    SplitConcat(b.start, Body(content) + "\n" + (b.end + "\n"));
    SplitConcat(Body(content), b.end + "\n");
    assert b.end + "\n" + "" == b.end + "\n";
    SplitConcat(b.end, "");
    SplitOneLine(b.start);
    SplitOneLine(b.end);
    assert SplitLines("") == [""];
  }

  /** The text before the markers has to end its last line. */
  predicate EndsLine(text: string) { text == "" || HasSuffix(text, "\n") }

  lemma LinesAfter(text: string, wrapped: string) returns (before: seq<string>)
    requires EndsLine(text)
    ensures SplitLines(text + wrapped) == before + SplitLines(wrapped)
    ensures text != "" ==> before == SplitLines(text[..|text| - 1])
    ensures text == "" ==> before == []
  {
    if text == "" {
      assert text + wrapped == wrapped;
      before := [];
    } else {
      var init := text[..|text| - 1];
      assert text == init + "\n";
      assert text + wrapped == init + "\n" + wrapped;
      SplitConcat(init, wrapped);
      before := SplitLines(init);
    }
  }

  lemma ContainsPrefixPart(s: string, n: nat, t: string)
    requires n <= |s| && !Contains(s, t)
    ensures !Contains(s[..n], t)
  {
    if Contains(s[..n], t) {
      assert s[0..n] == s[..n];
      ContainsInside(s, 0, n, t);
    }
  }

  lemma FinishRoundTrip(wrapped: string, before: seq<string>, body: string, nonce: string, origin: string)
    requires var b := New(nonce, origin);
             SplitLines(wrapped) == before + ([b.start] + (SplitLines(body) + ([b.end] + [""])))
             && ParseMarker(b.start, START_PREFIX) == Some((nonce, origin)) && IsMarker(b.end, END_PREFIX, nonce)
    requires forall line | line in before :: !Marker(START_PREFIX, nonce)(line)
    requires forall line | line in SplitLines(body) :: !Marker(END_PREFIX, nonce)(line)
    ensures Parsed(wrapped, nonce) == Some((body, New(nonce, origin)))
  {
    var b, lines, inner := New(nonce, origin), SplitLines(wrapped), SplitLines(body);
    Layout(before, b.start, inner, b.end, [""]);
    MarkersFound(lines, |before|, |before| + 1 + |inner|, Marker(START_PREFIX, nonce), Marker(END_PREFIX, nonce));
    ParsedAt(wrapped, lines, nonce, |before|, |before| + 1 + |inner|);
    JoinSplit(body);
  }

  /** Parsing what was wrapped returns the content, less one final line break, and the boundary. */
  lemma RoundTrip(text: string, content: string, nonce: string, origin: string)
    requires IsNonce(nonce) && origin != "" && '\n' !in origin
    requires EndsLine(text) && !Contains(text, nonce) && !Contains(content, nonce)
    ensures GivesBack(Parsed(text + Wrapped(New(nonce, origin), content), nonce), New(nonce, origin), content)
  {
    var wrapped := Wrapped(New(nonce, origin), content);
    var body := Body(content);
    assert content[..|body|] == body;
    ContainsPrefixPart(content, |body|, nonce);
    var before := LinesAfter(text, wrapped);
    if text != "" {
      ContainsPrefixPart(text, |text| - 1, nonce);
      NoMarkerInside(text[..|text| - 1], START_PREFIX, nonce);
    }
    WrappedLines(nonce, origin, content);
    MarkerRoundTrip(START_PREFIX, nonce, origin);
    MarkerRoundTrip(END_PREFIX, nonce, origin);
    NoMarkerInside(body, END_PREFIX, nonce);
    FinishRoundTrip(text + wrapped, before, body, nonce, origin);
  }

  /** There is a start marker at `start`, the first one, and an end marker at `end`, the first one after it. */
  ghost predicate Framed(lines: seq<string>, nonce: string, start: nat, end: nat) {
    && start < end < |lines| && IsMarker(lines[start], START_PREFIX, nonce) && IsMarker(lines[end], END_PREFIX, nonce)
    && (forall k | 0 <= k < start :: !IsMarker(lines[k], START_PREFIX, nonce))
    && (forall k | start < k < end :: !IsMarker(lines[k], END_PREFIX, nonce))
  }

  /** With such markers parsing returns the lines between them. */
  lemma FramedIsParsed(wrapped: string, nonce: string, lines: seq<string>, start: nat, end: nat)
    requires lines == SplitLines(wrapped) && Framed(lines, nonce, start, end)
    ensures Parsed(wrapped, nonce) == Some((Join(lines[start + 1..end], "\n"),
                                            Boundary(nonce, ParseMarker(lines[start], START_PREFIX).value.1,
                                              lines[start], lines[end])))
  {
    FramedIsFound(lines, nonce, start, end);
    ParsedAt(wrapped, lines, nonce, start, end);
  }

  /** Without such markers parsing fails. */
  lemma ParsedIsFramed(lines: seq<string>, nonce: string) returns (start: nat, end: nat)
    requires ParsedLines(lines, START_PREFIX, END_PREFIX, nonce).Some?
    ensures Framed(lines, nonce, start, end)
  {
    start := FindMarker(lines, 0, START_PREFIX, nonce);
    end := FindMarker(lines, start + 1, END_PREFIX, nonce);
    FoundIsFirst(lines, 0, Marker(START_PREFIX, nonce));
    FoundIsFirst(lines, start + 1, Marker(END_PREFIX, nonce));
    forall k | 0 <= k < start ensures !IsMarker(lines[k], START_PREFIX, nonce) {
      assert !Marker(START_PREFIX, nonce)(lines[k]);
    }
    forall k | start < k < end ensures !IsMarker(lines[k], END_PREFIX, nonce) {
      assert !Marker(END_PREFIX, nonce)(lines[k]);
    }
  }

  lemma FramedIsFound(lines: seq<string>, nonce: string, start: nat, end: nat)
    requires Framed(lines, nonce, start, end)
    ensures FindMarker(lines, 0, START_PREFIX, nonce) == start
    ensures FindMarker(lines, start + 1, END_PREFIX, nonce) == end
  {
    FindSkips(lines, 0, start, Marker(START_PREFIX, nonce));
    FindSkips(lines, start + 1, end, Marker(END_PREFIX, nonce));
  }

  lemma {:induction false} FoundIsFirst(lines: seq<string>, from: nat, wanted: string -> bool)
    requires from <= |lines|
    ensures var i := FindFirst(lines, from, wanted);
            forall k | from <= k < (if i < 0 then |lines| else i) :: !wanted(lines[k])
    decreases |lines| - from
  {
    if from < |lines| && !wanted(lines[from]) {
      FoundIsFirst(lines, from + 1, wanted);
    }
  }

  /** No parsed boundary has an empty origin or one with a line break. */
  lemma ParsedOrigin(wrapped: string, nonce: string)
    requires Parsed(wrapped, nonce).Some?
    ensures Parsed(wrapped, nonce).value.1.origin != "" && '\n' !in Parsed(wrapped, nonce).value.1.origin
  {
    var lines := SplitLines(wrapped);
    var start := FindMarker(lines, 0, START_PREFIX, nonce);
    var i, j := LineIsPart(wrapped, start);
    MarkerContainsNonce(lines[start], START_PREFIX);
  }

  /** Wrapping and parsing is a round trip exactly for non-empty origins without line breaks. */
  lemma RoundTripIff(text: string, content: string, nonce: string, origin: string)
    requires IsNonce(nonce) && EndsLine(text) && !Contains(text, nonce) && !Contains(content, nonce)
    ensures GivesBack(Parsed(text + Wrapped(New(nonce, origin), content), nonce), New(nonce, origin), content) <==>
            origin != "" && '\n' !in origin
  {
    if origin != "" && '\n' !in origin {
      RoundTrip(text, content, nonce, origin);
    } else if Parsed(text + Wrapped(New(nonce, origin), content), nonce).Some? {
      ParsedOrigin(text + Wrapped(New(nonce, origin), content), nonce);
    }
  }

  // ---------- markdown with front matter ----------

  /** How much of the text a front matter block takes. */
  function FrontMatterLength(text: string): (n: nat)
    ensures n <= |text| && EndsLine(text[..n])
  {
    if !HasPrefix(text, "---\n") then 0
    else
      var end := Index(text[4..], "\n---\n\n");
      if end < 0 then 0
      else
        assert text[4..][end..end + 6] == "\n---\n\n" && text[end + 9] == text[4..][end..end + 6][5];
        end + 10
  }

  /** How much of the text a quoted note takes. */
  function NoteLength(text: string): (n: nat)
    ensures n <= |text| && EndsLine(text[..n])
  {
    if !HasPrefix(text, "> **") then 0
    else
      var end := Index(text, "\n\n");
      if end < 0 then 0
      else
        assert text[end + 1] == text[end..end + 2][1];
        end + 2
  }

  /** Front matter is there exactly when it is opened at the start and closed, and ends at the first close. */
  lemma FrontMatterMeaning(text: string)
    ensures var n := FrontMatterLength(text);
            && (n > 0 <==> HasPrefix(text, "---\n") && Contains(text[4..], "\n---\n\n"))
            && (n > 0 ==>
                  && n >= 10 && text[n - 6..n] == "\n---\n\n"
                  && forall k | 4 <= k < n - 6 :: !HasPrefix(text[k..], "\n---\n\n"))
  {
    if HasPrefix(text, "---\n") {
      IndexIsFirst(text[4..], "\n---\n\n");
      IndexFindsIff(text[4..], "\n---\n\n");
      var end := Index(text[4..], "\n---\n\n");
      if end >= 0 {
        assert text[4..][end..end + 6] == text[end + 4..end + 10];
        forall k | 4 <= k < end + 4 ensures !HasPrefix(text[k..], "\n---\n\n") {
          assert text[4..][k - 4..] == text[k..];
        }
      }
    }
  }

  /** A note is there exactly when it is opened at the start and followed by an empty line, and ends at the first. */
  lemma NoteMeaning(text: string)
    ensures var n := NoteLength(text);
            && (n > 0 <==> HasPrefix(text, "> **") && Contains(text, "\n\n"))
            && (n > 0 ==>
                  && n >= 2 && text[n - 2..n] == "\n\n"
                  && forall k | 0 <= k < n - 2 :: !HasPrefix(text[k..], "\n\n"))
  {
    IndexIsFirst(text, "\n\n");
    IndexFindsIff(text, "\n\n");
  }

  /** Front matter and a leading note stay outside the boundary. */
  method SplitMarkdownPrefix(markdown: string) returns (prefix: string, body: string)
    ensures prefix + body == markdown && EndsLine(prefix)
    ensures var n := FrontMatterLength(markdown); |prefix| == n + NoteLength(markdown[n..]) == PrefixLength(markdown)
  {
    prefix, body := "", markdown;
    var n := FrontMatterLength(body);
    if n > 0 {
      prefix := prefix + body[..n];
      body := body[n..];
    }
    var m := NoteLength(body);
    if m > 0 {
      prefix := prefix + body[..m];
      body := body[m..];
    }
    PrefixEndsLine(markdown);
  }

  function PrefixLength(markdown: string): (n: nat)
    ensures n <= |markdown|
  {
    FrontMatterLength(markdown) + NoteLength(markdown[FrontMatterLength(markdown)..])
  }

  lemma PrefixEndsLine(markdown: string)
    ensures EndsLine(markdown[..PrefixLength(markdown)])
  {
    var n := FrontMatterLength(markdown);
    EndsLineConcat(markdown, n, NoteLength(markdown[n..]));
  }

  lemma EndsLineConcat(text: string, n: nat, m: nat)
    requires n + m <= |text| && EndsLine(text[..n]) && EndsLine(text[n..][..m])
    ensures EndsLine(text[..n + m])
  {
    assert m == 0 ==> text[..n + m] == text[..n];
    assert m > 0 ==> text[n..][..m][m - 1] == text[..n + m][n + m - 1];
  }

  function WrapMarkdown(markdown: string, b: Boundary): string {
    markdown[..PrefixLength(markdown)] + Wrapped(b, markdown[PrefixLength(markdown)..])
  }

  /** Front matter and note come first, and only the rest is wrapped. */
  method WrapFetchMarkdown(markdown: string, b: Boundary) returns (wrapped: string)
    ensures wrapped == WrapMarkdown(markdown, b)
    ensures var n := FrontMatterLength(markdown);
            var m := n + NoteLength(markdown[n..]);
            wrapped == markdown[..m] + (b.start + "\n" + markdown[m..]
                                        + (if HasSuffix(markdown[m..], "\n") then "" else "\n") + b.end + "\n")
  {
    var prefix, body := SplitMarkdownPrefix(markdown);
    assert markdown[..|prefix|] == prefix && markdown[|prefix|..] == body;
    var inner := WrapText(b, body);
    wrapped := prefix + inner;
  }

  /** Wrapped markdown parses back to its part after the front matter and note. */
  lemma MarkdownRoundTrip(markdown: string, nonce: string, origin: string)
    requires IsNonce(nonce) && origin != "" && '\n' !in origin && !Contains(markdown, nonce)
    ensures GivesBack(Parsed(WrapMarkdown(markdown, New(nonce, origin)), nonce),
                      New(nonce, origin), markdown[PrefixLength(markdown)..])
  {
    var n := PrefixLength(markdown);
    PrefixEndsLine(markdown);
    ContainsPrefixPart(markdown, n, nonce);
    if Contains(markdown[n..], nonce) {
      assert markdown[n..|markdown|] == markdown[n..];
      ContainsInside(markdown, n, |markdown|, nonce);
    }
    RoundTrip(markdown[..n], markdown[n..], nonce, origin);
  }
}
