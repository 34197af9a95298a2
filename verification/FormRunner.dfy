/**
 The form runner: it drives a browser through one form and records what happened. The browser is
 an arbitrary driver whose answers are given by a script, and every call to it is logged.
 */
module FormRunner {
  import opened Options
  import opened Text

  datatype Code =
    | Success | InvalidSpec | NavigationTimeout | FormNotFound | FieldNotFound
    | BlockedCaptcha | BlockedBotwall | InteractionFailed | SubmitFailed

  /** The classification of a page. */
  datatype Block = Clear | Captcha | Botwall

  datatype Field = Field(name: string, selector: string, value: string, required: bool)

  /** A selector is abstracted to a string that is empty when none of its parts is set. */
  datatype FormSpec = FormSpec(name: string, startUrl: string, fields: seq<Field>, submit: string,
    successUrlGlob: string)

  /** How an action on an element or a page ends. */
  datatype Reply = Fine | NotFound | TimedOut | Broken

  datatype Event =
    | Navigated(url: string, reply: Reply)
    | ReadUrl(ok: bool)
    | ReadText(text: Option<string>)
    | ReadHtml(html: Option<string>)
    | Shot(ok: bool)
    | Filled(selector: string, value: string, reply: Reply)
    | Clicked(selector: string, reply: Reply)
    | AwaitedUrl(glob: string, ok: bool)
    | Settled

  /** What the driver will answer at each point: a reply for actions, a page for reads. */
  datatype Answer = Answer(reply: Reply, page: Option<string>)

  class Driver {
    const script: nat -> Answer
    var log: seq<Event>

    constructor (script: nat -> Answer)
      ensures this.script == script && log == []
    {
      this.script, log := script, [];
    }

    method Navigate(url: string) returns (reply: Reply)
      modifies this
      ensures log == old(log) + [Navigated(url, reply)]
    {
      reply := script(|log|).reply;
      log := log + [Navigated(url, reply)];
    }

    method CurrentUrl() returns (ok: bool)
      modifies this
      ensures log == old(log) + [ReadUrl(ok)]
    {
      ok := script(|log|).reply.Fine?;
      log := log + [ReadUrl(ok)];
    }

    method PageText() returns (text: Option<string>)
      modifies this
      ensures log == old(log) + [ReadText(text)]
    {
      text := script(|log|).page;
      log := log + [ReadText(text)];
    }

    method PageHtml() returns (html: Option<string>)
      modifies this
      ensures log == old(log) + [ReadHtml(html)]
    {
      html := script(|log|).page;
      log := log + [ReadHtml(html)];
    }

    method Screenshot() returns (ok: bool)
      modifies this
      ensures log == old(log) + [Shot(ok)]
    {
      ok := script(|log|).reply.Fine?;
      log := log + [Shot(ok)];
    }

    method Fill(selector: string, value: string) returns (reply: Reply)
      modifies this
      ensures log == old(log) + [Filled(selector, value, reply)]
    {
      reply := script(|log|).reply;
      log := log + [Filled(selector, value, reply)];
    }

    method Click(selector: string) returns (reply: Reply)
      modifies this
      ensures log == old(log) + [Clicked(selector, reply)]
    {
      reply := script(|log|).reply;
      log := log + [Clicked(selector, reply)];
    }

    method WaitForUrl(glob: string) returns (ok: bool)
      modifies this
      ensures log == old(log) + [AwaitedUrl(glob, ok)]
    {
      ok := script(|log|).reply.Fine?;
      log := log + [AwaitedUrl(glob, ok)];
    }

    method WaitSettled()
      modifies this
      ensures log == old(log) + [Settled]
    {
      log := log + [Settled];
    }
  }

  // ---------- what a run may look like ----------

  predicate ValidSpec(spec: FormSpec) {
    && TrimSpace(spec.name) != "" && TrimSpace(spec.startUrl) != "" && spec.fields != []
    && (forall f | f in spec.fields :: TrimSpace(f.name) != "" && f.selector != "")
    && spec.submit != ""
  }

  predicate Quiet(run: seq<Event>) {
    forall e | e in run :: !e.Clicked?
  }

  /** The fill attempts of a run, in order. */
  function Fills(run: seq<Event>): seq<Event> {
    if run == [] then []
    else Fills(run[..|run| - 1]) + if run[|run| - 1].Filled? then [run[|run| - 1]] else []
  }

  /** The start page was opened, read and classified as unblocked, with nothing filled in before. */
  ghost predicate Unblocked(spec: FormSpec, detect: (string, string) -> Block, run: seq<Event>) {
    |run| == 3 && run[0] == Navigated(spec.startUrl, Fine) && Judged(detect, run[1..], None)
  }

  /** What the events from here on say of the page: it cannot be read, it is blocked, or there is no problem. */
  ghost predicate Judged(detect: (string, string) -> Block, seen: seq<Event>, problem: Option<Code>) {
    && |seen| >= 1 && seen[0].ReadText?
    && if seen[0].text.None? then problem == Some(InteractionFailed)
       else
         && |seen| >= 2 && seen[1].ReadHtml?
         && if seen[1].html.None? then problem == Some(InteractionFailed)
            else
              match detect(seen[0].text.value, seen[1].html.value)
              case Clear => problem == None
              case Captcha => problem == Some(BlockedCaptcha)
              case Botwall => problem == Some(BlockedBotwall)
  }

  /** What the events after a click that worked say: the success page was not reached, or how its check ended. */
  ghost predicate AfterClick(spec: FormSpec, detect: (string, string) -> Block, rest: seq<Event>, problem: Option<Code>)
  {
    && |rest| >= 1
    && if rest[0] == AwaitedUrl(spec.successUrlGlob, false)
       then spec.successUrlGlob != "" && problem == Some(SubmitFailed)
       else
         && rest[0] == (if spec.successUrlGlob != "" then AwaitedUrl(spec.successUrlGlob, true) else Settled)
         && Judged(detect, rest[1..], problem)
  }

  /** Why a run with a valid specification stopped before the click, given its events up to there. */
  ghost predicate Stopped(spec: FormSpec, pacing: Option<bool>, detect: (string, string) -> Block,
    hasForm: string -> bool, run: seq<Event>, code: Code)
  {
    if pacing == Some(false) then code == NavigationTimeout && run == []
    else
      && |run| >= 1 && run[0].Navigated? && run[0].url == spec.startUrl
      && match run[0].reply
         case TimedOut => code == NavigationTimeout
         case NotFound => code == InteractionFailed
         case Broken => code == InteractionFailed
         case Fine =>
           || Judged(detect, run[1..], Some(code))
           || (Judged(detect, run[1..], None) && Unfilled(spec, hasForm, run, code))
  }

  /** What kept the form from being filled in and photographed. */
  ghost predicate Unfilled(spec: FormSpec, hasForm: string -> bool, run: seq<Event>, code: Code) {
    && |run| >= 1
    && var last := run[|run| - 1];
       || (exists f | f in spec.fields :: FillProblem(f, hasForm, last, code))
       || (code == FormNotFound && Tried(spec.fields, Fills(run)) && !SomeFilled(run))
       || (code == InteractionFailed && last == Shot(false))
  }

  /** Why a field could not be filled in: no form, a required field not found, or a failing page. */
  predicate FillProblem(field: Field, hasForm: string -> bool, last: Event, code: Code) {
    match code
    case FormNotFound => field.required && last.ReadHtml? && last.html.Some? && !hasForm(last.html.value)
    case FieldNotFound => field.required && last == Filled(field.selector, field.value, NotFound)
    case InteractionFailed =>
      || last == Filled(field.selector, field.value, Reply.TimedOut)
      || last == Filled(field.selector, field.value, Broken)
    case _ => false
  }

  /** Field `i` was tried as specified; the required ones were found and filled. */
  ghost predicate Tried(fields: seq<Field>, fills: seq<Event>) {
    && |fills| == |fields|
    && forall i | 0 <= i < |fields| ::
         && fills[i].Filled? && fills[i].selector == fields[i].selector && fills[i].value == fields[i].value
         && (fills[i].reply.Fine? || (fills[i].reply.NotFound? && !fields[i].required))
  }

  /** The names of the fields that were not found, in order. */
  function NotFoundNames(fields: seq<Field>, fills: seq<Event>): seq<string>
    requires |fields| == |fills| && forall e | e in fills :: e.Filled?
  {
    if fields == [] then []
    else NotFoundNames(fields[..|fields| - 1], fills[..|fills| - 1]) +
         if fills[|fills| - 1].reply.NotFound? then [fields[|fields| - 1].name] else []
  }

  /** A run up to the submit click: page unblocked, fields tried, one filled, screenshot taken, then the click. */
  ghost predicate ClickedProperly(spec: FormSpec, detect: (string, string) -> Block, opening: seq<Event>,
    filling: seq<Event>, click: Event, rest: seq<Event>) {
    && Unblocked(spec, detect, opening)
    && Quiet(filling) && Tried(spec.fields, Fills(filling)) && SomeFilled(filling)
    && click.Clicked? && click.selector == spec.submit
    && Quiet(rest)
  }

  ghost function Joined(opening: seq<Event>, filling: seq<Event>, click: Event, rest: seq<Event>): seq<Event> {
    opening + filling + [Shot(true), click] + rest
  }

  datatype Result = Result(code: Code, skipped: seq<string>)

  // ---------- the runner ----------

  /** Evidence for a failed run is best effort: it looks at the page three times and changes nothing. */
  method Fail(driver: Driver, code: Code) returns (r: Result, ghost more: seq<Event>)
    modifies driver
    ensures r == Result(code, []) && driver.log == old(driver.log) + more && Quiet(more) && Fills(more) == []
    ensures |more| == 3 && more[0].ReadUrl? && more[1].ReadText? && more[2].Shot?
  {
    var url := driver.CurrentUrl();
    var text := driver.PageText();
    var shot := driver.Screenshot();
    more := [ReadUrl(url), ReadText(text), Shot(shot)];
    FillsConcat([ReadUrl(url)], [ReadText(text)]);
    FillsConcat([ReadUrl(url)] + [ReadText(text)], [Shot(shot)]);
    assert more == [ReadUrl(url)] + [ReadText(text)] + [Shot(shot)];
    r := Result(code, []);
  }

  /** Classify the current page; an unreadable page is an error. */
  method DetectBlock(driver: Driver, detect: (string, string) -> Block)
    returns (problem: Option<Code>, ghost more: seq<Event>)
    modifies driver
    ensures driver.log == old(driver.log) + more && Quiet(more) && Fills(more) == []
    ensures Judged(detect, more, problem) && (problem.None? ==> |more| == 2)
    ensures problem.Some? ==> problem.value in {InteractionFailed, BlockedCaptcha, BlockedBotwall}
  {
    var text := driver.PageText();
    more := [ReadText(text)];
    if text.None? {
      return Some(InteractionFailed), more;
    }
    var html := driver.PageHtml();
    FillsConcat(more, [ReadHtml(html)]);
    more := more + [ReadHtml(html)];
    if html.None? {
      return Some(InteractionFailed), more;
    }
    match detect(text.value, html.value)
    case Clear => return None, more;
    case Captcha => return Some(BlockedCaptcha), more;
    case Botwall => return Some(BlockedBotwall), more;
  }

  /** Navigate and classify; succeeds only on an unblocked page. */
  method Open(driver: Driver, spec: FormSpec, detect: (string, string) -> Block, ghost pacing: Option<bool>,
    ghost hasForm: string -> bool)
    returns (problem: Option<Code>, ghost opening: seq<Event>)
    requires pacing != Some(false)
    modifies driver
    ensures driver.log == old(driver.log) + opening && Quiet(opening) && Fills(opening) == []
    ensures problem.None? ==> Unblocked(spec, detect, opening)
    ensures problem.Some? ==> problem.value in {NavigationTimeout, InteractionFailed, BlockedCaptcha, BlockedBotwall}
    ensures problem.Some? ==> Stopped(spec, pacing, detect, hasForm, opening, problem.value)
  {
    var reply := driver.Navigate(spec.startUrl);
    opening := [Navigated(spec.startUrl, reply)];
    if !reply.Fine? {
      return Some(if reply.TimedOut? then NavigationTimeout else InteractionFailed), opening;
    }
    ghost var more;
    problem, more := DetectBlock(driver, detect);
    FillsConcat(opening, more);
    opening := opening + more;
    assert opening[1..] == more;
  }

  lemma {:induction false} FillsConcat(run: seq<Event>, more: seq<Event>)
    ensures Fills(run + more) == Fills(run) + Fills(more)
  {
    if more == [] {
      assert run + more == run;
    } else {
      assert (run + more)[..|run + more| - 1] == run + more[..|more| - 1];
      FillsConcat(run, more[..|more| - 1]);
    }
  }

  lemma TriedSnoc(fields: seq<Field>, fills: seq<Event>, field: Field, fill: Event)
    requires Tried(fields, fills) && fill.Filled? && fill.selector == field.selector && fill.value == field.value
    requires fill.reply.Fine? || (fill.reply.NotFound? && !field.required)
    ensures Tried(fields + [field], fills + [fill])
    ensures NotFoundNames(fields + [field], fills + [fill]) ==
            NotFoundNames(fields, fills) + if fill.reply.NotFound? then [field.name] else []
  {
    assert (fields + [field])[..|fields|] == fields && (fills + [fill])[..|fills|] == fills;
  }

  lemma TriedNext(fields: seq<Field>, i: nat, filling: seq<Event>, more: seq<Event>)
    requires i < |fields| && Tried(fields[..i], Fills(filling)) && |Fills(more)| == 1
    requires var fill := Fills(more)[0];
             && fill.Filled? && fill.selector == fields[i].selector && fill.value == fields[i].value
             && (fill.reply.Fine? || (fill.reply.NotFound? && !fields[i].required))
    ensures Tried(fields[..i + 1], Fills(filling + more))
    ensures NotFoundNames(fields[..i + 1], Fills(filling + more)) ==
            NotFoundNames(fields[..i], Fills(filling)) + if Fills(more)[0].reply.NotFound? then [fields[i].name] else []
  {
    FillsConcat(filling, more);
    assert Fills(more) == [Fills(more)[0]];
    assert fields[..i + 1] == fields[..i] + [fields[i]];
    TriedSnoc(fields[..i], Fills(filling), fields[i], Fills(more)[0]);
  }

  /** Whether a form is still there; a page that cannot be read counts as having one. */
  method FormPresent(driver: Driver, hasForm: string -> bool) returns (present: bool, ghost seen: Event)
    modifies driver
    ensures driver.log == old(driver.log) + [seen] && seen.ReadHtml?
    ensures present <==> seen.html.None? || hasForm(seen.html.value)
  {
    var html := driver.PageHtml();
    seen := ReadHtml(html);
    present := html.None? || hasForm(html.value);
  }

  ghost predicate SomeFilled(run: seq<Event>) {
    exists e :: e in run && e.Filled? && e.reply.Fine?
  }

  /** Try one field; a required one needs a form on the page and has to be found. */
  method FillOne(driver: Driver, field: Field, hasForm: string -> bool)
    returns (problem: Option<Code>, found: bool, ghost more: seq<Event>)
    modifies driver
    ensures driver.log == old(driver.log) + more && Quiet(more)
    ensures problem.None?
            ==> Fills(more) == [Filled(field.selector, field.value, if found then Fine else NotFound)]
    ensures problem.None? ==> found || !field.required
    ensures problem.None? ==> (found <==> SomeFilled(more))
    ensures problem.Some? ==> |more| > 0 && FillProblem(field, hasForm, more[|more| - 1], problem.value)
  {
    more := [];
    if field.required {
      var present;
      ghost var seen;
      present, seen := FormPresent(driver, hasForm);
      more := [seen];
      if !present {
        return Some(FormNotFound), false, more;
      }
    }
    var reply := driver.Fill(field.selector, field.value);
    ghost var event := Filled(field.selector, field.value, reply);
    assert (more + [event])[..|more|] == more;
    more := more + [event];
    assert event in more;
    match reply
    case Fine => return None, true, more;
    case NotFound => return if field.required then Some(FieldNotFound) else None, false, more;
    case _ => return Some(InteractionFailed), false, more;
  }

  /** Fill the fields in order; stop at the first problem. */
  method FillFields(driver: Driver, fields: seq<Field>, hasForm: string -> bool)
    returns (problem: Option<Code>, skipped: seq<string>, filled: nat, ghost filling: seq<Event>)
    modifies driver
    ensures driver.log == old(driver.log) + filling && Quiet(filling)
    ensures problem.None? ==> Tried(fields, Fills(filling)) && skipped == NotFoundNames(fields, Fills(filling))
    ensures problem.None? ==> (filled > 0 <==> SomeFilled(filling))
    ensures problem.Some? ==>
              |filling| > 0
              && exists f | f in fields :: FillProblem(f, hasForm, filling[|filling| - 1], problem.value)
  {
    problem, skipped, filled, filling := None, [], 0, [];
    for i := 0 to |fields|
      invariant driver.log == old(driver.log) + filling && Quiet(filling)
      invariant Tried(fields[..i], Fills(filling)) && skipped == NotFoundNames(fields[..i], Fills(filling))
      invariant filled > 0 <==> SomeFilled(filling)
      invariant problem.None?
    {
      var found;
      ghost var more;
      problem, found, more := FillOne(driver, fields[i], hasForm);
      SomeFilledConcat(filling, more);
      if problem.Some? {
        filling := filling + more;
        assert fields[i] in fields && filling[|filling| - 1] == more[|more| - 1];
        return;
      }
      TriedNext(fields, i, filling, more);
      filling := filling + more;
      if found {
        filled := filled + 1;
      } else {
        skipped := skipped + [fields[i].name];
      }
    }
    assert fields[..|fields|] == fields;
  }

  lemma SomeFilledConcat(run: seq<Event>, more: seq<Event>)
    ensures SomeFilled(run + more) <==> SomeFilled(run) || SomeFilled(more)
  {
    assert forall e :: e in run + more <==> e in run || e in more;
  }

  lemma JudgedMore(detect: (string, string) -> Block, seen: seq<Event>, more: seq<Event>, problem: Option<Code>)
    requires Judged(detect, seen, problem)
    ensures Judged(detect, seen + more, problem)
  {
  }

  /** Wait for the success page if one is named, else for the page to come to rest. */
  method AwaitPage(driver: Driver, spec: FormSpec) returns (ok: bool, ghost wait: Event)
    modifies driver
    ensures driver.log == old(driver.log) + [wait]
    ensures wait == if spec.successUrlGlob != "" then AwaitedUrl(spec.successUrlGlob, ok) else Settled
    ensures !ok ==> spec.successUrlGlob != ""
  {
    if spec.successUrlGlob != "" {
      ok := driver.WaitForUrl(spec.successUrlGlob);
      wait := AwaitedUrl(spec.successUrlGlob, ok);
    } else {
      driver.WaitSettled();
      ok, wait := true, Settled;
    }
  }

  /** Evidence of a page as it is. */
  method Photograph(driver: Driver) returns (ghost more: seq<Event>)
    modifies driver
    ensures driver.log == old(driver.log) + more && Quiet(more)
  {
    var shot := driver.Screenshot();
    var url := driver.CurrentUrl();
    var text := driver.PageText();
    more := [Shot(shot), ReadUrl(url), ReadText(text)];
  }

  /** After the click: wait, classify again and take evidence; nothing here clicks. */
  method Settle(driver: Driver, spec: FormSpec, detect: (string, string) -> Block)
    returns (problem: Option<Code>, ghost rest: seq<Event>)
    modifies driver
    ensures driver.log == old(driver.log) + rest && Quiet(rest)
    ensures AfterClick(spec, detect, rest, problem)
    ensures problem.Some? ==> problem.value in {SubmitFailed, InteractionFailed, BlockedCaptcha, BlockedBotwall}
  {
    var ok;
    ghost var wait, seen, more;
    ok, wait := AwaitPage(driver, spec);
    if !ok {
      return Some(SubmitFailed), [wait];
    }
    problem, seen := DetectBlock(driver, detect);
    more := [];
    if problem.None? {
      more := Photograph(driver);
    }
    JudgedMore(detect, seen, more, problem);
    rest := [wait] + (seen + more);
    assert rest[1..] == seen + more;
  }

  /** The parts of a run that reached the submit click. */
  datatype Parts = NoClick | Parts(opening: seq<Event>, filling: seq<Event>, click: Event, rest: seq<Event>)

  /** A run never clicks, or clicks once and properly; which outcomes go with which is fixed. */
  ghost predicate ProperRun(spec: FormSpec, pacing: Option<bool>, detect: (string, string) -> Block,
    hasForm: string -> bool, run: seq<Event>, r: Result, parts: Parts)
  {
    match parts
    case NoClick =>
      && Quiet(run) && r.code != Success && r.code != SubmitFailed && r.skipped == []
      && (!ValidSpec(spec) <==> r.code == InvalidSpec)
      && (ValidSpec(spec) ==> |run| >= 3 && Stopped(spec, pacing, detect, hasForm, run[..|run| - 3], r.code))
    case Parts(opening, filling, click, rest) =>
      && ValidSpec(spec) && run == Joined(opening, filling, click, rest)
      && ClickedProperly(spec, detect, opening, filling, click, rest)
      && Submitted(spec, detect, click, rest, r.code)
      && r.skipped == if r.code == Success then NotFoundNames(spec.fields, Fills(filling)) else []
  }

  /** What the click and the events after it make of the run. */
  ghost predicate Submitted(spec: FormSpec, detect: (string, string) -> Block, click: Event, rest: seq<Event>,
    code: Code)
    requires click.Clicked?
  {
    match click.reply
    case NotFound => code == FormNotFound
    case TimedOut => code == SubmitFailed
    case Broken => code == SubmitFailed
    case Fine => AfterClick(spec, detect, rest, if code == Success then None else Some(code))
  }

  /** What stops the filling in stops the run. */
  lemma StoppedFilling(spec: FormSpec, pacing: Option<bool>, detect: (string, string) -> Block,
    hasForm: string -> bool, opening: seq<Event>, filling: seq<Event>, code: Code)
    requires pacing != Some(false) && Unblocked(spec, detect, opening) && Fills(opening) == []
    requires Unfilled(spec, hasForm, filling, code)
    ensures Stopped(spec, pacing, detect, hasForm, opening + filling, code)
  {
    var run := opening + filling;
    assert run[1..] == opening[1..] + filling;
    JudgedMore(detect, opening[1..], filling, None);
    UnfilledLater(spec, hasForm, opening, filling, code);
  }

  lemma UnfilledLater(spec: FormSpec, hasForm: string -> bool, opening: seq<Event>, filling: seq<Event>, code: Code)
    requires Unfilled(spec, hasForm, filling, code) && Fills(opening) == []
    ensures Unfilled(spec, hasForm, opening + filling, code)
  {
    var run := opening + filling;
    assert run[|run| - 1] == filling[|filling| - 1];
    FillsConcat(opening, filling);
    assert Fills(run) == Fills(filling);
    NothingFilled(opening);
    SomeFilledConcat(opening, filling);
  }

  lemma {:induction false} NothingFilled(run: seq<Event>)
    requires Fills(run) == []
    ensures !SomeFilled(run)
  {
    if run != [] {
      var init, last := run[..|run| - 1], run[|run| - 1];
      NothingFilled(init);
      assert !last.Filled?;
      assert forall e | e in run :: e in init || e == last;
    }
  }

  /** Fill in the form and photograph it. */
  method FillAndShoot(driver: Driver, spec: FormSpec, hasForm: string -> bool)
    returns (problem: Option<Code>, skipped: seq<string>, ghost filling: seq<Event>, ghost quiet: seq<Event>)
    requires spec.fields != []
    modifies driver
    ensures driver.log == old(driver.log) + quiet && Quiet(quiet)
    ensures problem.Some? ==> Unfilled(spec, hasForm, quiet, problem.value)
    ensures problem.None? ==>
              && quiet == filling + [Shot(true)] && Quiet(filling) && SomeFilled(filling)
              && Tried(spec.fields, Fills(filling)) && skipped == NotFoundNames(spec.fields, Fills(filling))
  {
    var filled;
    problem, skipped, filled, filling := FillFields(driver, spec.fields, hasForm);
    quiet := filling;
    if problem.Some? {
      return;
    }
    if filled == 0 {
      problem := Some(FormNotFound);
      return;
    }
    var shot := driver.Screenshot();
    quiet := filling + [Shot(shot)];
    if !shot {
      problem := Some(InteractionFailed);
    }
  }

  /** Everything before the click: pace, open, fill, and take the screenshot. */
  method Prepare(driver: Driver, spec: FormSpec, pacing: Option<bool>, detect: (string, string) -> Block,
    hasForm: string -> bool)
    returns (problem: Option<Code>, skipped: seq<string>, ghost opening: seq<Event>, ghost filling: seq<Event>,
      ghost quiet: seq<Event>)
    requires spec.fields != []
    modifies driver
    ensures driver.log == old(driver.log) + quiet && Quiet(quiet)
    ensures problem.Some? ==> problem.value !in {Success, SubmitFailed, InvalidSpec}
    ensures problem.Some? ==> Stopped(spec, pacing, detect, hasForm, quiet, problem.value)
    ensures problem.None? ==>
              && quiet == opening + filling + [Shot(true)]
              && Unblocked(spec, detect, opening) && Quiet(filling) && SomeFilled(filling)
              && Tried(spec.fields, Fills(filling)) && skipped == NotFoundNames(spec.fields, Fills(filling))
  {
    skipped, opening, filling, quiet := [], [], [], [];
    if pacing == Some(false) {
      return Some(NavigationTimeout), skipped, opening, filling, quiet;
    }
    problem, opening := Open(driver, spec, detect, pacing, hasForm);
    quiet := opening;
    if problem.Some? {
      return;
    }
    ghost var more;
    problem, skipped, filling, more := FillAndShoot(driver, spec, hasForm);
    quiet := opening + more;
    if problem.Some? {
      StoppedFilling(spec, pacing, detect, hasForm, opening, more, problem.value);
    }
  }

  lemma ProperStop(spec: FormSpec, pacing: Option<bool>, detect: (string, string) -> Block, hasForm: string -> bool,
    quiet: seq<Event>, more: seq<Event>, r: Result)
    requires ValidSpec(spec) && Quiet(quiet) && Quiet(more) && |more| == 3
    requires Stopped(spec, pacing, detect, hasForm, quiet, r.code)
    requires r.code !in {Success, SubmitFailed, InvalidSpec} && r.skipped == []
    ensures ProperRun(spec, pacing, detect, hasForm, quiet + more, r, NoClick)
  {
    assert (quiet + more)[..|quiet + more| - 3] == quiet;
  }

  lemma JoinedParts(opening: seq<Event>, filling: seq<Event>, click: Event, rest: seq<Event>)
    ensures opening + filling + [Shot(true)] + ([click] + rest) == Joined(opening, filling, click, rest)
  {
  }

  /** Submit a form: the run is proper for every behaviour of the driver. */
  method SubmitForm(driver: Driver, spec: FormSpec, pacing: Option<bool>, detect: (string, string) -> Block,
    hasForm: string -> bool)
    returns (r: Result, ghost run: seq<Event>, ghost parts: Parts)
    modifies driver
    ensures driver.log == old(driver.log) + run && ProperRun(spec, pacing, detect, hasForm, run, r, parts)
    ensures r.code == InvalidSpec ==> run == []
    ensures r.code == InvalidSpec <==>
            || TrimSpace(spec.name) == "" || TrimSpace(spec.startUrl) == "" || spec.fields == [] || spec.submit == ""
            || exists f | f in spec.fields :: TrimSpace(f.name) == "" || f.selector == ""
  {
    if !ValidSpec(spec) {
      return Result(InvalidSpec, []), [], NoClick;
    }
    r, run, parts := Attempt(driver, spec, pacing, detect, hasForm);
  }

  method Attempt(driver: Driver, spec: FormSpec, pacing: Option<bool>, detect: (string, string) -> Block,
    hasForm: string -> bool)
    returns (r: Result, ghost run: seq<Event>, ghost parts: Parts)
    requires ValidSpec(spec)
    modifies driver
    ensures driver.log == old(driver.log) + run && ProperRun(spec, pacing, detect, hasForm, run, r, parts)
    ensures r.code != InvalidSpec
  {
    ghost var start, opening, filling, quiet := driver.log, [], [], [];
    var problem, skipped;
    problem, skipped, opening, filling, quiet := Prepare(driver, spec, pacing, detect, hasForm);
    if problem.Some? {
      r, run := Report(driver, spec, pacing, detect, hasForm, problem.value, start, quiet);
      parts := NoClick;
    } else {
      r, run, parts := Press(driver, spec, pacing, detect, hasForm, skipped, start, opening, filling);
    }
  }

  lemma Regroup(a: seq<Event>, b: seq<Event>, c: seq<Event>)
    ensures a + b + c == a + (b + c)
  {
  }

  /** End a run that stopped before the click. */
  method Report(driver: Driver, ghost spec: FormSpec, ghost pacing: Option<bool>,
    ghost detect: (string, string) -> Block, ghost hasForm: string -> bool, code: Code, ghost start: seq<Event>,
    ghost quiet: seq<Event>)
    returns (r: Result, ghost run: seq<Event>)
    requires driver.log == start + quiet && ValidSpec(spec) && code !in {Success, SubmitFailed, InvalidSpec}
    requires Quiet(quiet) && Stopped(spec, pacing, detect, hasForm, quiet, code)
    modifies driver
    ensures driver.log == start + run && r.code == code
    ensures ProperRun(spec, pacing, detect, hasForm, run, r, NoClick)
  {
    ghost var more;
    r, more := Fail(driver, code);
    run := quiet + more;
    Regroup(start, quiet, more);
    ProperStop(spec, pacing, detect, hasForm, quiet, more, r);
  }

  /** Go on with the click when all is ready for it. */
  method Press(driver: Driver, spec: FormSpec, ghost pacing: Option<bool>, detect: (string, string) -> Block,
    ghost hasForm: string -> bool, skipped: seq<string>, ghost start: seq<Event>, ghost opening: seq<Event>,
    ghost filling: seq<Event>)
    returns (r: Result, ghost run: seq<Event>, ghost parts: Parts)
    requires driver.log == start + (opening + filling + [Shot(true)])
    requires ValidSpec(spec) && Unblocked(spec, detect, opening)
    requires Quiet(filling) && SomeFilled(filling)
    requires Tried(spec.fields, Fills(filling)) && skipped == NotFoundNames(spec.fields, Fills(filling))
    modifies driver
    ensures driver.log == start + run && r.code != InvalidSpec
    ensures ProperRun(spec, pacing, detect, hasForm, run, r, parts)
  {
    ghost var more;
    r, more, parts := ClickAndSettle(driver, spec, detect, skipped, opening, filling);
    run := opening + filling + [Shot(true)] + more;
    Regroup(start, opening + filling + [Shot(true)], more);
    ProperClick(spec, pacing, detect, hasForm, r, parts);
  }

  lemma ProperClick(spec: FormSpec, pacing: Option<bool>, detect: (string, string) -> Block, hasForm: string -> bool,
    r: Result, parts: Parts)
    requires ValidSpec(spec) && parts.Parts? && r.code != InvalidSpec
    requires ClickedProperly(spec, detect, parts.opening, parts.filling, parts.click, parts.rest)
    requires Submitted(spec, detect, parts.click, parts.rest, r.code)
    requires r.skipped == if r.code == Success then NotFoundNames(spec.fields, Fills(parts.filling)) else []
    ensures ProperRun(spec, pacing, detect, hasForm,
                      parts.opening + parts.filling + [Shot(true)] + ([parts.click] + parts.rest), r, parts)
  {
    JoinedParts(parts.opening, parts.filling, parts.click, parts.rest);
  }

  lemma AfterMore(spec: FormSpec, detect: (string, string) -> Block, rest: seq<Event>, more: seq<Event>,
    problem: Option<Code>)
    requires AfterClick(spec, detect, rest, problem)
    ensures AfterClick(spec, detect, rest + more, problem)
  {
    assert (rest + more)[1..] == rest[1..] + more;
  }

  method ClickAndSettle(driver: Driver, spec: FormSpec, detect: (string, string) -> Block, skipped: seq<string>,
    ghost opening: seq<Event>, ghost filling: seq<Event>)
    returns (r: Result, ghost more: seq<Event>, ghost parts: Parts)
    modifies driver
    ensures driver.log == old(driver.log) + more
    ensures parts.Parts? && parts.opening == opening && parts.filling == filling && more == [parts.click] + parts.rest
            && Quiet(parts.rest)
    ensures parts.click.Clicked? && parts.click.selector == spec.submit
    ensures Submitted(spec, detect, parts.click, parts.rest, r.code) && r.code != InvalidSpec
    ensures r.skipped == if r.code == Success then skipped else []
  {
    var reply := driver.Click(spec.submit);
    ghost var click, rest := Clicked(spec.submit, reply), [];
    if !reply.Fine? {
      r, rest := Fail(driver, if reply.NotFound? then FormNotFound else SubmitFailed);
    } else {
      var code;
      code, rest := AfterFineClick(driver, spec, detect);
      r := Result(code, if code == Success then skipped else []);
    }
    more, parts := [click] + rest, Parts(opening, filling, click, rest);
  }

  /** What becomes of a click that worked, with evidence in either case. */
  method AfterFineClick(driver: Driver, spec: FormSpec, detect: (string, string) -> Block)
    returns (code: Code, ghost rest: seq<Event>)
    modifies driver
    ensures driver.log == old(driver.log) + rest && Quiet(rest)
    ensures AfterClick(spec, detect, rest, if code == Success then None else Some(code)) && code != InvalidSpec
  {
    var problem;
    problem, rest := Settle(driver, spec, detect);
    if problem.None? {
      return Success, rest;
    }
    ghost var evidence;
    var r;
    r, evidence := Fail(driver, problem.value);
    AfterMore(spec, detect, rest, evidence, problem);
    return r.code, rest + evidence;
  }

  /**
   What a proper click means: it is the only one, comes right after a screenshot, and all that is required was
   done before.
   */
  lemma ClickHappensOnce(spec: FormSpec, pacing: Option<bool>, detect: (string, string) -> Block,
    hasForm: string -> bool, run: seq<Event>, r: Result, parts: Parts, k: nat)
    requires ProperRun(spec, pacing, detect, hasForm, run, r, parts) && k < |run| && run[k].Clicked?
    ensures k >= 4 && run[k - 1] == Shot(true) && run[k].selector == spec.submit
    ensures Unblocked(spec, detect, run[..3])
    ensures forall j | 0 <= j < |run| && run[j].Clicked? :: j == k
    ensures SomeFilled(run[..k])
    ensures forall f | f in spec.fields && f.required :: Filled(f.selector, f.value, Fine) in run[..k]
    ensures r.code != FieldNotFound && r.code != InvalidSpec
  {
    var opening, filling, rest := parts.opening, parts.filling, parts.rest;
    OnlyClick(opening, filling, parts.click, rest);
    FilledBefore(spec, opening, filling);
  }

  lemma FilledBefore(spec: FormSpec, opening: seq<Event>, filling: seq<Event>)
    requires Tried(spec.fields, Fills(filling)) && SomeFilled(filling)
    ensures var head := opening + filling + [Shot(true)];
            SomeFilled(head) && forall f | f in spec.fields && f.required :: Filled(f.selector, f.value, Fine) in head
  {
    RequiredAreFilled(spec, filling);
    SomeFilledConcat(opening + filling, [Shot(true)]);
    SomeFilledConcat(opening, filling);
    assert forall e | e in filling :: e in opening + filling + [Shot(true)];
  }

  /** A success means one click that worked, the success page reached if one is named, and no block seen there. */
  lemma SuccessMeans(spec: FormSpec, pacing: Option<bool>, detect: (string, string) -> Block,
    hasForm: string -> bool, run: seq<Event>, r: Result, parts: Parts)
    requires ProperRun(spec, pacing, detect, hasForm, run, r, parts) && r.code == Success
    ensures Clicked(spec.submit, Fine) in run
    ensures spec.successUrlGlob != "" ==> AwaitedUrl(spec.successUrlGlob, true) in run
    ensures exists text, html :: ReadText(Some(text)) in parts.rest && ReadHtml(Some(html)) in parts.rest
                                 && detect(text, html) == Clear
  {
    var rest := parts.rest;
    assert rest[1..][0] == rest[1] && rest[1..][1] == rest[2];
    assert ReadText(Some(rest[1].text.value)) == rest[1] && ReadHtml(Some(rest[2].html.value)) == rest[2];
    assert rest[0] in run && parts.click in run;
  }

  /** The parts of a run that clicked, by position. */
  lemma OnlyClick(opening: seq<Event>, filling: seq<Event>, click: Event, rest: seq<Event>)
    requires Quiet(opening) && Quiet(filling) && Quiet(rest)
    ensures var run, n := Joined(opening, filling, click, rest), |opening| + |filling|;
            && |run| >= n + 2 && run[..|opening|] == opening && run[n] == Shot(true) && run[n + 1] == click
            && run[..n + 1] == opening + filling + [Shot(true)]
            && forall j | 0 <= j < |run| && run[j].Clicked? :: j == n + 1
  {
    var head, run := opening + filling + [Shot(true)], Joined(opening, filling, click, rest);
    assert run == head + [click] + rest;
    assert Quiet(head);
    assert run[..|head|] == head && run[|head| + 1..] == rest;
    assert forall j | 0 <= j < |head| :: run[j] == head[j];
    assert forall j | |head| < j < |run| :: run[j] == rest[j - |head| - 1];
  }

  lemma RequiredAreFilled(spec: FormSpec, filling: seq<Event>)
    requires Tried(spec.fields, Fills(filling))
    ensures forall f | f in spec.fields && f.required :: Filled(f.selector, f.value, Fine) in filling
  {
    forall f | f in spec.fields && f.required ensures Filled(f.selector, f.value, Fine) in filling {
      var i :| 0 <= i < |spec.fields| && spec.fields[i] == f;
      FillsAreEvents(filling, i);
    }
  }

  lemma {:induction false} FillsAreEvents(run: seq<Event>, i: nat)
    requires i < |Fills(run)|
    ensures Fills(run)[i] in run
  {
    var init := run[..|run| - 1];
    if i < |Fills(init)| {
      FillsAreEvents(init, i);
      assert forall e | e in init :: e in run;
    } else {
      assert Fills(run)[i] == run[|run| - 1];
    }
  }
}
