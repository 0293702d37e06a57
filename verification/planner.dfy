/** The multi-step project planner of the English site
    (en/start-project/project-planner.js): a linear wizard over the form's
    steps, driven by the Next and Back buttons, that finally posts the form
    with a plain-text summary of the answers. */
module Planner {
  import opened Base

  /** One step of the form, reduced to what the Next button looks at: the
      checked state of each of its radio inputs at the moment of a click. */
  datatype FormStep = FormStep(radios: seq<bool>)

  /** Next refuses to leave a step that has radio inputs none of which is
      checked (the script alerts and returns). */
  predicate Blocked(s: FormStep) {
    |s.radios| > 0 && true !in s.radios
  }

  /** The three texts the Next button shows. */
  datatype Label = NextLabel | SubmitLabel | SubmittingLabel

  function LabelText(l: Label): string {
    match l
    case NextLabel => "Next"
    case SubmitLabel => "Submit Request"
    case SubmittingLabel => "Submitting..."
  }

  /** Where the final POST stands. */
  datatype Request = Idle | InFlight | Accepted

  /** The planner's state. `step` is `currentStep`; `summary` is the value
      of the hidden summary field once it has been compiled; `formShown` is
      false once the success message has replaced the form and the progress
      bar. */
  datatype Wizard = Wizard(
    step: nat,
    nextLabel: Label,
    nextDisabled: bool,
    prevShown: bool,
    request: Request,
    summary: Option<string>,
    formShown: bool)

  /** The page as loaded: the first step, the Next button reading "Next" and
      the Back button hidden (both set by the page's markup). */
  function Init(): (w: Wizard)
    ensures w.step == 0 && w.request == Idle && !w.prevShown
  {
    Wizard(0, NextLabel, false, false, Idle, None, true)
  }

  // ---------------------------------------------------------------------
  // The summary sent with the request.
  // ---------------------------------------------------------------------

  /** The answers as `FormData.get` returns them: `None` is `null`. */
  datatype Answers = Answers(
    goal: Option<string>,
    package: Option<string>,
    budget: Option<string>,
    details: Option<string>)

  /** A form value inside a template literal: `null` prints as "null". */
  function FormValue(v: Option<string>): string {
    match v
    case Some(s) => s
    case None => "null"
  }

  const SUMMARY_HEADER := "Project Request Summary:\n\n"
  const GOAL_LABEL := "Main Goal: "
  const PACKAGE_LABEL := "Selected Package: "
  const BUDGET_LABEL := "Approximate Budget: "
  const DETAILS_LABEL := "\nAdditional Details:\n"

  /** `compileSummary`: the fixed header, then goal, package and budget on
      a line each, then a blank line and the details. */
  function CompileSummary(a: Answers): (summary: string)
    ensures |SUMMARY_HEADER| <= |summary| && summary[..|SUMMARY_HEADER|] == SUMMARY_HEADER
    ensures var d := FormValue(a.details);
      |d| <= |summary| && summary[|summary| - |d|..] == d
  {
    SUMMARY_HEADER
    + GOAL_LABEL + FormValue(a.goal) + "\n"
    + PACKAGE_LABEL + FormValue(a.package) + "\n"
    + BUDGET_LABEL + FormValue(a.budget) + "\n"
    + DETAILS_LABEL + FormValue(a.details)
  }

  /** The four values a summary reports, as printed. */
  datatype SummaryFields = SummaryFields(goal: string, package: string, budget: string, details: string)

  /** The rest of `s` after `prefix`, if `s` starts with it. */
  function After(prefix: string, s: string): (r: Option<string>)
    ensures r.Some? <==> |prefix| <= |s| && s[..|prefix|] == prefix
    ensures r.Some? ==> s == prefix + r.value
  {
    if |prefix| <= |s| && s[..|prefix|] == prefix then Some(s[|prefix|..]) else None
  }

  /** The text before the first line feed of `s` and the text after it. */
  function SplitLine(s: string): (r: Option<(string, string)>)
    ensures r.None? ==> '\n' !in s
    ensures r.Some? ==> '\n' !in r.value.0 && s == r.value.0 + "\n" + r.value.1
  {
    if |s| == 0 then None
    else if s[0] == '\n' then Some(([], s[1..]))
    else match SplitLine(s[1..])
      case None => None
      case Some((line, rest)) => Some(([s[0]] + line, rest))
  }

  /** Reads a summary back into its four values. */
  function ParseSummary(s: string): Option<SummaryFields> {
    match After(SUMMARY_HEADER + GOAL_LABEL, s)
    case None => None
    case Some(s1) =>
      match SplitLine(s1)
      case None => None
      case Some((goal, s2)) =>
        match After(PACKAGE_LABEL, s2)
        case None => None
        case Some(s3) =>
          match SplitLine(s3)
          case None => None
          case Some((package, s4)) =>
            match After(BUDGET_LABEL, s4)
            case None => None
            case Some(s5) =>
              match SplitLine(s5)
              case None => None
              case Some((budget, s6)) =>
                match After(DETAILS_LABEL, s6)
                case None => None
                case Some(details) => Some(SummaryFields(goal, package, budget, details))
  }

  lemma {:induction false} SplitLineOf(line: string, rest: string)
    requires '\n' !in line
    ensures SplitLine(line + "\n" + rest) == Some((line, rest))
    decreases |line|
  {
    if |line| == 0 {
      assert line + "\n" + rest == "\n" + rest;
    } else {
      assert (line + "\n" + rest)[1..] == line[1..] + "\n" + rest;
      SplitLineOf(line[1..], rest);
      assert [line[0]] + line[1..] == line;
    }
  }

  lemma AfterOf(prefix: string, rest: string)
    ensures After(prefix, prefix + rest) == Some(rest)
  {
    assert (prefix + rest)[..|prefix|] == prefix;
  }

  /** Regroups the summary's concatenation so that each field is followed
      by the rest of the text. */
  lemma Regroup(h: string, g: string, nl: string, pl: string, p: string, bl: string, b: string, dl: string, d: string)
    ensures h + g + nl + pl + p + nl + bl + b + nl + dl + d
         == h + (g + nl + (pl + (p + nl + (bl + (b + nl + (dl + d))))))
  {
  }

  /** The summary keeps its values apart and in order: as long as goal,
      package and budget are single lines, reading the summary back gives
      the four printed values. */
  lemma SummaryRoundTrip(a: Answers)
    requires '\n' !in FormValue(a.goal)
    requires '\n' !in FormValue(a.package)
    requires '\n' !in FormValue(a.budget)
    ensures ParseSummary(CompileSummary(a)) ==
      Some(SummaryFields(FormValue(a.goal), FormValue(a.package), FormValue(a.budget), FormValue(a.details)))
  {
    var g, p, b, d := FormValue(a.goal), FormValue(a.package), FormValue(a.budget), FormValue(a.details);
    var s6 := DETAILS_LABEL + d;
    var s5 := b + "\n" + s6;
    var s4 := BUDGET_LABEL + s5;
    var s3 := p + "\n" + s4;
    var s2 := PACKAGE_LABEL + s3;
    var s1 := g + "\n" + s2;
    Regroup(SUMMARY_HEADER + GOAL_LABEL, g, "\n", PACKAGE_LABEL, p, BUDGET_LABEL, b, DETAILS_LABEL, d);
    AfterOf(SUMMARY_HEADER + GOAL_LABEL, s1);
    SplitLineOf(g, s2);
    AfterOf(PACKAGE_LABEL, s3);
    SplitLineOf(p, s4);
    AfterOf(BUDGET_LABEL, s5);
    SplitLineOf(b, s6);
    AfterOf(DETAILS_LABEL, d);
  }

  // ---------------------------------------------------------------------
  // The buttons.
  // ---------------------------------------------------------------------

  /** The Next button on a form of `n` steps, with `current` the radio
      states of the shown step at the moment of the click. A disabled button
      receives no clicks. On a blocked step nothing happens; before the last
      step it advances one step; on the last step it compiles the summary and
      starts the POST. */
  function Next(n: nat, current: FormStep, answers: Answers, w: Wizard): (r: Wizard)
    requires w.step < n
    ensures w.nextDisabled || Blocked(current) ==> r == w
    ensures !w.nextDisabled && !Blocked(current) && w.step + 1 < n ==>
      && r.step == w.step + 1 && r.prevShown
      && r.nextLabel == (if r.step == n - 1 then SubmitLabel else w.nextLabel)
      && r.request == w.request && r.nextDisabled == w.nextDisabled
      && r.summary == w.summary && r.formShown == w.formShown
    ensures !w.nextDisabled && !Blocked(current) && w.step + 1 == n ==>
      && r.step == w.step && r.prevShown == w.prevShown && r.formShown == w.formShown
      && r.request == InFlight && r.nextDisabled && r.nextLabel == SubmittingLabel
      && r.summary == Some(CompileSummary(answers))
  {
    if w.nextDisabled || Blocked(current) then w
    else if w.step + 1 < n then
      w.(step := w.step + 1,
         prevShown := true,
         nextLabel := if w.step + 1 == n - 1 then SubmitLabel else w.nextLabel)
    else
      w.(summary := Some(CompileSummary(answers)),
         nextLabel := SubmittingLabel,
         nextDisabled := true,
         request := InFlight)
  }

  /** The Back button: one step back unless on the first step. It is not
      disabled while the request is in flight. */
  function Prev(w: Wizard): (r: Wizard)
    ensures w.step == 0 ==> r == w
    ensures w.step > 0 ==>
      && r.step + 1 == w.step && r.nextLabel == NextLabel
      && (r.prevShown <==> (if r.step == 0 then false else w.prevShown))
      && r.request == w.request && r.nextDisabled == w.nextDisabled
      && r.summary == w.summary && r.formShown == w.formShown
  {
    if w.step > 0 then
      w.(step := w.step - 1,
         nextLabel := NextLabel,
         prevShown := if w.step - 1 == 0 then false else w.prevShown)
    else w
  }

  /** How the POST ended: a response with `ok` set, an opaque redirect, any
      other response, or no response at all. */
  datatype Response = Ok | OpaqueRedirect | HttpError | NetworkError

  /** The request's settlement. Success replaces the form by the success
      message; failure re-enables the button as "Submit Request". Neither
      moves the step, the Back button or the compiled summary. */
  function Settle(w: Wizard, resp: Response): (r: Wizard)
    ensures w.request != InFlight ==> r == w
    ensures r.step == w.step && r.prevShown == w.prevShown && r.summary == w.summary
    ensures w.request == InFlight && (resp == Ok || resp == OpaqueRedirect) ==>
      && r.request == Accepted && !r.formShown
      && r.nextLabel == w.nextLabel && r.nextDisabled == w.nextDisabled
    ensures w.request == InFlight && (resp == HttpError || resp == NetworkError) ==>
      && r.request == Idle && !r.nextDisabled && r.nextLabel == SubmitLabel
      && r.formShown == w.formShown
  {
    if w.request != InFlight then w
    else if resp == Ok || resp == OpaqueRedirect then
      w.(request := Accepted, formShown := false)
    else
      w.(request := Idle, nextDisabled := false, nextLabel := SubmitLabel)
  }

  /** What the visitor and the network do: a click on Next (with the radio
      states of the shown step and the form's answers at that moment), a
      click on Back, or the end of the POST. Checking an option between
      clicks shows up as different radio states in the next click. */
  datatype Event = ClickNext(current: FormStep, answers: Answers) | ClickPrev | Reply(response: Response)

  /** One event on a form of `n` steps; the step stays a valid index. */
  function Step(n: nat, w: Wizard, e: Event): (r: Wizard)
    requires w.step < n
    ensures r.step < n
    ensures e.ClickPrev? ==> r.step == if w.step > 0 then w.step - 1 else 0
    ensures e.Reply? ==> r.step == w.step
  {
    match e
    case ClickNext(current, a) => Next(n, current, a, w)
    case ClickPrev => Prev(w)
    case Reply(resp) => Settle(w, resp)
  }

  // ---------------------------------------------------------------------
  // What every reachable state satisfies.
  // ---------------------------------------------------------------------

  /** The planner's invariant on a form of `n` steps: the step is a valid
      index, the Back button is shown exactly off the first step, the Next
      button is disabled exactly while a request is pending or done, a
      request always carries a compiled summary, the form disappears only on
      success, and an idle wizard on the last of several steps offers
      "Submit Request". */
  ghost predicate Inv(n: nat, w: Wizard) {
    && w.step < n
    && (w.prevShown <==> w.step > 0)
    && (w.nextDisabled <==> w.request != Idle)
    && (w.request != Idle ==> w.summary.Some?)
    && (w.formShown <==> w.request != Accepted)
    && (w.request == Idle ==> w.nextLabel != SubmittingLabel)
    && (w.request == Idle && n > 1 && w.step == n - 1 ==> w.nextLabel == SubmitLabel)
  }

  /** Every event keeps the invariant. */
  lemma StepKeepsInv(n: nat, w: Wizard, e: Event)
    requires Inv(n, w)
    ensures Inv(n, Step(n, w, e))
  {
  }

  /** The state after a sequence of events. */
  function Run(n: nat, w: Wizard, events: seq<Event>): (r: Wizard)
    requires Inv(n, w)
    ensures Inv(n, r)
    decreases |events|
  {
    if |events| == 0 then w
    else
      StepKeepsInv(n, w, events[0]);
      Run(n, Step(n, w, events[0]), events[1..])
  }

  /** From the loaded page, any sequence of clicks (with any radio states,
      which the visitor may change between clicks) and replies keeps
      `currentStep` within the form's steps. */
  lemma StepAlwaysInRange(n: nat, events: seq<Event>)
    requires n >= 1
    ensures Inv(n, Init())
    ensures Run(n, Init(), events).step < n
  {
  }

  /** A visitor blocked on a step with an unchecked radio group, who then
      checks an option and clicks again, moves on. */
  lemma CheckingUnblocks(n: nat, w: Wizard, a: Answers)
    requires Inv(n, w) && w.request == Idle && w.step + 1 < n
    ensures Next(n, FormStep([false, false]), a, w) == w
    ensures Next(n, FormStep([false, true]), a, w).step == w.step + 1
  {
  }

  /** Pressing Back during a pending request that then fails leaves the
      button reading "Submit Request" on a step that is not the last: the
      label no longer tells whether the next click submits. */
  lemma StaleSubmitLabel()
    ensures var a := Answers(None, None, None, None);
      var events := [ClickNext(FormStep([]), a), ClickNext(FormStep([]), a), ClickPrev, Reply(NetworkError)];
      var w := Run(2, Init(), events);
      w.step == 0 && w.nextLabel == SubmitLabel && w.request == Idle
  {
    var a := Answers(None, None, None, None);
    var w1 := Next(2, FormStep([]), a, Init());
    var w2 := Next(2, FormStep([]), a, w1);
    var w3 := Prev(w2);
    var w4 := Settle(w3, NetworkError);
    assert w4.step == 0 && w4.nextLabel == SubmitLabel;
    var events := [ClickNext(FormStep([]), a), ClickNext(FormStep([]), a), ClickPrev, Reply(NetworkError)];
    assert events[1..] == [ClickNext(FormStep([]), a), ClickPrev, Reply(NetworkError)];
    assert events[1..][1..] == [ClickPrev, Reply(NetworkError)];
    assert events[1..][1..][1..] == [Reply(NetworkError)];
    assert Run(2, w3, events[1..][1..][1..]) == Run(2, w4, []);
    assert Run(2, w2, events[1..][1..]) == Run(2, w3, events[1..][1..][1..]);
    assert Run(2, w1, events[1..]) == Run(2, w2, events[1..][1..]);
    assert Run(2, Init(), events) == Run(2, w1, events[1..]);
  }

  // ---------------------------------------------------------------------
  // The view derived from the step.
  // ---------------------------------------------------------------------

  /** `updateFormSteps`: the `active-step` flag of each form step. */
  function FormStepFlags(n: nat, step: nat): (flags: seq<bool>)
    ensures |flags| == n
  {
    seq(n, i => i == step)
  }

  /** `updateProgressbar`: the `active` flag of each progress indicator. */
  function ProgressFlags(n: nat, step: nat): (flags: seq<bool>)
    ensures |flags| == n
  {
    seq(n, i => i < step + 1)
  }

  function Repeat(b: bool, k: nat): (r: seq<bool>)
    ensures |r| == k && forall i :: 0 <= i < k ==> r[i] == b
  {
    seq(k, _ => b)
  }

  function CountTrue(flags: seq<bool>): nat {
    if |flags| == 0 then 0 else (if flags[0] then 1 else 0) + CountTrue(flags[1..])
  }

  lemma {:induction false} CountTrueAppend(a: seq<bool>, b: seq<bool>)
    ensures CountTrue(a + b) == CountTrue(a) + CountTrue(b)
    decreases |a|
  {
    if |a| > 0 {
      assert (a + b)[1..] == a[1..] + b;
      CountTrueAppend(a[1..], b);
    } else {
      assert a + b == b;
    }
  }

  lemma {:induction false} CountTrueRepeat(b: bool, k: nat)
    ensures CountTrue(Repeat(b, k)) == if b then k else 0
    decreases k
  {
    if k > 0 {
      assert Repeat(b, k)[1..] == Repeat(b, k - 1);
      CountTrueRepeat(b, k - 1);
    }
  }

  /** Exactly one form step is active, the current one, with every step
      before and after it inactive. */
  lemma ExactlyOneActiveStep(n: nat, step: nat)
    requires step < n
    ensures FormStepFlags(n, step) == Repeat(false, step) + [true] + Repeat(false, n - step - 1)
    ensures CountTrue(FormStepFlags(n, step)) == 1
  {
    var f := Repeat(false, step) + [true] + Repeat(false, n - step - 1);
    assert FormStepFlags(n, step) == f;
    CountTrueAppend(Repeat(false, step) + [true], Repeat(false, n - step - 1));
    CountTrueAppend(Repeat(false, step), [true]);
    CountTrueRepeat(false, step);
    CountTrueRepeat(false, n - step - 1);
  }

  /** The active progress indicators form a prefix: the first `step + 1`
      are active (all of them, if there are fewer) and the rest are not. The
      indicators are a list of their own, so `n` need not exceed `step`. */
  lemma ProgressIsPrefix(n: nat, step: nat)
    ensures var m := Min(step + 1, n);
      && ProgressFlags(n, step) == Repeat(true, m) + Repeat(false, n - m)
      && CountTrue(ProgressFlags(n, step)) == m
  {
    var m := Min(step + 1, n);
    assert ProgressFlags(n, step) == Repeat(true, m) + Repeat(false, n - m);
    CountTrueAppend(Repeat(true, m), Repeat(false, n - m));
    CountTrueRepeat(true, m);
    CountTrueRepeat(false, n - m);
  }
}
