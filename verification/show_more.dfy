/** The "show more" panel of the work section: a container of extra jobs
    (`hidden-jobs`, collapsed while it carries `is-hidden`) with one button
    above it and one below it. A button is hidden while it carries
    `is-initially-hidden`. Either button toggles the container; collapsing
    hides the bottom button at once, but the top button only reappears when
    the container's `max-height` transition ends, which a one-shot
    `transitionend` listener detects. */
module ShowMore {
  import opened Optional

  /** What a `transitionend` event can target: the container itself, or one of
      its descendants whose event bubbled up to it */
  datatype Target = HiddenJobs | Descendant(id: nat)

  datatype TransitionEnd = TransitionEnd(target: Target, propertyName: string)

  /** The controller's state: the three class flags, and the number of
      `transitionend` listeners registered on the container and not yet
      removed. */
  datatype Controller = Controller(
    jobsHidden: bool,
    topHidden: bool,
    bottomHidden: bool,
    pending: nat)

  datatype Button = Top | Bottom

  predicate Visible(c: Controller, b: Button)
  {
    match b
    case Top => !c.topHidden
    case Bottom => !c.bottomHidden
  }

  // ---------------------------------------------------------------------------
  // Initialisation
  // ---------------------------------------------------------------------------

  /** The markup the controller starts from: each element, when present, with
      its class flag (`is-initially-hidden` for the buttons, `is-hidden` for the
      container). */
  datatype Markup = Markup(top: Option<bool>, bottom: Option<bool>, jobs: Option<bool>)

  /** The page after initialisation, and the controller when one was installed */
  datatype Setup = Setup(page: Markup, controller: Option<Controller>)

  /** initShowMore: give up, touching nothing, when an element is missing;
      otherwise show exactly the button that matches the container's state,
      with no listener pending. */
  function Init(m: Markup): (r: Setup)
    ensures r.controller.None? <==> m.top.None? || m.bottom.None? || m.jobs.None?
    ensures r.controller.None? ==> r.page == m
    ensures r.controller.Some? ==>
      var c := r.controller.value;
      && c.jobsHidden == m.jobs.value
      && c.pending == 0
      && (Visible(c, Top) <==> c.jobsHidden)
      && (Visible(c, Bottom) <==> !c.jobsHidden)
      && r.page == Markup(Some(c.topHidden), Some(c.bottomHidden), Some(c.jobsHidden))
  {
    if m.top.None? || m.bottom.None? || m.jobs.None? then
      Setup(m, None)
    else
      var hidden := m.jobs.value;
      var c := Controller(hidden, !hidden, hidden, 0);
      Setup(Markup(Some(c.topHidden), Some(c.bottomHidden), Some(c.jobsHidden)), Some(c))
  }

  // ---------------------------------------------------------------------------
  // Toggling
  // ---------------------------------------------------------------------------

  /** toggleJobs, run by a click on either button. Revealing is immediate;
      collapsing hides the bottom button, leaves the top one as it is, and
      registers one more `transitionend` listener. */
  function Toggle(c: Controller): (r: Controller)
    ensures c.jobsHidden ==>
      && !r.jobsHidden
      && !Visible(r, Top) && Visible(r, Bottom)
      && r.pending == c.pending
    ensures !c.jobsHidden ==>
      && r.jobsHidden
      && !Visible(r, Bottom)
      && r.topHidden == c.topHidden
      && r.pending == c.pending + 1
  {
    if c.jobsHidden then
      c.(jobsHidden := false, topHidden := true, bottomHidden := false)
    else
      c.(jobsHidden := true, bottomHidden := true, pending := c.pending + 1)
  }

  // ---------------------------------------------------------------------------
  // transitionend
  // ---------------------------------------------------------------------------

  /** The only event the listener acts on: the end of the container's own
      `max-height` transition */
  predicate Completes(ev: TransitionEnd)
  {
    ev.target == HiddenJobs && ev.propertyName == "max-height"
  }

  /** One registered onTransitionEnd listener handling `ev`: ignore anything
      but the container's `max-height`; otherwise show the top button and
      remove itself. */
  function RunListener(c: Controller, ev: TransitionEnd): (r: Controller)
    requires c.pending > 0
    ensures !Completes(ev) ==> r == c
    ensures Completes(ev) ==> r == c.(topHidden := false, pending := c.pending - 1)
  {
    if !Completes(ev) then c
    else c.(topHidden := false, pending := c.pending - 1)
  }

  /** The first `n` registered listeners handling `ev` in registration order.
      Each listener removes only itself, so every listener registered when the
      event is dispatched runs. */
  function RunListeners(c: Controller, ev: TransitionEnd, n: nat): (r: Controller)
    requires n <= c.pending
    ensures !Completes(ev) || n == 0 ==> r == c
    ensures Completes(ev) && n > 0 ==> r == c.(topHidden := false, pending := c.pending - n)
    decreases n
  {
    if n == 0 then c else RunListeners(RunListener(c, ev), ev, n - 1)
  }

  /** A `transitionend` reaching the container, handled by every pending
      listener */
  function OnTransitionEnd(c: Controller, ev: TransitionEnd): (r: Controller)
    ensures !Completes(ev) || c.pending == 0 ==> r == c
    ensures Completes(ev) && c.pending > 0 ==>
      && Visible(r, Top)
      && r.pending == 0
      && r.jobsHidden == c.jobsHidden
      && r.bottomHidden == c.bottomHidden
  {
    RunListeners(c, ev, c.pending)
  }

  // ---------------------------------------------------------------------------
  // Runs of events
  // ---------------------------------------------------------------------------

  datatype Event = Click(button: Button) | Transition(ev: TransitionEnd)

  function Step(c: Controller, e: Event): Controller
  {
    match e
    case Click(_) => Toggle(c)
    case Transition(ev) => OnTransitionEnd(c, ev)
  }

  function Run(c: Controller, events: seq<Event>): Controller
    decreases |events|
  {
    if |events| == 0 then c else Run(Step(c, events[0]), events[1..])
  }

  /** Every click in the run lands on a button visible at that moment. A
      button carrying `is-initially-hidden` is styled out of view, so a user
      cannot click it; the script itself does not check. */
  predicate ClicksVisible(c: Controller, events: seq<Event>)
    decreases |events|
  {
    |events| == 0 ||
    ((events[0].Click? ==> Visible(c, events[0].button))
     && ClicksVisible(Step(c, events[0]), events[1..]))
  }

  /** The states a user can reach: at rest, exactly one button is visible, the
      top one exactly when the container is collapsed; while a collapse is
      under way, no button is visible and one listener waits. */
  predicate Steady(c: Controller)
  {
    || (c.pending == 0 && (Visible(c, Top) <==> c.jobsHidden) && (Visible(c, Bottom) <==> !c.jobsHidden))
    || (c.pending == 1 && c.jobsHidden && !Visible(c, Top) && !Visible(c, Bottom))
  }

  /** Initialisation starts in a steady state. */
  lemma InitSteady(m: Markup)
    requires Init(m).controller.Some?
    ensures Steady(Init(m).controller.value)
  {
  }

  /** A click on a visible button, or any `transitionend`, keeps the state
      steady. */
  lemma StepKeepsSteady(c: Controller, e: Event)
    requires Steady(c)
    requires e.Click? ==> Visible(c, e.button)
    ensures Steady(Step(c, e))
  {
  }

  /** Along any run whose clicks land on visible buttons the state stays
      steady: at most one button is ever visible and at most one listener is
      ever pending. */
  lemma {:induction false} RunKeepsSteady(c: Controller, events: seq<Event>)
    requires Steady(c)
    requires ClicksVisible(c, events)
    ensures Steady(Run(c, events))
    ensures Run(c, events).pending <= 1
    ensures !(Visible(Run(c, events), Top) && Visible(Run(c, events), Bottom))
    decreases |events|
  {
    if |events| > 0 {
      StepKeepsSteady(c, events[0]);
      RunKeepsSteady(Step(c, events[0]), events[1..]);
    }
  }

  /** The script alone does not bound the listeners: toggling three times
      before any transition ends, which takes a click on the hidden top
      button, leaves two listeners pending, and the end of the next
      `max-height` transition runs, and removes, both. */
  lemma ListenersAccumulate(c: Controller, ev: TransitionEnd)
    requires Steady(c) && !c.jobsHidden && c.pending == 0
    requires Completes(ev)
    ensures !ClicksVisible(c, [Click(Bottom), Click(Top), Click(Bottom)])
    ensures Run(c, [Click(Bottom), Click(Top), Click(Bottom)]).pending == 2
    ensures Run(c, [Click(Bottom), Click(Top), Click(Bottom), Transition(ev)]).pending == 0
  {
    var c1 := Toggle(c);
    var c2 := Toggle(c1);
    var c3 := Toggle(c2);
    RunOne(c3, Click(Bottom));
    RunCons(c2, Click(Bottom), []);
    RunCons(c1, Click(Top), [Click(Bottom)]);
    RunCons(c, Click(Bottom), [Click(Top), Click(Bottom)]);
    RunOne(c3, Transition(ev));
    RunCons(c2, Click(Bottom), [Transition(ev)]);
    RunCons(c1, Click(Top), [Click(Bottom), Transition(ev)]);
    RunCons(c, Click(Bottom), [Click(Top), Click(Bottom), Transition(ev)]);
    assert !Visible(c1, Top);
    assert [Click(Bottom), Click(Top), Click(Bottom)][1..] == [Click(Top), Click(Bottom)];
  }

  lemma RunCons(c: Controller, e: Event, rest: seq<Event>)
    ensures Run(c, [e] + rest) == Run(Step(c, e), rest)
  {
    assert ([e] + rest)[1..] == rest;
  }

  lemma RunOne(c: Controller, e: Event)
    ensures Run(c, [e]) == Step(c, e)
  {
    RunCons(c, e, []);
    assert [e] + [] == [e];
  }

  /** Without the visible-click assumption both buttons can end up visible: a
      click during a collapse re-expands the container while the collapse's
      listener is still registered, and the end of the expanding `max-height`
      transition then shows the top button next to the bottom one. */
  lemma HiddenClickShowsBothButtons(c: Controller, ev: TransitionEnd)
    requires Steady(c) && !c.jobsHidden
    requires Completes(ev)
    ensures !ClicksVisible(c, [Click(Bottom), Click(Top)])
    ensures var r := Run(c, [Click(Bottom), Click(Top), Transition(ev)]);
            !r.jobsHidden && Visible(r, Top) && Visible(r, Bottom) && !Steady(r)
  {
    var c1 := Toggle(c);
    assert !Visible(c1, Top);
    RunOne(Toggle(c1), Transition(ev));
    RunCons(c1, Click(Top), [Transition(ev)]);
    RunCons(c, Click(Bottom), [Click(Top), Transition(ev)]);
    assert [Click(Bottom), Click(Top)][1..] == [Click(Top)];
  }
}
