/** The contact wizard as a pure state machine: the step counter, the
    handlers that change it, the `disabled` gates of the Continue and
    Submit controls, the step indicator, and the events a visitor can
    actually trigger on the rendered page. */
module ContactSteps {
  import opened ContactForm

  const FirstStep: int := 1
  const LastStep: int := 4

  /** Everything the page keeps: the step counter and the form record. */
  datatype Wizard = Wizard(step: int, form: Form)

  /** The wizard as it is mounted. */
  const Initial: Wizard := Wizard(FirstStep, EmptyForm)

  predicate OnStep(s: int) {
    FirstStep <= s <= LastStep
  }

  /** `Math.min(s + 1, 4)` */
  function NextStep(s: int): (r: int)
    ensures r <= s + 1 && r <= LastStep
    ensures r == s + 1 || r == LastStep
  {
    if s + 1 < LastStep then s + 1 else LastStep
  }

  /** `Math.max(s - 1, 1)` */
  function PrevStep(s: int): (r: int)
    ensures r >= s - 1 && r >= FirstStep
    ensures r == s - 1 || r == FirstStep
  {
    if s - 1 > FirstStep then s - 1 else FirstStep
  }

  /** Continue moves up by exactly one below the last step and nowhere from it. */
  lemma NextStepMoves(s: int)
    requires OnStep(s)
    ensures OnStep(NextStep(s))
    ensures s < LastStep ==> NextStep(s) == s + 1
    ensures s == LastStep ==> NextStep(s) == s
  {
  }

  /** Back moves down by exactly one above the first step and nowhere from it. */
  lemma PrevStepMoves(s: int)
    requires OnStep(s)
    ensures OnStep(PrevStep(s))
    ensures s > FirstStep ==> PrevStep(s) == s - 1
    ensures s == FirstStep ==> PrevStep(s) == s
  {
  }

  /** Back undoes Continue, and Continue undoes Back, wherever either moved. */
  lemma StepRoundTrips(s: int)
    ensures FirstStep <= s < LastStep ==> PrevStep(NextStep(s)) == s
    ensures FirstStep < s <= LastStep ==> NextStep(PrevStep(s)) == s
  {
  }

  /** The field whose input or option buttons each step shows. */
  function StepField(s: int): (f: Field)
    requires OnStep(s)
    ensures s == 1 <==> f == Name
    ensures s == 2 <==> f == Service
    ensures s == 3 <==> f == Budget
    ensures s == 4 <==> f == Contact
  {
    if s == 1 then Name else if s == 2 then Service else if s == 3 then Budget else Contact
  }

  // ---------------------------------------------------------------------
  // The handlers, ungated: what each does when it is called at all.

  /** The four handlers of the page, as they can be invoked. */
  datatype Event = Edit(field: Field, value: string) | Continue | Back | Submit

  /** The state after a handler runs: `handleChange`, `next`, `prev` or `submitForm`. */
  function Apply(w: Wizard, e: Event): (r: Wizard)
    ensures OnStep(w.step) ==> OnStep(r.step)
    ensures r.step == w.step || r.form == w.form
  {
    match e
    case Edit(f, v) => w.(form := Update(w.form, f, v))
    case Continue => w.(step := NextStep(w.step))
    case Back => w.(step := PrevStep(w.step))
    case Submit => w
  }

  /** Each handler touches only what it is meant to touch. */
  lemma ApplyFrames(w: Wizard, e: Event)
    ensures e.Edit? ==> Apply(w, e).step == w.step
    ensures e.Edit? ==> FieldOf(Apply(w, e).form, e.field) == e.value
    ensures e.Edit? ==> forall g :: g != e.field ==> FieldOf(Apply(w, e).form, g) == FieldOf(w.form, g)
    ensures !e.Edit? ==> Apply(w, e).form == w.form
    ensures e.Submit? ==> Apply(w, e) == w
  {
  }

  /** The handlers run one after another, none of them gated. */
  function ApplyAll(w: Wizard, es: seq<Event>): Wizard
    decreases |es|
  {
    if es == [] then w else ApplyAll(Apply(w, es[0]), es[1..])
  }

  /** Whatever order the handlers are called in, the step stays between 1 and 4. */
  lemma {:induction false} HandlersKeepStepInRange(w: Wizard, es: seq<Event>)
    requires OnStep(w.step)
    ensures OnStep(ApplyAll(w, es).step)
    decreases |es|
  {
    if es != [] {
      var w' := Apply(w, es[0]);
      assert OnStep(w'.step) by {
        match es[0]
        case Continue => NextStepMoves(w.step);
        case Back => PrevStepMoves(w.step);
        case _ =>
      }
      HandlersKeepStepInRange(w', es[1..]);
    }
  }

  // ---------------------------------------------------------------------
  // The controls as rendered: which of them exist and are enabled.

  /** `disabled={!form.name}`, `!form.service`, `!form.budget` on the three Continue buttons. */
  predicate CanAdvance(w: Wizard)
    ensures CanAdvance(w) <==>
              (w.step == 1 && w.form.name != "")
              || (w.step == 2 && w.form.service != "")
              || (w.step == 3 && w.form.budget != "")
  {
    FirstStep <= w.step < LastStep && Filled(FieldOf(w.form, StepField(w.step)))
  }

  /** `disabled={!form.contact}` on the Submit button of the last step. */
  predicate CanSubmit(w: Wizard)
    ensures CanSubmit(w) ==> !CanAdvance(w)
    ensures CanSubmit(w) <==> w.step == LastStep && |w.form.contact| > 0
  {
    w.step == LastStep && Filled(w.form.contact)
  }

  /** Name and contact are free single-line text; service and budget come from their option buttons. */
  predicate Offered(f: Field, v: string) {
    match f
    case Service => v in ServiceOptions
    case Budget => v in BudgetOptions
    case _ => SingleLine(v)
  }

  /** Whether the control for `e` is on screen and enabled. */
  predicate Enabled(w: Wizard, e: Event)
    ensures Enabled(w, e) ==> OnStep(w.step)
    ensures Enabled(w, e) && e.Edit? ==> e.field == StepField(w.step)
    ensures Enabled(w, e) && e.Edit? && (e.field == Service || e.field == Budget) ==> e.value != ""
    ensures e.Back? ==> (Enabled(w, e) <==> w.step in {2, 3, 4})
  {
    match e
    case Edit(f, v) => OnStep(w.step) && f == StepField(w.step) && Offered(f, v)
    case Continue => CanAdvance(w)
    case Back => FirstStep < w.step <= LastStep
    case Submit => CanSubmit(w)
  }

  /** A visitor's action: an enabled control runs its handler, a disabled or absent one does nothing. */
  function Deliver(w: Wizard, e: Event): (r: Wizard)
    ensures r.step == w.step || r.form == w.form
    ensures OnStep(w.step) ==> OnStep(r.step)
  {
    if Enabled(w, e) then Apply(w, e) else w
  }

  /** The state after a sequence of visitor actions. */
  function Run(w: Wizard, es: seq<Event>): Wizard
    decreases |es|
  {
    if es == [] then w else Deliver(Run(w, es[..|es| - 1]), es[|es| - 1])
  }

  /** Typing into a field that is not shown, or choosing a value that is not offered, does
      nothing; editing the shown field with an allowed value runs `handleChange`. */
  lemma EditsOnlyShownField(w: Wizard, f: Field, v: string)
    requires OnStep(w.step)
    ensures f != StepField(w.step) || !Offered(f, v) ==> Deliver(w, Edit(f, v)) == w
    ensures f == StepField(w.step) && Offered(f, v) ==> Deliver(w, Edit(f, v)) == Apply(w, Edit(f, v))
  {
  }

  lemma RunSnoc(w: Wizard, es: seq<Event>, e: Event)
    ensures Run(w, es + [e]) == Deliver(Run(w, es), e)
  {
    assert (es + [e])[..|es|] == es;
  }

  /** Pressing Continue moves exactly one step on when its gate is open and changes nothing otherwise. */
  lemma GatedContinue(w: Wizard)
    requires OnStep(w.step)
    ensures CanAdvance(w) ==> Deliver(w, Continue) == w.(step := w.step + 1)
    ensures !CanAdvance(w) ==> Deliver(w, Continue) == w
  {
  }

  /** Back never clears data: Continue followed by Back restores the wizard exactly. */
  lemma BackUndoesContinue(w: Wizard)
    requires CanAdvance(w)
    ensures Deliver(Deliver(w, Continue), Back) == w
  {
    GatedContinue(w);
  }

  /** Pressing Submit changes nothing, enabled or not. */
  lemma SubmitKeepsState(w: Wizard)
    ensures Deliver(w, Submit) == w
  {
  }

  // ---------------------------------------------------------------------
  // The step indicator.

  /** The four indicator bars: bar `i` (1..4) is highlighted when `step === i`. */
  function Indicators(s: int): (bars: seq<bool>)
    ensures |bars| == LastStep
  {
    seq(LastStep, k => s == k + 1)
  }

  function CountLit(bars: seq<bool>): nat
    decreases |bars|
  {
    if bars == [] then 0 else (if bars[0] then 1 else 0) + CountLit(bars[1..])
  }

  lemma {:induction false} CountLitNone(bars: seq<bool>)
    requires forall k :: 0 <= k < |bars| ==> !bars[k]
    ensures CountLit(bars) == 0
    decreases |bars|
  {
    if bars != [] {
      CountLitNone(bars[1..]);
    }
  }

  lemma {:induction false} CountLitOne(bars: seq<bool>, j: nat)
    requires j < |bars| && bars[j]
    requires forall k :: 0 <= k < |bars| && k != j ==> !bars[k]
    ensures CountLit(bars) == 1
    decreases |bars|
  {
    if j == 0 {
      CountLitNone(bars[1..]);
    } else {
      CountLitOne(bars[1..], j - 1);
    }
  }

  /** On every step exactly one bar is lit, the one for the current step. */
  lemma ExactlyOneIndicator(s: int)
    requires OnStep(s)
    ensures Indicators(s)[s - 1]
    ensures CountLit(Indicators(s)) == 1
  {
    CountLitOne(Indicators(s), s - 1);
  }
}
