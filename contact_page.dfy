/** The contact page component: it owns the step counter and the form
    record, and its event handlers overwrite them one call at a time. */
module ContactPage {
  import opened ContactForm
  import opened ContactSteps
  import opened ContactReach

  /** The message the page acknowledges a submission with. */
  const Acknowledgement: string := "Thank you! We’ll get in touch soon."

  class Page {
    var step: int
    var form: Form

    /** The step counter and the form record taken together. */
    function State(): Wizard
      reads this
    {
      Wizard(step, form)
    }

    /** Mounting: step 1 and every field empty. */
    constructor ()
      ensures step == FirstStep && form == EmptyForm
      ensures State() == Initial && Consistent(State())
    {
      step := FirstStep;
      form := EmptyForm;
    }

    /** `handleChange`: replaces one field of the record; the step is left as it was. */
    method HandleChange(f: Field, v: string)
      modifies this`form
      ensures form == Update(old(form), f, v)
      ensures FieldOf(form, f) == v
      ensures forall g :: g != f ==> FieldOf(form, g) == FieldOf(old(form), g)
      ensures State() == Apply(old(State()), Edit(f, v))
    {
      form := Update(form, f, v);
    }

    /** `next`: one step on, but never past the last. */
    method Next()
      modifies this`step
      ensures step == NextStep(old(step))
      ensures old(OnStep(step)) ==> OnStep(step)
      ensures old(step) < LastStep ==> step == old(step) + 1
      ensures old(step) >= LastStep ==> step == LastStep
      ensures State() == Apply(old(State()), Continue)
    {
      step := NextStep(step);
    }

    /** `prev`: one step back, but never before the first; no field is cleared. */
    method Prev()
      modifies this`step
      ensures step == PrevStep(old(step))
      ensures old(OnStep(step)) ==> OnStep(step)
      ensures old(step) > FirstStep ==> step == old(step) - 1
      ensures old(step) <= FirstStep ==> step == FirstStep
      ensures State() == Apply(old(State()), Back)
    {
      step := PrevStep(step);
    }

    /** `submitForm`: changes no state and answers with the acknowledgement. */
    method Submit() returns (message: string)
      ensures message == Acknowledgement
    {
      message := Acknowledgement;
    }

    /** Whether the Continue button of the current step is enabled. */
    predicate CanAdvance()
      reads this
      ensures CanAdvance() <==>
                (step == 1 && form.name != "")
                || (step == 2 && form.service != "")
                || (step == 3 && form.budget != "")
    {
      ContactSteps.CanAdvance(State())
    }

    /** Whether the Submit button of the last step is enabled. */
    predicate CanSubmit()
      reads this
      ensures CanSubmit() <==> step == LastStep && form.contact != ""
    {
      ContactSteps.CanSubmit(State())
    }

    /** The Continue button as a visitor can press it: `next` runs only when it is enabled. */
    method GatedNext()
      modifies this`step
      ensures old(CanAdvance()) ==> step == old(step) + 1
      ensures !old(CanAdvance()) ==> step == old(step)
      ensures State() == Deliver(old(State()), Continue)
    {
      if CanAdvance() {
        Next();
      }
    }

    /** Any visitor action: the handler behind an enabled, rendered control runs, and
        a disabled or absent control does nothing. What a visitor can do keeps the
        page consistent. */
    method Press(e: Event) returns (message: string)
      modifies this
      ensures State() == Deliver(old(State()), e)
      ensures old(Consistent(State())) ==> Consistent(State())
      ensures message == (if e.Submit? && old(CanSubmit()) then Acknowledgement else "")
    {
      message := "";
      if Enabled(State(), e) {
        match e
        case Edit(f, v) => HandleChange(f, v);
        case Continue => Next();
        case Back => Prev();
        case Submit => message := Submit();
      }
      if old(Consistent(State())) {
        DeliverKeepsConsistent(old(State()), e);
      }
    }
  }
}
