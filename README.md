# Contact wizard of the webcrafts studio website

The contact page (`src/app/contact/page.tsx`) is a four-step wizard. Step 1 asks
for a name, step 2 for a service, step 3 for a budget range and step 4 for a way
to reach the visitor. The page keeps a step counter that starts at 1 and a form
record of four strings that start empty. Its handlers are `handleChange`, `next`,
`prev` and `submitForm`. Each step's Continue button, and the Submit button of
step 4, is disabled while that step's field is the empty string. A row of four
indicator bars highlights the current step.

The model has four modules:

- `ContactForm` (`contact_form.dfy`) is the form record and the
  `{...form, [field]: value}` update, as values.
- `ContactSteps` (`contact_steps.dfy`) is the pure part. It holds the
  `Math.min`/`Math.max` step arithmetic, the handlers as state transitions, the
  `disabled` gates, the indicator rule and the visitor's actions on the rendered
  page. `Deliver` applies one such action: an enabled control runs its handler,
  and a disabled or absent control does nothing. `Run` applies a sequence of
  actions.
- `ContactReach` (`contact_reach.dfy`) proves exactly which states a visitor can
  reach from the freshly mounted page, assuming every action lands on the step
  currently shown (see "## Left out" for the exit animation, where that may not
  hold). Every step already passed has its answer.
  The service and the budget are either empty or one of their offered options.
  The name and the contact never contain a line break, because a text input
  strips line feeds and carriage returns from its value.
  A budget implies a service, and a contact implies a budget. As a consequence,
  whenever Submit is enabled all four answers are present.
- `ContactPage` (`contact_page.dfy`) is the component as a class. Its fields are
  `step` and `form`. `HandleChange`, `Next`, `Prev` and `Submit` overwrite the
  fields as the React setters do. `GatedNext` and `Press` are the controls as a
  visitor can actually use them.

The model follows the code in three places where a looser description of the
wizard might differ:

- Steps are numbered 1 to 4, not from 0.
- `next` itself is not gated. The gate is the button's `disabled` attribute,
  modelled separately by `Enabled`.
- Submitting leads to no "submitted" state. `submitForm` changes nothing and only
  shows an acknowledgement.

## Model

| member | source | states |
|---|---|---|
| ContactForm.Update | src/app/contact/page.tsx:15-16 | the updated record holds `v` in field `f`, and every other field keeps its old value |
| ContactForm.UpdateIdempotent | src/app/contact/page.tsx:15-16 | making the same change twice gives the same record as making it once |
| ContactForm.UpdateWithCurrentValue | src/app/contact/page.tsx:15-16 | writing a field's current value back leaves the record unchanged |
| ContactForm.Filled | src/app/contact/page.tsx:61 | a string is truthy (an answer) iff its length is positive |
| ContactForm.SpaceIsFilled | src/app/contact/page.tsx:61 | a lone space counts as an answer and only `""` counts as empty (no trimming) |
| ContactSteps.NextStep | src/app/contact/page.tsx:18 | the result is the minimum of `s + 1` and 4 |
| ContactSteps.PrevStep | src/app/contact/page.tsx:19 | the result is the maximum of `s - 1` and 1 |
| ContactSteps.NextStepMoves | src/app/contact/page.tsx:18 | on steps 1..4, `next` raises the step by exactly 1 below 4, is a no-op at 4, and stays within 1..4 |
| ContactSteps.PrevStepMoves | src/app/contact/page.tsx:19 | on steps 1..4, `prev` lowers the step by exactly 1 above 1, is a no-op at 1, and stays within 1..4 |
| ContactSteps.StepRoundTrips | src/app/contact/page.tsx:18-19 | `prev` undoes `next` below step 4, and `next` undoes `prev` above step 1 |
| ContactSteps.StepField | src/app/contact/page.tsx:42-198 | steps 1, 2, 3 and 4 show exactly the name, service, budget and contact field |
| ContactSteps.Apply | src/app/contact/page.tsx:15-24 | each handler keeps the step within 1..4 and changes at most one of step and form |
| ContactSteps.ApplyFrames | src/app/contact/page.tsx:15-24 | `handleChange` keeps the step and changes only its field; `next` and `prev` keep the form; `submitForm` changes nothing |
| ContactSteps.HandlersKeepStepInRange | src/app/contact/page.tsx:7-24 | from a step in 1..4, any sequence of ungated handler calls leaves the step in 1..4 |
| ContactSteps.CanAdvance | src/app/contact/page.tsx:59-148 | Continue is enabled iff on step 1 with a name, on step 2 with a service, or on step 3 with a budget (`disabled` at lines 61, 105, 148) |
| ContactSteps.CanSubmit | src/app/contact/page.tsx:187-191 | Submit is enabled iff on step 4 with a non-empty contact, and then no Continue is enabled |
| ContactSteps.Enabled | src/app/contact/page.tsx:43-198 | a control acts only on steps 1..4; only the shown field can be edited (inputs at 55 and 175, option buttons at 80-94 and 125-137); option buttons never write `""`; Back exists exactly on steps 2, 3 and 4 (lines 97-102, 140-145, 180-186) |
| ContactSteps.Deliver | src/app/contact/page.tsx:43-198 | a visitor action keeps the step within 1..4 and changes at most one of step and form |
| ContactSteps.EditsOnlyShownField | src/app/contact/page.tsx:52-175 | an edit of a field the current step does not show, of a choice that is not offered, or of text with a line break, changes nothing; an edit of the shown field with an allowed value runs `handleChange` |
| ContactSteps.GatedContinue | src/app/contact/page.tsx:59-152 | pressing Continue moves exactly one step on when its gate is open, and otherwise changes nothing |
| ContactSteps.BackUndoesContinue | src/app/contact/page.tsx:96-110 | after an enabled Continue, Back restores the step and every field exactly |
| ContactSteps.SubmitKeepsState | src/app/contact/page.tsx:21-24 | pressing Submit leaves the step and the form as they were |
| ContactSteps.Indicators | src/app/contact/page.tsx:208-214 | there are exactly four indicator bars |
| ContactSteps.ExactlyOneIndicator | src/app/contact/page.tsx:208-214 | on each step 1..4 exactly one bar is highlighted, the one for the current step |
| ContactReach.DeliverKeepsConsistent | src/app/contact/page.tsx:42-198 | any visitor action keeps a consistent state consistent |
| ContactReach.RunKeepsConsistent | src/app/contact/page.tsx:42-198 | any sequence of visitor actions keeps a consistent state consistent |
| ContactReach.ReachableIsConsistent | src/app/contact/page.tsx:7-13 | every state reached from the mounted page is consistent |
| ContactReach.RunBacks | src/app/contact/page.tsx:96-101 | pressing Back `n` times from step `s` lands on step `s - n` without touching the form |
| ContactReach.RunWalk | src/app/contact/page.tsx:42-198 | answering each step and pressing Continue reaches step `d` with those answers |
| ContactReach.ConsistentIsReachable | src/app/contact/page.tsx:42-198 | every consistent state is reached by some sequence of visitor actions from the mounted page |
| ContactReach.WalkAndReturn | src/app/contact/page.tsx:42-198 | walking forward as far as the answers need and pressing Back down to the current step reproduces the state, apart from the name |
| ContactReach.RetypeName | src/app/contact/page.tsx:52-55 | on step 1 any single-line name edit sets the name; a name with a line break, or any name edit on steps 2..4, leaves the state unchanged |
| ContactReach.ReachableIffConsistent | src/app/contact/page.tsx:42-198 | a state is reachable iff it is consistent |
| ContactReach.SubmitOnlyWhenComplete | src/app/contact/page.tsx:158-195 | whenever Submit is enabled, the name and contact are non-empty single-line text and the service and budget are offered options |
| ContactReach.CompleteIsSubmittable | src/app/contact/page.tsx:158-195 | every complete set of answers can be brought to step 4 with Submit enabled |
| ContactReach.WalkThroughAllSteps | src/app/contact/page.tsx:42-198 | the example walk ("Ada", then an offered service, then an offered budget, then a contact) ends on step 4 with Submit enabled |
| ContactPage.Page.constructor | src/app/contact/page.tsx:7-13 | the page mounts on step 1 with all four fields empty, a consistent state |
| ContactPage.Page.HandleChange | src/app/contact/page.tsx:15-16 | field `f` becomes `v`, the other three fields keep their values, and the step is untouched |
| ContactPage.Page.Next | src/app/contact/page.tsx:18 | the step rises by one below 4 and stays at 4; the form is untouched |
| ContactPage.Page.Prev | src/app/contact/page.tsx:19 | the step drops by one above 1 and stays at 1; the form is untouched |
| ContactPage.Page.Submit | src/app/contact/page.tsx:21-24 | changes no state and returns the acknowledgement message |
| ContactPage.Page.CanAdvance | src/app/contact/page.tsx:59-148 | the page's Continue button is enabled iff the current step is 1, 2 or 3 and that step's field is non-empty |
| ContactPage.Page.CanSubmit | src/app/contact/page.tsx:187-191 | the page's Submit button is enabled iff the step is 4 and the contact is non-empty |
| ContactPage.Page.GatedNext | src/app/contact/page.tsx:59-65 | the step rises by exactly one when Continue is enabled, and nothing changes otherwise |
| ContactPage.Page.Press | src/app/contact/page.tsx:42-198 | a visitor action runs the handler of an enabled control and nothing else; it keeps the page consistent |

## Left out

- Browser I/O in `submitForm`. `e.preventDefault()` is not modelled. The `alert` dialog becomes the message that `Submit` returns.
- The field parameter of `handleChange`. The source takes any string as the field name; the model uses the four keys the page actually passes. An unknown key, which would add a fifth entry to the record, is not modelled.
- React's state batching and the stale `{...form}` closure. Each handler call is one atomic update of the current state.
- Implicit form submission with the Enter key in the contact input. HTML blocks it while the Submit button is disabled, so it is modelled as pressing Submit.
- Animation and transition props (`fade`, `whileInView`, `whileHover`). They affect timing and visuals only.
- The exit transition of `AnimatePresence mode="wait"` on the contact page (lines 26-30 and 41). The framer-motion library is not part of this model. If it keeps the outgoing step's markup mounted, with its old props, for the 0.6 s exit, then that step's controls stay clickable during the transition. A second Continue press on step 1 would then move step 2 on to step 3 with no service chosen, because `next` is a functional update. The model assumes each action lands on the step currently shown. `ContactReach.SubmitOnlyWhenComplete` and `ContactReach.ReachableIffConsistent` hold only under that assumption.
- The scroll-linked parallax values in `src/app/services/page.tsx` and `src/app/services/web-development/page.tsx`. They are floating-point interpolations computed by the framer-motion library, which is not part of this model, from browser layout.
- The rest of the site: declarative markup, the Navbar's open/closed toggle and the two-digit badge formatting. None of these has behaviour beyond rendering.
