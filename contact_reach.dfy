/** Which states a visitor can bring the contact page into by using its
    controls, starting from the freshly mounted page. Each step shows
    only its own field and Continue is gated on that field, so, as long
    as every action lands on the step currently shown, the reachable
    states are exactly those described by `Consistent`. Controls of a
    step that is still animating out are not part of this model. */
module ContactReach {
  import opened ContactForm
  import opened ContactSteps

  /** A choice field is either still unanswered or holds one of its offered options. */
  predicate Chosen(v: string, options: seq<string>) {
    v == "" || v in options
  }

  predicate Consistent(w: Wizard) {
    && OnStep(w.step)
    // every step already passed has its answer
    && (w.step > 1 ==> Filled(w.form.name))
    && (w.step > 2 ==> Filled(w.form.service))
    && (w.step > 3 ==> Filled(w.form.budget))
    // the option buttons can only choose offered values
    && Chosen(w.form.service, ServiceOptions)
    && Chosen(w.form.budget, BudgetOptions)
    // the two text inputs never hold a line break
    && SingleLine(w.form.name)
    && SingleLine(w.form.contact)
    // a later answer means the earlier choice was made, and choices cannot be emptied
    && (Filled(w.form.budget) ==> Filled(w.form.service))
    && (Filled(w.form.contact) ==> Filled(w.form.budget))
  }

  ghost predicate Reachable(w: Wizard) {
    exists es :: Run(Initial, es) == w
  }

  /** Everything needed to submit: a name, an offered service and budget, and a contact. */
  predicate Complete(r: Form) {
    && Filled(r.name) && SingleLine(r.name)
    && r.service in ServiceOptions && r.budget in BudgetOptions
    && Filled(r.contact) && SingleLine(r.contact)
  }

  lemma DeliverKeepsConsistent(w: Wizard, e: Event)
    requires Consistent(w)
    ensures Consistent(Deliver(w, e))
  {
  }

  /** Soundness: every sequence of visitor actions ends in a consistent state. */
  lemma {:induction false} RunKeepsConsistent(w: Wizard, es: seq<Event>)
    requires Consistent(w)
    ensures Consistent(Run(w, es))
    decreases |es|
  {
    if es != [] {
      RunKeepsConsistent(w, es[..|es| - 1]);
      DeliverKeepsConsistent(Run(w, es[..|es| - 1]), es[|es| - 1]);
    }
  }

  lemma ReachableIsConsistent(w: Wizard)
    requires Reachable(w)
    ensures Consistent(w)
  {
    var es :| Run(Initial, es) == w;
    RunKeepsConsistent(Initial, es);
  }

  /** The Back button pressed `n` times. */
  function Backs(n: nat): (es: seq<Event>)
    ensures |es| == n && forall k :: 0 <= k < n ==> es[k] == Back
  {
    if n == 0 then [] else Backs(n - 1) + [Back]
  }

  /** Pressing Back `n` times from step `s` lands on step `s - n`, with the form untouched. */
  lemma {:induction false} RunBacks(w: Wizard, n: nat)
    requires OnStep(w.step) && OnStep(w.step - n)
    ensures Run(w, Backs(n)) == w.(step := w.step - n)
    decreases n
  {
    if n > 0 {
      RunBacks(w, n - 1);
      RunSnoc(w, Backs(n - 1), Back);
    }
  }

  /** The furthest step a visitor must have visited to have answered what `r` holds. */
  function Depth(r: Form): int {
    if Filled(r.contact) then 4
    else if Filled(r.budget) then 3
    else if Filled(r.service) then 2
    else 1
  }

  function Max(a: int, b: int): int {
    if a < b then b else a
  }

  /** Walks forward to step `d`, answering each step with the value from `r`, except that a
      name is needed to pass step 1 and `nm` is used for it. */
  function Walk(r: Form, nm: string, d: int): seq<Event> {
    [Edit(Name, nm)]
    + (if d >= 2 then [Continue, Edit(Service, r.service)] else [])
    + (if d >= 3 then [Continue, Edit(Budget, r.budget)] else [])
    + (if d >= 4 then [Continue, Edit(Contact, r.contact)] else [])
  }

  /** Running the walk leaves the visitor on step `d` with `nm` as name and the other
      fields as in `r`. */
  lemma RunWalk(r: Form, nm: string, d: int)
    requires OnStep(d)
    requires d >= 2 ==> Filled(nm)
    requires d >= 3 ==> Filled(r.service)
    requires d >= 4 ==> Filled(r.budget)
    requires d < 2 ==> r.service == ""
    requires d < 3 ==> r.budget == ""
    requires d < 4 ==> r.contact == ""
    requires Chosen(r.service, ServiceOptions) && Chosen(r.budget, BudgetOptions)
    requires SingleLine(nm) && SingleLine(r.contact)
    ensures Run(Initial, Walk(r, nm, d)) == Wizard(d, r.(name := nm))
  {
    var e1 := [Edit(Name, nm)];
    var w1 := Wizard(1, EmptyForm.(name := nm));
    assert Run(Initial, e1) == w1 by { RunSnoc(Initial, [], Edit(Name, nm)); }
    if d == 1 {
      assert Walk(r, nm, d) == e1;
      assert r.(name := nm) == w1.form;
      return;
    }
    var e2 := e1 + [Continue] + [Edit(Service, r.service)];
    var w2 := Wizard(2, EmptyForm.(name := nm, service := r.service));
    RunSnoc(Initial, e1, Continue);
    RunSnoc(Initial, e1 + [Continue], Edit(Service, r.service));
    assert Run(Initial, e2) == w2;
    if d == 2 {
      assert Walk(r, nm, d) == e2;
      return;
    }
    var e3 := e2 + [Continue] + [Edit(Budget, r.budget)];
    var w3 := Wizard(3, EmptyForm.(name := nm, service := r.service, budget := r.budget));
    RunSnoc(Initial, e2, Continue);
    RunSnoc(Initial, e2 + [Continue], Edit(Budget, r.budget));
    assert Run(Initial, e3) == w3;
    if d == 3 {
      assert Walk(r, nm, d) == e3;
      return;
    }
    var e4 := e3 + [Continue] + [Edit(Contact, r.contact)];
    RunSnoc(Initial, e3, Continue);
    RunSnoc(Initial, e3 + [Continue], Edit(Contact, r.contact));
    assert Walk(r, nm, d) == e4;
  }

  /** Completeness: every consistent state is reached by some sequence of visitor actions:
      walk forward as far as the answers require, press Back down to the step, then retype
      the name (which only takes effect when that step is the first). */
  lemma ConsistentIsReachable(w: Wizard)
    requires Consistent(w)
    ensures Reachable(w)
  {
    var d := Max(w.step, Depth(w.form));
    var nm := if Filled(w.form.name) then w.form.name else "-";
    var back := Walk(w.form, nm, d) + Backs(d - w.step);
    WalkAndReturn(w, nm, d);
    var es := back + [Edit(Name, w.form.name)];
    RunSnoc(Initial, back, Edit(Name, w.form.name));
    RetypeName(w, nm);
    assert Run(Initial, es) == w;
  }

  /** Walking forward to step `d` and pressing Back down to the step of `w` reproduces `w`,
      except for the name, which is `nm`. */
  lemma WalkAndReturn(w: Wizard, nm: string, d: int)
    requires Consistent(w)
    requires d == Max(w.step, Depth(w.form))
    requires nm == if Filled(w.form.name) then w.form.name else "-"
    ensures Run(Initial, Walk(w.form, nm, d) + Backs(d - w.step)) == w.(form := w.form.(name := nm))
  {
    var r := w.form;
    var top := Wizard(d, r.(name := nm));
    assert Run(Initial, Walk(r, nm, d)) == top by {
      RunWalk(r, nm, d);
    }
    assert Run(top, Backs(d - w.step)) == w.(form := r.(name := nm)) by {
      RunBacks(top, d - w.step);
    }
    RunAppend(Initial, Walk(r, nm, d), Backs(d - w.step));
  }

  /** Retyping the name sets it on step 1; on the later steps the name input is not shown,
      so any name edit there is ignored. */
  lemma RetypeName(w: Wizard, nm: string)
    requires Consistent(w)
    requires w.step > 1 ==> nm == w.form.name
    ensures Deliver(w.(form := w.form.(name := nm)), Edit(Name, w.form.name)) == w
    ensures w.step == 1 ==> forall v :: SingleLine(v) ==> Deliver(w, Edit(Name, v)) == w.(form := w.form.(name := v))
    ensures forall v :: !SingleLine(v) ==> Deliver(w, Edit(Name, v)) == w
    ensures w.step > 1 ==> forall v :: Deliver(w, Edit(Name, v)) == w
  {
  }

  lemma {:induction false} RunAppend(w: Wizard, xs: seq<Event>, ys: seq<Event>)
    ensures Run(w, xs + ys) == Run(Run(w, xs), ys)
    decreases |ys|
  {
    if ys == [] {
      assert xs + ys == xs;
    } else {
      var ys' := ys[..|ys| - 1];
      var y := ys[|ys| - 1];
      assert ys == ys' + [y];
      assert xs + ys == (xs + ys') + [y];
      RunSnoc(w, xs + ys', y);
      RunAppend(w, xs, ys');
      RunSnoc(Run(w, xs), ys', y);
    }
  }

  /** The states a visitor can reach are exactly the consistent ones. */
  lemma ReachableIffConsistent(w: Wizard)
    ensures Reachable(w) <==> Consistent(w)
  {
    if Reachable(w) {
      ReachableIsConsistent(w);
    }
    if Consistent(w) {
      ConsistentIsReachable(w);
    }
  }

  /** Whenever Submit can be pressed, every answer is there and both choices are offered options. */
  lemma SubmitOnlyWhenComplete(es: seq<Event>)
    requires CanSubmit(Run(Initial, es))
    ensures Complete(Run(Initial, es).form)
  {
    RunKeepsConsistent(Initial, es);
  }

  /** And every complete set of answers can be brought to an enabled Submit button. */
  lemma CompleteIsSubmittable(r: Form)
    requires Complete(r)
    ensures exists es :: Run(Initial, es) == Wizard(LastStep, r) && CanSubmit(Run(Initial, es))
  {
    ConsistentIsReachable(Wizard(LastStep, r));
  }

  /** A walk through all four steps: "Ada", then the first offered service and budget, then a contact. */
  lemma WalkThroughAllSteps()
    ensures var r := Form("Ada", ServiceOptions[0], BudgetOptions[0], "ada@example.com");
            var es := [Edit(Name, "Ada"), Continue, Edit(Service, ServiceOptions[0]), Continue,
                       Edit(Budget, BudgetOptions[0]), Continue, Edit(Contact, "ada@example.com")];
            Run(Initial, es) == Wizard(LastStep, r) && CanSubmit(Run(Initial, es))
  {
    var r := Form("Ada", ServiceOptions[0], BudgetOptions[0], "ada@example.com");
    RunWalk(r, "Ada", 4);
    assert Walk(r, "Ada", 4) == [Edit(Name, "Ada"), Continue, Edit(Service, ServiceOptions[0]), Continue,
                                 Edit(Budget, BudgetOptions[0]), Continue, Edit(Contact, "ada@example.com")];
  }
}
