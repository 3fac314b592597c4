/**
 Runs of a guarded transition system.

 A machine has actions, each possible in some states and with one outcome in each. What is
 nondeterministic in the modelled code (a device that fails, a heap that picks an address) is written
 into the action, so quantifying over legal runs quantifies over all behaviours.
 */
module Runs {
  datatype Machine<!S, !A> = Machine(enabled: (S, A) -> bool, step: (S, A) -> S)

  /** A run, newest action last, with the state reached after each action. */
  datatype Run<S, A> = Start(state: S) | Then(prev: Run<S, A>, act: A, state: S)

  /** `p` is the run at some earlier moment, or now. */
  ghost predicate Within<S(!new), A(!new)>(p: Run<S, A>, run: Run<S, A>) {
    p == run || (run.Then? && Within(p, run.prev))
  }

  /** Every action was possible when it happened, and had its effect. */
  ghost predicate Legal<S(!new), A(!new)>(m: Machine<S, A>, run: Run<S, A>) {
    forall p | Within(p, run) && p.Then? ::
      m.enabled(p.prev.state, p.act) && p.state == m.step(p.prev.state, p.act)
  }

  function Origin<S, A>(run: Run<S, A>): S {
    match run case Start(s) => s case Then(prev, _, _) => Origin(prev)
  }

  function Length<S, A>(run: Run<S, A>): nat {
    match run case Start(_) => 0 case Then(prev, _, _) => Length(prev) + 1
  }

  function Extended<S, A>(m: Machine<S, A>, run: Run<S, A>, a: A): Run<S, A> {
    Then(run, a, m.step(run.state, a))
  }

  lemma Extend<S(!new), A(!new)>(m: Machine<S, A>, run: Run<S, A>, a: A)
    requires Legal(m, run) && m.enabled(run.state, a)
    ensures Legal(m, Extended(m, run, a))
  {
  }

  lemma LastStep<S(!new), A(!new)>(m: Machine<S, A>, run: Run<S, A>)
    requires Legal(m, run) && run.Then?
    ensures Legal(m, run.prev)
    ensures m.enabled(run.prev.state, run.act) && run.state == m.step(run.prev.state, run.act)
  {
    assert Within(run, run);
    forall p | Within(p, run.prev) ensures Within(p, run) {
    }
  }

  /** Every earlier moment of a legal run is a legal run. */
  lemma {:induction false} LegalWithin<S(!new), A(!new)>(m: Machine<S, A>, p: Run<S, A>, run: Run<S, A>)
    requires Legal(m, run) && Within(p, run)
    ensures Legal(m, p)
  {
    if p != run {
      LastStep(m, run);
      LegalWithin(m, p, run.prev);
    }
  }

  lemma {:induction false} EarlierWithin<S(!new), A(!new)>(p: Run<S, A>, run: Run<S, A>)
    requires Within(p, run) && p.Then?
    ensures Within(p.prev, run)
  {
    if p != run { EarlierWithin(p, run.prev); }
  }

  lemma {:induction false} OriginWithin<S(!new), A(!new)>(p: Run<S, A>, run: Run<S, A>)
    requires Within(p, run)
    ensures Origin(p) == Origin(run)
  {
    if p != run { OriginWithin(p, run.prev); }
  }
}
