/** Properties of one or two invocations of `askPermission()`, stated
    against definitions written independently of its body.
 */
module ConsentProperties {
  import opened ConsentTypes
  import opened SentryPrompt

  /** The only two ways consent can be given: a `true` already in a readable
      store, or a timely "yes" in an interactive session that nothing
      interrupts and that can be written back. */
  predicate Consented(store: Stored, env: Env, o: Outcome, f: Faults) {
    || (!StoreUnreadable(f) && Read(store) == Known(true))
    || (&& Read(store) == Unset && Interactive(env) && NoFaults(f)
        && o == Answered(true, o.at) && BeatsDeadline(o))
  }

  /** Reporting is enabled exactly when consent was given. */
  lemma EnabledIffConsented(store: Stored, env: Env, o: Outcome, f: Faults)
    ensures AskPermission(store, env, o, f).result <==> Consented(store, env, o, f)
  {
  }

  /** The question is shown exactly when nothing usable is stored, the
      store is readable, the session is interactive and the widget builds. */
  lemma PromptedIff(store: Stored, env: Env, o: Outcome, f: Faults)
    ensures AskPermission(store, env, o, f).fx.prompted <==>
              !StoreUnreadable(f) && Read(store) == Unset && Interactive(env) && !f.widgetThrows
  {
  }

  /** The deadline warning is logged exactly when the question was shown
      and no outcome beat the deadline; never more than once. */
  lemma WarnedIffTimedOut(store: Stored, env: Env, o: Outcome, f: Faults)
    ensures var r := AskPermission(store, env, o, f);
            (r.fx.warnings == 1 <==> r.fx.prompted && !BeatsDeadline(o))
            && (r.fx.warnings == 0 <==> !(r.fx.prompted && !BeatsDeadline(o)))
  {
  }

  /** Past the deadline the timer wins whatever the widget would have done:
      a late rejection and a late answer of either value give the same
      invocation. */
  lemma LateOutcomesAgree(store: Stored, env: Env, f: Faults, b: bool, t: nat)
    requires MaxWait <= t
    ensures AskPermission(store, env, Rejected(t), f) == AskPermission(store, env, Answered(b, t), f)
    ensures AskPermission(store, env, Answered(b, t), f) == AskPermission(store, env, Answered(!b, t), f)
  {
  }

  /** Asking again after a call that left a boolean in the store returns
      that boolean without a question and without a write; when the first
      call is the one that wrote it, both calls agree. */
  lemma AskTwice(store: Stored, env: Env, o: Outcome, f: Faults,
                 env': Env, o': Outcome, f': Faults)
    requires AskPermission(store, env, o, f).store.Bool?
    requires !StoreUnreadable(f')
    ensures var r := AskPermission(store, env, o, f);
            var r' := AskPermission(r.store, env', o', f');
            && r'.result == r.store.value
            && r'.store == r.store
            && !r'.fx.prompted
            && (Read(store) == Unset ==> r'.result == r.result)
  {
  }
}
