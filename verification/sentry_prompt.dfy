/** The consent flow itself: `prompt()` races a yes/no question against a
    deadline, and `askPermission()` wraps it with the persisted answer and a
    catch-all that turns every failure into "do not report". Timers, the
    terminal widget and the config store are replaced by the inputs defined
    in ConsentTypes.
 */
module SentryPrompt {
  import opened ConsentTypes

  /** `MAXIMUM_WAIT_TIME`: how long the question stays open, in milliseconds. */
  const MaxWait: nat := 20 * 1000

  /** How a promise settled: with a boolean, or by throwing. */
  datatype Settled = Resolved(value: bool) | Threw

  /** The settlement of `prompt()` together with its side effects. */
  datatype PromptRun = PromptRun(settled: Settled, fx: Effects)

  /** The outcome of the widget lands before the deadline timer fires. */
  predicate BeatsDeadline(o: Outcome) {
    o.at < MaxWait
  }

  /** `prompt()`. A non-interactive session resolves to `false` at once.
      Otherwise the widget is built (which may throw, before any timer
      exists), the deadline timer is started, and whichever settles first
      wins: an answer clears the timer and is the result; a rejection
      propagates and leaves the timer armed; the timer closes the widget,
      logs one warning and resolves to `false`, discarding a late answer. */
  function Prompt(env: Env, widgetThrows: bool, o: Outcome): (p: PromptRun)
    ensures !Interactive(env) ==> p == PromptRun(Resolved(false), Quiet)
    ensures p.fx.prompted <==> Interactive(env) && !widgetThrows
    ensures p.fx.timer != NoTimer <==> p.fx.prompted
    ensures p.fx.warnings == (if p.fx.timer == Fired then 1 else 0)
    ensures p.fx.timer == Cleared <==> p.fx.prompted && o.Answered? && BeatsDeadline(o)
    ensures p.fx.timer == Cleared ==> p.settled == Resolved(o.answer)
    ensures p.fx.timer == Fired <==> p.fx.prompted && !BeatsDeadline(o)
    ensures p.fx.timer == Fired ==> p.settled == Resolved(false)
    ensures p.fx.timer == Armed <==> p.fx.prompted && o.Rejected? && BeatsDeadline(o)
    ensures p.settled == Threw <==> Interactive(env) && (widgetThrows || (o.Rejected? && BeatsDeadline(o)))
    ensures p.settled == Resolved(true) ==> Interactive(env) && o == Answered(true, o.at) && BeatsDeadline(o)
  {
    if !Interactive(env) then
      PromptRun(Resolved(false), Quiet)
    else if widgetThrows then
      PromptRun(Threw, Quiet)
    else if !BeatsDeadline(o) then
      PromptRun(Resolved(false), Effects(true, Fired, 1))
    else
      match o
      case Answered(b, _) => PromptRun(Resolved(b), Effects(true, Cleared, 0))
      case Rejected(_) => PromptRun(Threw, Effects(true, Armed, 0))
  }

  /** The value `askPermission()` resolves to, the store afterwards and the
      side effects. */
  datatype Ask = Ask(result: bool, store: Stored, fx: Effects)

  /** `askPermission()`. The store is opened and read; a boolean found there
      is returned as is. Otherwise `prompt()` runs and its answer is written
      back and returned. Every exception on the way (opening, reading, the
      widget, a rejected question, the write) is caught and becomes `false`,
      with the store left as it was; for a throwing write this takes the
      store's write to be all-or-nothing. */
  function AskPermission(store: Stored, env: Env, o: Outcome, f: Faults): (r: Ask)
    // fail-closed: reporting is enabled only when the store now says so
    ensures r.result ==> r.store == Bool(true)
    // the store is written only when it held no boolean, and only with the result
    ensures r.store == store || (Read(store) == Unset && r.store == Bool(r.result))
    ensures r.fx.prompted ==> Read(store) == Unset && Interactive(env)
    ensures r.fx.warnings <= 1
    // a stored boolean is returned without asking or writing
    ensures Read(store).Known? && !StoreUnreadable(f) ==>
              r == Ask(store.value, store, Quiet)
    // a store that cannot be opened or read means "no", untouched
    ensures StoreUnreadable(f) ==> r == Ask(false, store, Quiet)
    // nothing stored, nobody to ask: "no", persisted unless the write throws
    ensures Read(store) == Unset && !StoreUnreadable(f) && !Interactive(env) ==>
              && !r.result && r.fx == Quiet
              && r.store == (if f.writeThrows then store else Bool(false))
    // nothing stored, a timely answer: it is persisted and returned
    ensures Read(store) == Unset && Interactive(env) && NoFaults(f) && o.Answered? && BeatsDeadline(o) ==>
              r == Ask(o.answer, Bool(o.answer), Effects(true, Cleared, 0))
    // nothing stored, the deadline passes: "no", one warning, persisted unless the write throws
    ensures Read(store) == Unset && Interactive(env) && !StoreUnreadable(f) && !f.widgetThrows && !BeatsDeadline(o) ==>
              && !r.result && r.fx == Effects(true, Fired, 1)
              && r.store == (if f.writeThrows then store else Bool(false))
    // the question is rejected before the deadline: "no", nothing written
    ensures Read(store) == Unset && Interactive(env) && o.Rejected? && BeatsDeadline(o) ==>
              !r.result && r.store == store
    // ... and, once the widget was shown, its deadline timer is left armed
    ensures Read(store) == Unset && !StoreUnreadable(f) && Interactive(env) && !f.widgetThrows
              && o.Rejected? && BeatsDeadline(o) ==>
              r == Ask(false, store, Effects(true, Armed, 0))
    // the widget cannot be built: "no", nothing shown, no timer, nothing written
    ensures Read(store) == Unset && !StoreUnreadable(f) && Interactive(env) && f.widgetThrows ==>
              r == Ask(false, store, Quiet)
    // with nothing stored, a failing write discards even a "yes"
    ensures Read(store) == Unset && f.writeThrows ==> !r.result && r.store == store
    // ... a timely answer has already cleared the timer before the write throws
    ensures Read(store) == Unset && !StoreUnreadable(f) && Interactive(env) && !f.widgetThrows
              && o.Answered? && BeatsDeadline(o) && f.writeThrows ==>
              r == Ask(false, store, Effects(true, Cleared, 0))
  {
    if StoreUnreadable(f) then
      Ask(false, store, Quiet)
    else
      match Read(store)
      case Known(b) => Ask(b, store, Quiet)
      case Unset =>
        var p := Prompt(env, f.widgetThrows, o);
        match p.settled
        case Threw => Ask(false, store, p.fx)
        case Resolved(b) =>
          if f.writeThrows then Ask(false, store, p.fx)
          else Ask(b, Bool(b), p.fx)
  }
}
