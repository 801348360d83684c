/** Values that flow through the error-reporting consent flow of the
    Lighthouse command-line tool: what the persisted store holds, what the
    environment says about interactivity, how the yes/no question ends, which
    collaborators fail, and the observable side effects of one invocation.
 */
module ConsentTypes {

  /** The value found under the key `isErrorReportingEnabled` of the
      `lighthouse` config store. Anything that is not a JavaScript boolean
      (a string "true", a number, an object) is `Other`. */
  datatype Stored = Absent | Bool(value: bool) | Other

  /** The tri-state preference the store stands for: only a real boolean
      counts as a recorded answer. */
  datatype Preference = Unset | Known(allowed: bool)

  /** Reading the store: the `typeof ... === 'boolean'` test. */
  function Read(s: Stored): (p: Preference)
    ensures p.Known? <==> s.Bool?
    ensures p.Known? ==> s == Bool(p.allowed)
  {
    match s
    case Bool(b) => Known(b)
    case _ => Unset
  }

  /** An environment variable as JavaScript sees it: `undefined` or a string. */
  datatype EnvVar = Undefined | Value(text: string)

  /** JavaScript truthiness of `process.env.X`: set and not the empty string. */
  predicate Truthy(v: EnvVar) {
    v.Value? && v.text != ""
  }

  /** `process.stdout.isTTY` and `process.env.CI`. */
  datatype Env = Env(isTTY: bool, ci: EnvVar)

  /** The session may show a question: stdout is a terminal and CI is not
      set. Any non-empty value of CI counts as set, even "false" or "0";
      an empty value counts as unset. */
  function Interactive(env: Env): (b: bool)
    ensures b ==> env.isTTY
    ensures env.ci == Undefined ==> (b <==> env.isTTY)
    ensures env.ci == Value("") ==> (b <==> env.isTTY)
    ensures env.ci == Value("false") ==> !b
    ensures env.ci == Value("0") ==> !b
    ensures env.ci.Value? && env.ci.text != "" ==> !b
  {
    env.isTTY && !Truthy(env.ci)
  }

  /** How the widget's `run()` promise would settle if nothing interrupted it,
      and after how many milliseconds. An answer that would come after the
      deadline stands for "no answer in time". */
  datatype Outcome = Answered(answer: bool, at: nat) | Rejected(at: nat)

  /** Which collaborators throw: constructing the store, reading the key,
      constructing the yes/no widget, writing the key. */
  datatype Faults = Faults(openThrows: bool, readThrows: bool, widgetThrows: bool, writeThrows: bool)

  /** The store could not be consulted at all. */
  predicate StoreUnreadable(f: Faults) {
    f.openThrows || f.readThrows
  }

  /** Nothing throws. */
  predicate NoFaults(f: Faults) {
    !f.openThrows && !f.readThrows && !f.widgetThrows && !f.writeThrows
  }

  /** What became of the deadline timer by the time the invocation settled:
      never started, cleared by an answer, fired (closing the widget), or
      still armed and due to fire after the invocation has already settled. */
  datatype Timer = NoTimer | Cleared | Fired | Armed

  /** Observable side effects: whether the question was shown, the timer's
      fate and how many warnings were logged before settling. */
  datatype Effects = Effects(prompted: bool, timer: Timer, warnings: nat)

  /** No question, no timer, no warning. */
  const Quiet := Effects(false, NoTimer, 0)
}
