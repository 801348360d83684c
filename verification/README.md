# Lighthouse error-reporting consent, modelled in Dafny

The Lighthouse command-line tool asks once whether it may anonymously report
runtime exceptions. `askPermission()` in `lighthouse-cli/sentry-prompt.js`
looks for a boolean under `isErrorReportingEnabled` in the `lighthouse`
config store and returns it if found. Otherwise it calls `prompt()`, writes the
answer back and returns it. `prompt()` answers `false` at once when stdout is
not a terminal or `CI` is set. Otherwise it races the yes/no widget against a
`MAXIMUM_WAIT_TIME` (20 000 ms) timer. If the timer wins, it closes the widget,
logs a warning and answers `false`. A single `.catch` turns every exception
into `false`.

The model is functional. The terminal widget, the timer and the store become
inputs:

- the stored value: `Absent`, `Bool(b)` or `Other` (anything that is not a boolean);
- the environment: `isTTY`, and `CI` as an environment variable that is
  either undefined or a string, truthy when non-empty;
- how the widget's `run()` would settle, and when: `Answered(b, t)` or `Rejected(t)`, in milliseconds;
- which collaborator throws: opening the store, reading it, building the widget, writing it.

`SentryPrompt.AskPermission` returns the result, the store afterwards and the
effects. The effects are whether the question was shown, what became of the
timer (`NoTimer`, `Cleared`, `Fired`, `Armed`) and how many warnings were
logged. The race is decided by time. An outcome strictly before `MaxWait` wins.
Otherwise the timer wins and a late answer is discarded. `ConsentSession`
chains invocations on one store, as successive runs of the tool do.

Modules: `ConsentTypes` (data), `SentryPrompt` (the two operations),
`ConsentProperties` (one or two calls), `ConsentSession` (any number of calls).

Behaviours of `sentry-prompt.js` that are easy to misread:

- A failing write after an answer makes `askPermission()` return `false`, even
  after a "yes". The `.catch` also covers the `configstore.set` inside the `.then`.
- In a non-interactive session with nothing stored, `false` is written to the store.
- A rejected `run()` before the deadline leaves the timer armed. `clearTimeout`
  is only reached on an answer, so the timer later closes the widget and logs
  its warning after `askPermission()` has already settled (`Timer.Armed`).
- Building the widget happens before the timer is set. So a widget that throws
  leaves no timer behind.

## Model

| member | source | states |
|---|---|---|
| `ConsentTypes.Interactive` | lighthouse-cli/sentry-prompt.js:22 | a question may be shown only when stdout is a terminal and `CI` is not truthy: any non-empty `CI`, including `"false"` and `"0"`, makes the session non-interactive, while an undefined or empty `CI` leaves it to `isTTY` |
| `ConsentTypes.Read` | lighthouse-cli/sentry-prompt.js:61-62 | only a real boolean is a recorded preference; absent and non-boolean values both read as unset |
| `SentryPrompt.Prompt` | lighthouse-cli/sentry-prompt.js:21-53 | non-interactive resolves `false` with no question and no timer; the question is shown iff interactive and the widget builds, and a timer exists iff it is shown; a timely answer clears the timer and is the result; otherwise the timer fires, exactly one warning is logged and the result is `false`; a timely rejection throws and leaves the timer armed; `true` only from a timely "yes" |
| `SentryPrompt.AskPermission` | lighthouse-cli/sentry-prompt.js:58-74 | fail-closed: `true` only when the store afterwards holds `true`; the store is written only when it held no boolean, and only with the result; a stored boolean is returned with no question and no write; unreadable store gives `false` untouched; non-interactive stores and returns `false`; a timely answer is stored and returned; a timeout stores `false` with one warning; a rejection before the deadline or a failing write gives `false` and leaves the store as it was, and a timely answer whose write fails has still cleared the timer |
| `ConsentProperties.EnabledIffConsented` | lighthouse-cli/sentry-prompt.js:59-73 | reporting is enabled exactly when a readable store already says `true`, or nothing usable is stored and an interactive, fault-free session got a "yes" before the deadline |
| `ConsentProperties.PromptedIff` | lighthouse-cli/sentry-prompt.js:22-35 | the question is shown exactly when the store is readable, holds no boolean, the session is interactive and the widget builds |
| `ConsentProperties.WarnedIffTimedOut` | lighthouse-cli/sentry-prompt.js:37-44 | the no-response warning is logged exactly when the question was shown and nothing settled before the deadline, and at most once |
| `ConsentProperties.LateOutcomesAgree` | lighthouse-cli/sentry-prompt.js:37-52 | once the deadline has passed, the timer decides: a late rejection, a late "yes" and a late "no" give the same result, store and effects |
| `ConsentProperties.AskTwice` | lighthouse-cli/sentry-prompt.js:60-70 | after a call that left a boolean in the store, the next readable call returns it with no question and no write; when the first call wrote it, both calls return the same value |
| `ConsentSession.Session` | lighthouse-cli/sentry-prompt.js:60-69 | one result per invocation, each seeing the store its predecessor left; every `true` is backed by a stored `true` |
| `ConsentSession.StoredBooleanIsPermanent` | lighthouse-cli/sentry-prompt.js:60-64 | once the store holds `v`, every later invocation leaves it at `v` and shows no question; it returns `v`, or `false` when the store cannot be read |
| `ConsentSession.OnceStoredNeverAskedAgain` | lighthouse-cli/sentry-prompt.js:60-69 | in any sequence of invocations, every call after one that left a boolean behaves as if that boolean were cached |
| `ConsentSession.CompletedCallStores` | lighthouse-cli/sentry-prompt.js:66-70 | an invocation where nothing throws and the widget does not reject before the deadline always leaves a boolean in the store, timeout included, whether the late outcome is an answer or a rejection |
| `ConsentSession.AskedAtMostOnce` | lighthouse-cli/sentry-prompt.js:58-74 | when nothing throws and no question is rejected before the deadline, the question is shown at most once over any number of runs, and every run returns the first run's decision |

## Left out

- SentryPrompt.AskPermission: a `configstore.set` that throws is assumed to leave the stored value unchanged. Nothing in `sentry-prompt.js` establishes this; it depends on the config store writing all-or-nothing, and that code is not part of this model.
- The widget's rendering, the message text and the log colour codes: presentation done by a foreign library.
- Real timers and `Promise.race` scheduling. The race is reduced to comparing the outcome's time with `MaxWait`. At exactly the deadline the model lets the timer win. That choice is not a claim about the event loop.
- `prompt.close()`: assumed to resolve. A rejecting `close()` would leave the timeout branch pending forever. That case is not modelled.
- The warning that a timer left `Armed` logs after `askPermission()` has settled. It is not counted in `warnings`, which counts only warnings logged before settling.
- The config store's on-disk format, its own recovery from unparsable files, and concurrent invocations from separate processes. These are external I/O that this code does not coordinate.
