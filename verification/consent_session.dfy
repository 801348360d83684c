/** Successive invocations of `askPermission()` sharing one config store, as
    successive runs of the command-line tool do. Each call sees the store as
    the previous call left it; nothing else is carried over.
 */
module ConsentSession {
  import opened ConsentTypes
  import opened SentryPrompt

  /** The inputs of one invocation apart from the store. */
  datatype Call = Call(env: Env, outcome: Outcome, faults: Faults)

  /** One invocation on the given store. */
  function Step(store: Stored, c: Call): Ask {
    AskPermission(store, c.env, c.outcome, c.faults)
  }

  /** The invocations in order, each on the store its predecessor left. */
  function Session(store: Stored, calls: seq<Call>): (runs: seq<Ask>)
    ensures |runs| == |calls|
    ensures forall k :: 0 <= k < |runs| && runs[k].result ==> runs[k].store == Bool(true)
    decreases |calls|
  {
    if |calls| == 0 then []
    else
      var first := Step(store, calls[0]);
      [first] + Session(first.store, calls[1..])
  }

  /** How many of the invocations showed the question. */
  function PromptCount(runs: seq<Ask>): (n: nat)
    ensures n <= |runs|
    ensures n == 0 <==> forall k :: 0 <= k < |runs| ==> !runs[k].fx.prompted
    decreases |runs|
  {
    if |runs| == 0 then 0
    else (if runs[0].fx.prompted then 1 else 0) + PromptCount(runs[1..])
  }

  /** What a call returns against a store that holds `v`. */
  function Cached(v: bool, c: Call): Ask {
    if StoreUnreadable(c.faults) then Ask(false, Bool(v), Quiet) else Ask(v, Bool(v), Quiet)
  }

  /** Once the store holds a boolean it is never asked about again and
      never changes: every later call returns that boolean, or `false`
      when the store cannot be read. */
  lemma {:induction false} StoredBooleanIsPermanent(v: bool, calls: seq<Call>)
    ensures var runs := Session(Bool(v), calls);
            forall k :: 0 <= k < |calls| ==> runs[k] == Cached(v, calls[k])
    decreases |calls|
  {
    if |calls| > 0 {
      var runs := Session(Bool(v), calls);
      assert runs[0] == Cached(v, calls[0]);
      StoredBooleanIsPermanent(v, calls[1..]);
      assert runs[1..] == Session(Bool(v), calls[1..]);
      forall k | 1 <= k < |calls|
        ensures runs[k] == Cached(v, calls[k])
      {
        assert runs[k] == runs[1..][k - 1];
        assert calls[k] == calls[1..][k - 1];
      }
    }
  }

  /** From whichever call first leaves a boolean in the store, every later
      call sees that same boolean: no question, no write, and its value
      returned unless the store cannot be read. */
  lemma {:induction false} OnceStoredNeverAskedAgain(store: Stored, calls: seq<Call>)
    ensures var runs := Session(store, calls);
            forall i, j :: 0 <= i < j < |calls| && runs[i].store.Bool? ==>
              runs[j] == Cached(runs[i].store.value, calls[j])
    decreases |calls|
  {
    if |calls| > 0 {
      var runs := Session(store, calls);
      var tail := Session(runs[0].store, calls[1..]);
      assert runs[1..] == tail;
      if runs[0].store.Bool? {
        StoredBooleanIsPermanent(runs[0].store.value, calls[1..]);
      }
      OnceStoredNeverAskedAgain(runs[0].store, calls[1..]);
      forall i, j | 0 <= i < j < |calls| && runs[i].store.Bool?
        ensures runs[j] == Cached(runs[i].store.value, calls[j])
      {
        assert runs[j] == tail[j - 1];
        assert calls[j] == calls[1..][j - 1];
        if i == 0 {
          assert tail[j - 1] == Cached(runs[0].store.value, calls[1..][j - 1]);
        } else {
          assert runs[i] == tail[i - 1];
        }
      }
    }
  }

  /** The widget's outcome does not reject before the deadline: it is an
      answer, or it comes too late and the timer wins. */
  predicate NotRejectedInTime(o: Outcome) {
    !(o.Rejected? && BeatsDeadline(o))
  }

  /** A call with nothing throwing and no timely rejection always leaves a
      boolean in the store: an answer, or `false` after a timeout. */
  lemma CompletedCallStores(store: Stored, c: Call)
    requires NoFaults(c.faults) && NotRejectedInTime(c.outcome)
    ensures Step(store, c).store.Bool?
  {
  }

  /** When nothing throws and no question is rejected in time, the question is
      shown at most once over any number of runs, and every run reports
      the same decision as the first. */
  lemma {:induction false} AskedAtMostOnce(store: Stored, calls: seq<Call>)
    requires forall k :: 0 <= k < |calls| ==> NoFaults(calls[k].faults) && NotRejectedInTime(calls[k].outcome)
    ensures PromptCount(Session(store, calls)) <= 1
    ensures forall k :: 0 <= k < |calls| ==> Session(store, calls)[k].result == Session(store, calls)[0].result
  {
    if |calls| > 0 {
      var runs := Session(store, calls);
      CompletedCallStores(store, calls[0]);
      var v := runs[0].store.value;
      var tail := Session(Bool(v), calls[1..]);
      assert runs == [runs[0]] + tail;
      assert runs[1..] == tail;
      StoredBooleanIsPermanent(v, calls[1..]);
      forall k | 0 <= k < |tail|
        ensures !tail[k].fx.prompted && tail[k].result == v
      {
        assert calls[1..][k] == calls[k + 1];
        assert !StoreUnreadable(calls[k + 1].faults);
      }
      assert PromptCount(tail) == 0;
      assert runs[0].result == v by {
        if Read(store) == Unset {
          assert runs[0].store == Bool(runs[0].result);
        }
      }
      forall k | 1 <= k < |calls|
        ensures runs[k].result == runs[0].result
      {
        assert runs[k] == tail[k - 1];
      }
    }
  }
}
