/** The request handler `parse_pipeline` (backend/main.py) and the in-memory analytics store it
    updates after each validation: three counters and the last twenty submissions. */
module Analytics {
  import opened Collections
  import opened Graph
  import opened Validator

  /** How many submissions the store keeps (`history[-20:]`). */
  const HistoryLimit: nat := 20

  /** One history entry: when it arrived, how many node descriptors and edges it had, and
      what the validator returned. The timestamp is an opaque string supplied by the caller. */
  datatype Submission = Submission(timestamp: string, nodeCount: nat, edgeCount: nat, result: Outcome)

  /** Python's `s[-n:]` for `n > 0`: the last `n` elements of `s`, or all of `s` when it is
      shorter. */
  function Recent<T>(s: seq<T>, n: nat): (r: seq<T>)
    requires n > 0
    ensures |r| == if |s| <= n then |s| else n
    ensures forall k :: 0 <= k < |r| ==> r[k] == s[|s| - |r| + k]
  {
    if |s| <= n then s else s[|s| - n..]
  }

  /** Keeping the last `n` after each append keeps the last `n` of everything appended. */
  lemma RecentAppend<T>(s: seq<T>, x: T, n: nat)
    requires n > 0
    ensures Recent(Recent(s, n) + [x], n) == Recent(s + [x], n)
  {
    if |s| > n {
      var tail := s[|s| - n..];
      assert (tail + [x])[1..] == s[|s| - n + 1..] + [x];
      assert (s + [x])[|s| + 1 - n..] == s[|s| + 1 - n..] + [x];
    }
  }

  /** The number of submissions in `log` whose result was a DAG. */
  function ValidCount(log: seq<Submission>): nat {
    if log == [] then 0
    else ValidCount(log[..|log| - 1]) + (if IsDag(log[|log| - 1].result) then 1 else 0)
  }

  /** The number of submissions in `log` whose result was not a DAG. */
  function InvalidCount(log: seq<Submission>): nat {
    if log == [] then 0
    else InvalidCount(log[..|log| - 1]) + (if IsDag(log[|log| - 1].result) then 0 else 1)
  }

  /** Every submission is counted as valid or as invalid, never both. */
  lemma {:induction false} CountsPartition(log: seq<Submission>)
    ensures ValidCount(log) + InvalidCount(log) == |log|
  {
    if log != [] {
      CountsPartition(log[..|log| - 1]);
    }
  }

  /** The analytics store. `log` is every submission since start-up, a ghost record against
      which the counters and the truncated history are checked. */
  class Store {
    var totalRequests: nat
    var validDag: nat
    var invalidDag: nat
    var history: seq<Submission>
    ghost var log: seq<Submission>

    ghost predicate Valid()
      reads this
    {
      totalRequests == |log| &&
      validDag == ValidCount(log) &&
      invalidDag == InvalidCount(log) &&
      history == Recent(log, HistoryLimit)
    }

    /** The counters and the history balance: every request is valid or invalid, the history
        is bounded, and its last entry is the latest submission. */
    lemma Balanced()
      requires Valid()
      ensures totalRequests == validDag + invalidDag
      ensures |history| <= HistoryLimit
      ensures log != [] ==> history != [] && history[|history| - 1] == log[|log| - 1]
    {
      CountsPartition(log);
    }

    /** The store at start-up: zero counters, empty history. */
    constructor ()
      ensures Valid() && log == []
      ensures totalRequests == 0 && validDag == 0 && invalidDag == 0 && history == []
    {
      totalRequests, validDag, invalidDag := 0, 0, 0;
      history := [];
      log := [];
    }

    /** The analytics update after one validation: count the request, count it as valid or
        invalid, append the entry and keep only the last twenty. */
    method Record(entry: Submission)
      requires Valid()
      modifies this
      ensures Valid() && log == old(log) + [entry]
      ensures totalRequests == old(totalRequests) + 1
      ensures validDag == old(validDag) + (if IsDag(entry.result) then 1 else 0)
      ensures invalidDag == old(invalidDag) + (if IsDag(entry.result) then 0 else 1)
      ensures history == Recent(old(history) + [entry], HistoryLimit)
    {
      totalRequests := totalRequests + 1;
      if IsDag(entry.result) {
        validDag := validDag + 1;
      } else {
        invalidDag := invalidDag + 1;
      }
      history := history + [entry];
      history := Recent(history, HistoryLimit);
      ghost var grown := log + [entry];
      assert grown[..|grown| - 1] == log;
      assert ValidCount(grown) == ValidCount(log) + (if IsDag(entry.result) then 1 else 0);
      assert InvalidCount(grown) == InvalidCount(log) + (if IsDag(entry.result) then 0 else 1);
      RecentAppend(log, entry, HistoryLimit);
      log := grown;
    }

    /** `parse_pipeline`: validate the submission, record it with the caller's timestamp and
        the sizes of the raw lists, and return the validator's outcome. */
    method ParsePipeline(nodes: seq<Option<string>>, edges: seq<Edge>, timestamp: string) returns (r: Outcome)
      requires Valid()
      modifies this
      ensures r == Expected(nodes, edges)
      ensures Valid() && log == old(log) + [Submission(timestamp, |nodes|, |edges|, r)]
      ensures totalRequests == old(totalRequests) + 1
      ensures validDag == old(validDag) + (if IsDag(r) then 1 else 0)
      ensures invalidDag == old(invalidDag) + (if IsDag(r) then 0 else 1)
      ensures history == Recent(old(history) + [Submission(timestamp, |nodes|, |edges|, r)], HistoryLimit)
    {
      r := Validate(nodes, edges);
      Record(Submission(timestamp, |nodes|, |edges|, r));
    }
  }
}
