/** The last `n` entries of an outcome log, and how many of them are failures. */
module SlidingWindow {

  /** The newest `n` entries of `log`, oldest first. */
  function Last(log: seq<bool>, n: nat): (w: seq<bool>)
    ensures |w| == if |log| < n then |log| else n
  {
    if |log| <= n then log else log[|log| - n..]
  }

  /** Number of failed outcomes. */
  function Failures(s: seq<bool>): nat {
    if s == [] then 0 else Failures(s[..|s| - 1]) + if s[|s| - 1] then 1 else 0
  }

  lemma FailuresAppend(s: seq<bool>, failed: bool)
    ensures Failures(s + [failed]) == Failures(s) + if failed then 1 else 0
  {
    assert (s + [failed])[..|s|] == s;
  }

  /** Dropping the oldest entry removes exactly its own contribution. */
  lemma {:induction false} FailuresDropOldest(s: seq<bool>)
    requires s != []
    ensures Failures(s) == Failures(s[1..]) + if s[0] then 1 else 0
  {
    if |s| == 1 {
      assert s[..0] == [] && s[1..] == [];
    } else {
      FailuresDropOldest(s[..|s| - 1]);
      assert s[1..][..|s| - 2] == s[..|s| - 1][1..];
    }
  }

  lemma {:induction false} FailuresBounded(s: seq<bool>)
    ensures Failures(s) <= |s|
    ensures (forall i | 0 <= i < |s| :: s[i]) ==> Failures(s) == |s|
  {
    if s != [] {
      FailuresBounded(s[..|s| - 1]);
    }
  }

  /** Turning successes into failures never lowers the count. */
  lemma {:induction false} FailuresMonotone(s: seq<bool>, t: seq<bool>)
    requires |s| == |t|
    requires forall i | 0 <= i < |s| :: s[i] ==> t[i]
    ensures Failures(s) <= Failures(t)
  {
    if s != [] {
      FailuresMonotone(s[..|s| - 1], t[..|t| - 1]);
    }
  }

  /** How the window moves when one outcome is appended to the log. */
  lemma LastAppend(log: seq<bool>, n: nat, failed: bool)
    requires n > 0
    ensures Last(log + [failed], n)
         == (if |log| < n then Last(log, n) else Last(log, n)[1..]) + [failed]
  {
  }

  /** The running count kept by adding the new outcome and subtracting the evicted one is exact. */
  lemma FailuresSlide(log: seq<bool>, n: nat, failed: bool)
    requires n > 0
    ensures Failures(Last(log + [failed], n))
         == Failures(Last(log, n))
            - (if |log| >= n && Last(log, n)[0] then 1 else 0)
            + (if failed then 1 else 0)
  {
    LastAppend(log, n, failed);
    if |log| < n {
      FailuresAppend(Last(log, n), failed);
    } else {
      FailuresDropOldest(Last(log, n));
      FailuresAppend(Last(log, n)[1..], failed);
    }
  }

  // ---------- The ring buffer ----------

  function NextSlot(at: nat, n: nat): nat {
    if at + 1 < n then at + 1 else 0
  }

  /** The slot `k` places after `start`. */
  function Ahead(start: nat, k: nat, n: nat): nat {
    if start + k < n then start + k else start + k - n
  }

  /** The slots from `start` on, around the ring, hold `w`. */
  predicate Holds(slots: seq<bool>, start: nat, w: seq<bool>)
    requires start < |slots|
    decreases |w|
  {
    w == [] || (slots[start] == w[0] && Holds(slots, NextSlot(start, |slots|), w[1..]))
  }

  lemma {:induction false} HoldsAppend(slots: seq<bool>, start: nat, w: seq<bool>, x: bool)
    requires start < |slots| && |w| < |slots| && Holds(slots, start, w)
    ensures Holds(slots[Ahead(start, |w|, |slots|) := x], start, w + [x])
    decreases |w|
  {
    if w != [] {
      HoldsAppend(slots, NextSlot(start, |slots|), w[1..], x);
      assert (w + [x])[1..] == w[1..] + [x];
    }
  }

  /** The fields of the breaker's window stand for the newest entries of `log`; slots beyond `count` may hold
      stale outcomes. */
  predicate Represents(slots: seq<bool>, head: nat, count: nat, failures: int, log: seq<bool>) {
    && head < |slots|
    && count == |Last(log, |slots|)|
    && (count < |slots| ==> head == count)
    && Holds(slots, if count < |slots| then 0 else head, Last(log, |slots|))
    && failures == Failures(Last(log, |slots|))
  }

  /** One slot written and the counters moved by one stand for the log with the outcome appended. */
  lemma RecordKeepsRepresentation(slots: seq<bool>, head: nat, count: nat, failures: int, log: seq<bool>, failed: bool)
    requires Represents(slots, head, count, failures, log)
    ensures var evicted := if count == |slots| && slots[head] then 1 else 0;
            Represents(slots[head := failed], NextSlot(head, |slots|), if count < |slots| then count + 1 else count,
                       failures - evicted + if failed then 1 else 0, log + [failed])
  {
    var newest := Last(log, |slots|);
    FailuresSlide(log, |slots|, failed);
    LastAppend(log, |slots|, failed);
    if count < |slots| {
      HoldsAppend(slots, 0, newest, failed);
    } else {
      HoldsAppend(slots, NextSlot(head, |slots|), newest[1..], failed);
    }
  }
}
