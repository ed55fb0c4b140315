/** The thread pool in `main`: hardware addresses are popped off the end of
    a stack, at most `limit` workers run at once, and each completion
    frees a slot that the next address takes. Once the stack is empty the
    receive loop stops and the workers still running are joined.

    Which worker completes next is up to the network and the thread
    scheduler, so the model takes it as a parameter: a sequence of picks,
    each choosing one of the running workers. The pool is a sequence with
    one entry per running worker, which is the source's hash map as long as
    the addresses are distinct. */
module Scheduler {
  import opened Bytes

  /** Receiving: `main` waits on the completion channel. Draining: the
      receive loop is over and the remaining workers are being joined. */
  datatype Phase = Receiving | Draining

  datatype Dispatcher = Dispatcher(stack: seq<MacAddr>, pool: seq<MacAddr>, finished: seq<MacAddr>, phase: Phase)

  /** How a run of `main` ends for a given sequence of completions: blocked
      forever on the channel with no worker left to send, all workers
      finished, or still waiting when the picks ran out. */
  datatype Outcome = Hangs | Completed(finished: seq<MacAddr>) | Pending(d: Dispatcher)

  function Reverse<T>(s: seq<T>): (r: seq<T>)
    ensures |r| == |s|
  {
    if |s| == 0 then [] else Reverse(s[1..]) + [s[0]]
  }

  function Min(a: nat, b: nat): nat
  {
    if a <= b then a else b
  }

  /** No address is listed twice. The source keys its handles by address,
      so a repeated address would overwrite a running worker's handle and
      the join loop would not wait for that worker. */
  predicate Distinct(targets: seq<MacAddr>)
  {
    forall i, j :: 0 <= i < j < |targets| ==> targets[i] != targets[j]
  }

  /** Every target is in exactly one of stack, pool and finished; the pool
      never exceeds the limit and, while addresses wait on the stack and
      `main` is receiving, it is full; draining only starts on an empty
      stack. */
  predicate Inv(d: Dispatcher, targets: seq<MacAddr>, limit: nat)
  {
    && multiset(d.stack) + multiset(d.pool) + multiset(d.finished) == multiset(targets)
    && |d.pool| <= limit
    && (d.phase == Receiving && |d.stack| > 0 ==> |d.pool| == limit)
    && (d.phase == Draining ==> |d.stack| == 0)
  }

  /** `new_thread`: pop the last address, if any, and start its worker. */
  function NewThread(d: Dispatcher): (r: Dispatcher)
    ensures multiset(r.stack) + multiset(r.pool) == multiset(d.stack) + multiset(d.pool)
    ensures r.finished == d.finished && r.phase == d.phase
    ensures |d.stack| == 0 ==> r == d
    ensures |d.stack| > 0 ==> r.stack == d.stack[..|d.stack| - 1] && r.pool == d.pool + [d.stack[|d.stack| - 1]]
  {
    if |d.stack| == 0 then d
    else
      var top := d.stack[|d.stack| - 1];
      assert d.stack == d.stack[..|d.stack| - 1] + [top];
      d.(stack := d.stack[..|d.stack| - 1], pool := d.pool + [top])
  }

  /** The state after the launch loop: the last Min(limit, |targets|)
      addresses are running, started from the end of the stack. */
  function Launched(targets: seq<MacAddr>, limit: nat): (d: Dispatcher)
    ensures Inv(d, targets, limit) && d.phase == Receiving && d.finished == []
    ensures |d.pool| == Min(limit, |targets|)
    ensures d.stack + Reverse(d.pool) == targets
  {
    var n := Min(limit, |targets|);
    ReverseMultiset(targets[|targets| - n..]);
    assert targets == targets[..|targets| - n] + targets[|targets| - n..];
    ReverseReverse(targets[|targets| - n..]);
    Dispatcher(targets[..|targets| - n], Reverse(targets[|targets| - n..]), [], Receiving)
  }

  /** The launch loop of `main` as written: up to `limit` calls of
      `new_thread`, leaving early once the stack is empty. */
  method LaunchInitial(targets: seq<MacAddr>, limit: nat) returns (d: Dispatcher)
    ensures d == Launched(targets, limit)
  {
    d := Dispatcher(targets, [], [], Receiving);
    for i := 0 to limit
      invariant i <= |targets|
      invariant d == Dispatcher(targets[..|targets| - i], Reverse(targets[|targets| - i..]), [], Receiving)
      invariant i > 0 ==> |d.stack| > 0
    {
      var before := d;
      d := NewThread(d);
      if |before.stack| > 0 {
        var rest := targets[|targets| - i - 1..];
        assert rest[1..] == targets[|targets| - i..];
        assert rest[0] == targets[|targets| - i - 1];
        assert targets[..|targets| - i][..|targets| - i - 1] == targets[..|targets| - i - 1];
      }
      if |d.stack| == 0 {
        if |before.stack| == 0 {
          assert targets[..0] == targets[0..] == [];
        }
        return;
      }
    }
  }

  /** One turn of the receive loop: the worker at `k` reports completion,
      leaves the pool, a new worker takes its slot if the stack still holds
      an address, and the loop stops once the stack is empty. */
  function Receive(d: Dispatcher, k: nat): (r: Dispatcher)
    requires d.phase == Receiving && k < |d.pool|
    ensures r.finished == d.finished + [d.pool[k]]
    ensures |r.stack| == if |d.stack| == 0 then 0 else |d.stack| - 1
    ensures r.phase == Draining <==> |r.stack| == 0
    ensures |r.pool| == if |d.stack| == 0 then |d.pool| - 1 else |d.pool|
    ensures r.stack == d.stack[..|r.stack|]
    ensures r.pool == d.pool[..k] + d.pool[k + 1..] + d.stack[|r.stack|..]
  {
    var freed := d.(pool := d.pool[..k] + d.pool[k + 1..], finished := d.finished + [d.pool[k]]);
    var r := NewThread(freed);
    if |r.stack| == 0 then r.(phase := Draining) else r
  }

  /** The receive loop over a sequence of completions, each choosing a
      running worker by its position modulo the pool's size. */
  function Run(d: Dispatcher, picks: seq<nat>): (r: Dispatcher)
    ensures d.phase == Draining ==> r == d
    ensures d.finished <= r.finished && |r.finished| <= |d.finished| + |picks|
    decreases |picks|
  {
    if d.phase != Receiving || |picks| == 0 || |d.pool| == 0 then d
    else Run(Receive(d, picks[0] % |d.pool|), picks[1..])
  }

  /** The loop that joins every worker still in the pool. */
  function JoinAll(d: Dispatcher): (r: Dispatcher)
    requires d.phase == Draining
    ensures r.pool == [] && r.stack == d.stack && r.phase == Draining
    ensures multiset(r.finished) == multiset(d.finished) + multiset(d.pool)
  {
    d.(pool := [], finished := d.finished + d.pool)
  }

  /** `main` after reading the targets and the limit. */
  function Dispatch(targets: seq<MacAddr>, limit: nat, picks: seq<nat>): (o: Outcome)
    ensures o.Hangs? <==> |targets| == 0 || limit == 0
    ensures o.Completed? ==> multiset(o.finished) == multiset(targets)
    ensures o.Pending? ==> Inv(o.d, targets, limit) && o.d.phase == Receiving && |o.d.pool| > 0
  {
    var d := Launched(targets, limit);
    if |d.pool| == 0 then Hangs
    else
      RunSettles(d, picks, targets, limit);
      var e := Run(d, picks);
      if e.phase == Draining then Completed(JoinAll(e).finished) else Pending(e)
  }

  // ------------------------------------------------------------ properties

  lemma {:induction false} ReverseMultiset<T>(s: seq<T>)
    ensures multiset(Reverse(s)) == multiset(s)
    decreases |s|
  {
    if |s| > 0 {
      ReverseMultiset(s[1..]);
      assert s == [s[0]] + s[1..];
    }
  }

  lemma {:induction false} ReverseAppend<T>(a: seq<T>, b: seq<T>)
    ensures Reverse(a + b) == Reverse(b) + Reverse(a)
    decreases |a|
  {
    if |a| == 0 {
      assert a + b == b;
    } else {
      assert (a + b)[1..] == a[1..] + b;
      ReverseAppend(a[1..], b);
    }
  }

  lemma {:induction false} ReverseReverse<T>(s: seq<T>)
    ensures Reverse(Reverse(s)) == s
    decreases |s|
  {
    if |s| > 0 {
      ReverseAppend(Reverse(s[1..]), [s[0]]);
      assert Reverse([s[0]]) == [s[0]];
      ReverseReverse(s[1..]);
      assert s == [s[0]] + s[1..];
    }
  }

  /** A completion keeps every target accounted for exactly once, keeps
      the pool within the limit and full while the stack is not empty, and
      finishes exactly the worker that reported. */
  lemma ReceivePreserves(d: Dispatcher, k: nat, targets: seq<MacAddr>, limit: nat)
    requires Inv(d, targets, limit) && d.phase == Receiving && k < |d.pool|
    ensures Inv(Receive(d, k), targets, limit)
  {
    var freed := d.(pool := d.pool[..k] + d.pool[k + 1..], finished := d.finished + [d.pool[k]]);
    assert d.pool == d.pool[..k] + [d.pool[k]] + d.pool[k + 1..];
    assert multiset(freed.pool) + multiset(freed.finished) == multiset(d.pool) + multiset(d.finished);
    assert Receive(d, k) == var r := NewThread(freed); if |r.stack| == 0 then r.(phase := Draining) else r;
  }

  lemma {:induction false} RunPreserves(d: Dispatcher, picks: seq<nat>, targets: seq<MacAddr>, limit: nat)
    requires Inv(d, targets, limit)
    ensures Inv(Run(d, picks), targets, limit)
    ensures Run(d, picks).phase == Receiving ==> |Run(d, picks).stack| > 0 || Run(d, picks) == d
    decreases |picks|
  {
    if d.phase == Receiving && |picks| > 0 && |d.pool| > 0 {
      ReceivePreserves(d, picks[0] % |d.pool|, targets, limit);
      RunPreserves(Receive(d, picks[0] % |d.pool|), picks[1..], targets, limit);
    }
  }

  /** Wherever the completions leave the receive loop, the invariant
      holds, a drained loop joins to every target, and a loop still
      receiving has a worker left to report. */
  lemma RunSettles(d: Dispatcher, picks: seq<nat>, targets: seq<MacAddr>, limit: nat)
    requires Inv(d, targets, limit) && d.phase == Receiving && |d.pool| > 0
    ensures var e := Run(d, picks);
            && Inv(e, targets, limit)
            && (e.phase == Draining ==> multiset(JoinAll(e).finished) == multiset(targets))
            && (e.phase == Receiving ==> |e.pool| > 0)
  {
    RunPreserves(d, picks, targets, limit);
    var e := Run(d, picks);
    if e.phase == Draining {
      JoinFinishesAll(e, targets, limit);
    }
  }

  /** Once the receive loop is over, joining the pool finishes every target
      exactly once. */
  lemma JoinFinishesAll(d: Dispatcher, targets: seq<MacAddr>, limit: nat)
    requires Inv(d, targets, limit) && d.phase == Draining
    ensures multiset(JoinAll(d).finished) == multiset(targets)
  {
    assert d.stack == [];
  }

  /** `main` blocks forever on the channel exactly when the launch loop
      starts no worker. */
  lemma HangsIffNothingLaunched(targets: seq<MacAddr>, limit: nat, picks: seq<nat>)
    ensures Dispatch(targets, limit, picks) == Hangs <==> |Launched(targets, limit).pool| == 0
  {
  }

  /** With something to launch, max(1, |stack|) completions end the receive
      loop, whichever workers complete; joining the rest then finishes
      every target exactly once. */
  lemma {:induction false} RunDrains(d: Dispatcher, picks: seq<nat>, targets: seq<MacAddr>, limit: nat)
    requires Inv(d, targets, limit) && d.phase == Receiving && |d.pool| > 0
    requires Distinct(targets)
    requires |picks| >= 1 && |picks| >= |d.stack|
    ensures Run(d, picks).phase == Draining
    ensures multiset(JoinAll(Run(d, picks)).finished) == multiset(targets)
    decreases |picks|
  {
    var k := picks[0] % |d.pool|;
    var next := Receive(d, k);
    ReceivePreserves(d, k, targets, limit);
    if |d.stack| > 1 {
      RunDrains(next, picks[1..], targets, limit);
    } else {
      JoinFinishesAll(next, targets, limit);
    }
  }

  /** Every run of `main` with at least one target and a positive limit
      finishes every target once there have been as many completions as
      targets. */
  lemma DispatchCompletes(targets: seq<MacAddr>, limit: nat, picks: seq<nat>)
    requires |targets| > 0 && limit > 0 && |picks| >= |targets|
    requires Distinct(targets)
    ensures Dispatch(targets, limit, picks).Completed?
    ensures multiset(Dispatch(targets, limit, picks).finished) == multiset(targets)
  {
    RunDrains(Launched(targets, limit), picks, targets, limit);
  }

  /** Each completion takes exactly one address off the stack until it is
      empty: the receive loop runs max(1, |stack|) times. */
  lemma {:induction false} RunCountsCompletions(d: Dispatcher, picks: seq<nat>, targets: seq<MacAddr>, limit: nat)
    requires Inv(d, targets, limit) && d.phase == Receiving && |d.pool| > 0
    requires |picks| < |d.stack|
    ensures Run(d, picks).phase == Receiving
    ensures |Run(d, picks).stack| == |d.stack| - |picks|
    ensures |Run(d, picks).finished| == |d.finished| + |picks|
    decreases |picks|
  {
    if |picks| > 0 {
      var next := Receive(d, picks[0] % |d.pool|);
      ReceivePreserves(d, picks[0] % |d.pool|, targets, limit);
      RunCountsCompletions(next, picks[1..], targets, limit);
    }
  }
}
