/** The poll loop: fetch, push with retries, sleep, back off. The environment supplies what each fetch
    returns and what the channel answers to each push; sleeps are requested sleeps. */
module Poll {
  import opened Prelude

  const PUSH_RETRY_LIMIT: nat := 3
  const BACKOFF_CAP: u32 := 60
  const U32_MAX: u32 := 0xFFFF_FFFF

  /** One iteration's environment: a fetched payload and the status of its push number `a`, or a failure. */
  datatype Round = Fetched(payload: bytes, push: nat -> int) | FetchFailed

  datatype Action = Push(payload: bytes, status: int) | Sleep(secs: u32)

  function Min(a: u32, b: u32): (r: u32)
    ensures r <= a && r <= b && (r == a || r == b)
  {
    if a < b then a else b
  }

  function Max(a: u32, b: u32): (r: u32)
    ensures r >= a && r >= b && (r == a || r == b)
  {
    if a < b then b else a
  }

  function SaturatingDouble(n: u32): u32 {
    if 2 * n > U32_MAX then U32_MAX else 2 * n
  }

  // ---------------------------------------------------------------- one iteration

  /** The pushes from attempt `a` on. */
  function Pushes(payload: bytes, push: nat -> int, a: nat): seq<Action>
    decreases PUSH_RETRY_LIMIT - a
  {
    if a >= PUSH_RETRY_LIMIT then []
    else if push(a) == 0 then [Push(payload, 0)]
    else [Push(payload, push(a)), Sleep(1)] + Pushes(payload, push, a + 1)
  }

  function Actions(interval: u32, backoff: u32, round: Round): seq<Action> {
    match round
    case Fetched(payload, push) => Pushes(payload, push, 0) + [Sleep(interval)]
    case FetchFailed => [Sleep(Max(backoff, 1))]
  }

  function NextBackoff(interval: u32, backoff: u32, round: Round): u32 {
    match round
    case Fetched(_, _) => interval
    case FetchFailed => Min(SaturatingDouble(Max(backoff, 1)), BACKOFF_CAP)
  }

  // ---------------------------------------------------------------- runs

  /** Backoff after these rounds, starting afresh. */
  function Backoff(interval: u32, rounds: seq<Round>): u32 {
    if rounds == [] then interval
    else NextBackoff(interval, Backoff(interval, rounds[..|rounds| - 1]), rounds[|rounds| - 1])
  }

  /** Everything these rounds do. */
  function Trace(interval: u32, rounds: seq<Round>): seq<Action> {
    if rounds == [] then []
    else
      var before := rounds[..|rounds| - 1];
      Trace(interval, before) + Actions(interval, Backoff(interval, before), rounds[|rounds| - 1])
  }

  lemma OneMoreRound(interval: u32, rounds: seq<Round>, round: Round)
    ensures Backoff(interval, rounds + [round]) == NextBackoff(interval, Backoff(interval, rounds), round)
    ensures Trace(interval, rounds + [round])
      == Trace(interval, rounds) + Actions(interval, Backoff(interval, rounds), round)
  {
    assert (rounds + [round])[..|rounds|] == rounds;
  }

  class PollLoop {
    const interval: u32
    var backoff: u32
    var actions: seq<Action>
    ghost var rounds: seq<Round>

    ghost predicate Valid()
      reads this
    {
      interval >= 1 && backoff == Backoff(interval, rounds) && actions == Trace(interval, rounds)
    }

    constructor (intervalSecs: u32)
      ensures Valid() && rounds == [] && actions == [] && interval == Max(intervalSecs, 1)
    {
      interval := Max(intervalSecs, 1);
      backoff := Max(intervalSecs, 1);
      actions := [];
      rounds := [];
    }

    method DriveOnce(round: Round)
      requires Valid()
      modifies this
      ensures Valid() && rounds == old(rounds) + [round]
      ensures actions == old(actions) + Actions(interval, old(backoff), round)
      ensures backoff == NextBackoff(interval, old(backoff), round)
    {
      OneMoreRound(interval, rounds, round);
      rounds := rounds + [round];
      match round {
        case Fetched(payload, push) =>
          PushWithRetries(payload, push);
          backoff := interval;
          actions := actions + [Sleep(interval)];
        case FetchFailed =>
          var sleepFor := Max(backoff, 1);
          actions := actions + [Sleep(sleepFor)];
          backoff := Min(SaturatingDouble(sleepFor), BACKOFF_CAP);
      }
    }

    method PushWithRetries(payload: bytes, push: nat -> int)
      modifies this`actions
      ensures actions == old(actions) + Pushes(payload, push, 0)
    {
      for attempt := 0 to PUSH_RETRY_LIMIT
        invariant old(actions) + Pushes(payload, push, 0) == actions + Pushes(payload, push, attempt)
      {
        var status := push(attempt);
        actions := actions + [Push(payload, status)];
        if status == 0 {
          return;
        }
        actions := actions + [Sleep(1)];
      }
    }

    /** The loop, for as many rounds as the environment is described for. */
    method Run(future: seq<Round>)
      requires Valid()
      modifies this
      ensures Valid() && rounds == old(rounds) + future
    {
      ghost var before := rounds;
      var k := 0;
      TakeAll(before, future);
      while k < |future|
        invariant 0 <= k <= |future|
        invariant Valid()
        invariant rounds == before + future[..k]
      {
        TakeOneMore(before, future, k);
        DriveOnce(future[k]);
        k := k + 1;
      }
    }
  }

  lemma TakeOneMore<T>(before: seq<T>, future: seq<T>, k: nat)
    requires k < |future|
    ensures before + future[..k] + [future[k]] == before + future[..k + 1]
  {
  }

  lemma TakeAll<T>(before: seq<T>, future: seq<T>)
    ensures before + future[..0] == before && future[..|future|] == future
  {
  }

  // ---------------------------------------------------------------- backoff

  function Pow2(j: nat): nat {
    if j == 0 then 1 else 2 * Pow2(j - 1)
  }

  /** Failures at the end of the run, since the last success or the start. */
  function Failures(rounds: seq<Round>): nat {
    if rounds == [] || rounds[|rounds| - 1].Fetched? then 0 else 1 + Failures(rounds[..|rounds| - 1])
  }

  /** What a failure preceded by `j` failures sleeps. */
  function FailureSleep(interval: u32, j: nat): nat {
    if j == 0 then interval
    else if interval * Pow2(j) < 60 then interval * Pow2(j) else 60
  }

  /** The saturating multiplication never changes the result. */
  lemma SaturationIsInvisible(n: u32)
    ensures Min(SaturatingDouble(n), 60) == if 2 * n < 60 then 2 * n else 60
  {
  }

  /** Closed form over every run: the backoff is the interval after a success or at the start, and
      otherwise the interval doubled once per failure, up to 60. */
  lemma {:induction false} BackoffClosedForm(interval: u32, rounds: seq<Round>)
    requires interval >= 1
    ensures Backoff(interval, rounds) == FailureSleep(interval, Failures(rounds))
  {
    if rounds != [] && rounds[|rounds| - 1].FetchFailed? {
      var before := rounds[..|rounds| - 1];
      BackoffClosedForm(interval, before);
      var j := Failures(before);
      SleepIsPositive(interval, j);
      DoubledSleep(interval, j);
    }
  }

  /** ... and that is what the next failure sleeps: the lower bound of one second never matters. */
  lemma {:induction false} NextFailureSleeps(interval: u32, rounds: seq<Round>)
    requires interval >= 1
    ensures Trace(interval, rounds + [FetchFailed])
      == Trace(interval, rounds) + [Sleep(FailureSleep(interval, Failures(rounds)))]
  {
    BackoffClosedForm(interval, rounds);
    SleepIsPositive(interval, Failures(rounds));
    OneMoreRound(interval, rounds, FetchFailed);
  }

  lemma DoubledSleep(interval: u32, j: nat)
    requires interval >= 1
    ensures FailureSleep(interval, j + 1)
      == if 2 * FailureSleep(interval, j) < 60 then 2 * FailureSleep(interval, j) else 60
  {
    assert interval * Pow2(j + 1) == 2 * (interval * Pow2(j));
  }

  lemma {:induction false} Pow2Grows(j: nat)
    ensures Pow2(j) >= 1
    ensures j >= 6 ==> Pow2(j) >= 64
  {
    if j == 6 {
      assert Pow2(6) == 2 * Pow2(5) == 4 * Pow2(4) == 8 * Pow2(3) == 16 * Pow2(2) == 32 * Pow2(1) == 64 * Pow2(0);
    } else if j > 0 {
      Pow2Grows(j - 1);
    }
  }

  lemma SleepIsPositive(interval: u32, j: nat)
    requires interval >= 1
    ensures FailureSleep(interval, j) >= 1
  {
    Pow2Grows(j);
    assert interval * Pow2(j) >= 1;
  }

  /** From the seventh failure in a row on, every failure sleeps 60 seconds. */
  lemma SteadyFromSixth(interval: u32, j: nat)
    requires interval >= 1 && j >= 6
    ensures FailureSleep(interval, j) == 60
  {
    Pow2Grows(j);
    assert interval * Pow2(j) >= 64;
  }

  /** The documented cap of 60 seconds holds for a failure exactly when the interval is within it or
      another failure came just before. */
  lemma CapExactly(interval: u32, rounds: seq<Round>)
    requires interval >= 1
    ensures Backoff(interval, rounds) <= 60 <==> interval <= 60 || Failures(rounds) >= 1
  {
    BackoffClosedForm(interval, rounds);
  }

  /** With the interval of the crate's own usage example, the first failure already breaks it. */
  lemma CapFails()
    ensures Trace(300, [FetchFailed]) == [Sleep(300)]
  {
    assert [FetchFailed][..0] == [];
  }

  // ---------------------------------------------------------------- the trace language

  /** `k` refused pushes of one payload, each followed by a one-second sleep. */
  function Refused(payload: bytes, push: nat -> int, k: nat): seq<Action> {
    if k == 0 then [] else Refused(payload, push, k - 1) + [Push(payload, push(k - 1)), Sleep(1)]
  }

  predicate RefusedFirst(push: nat -> int, k: nat) {
    k <= 3 && (forall a :: 0 <= a < k ==> push(a) != 0) && (k < 3 ==> push(k) == 0)
  }

  function CountRefused(push: nat -> int, a: nat): (k: nat)
    requires a <= 3
    ensures a <= k <= 3
    decreases 3 - a
  {
    if a < 3 && push(a) != 0 then CountRefused(push, a + 1) else a
  }

  lemma Associate<T>(a: seq<T>, b: seq<T>, c: seq<T>)
    ensures a + (b + c) == a + b + c
  {
  }

  lemma {:induction false} PushesFrom(payload: bytes, push: nat -> int, a: nat, k: nat)
    requires a <= k && RefusedFirst(push, k)
    ensures Refused(payload, push, a) + Pushes(payload, push, a)
      == Refused(payload, push, k) + if k < 3 then [Push(payload, 0)] else []
    decreases k - a
  {
    if a < k {
      PushesFrom(payload, push, a + 1, k);
      assert push(a) != 0;
      Associate(Refused(payload, push, a), [Push(payload, push(a)), Sleep(1)], Pushes(payload, push, a + 1));
    }
  }

  /** A successful fetch: `k` refused pushes of that payload, at most three, then one accepted push
      exactly when `k < 3`, then the interval. The number `k` is the environment's alone. */
  lemma FetchedLanguage(interval: u32, backoff: u32, payload: bytes, push: nat -> int, k: nat)
    requires RefusedFirst(push, k)
    ensures Actions(interval, backoff, Fetched(payload, push))
      == Refused(payload, push, k) + (if k < 3 then [Push(payload, 0)] else []) + [Sleep(interval)]
  {
    PushesFrom(payload, push, 0, k);
    assert Refused(payload, push, 0) + Pushes(payload, push, 0) == Pushes(payload, push, 0);
  }

  lemma {:induction false} RefusedFirstExists(push: nat -> int, a: nat)
    requires a <= 3 && forall b :: 0 <= b < a ==> push(b) != 0
    ensures RefusedFirst(push, CountRefused(push, a))
    decreases 3 - a
  {
    if a < 3 && push(a) != 0 {
      RefusedFirstExists(push, a + 1);
    }
  }

  // ---------------------------------------------------------------- delivery

  function Accepted(actions: seq<Action>): seq<bytes> {
    if actions == [] then []
    else
      var last := actions[|actions| - 1];
      Accepted(actions[..|actions| - 1]) + if last.Push? && last.status == 0 then [last.payload] else []
  }

  predicate Delivers(round: Round) {
    round.Fetched? && exists a :: 0 <= a < 3 && round.push(a) == 0
  }

  /** Payloads of the rounds whose channel took one of the three pushes, in order. */
  function Delivered(rounds: seq<Round>): seq<bytes> {
    if rounds == [] then []
    else
      var last := rounds[|rounds| - 1];
      Delivered(rounds[..|rounds| - 1]) + if Delivers(last) then [last.payload] else []
  }

  lemma {:induction false} AcceptedConcat(left: seq<Action>, right: seq<Action>)
    ensures Accepted(left + right) == Accepted(left) + Accepted(right)
    decreases |right|
  {
    if right == [] {
      assert left + right == left;
    } else {
      assert (left + right)[..|left + right| - 1] == left + right[..|right| - 1];
      AcceptedConcat(left, right[..|right| - 1]);
    }
  }

  lemma {:induction false} AcceptedRefused(payload: bytes, push: nat -> int, k: nat)
    requires forall a :: 0 <= a < k ==> push(a) != 0
    ensures Accepted(Refused(payload, push, k)) == []
  {
    if k > 0 {
      AcceptedRefused(payload, push, k - 1);
      OneMoreRefusal(Refused(payload, push, k - 1), payload, push(k - 1));
    }
  }

  lemma OneMoreRefusal(actions: seq<Action>, payload: bytes, status: int)
    requires status != 0
    ensures Accepted(actions + [Push(payload, status), Sleep(1)]) == Accepted(actions)
  {
    AcceptedOne(Push(payload, status));
    AcceptedOne(Sleep(1));
    AcceptedConcat([Push(payload, status)], [Sleep(1)]);
    assert [Push(payload, status)] + [Sleep(1)] == [Push(payload, status), Sleep(1)];
    AcceptedConcat(actions, [Push(payload, status), Sleep(1)]);
  }

  lemma AcceptedOne(action: Action)
    ensures Accepted([action]) == if action.Push? && action.status == 0 then [action.payload] else []
  {
    assert [action][..0] == [];
  }

  lemma AcceptedInRound(interval: u32, backoff: u32, round: Round)
    ensures Accepted(Actions(interval, backoff, round)) == if Delivers(round) then [round.payload] else []
  {
    match round
    case FetchFailed => AcceptedOne(Sleep(Max(backoff, 1)));
    case Fetched(payload, push) =>
      var k := CountRefused(push, 0);
      RefusedFirstExists(push, 0);
      FetchedLanguage(interval, backoff, payload, push, k);
      AcceptedRefused(payload, push, k);
      var taken := if k < 3 then [Push(payload, 0)] else [];
      AcceptedConcat(Refused(payload, push, k) + taken, [Sleep(interval)]);
      AcceptedConcat(Refused(payload, push, k), taken);
      AcceptedOne(Sleep(interval));
      AcceptedOne(Push(payload, 0));
  }

  /** Delivery over every run: the channel accepts exactly the payloads of the rounds that deliver, once
      each and in order. */
  lemma {:induction false} AcceptedIsDelivered(interval: u32, rounds: seq<Round>)
    ensures Accepted(Trace(interval, rounds)) == Delivered(rounds)
  {
    if rounds != [] {
      var before, last := rounds[..|rounds| - 1], rounds[|rounds| - 1];
      AcceptedIsDelivered(interval, before);
      AcceptedConcat(Trace(interval, before), Actions(interval, Backoff(interval, before), last));
      AcceptedInRound(interval, Backoff(interval, before), last);
    }
  }

  /** ... so accepted payloads are an in-order subsequence of the fetched ones, which misses none that
      the channel took. */
  lemma {:induction false} DeliveredIsSubsequence(rounds: seq<Round>, n: nat) returns (at: seq<nat>)
    requires n <= |rounds|
    ensures |at| == |Delivered(rounds[..n])| && Increasing(at, n)
    ensures forall m :: 0 <= m < |at| ==>
      Delivers(rounds[at[m]]) && rounds[at[m]].payload == Delivered(rounds[..n])[m]
    ensures forall k :: 0 <= k < n && Delivers(rounds[k]) ==> k in at
  {
    at := [];
    if n > 0 {
      at := DeliveredIsSubsequence(rounds, n - 1);
      assert rounds[..n][..n - 1] == rounds[..n - 1];
      if Delivers(rounds[n - 1]) {
        at := at + [n - 1];
      }
    }
  }

  // ---------------------------------------------------------------- rates

  function Slept(actions: seq<Action>): nat {
    if actions == [] then 0
    else
      var last := actions[|actions| - 1];
      Slept(actions[..|actions| - 1]) + if last.Sleep? then last.secs else 0
  }

  lemma {:induction false} SleptConcat(left: seq<Action>, right: seq<Action>)
    ensures Slept(left + right) == Slept(left) + Slept(right)
    decreases |right|
  {
    if right == [] {
      assert left + right == left;
    } else {
      assert (left + right)[..|left + right| - 1] == left + right[..|right| - 1];
      SleptConcat(left, right[..|right| - 1]);
    }
  }

  lemma SleptOne(action: Action)
    ensures Slept([action]) == if action.Sleep? then action.secs else 0
  {
    assert [action][..0] == [];
  }

  lemma {:induction false} SleptPushing(payload: bytes, push: nat -> int, a: nat)
    requires a <= 3
    ensures Slept(Pushes(payload, push, a)) <= 3 - a
    decreases 3 - a
  {
    if a < 3 {
      SleptOne(Push(payload, push(a)));
      if push(a) != 0 {
        SleptPushing(payload, push, a + 1);
        SleptConcat([Push(payload, push(a)), Sleep(1)], Pushes(payload, push, a + 1));
        SleptConcat([Push(payload, push(a))], [Sleep(1)]);
        assert [Push(payload, push(a))] + [Sleep(1)] == [Push(payload, push(a)), Sleep(1)];
        SleptOne(Sleep(1));
      }
    }
  }

  /** Reachable backoff stays between min(interval, 60) and max(interval, 60). */
  lemma {:induction false} BackoffRange(interval: u32, rounds: seq<Round>)
    requires interval >= 1
    ensures Min(interval, 60) <= Backoff(interval, rounds) <= Max(interval, 60)
  {
    if rounds != [] {
      BackoffRange(interval, rounds[..|rounds| - 1]);
    }
  }

  lemma SleptInRound(interval: u32, rounds: seq<Round>, round: Round)
    requires interval >= 1
    ensures Min(interval, 60) <= Slept(Actions(interval, Backoff(interval, rounds), round))
    ensures Slept(Actions(interval, Backoff(interval, rounds), round)) <= Max(interval, 60) + 3
  {
    BackoffRange(interval, rounds);
    match round
    case FetchFailed => SleptOne(Sleep(Max(Backoff(interval, rounds), 1)));
    case Fetched(payload, push) =>
      SleptConcat(Pushes(payload, push, 0), [Sleep(interval)]);
      SleptOne(Sleep(interval));
      SleptPushing(payload, push, 0);
  }

  /** Rate over every run of `n` rounds: requested sleep is at least `n * min(interval, 60)` and at most
      `n * (max(interval, 60) + 3)` seconds. */
  lemma {:induction false} SleepRate(interval: u32, rounds: seq<Round>)
    requires interval >= 1
    ensures |rounds| * Min(interval, 60) <= Slept(Trace(interval, rounds))
    ensures Slept(Trace(interval, rounds)) <= |rounds| * (Max(interval, 60) + 3)
  {
    if rounds != [] {
      var before, last := rounds[..|rounds| - 1], rounds[|rounds| - 1];
      SleepRate(interval, before);
      SleptInRound(interval, before, last);
      SleptConcat(Trace(interval, before), Actions(interval, Backoff(interval, before), last));
      OneMore(|before|, Min(interval, 60));
      OneMore(|before|, Max(interval, 60) + 3);
    }
  }

  lemma OneMore(n: nat, x: nat)
    ensures (n + 1) * x == n * x + x
  {
  }
}
