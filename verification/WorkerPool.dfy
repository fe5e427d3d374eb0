/**
 The publint pool of scripts/publint-all.ts: how many workers to start (lines 62-75), and the shared
 counter and result slots they work on (lines 204-222), under every interleaving.
 */
module Concurrency {
  import opened Prelude

  predicate IsDigit(c: char) {
    '0' <= c <= '9'
  }

  function DigitValue(c: char): (v: nat)
    requires IsDigit(c)
    ensures v < 10
  {
    c as int - '0' as int
  }

  /** `String(n)` of a non-negative integer. */
  function Show(n: nat): (s: string)
    ensures s != ""
  {
    if n < 10 then [(n + '0' as int) as char] else Show(n / 10) + [(n % 10 + '0' as int) as char]
  }

  /** Read the leading digits into `acc`. */
  function Digits(s: string, acc: nat): (n: nat) {
    if s == "" || !IsDigit(s[0]) then acc else Digits(s[1..], 10 * acc + DigitValue(s[0]))
  }

  /** `Number.parseInt(s, 10)`; None is NaN. */
  function ParseInt(s: string): Option<int> {
    if s == "" then None
    else if IsWhitespace(s[0]) then ParseInt(s[1..])
    else
      var signed := s[0] == '-' || s[0] == '+';
      var body := if signed then s[1..] else s;
      if body == "" || !IsDigit(body[0]) then None
      else
        var value: int := Digits(body, 0);
        Some(if s[0] == '-' then -value else value)
  }

  function ShowInt(n: int): string {
    if n < 0 then "-" + Show(-n) else Show(n)
  }

  function Min(a: nat, b: nat): nat {
    if a < b then a else b
  }

  datatype ConcurrencyError = NotAPositiveInteger(raw: string)

  function PublintConcurrency(total: nat, raw: Option<string>, availableParallelism: nat): Result<nat, ConcurrencyError> {
    if total == 0 then Ok(0)
    else if raw.Some? && raw.value != "" then
      var parsed := ParseInt(raw.value);
      if parsed.None? || parsed.value > MAX_SAFE_INTEGER || parsed.value < 1 || ShowInt(parsed.value) != raw.value
      then Err(NotAPositiveInteger(raw.value))
      else Ok(Min(total, parsed.value))
    else Ok(Min(total, availableParallelism))
  }

  predicate AllDigits(s: string) {
    s == "" || (IsDigit(s[0]) && AllDigits(s[1..]))
  }

  lemma {:induction false} DigitsThenOne(s: string, c: char, acc: nat)
    requires AllDigits(s) && IsDigit(c)
    ensures AllDigits(s + [c])
    ensures Digits(s + [c], acc) == 10 * Digits(s, acc) + DigitValue(c)
    decreases |s|
  {
    if s == "" {
      assert s + [c] == [c];
      assert Digits([c][1..], 10 * acc + DigitValue(c)) == 10 * acc + DigitValue(c);
    } else {
      assert (s + [c])[1..] == s[1..] + [c];
      DigitsThenOne(s[1..], c, 10 * acc + DigitValue(s[0]));
    }
  }

  lemma {:induction false} ShowIsRead(n: nat)
    ensures AllDigits(Show(n)) && Digits(Show(n), 0) == n
  {
    if n < 10 {
      assert Show(n)[1..] == "";
    } else {
      ShowIsRead(n / 10);
      DigitsThenOne(Show(n / 10), (n % 10 + '0' as int) as char, 0);
    }
  }

  /** The setting is accepted exactly when it is a positive safe integer written the one way JavaScript writes it. */
  lemma AcceptedSettings(total: nat, raw: string, availableParallelism: nat)
    requires total > 0 && raw != ""
    ensures PublintConcurrency(total, Some(raw), availableParallelism).Ok? <==>
            exists n: nat :: 1 <= n <= MAX_SAFE_INTEGER && Show(n) == raw
    ensures forall n: nat :: 1 <= n <= MAX_SAFE_INTEGER && Show(n) == raw ==>
              PublintConcurrency(total, Some(raw), availableParallelism) == Ok(Min(total, n))
  {
    forall n: nat | 1 <= n <= MAX_SAFE_INTEGER && Show(n) == raw
      ensures PublintConcurrency(total, Some(raw), availableParallelism) == Ok(Min(total, n))
    {
      ShowIsRead(n);
      assert ParseInt(raw) == Some(n);
    }
    if PublintConcurrency(total, Some(raw), availableParallelism).Ok? {
      assert Show(ParseInt(raw).value) == raw;
    }
  }

  /** There is a worker whenever there is a target, and never one more than the targets; unset, as many as the machine runs at once. */
  lemma EnoughWorkers(total: nat, raw: Option<string>, availableParallelism: nat)
    requires availableParallelism >= 1
    ensures match PublintConcurrency(total, raw, availableParallelism) {
              case Ok(workers) => workers <= total && (total > 0 ==> workers > 0)
              case Err(_) => total > 0
            }
    ensures raw.None? || raw.value == "" ==>
              PublintConcurrency(total, raw, availableParallelism) == Ok(if total <= availableParallelism then total else availableParallelism)
  {}
}

module WorkerPool {
  import opened Prelude

  datatype Worker = Idle | Working(index: nat) | Done

  /** `started` records every lint begun, by worker and target; the rest is the state the workers share. */
  datatype Pool<R> = Pool(next: nat, workers: seq<Worker>, results: map<nat, R>, started: seq<(nat, nat)>)

  function Start<R>(concurrency: nat): Pool<R> {
    Pool(0, seq(concurrency, _ => Idle), map[], [])
  }

  /** One uninterrupted stretch of worker `w`: take the next index, or store the awaited result. */
  function Step<T, R>(p: Pool<R>, w: nat, targets: seq<T>, lint: T -> R): Pool<R>
    requires Bounded(p, |targets|) && w < |p.workers|
  {
    match p.workers[w]
    case Done => p
    case Idle =>
      if p.next < |targets|
      then p.(next := p.next + 1, workers := p.workers[w := Working(p.next)], started := p.started + [(w, p.next)])
      else p.(next := p.next + 1, workers := p.workers[w := Done])
    case Working(index) =>
      p.(workers := p.workers[w := Idle], results := p.results[index := lint(targets[index])])
  }

  predicate Bounded<R>(p: Pool<R>, total: nat) {
    forall w :: 0 <= w < |p.workers| && p.workers[w].Working? ==> p.workers[w].index < total
  }

  /** Target `i` is being linted by some worker. */
  ghost predicate Held<R>(p: Pool<R>, i: nat) {
    exists w :: 0 <= w < |p.workers| && p.workers[w] == Working(i)
  }

  /** Every index handed out is either held by exactly one worker or has its own target's result, never both. */
  ghost predicate Sound<T, R>(p: Pool<R>, targets: seq<T>, lint: T -> R) {
    && Bounded(p, |targets|)
    && (forall i: nat :: i in p.results ==> i < p.next && i < |targets| && p.results[i] == lint(targets[i]))
    && (forall i: nat :: i < p.next && i < |targets| ==> (i !in p.results <==> Held(p, i)))
    && (forall w :: 0 <= w < |p.workers| && p.workers[w].Working? ==> p.workers[w].index < p.next)
    && (forall v, w :: 0 <= v < w < |p.workers| && p.workers[v].Working? ==> p.workers[v] != p.workers[w])
    && (forall w :: 0 <= w < |p.workers| && p.workers[w].Done? ==> p.next > |targets|)
    && StartedInOrder(p, |targets|)
  }

  /** Lints start once a target, in target order. */
  ghost predicate StartedInOrder<R>(p: Pool<R>, total: nat) {
    && |p.started| == (if p.next < total then p.next else total)
    && (forall k :: 0 <= k < |p.started| ==> p.started[k].1 == k)
  }

  lemma StepKeepsSound<T, R>(p: Pool<R>, w: nat, targets: seq<T>, lint: T -> R)
    requires Sound(p, targets, lint) && w < |p.workers|
    ensures Sound(Step(p, w, targets, lint), targets, lint)
  {
    var q := Step(p, w, targets, lint);
    forall i: nat | i < q.next && i < |targets|
      ensures i !in q.results <==> Held(q, i)
    {
      HeldAfter(p, w, targets, lint, i);
    }
  }

  lemma HeldAfter<T, R>(p: Pool<R>, w: nat, targets: seq<T>, lint: T -> R, i: nat)
    requires Sound(p, targets, lint) && w < |p.workers|
    ensures Held(Step(p, w, targets, lint), i) <==>
            (Held(p, i) && p.workers[w] != Working(i)) || (p.workers[w].Idle? && p.next == i && i < |targets|)
  {
    var q := Step(p, w, targets, lint);
    if Held(q, i) {
      var v :| 0 <= v < |q.workers| && q.workers[v] == Working(i);
      assert v != w ==> p.workers[v] == Working(i);
    }
    if Held(p, i) && p.workers[w] != Working(i) {
      var v :| 0 <= v < |p.workers| && p.workers[v] == Working(i);
      assert q.workers[v] == Working(i);
    }
    if p.workers[w].Idle? && p.next == i && i < |targets| {
      assert q.workers[w] == Working(i);
    }
  }

  /** The steps left: two for each target not handed out, and what each worker still owes. */
  function Owed(workers: seq<Worker>): nat {
    if workers == [] then 0
    else Owed(workers[1..]) + (match workers[0] case Idle => 1 case Working(_) => 2 case Done => 0)
  }

  function StepsLeft<R>(p: Pool<R>, total: nat): nat {
    Owed(p.workers) + if p.next < total then 2 * (total - p.next) else 0
  }

  lemma {:induction false} OwedUpdate(workers: seq<Worker>, w: nat, to: Worker)
    requires w < |workers|
    ensures Owed(workers[w := to]) - Owed([to]) == Owed(workers) - Owed([workers[w]])
    decreases w
  {
    if w == 0 {
      assert workers[w := to][1..] == workers[1..];
    } else {
      OwedUpdate(workers[1..], w - 1, to);
      assert workers[w := to][1..] == workers[1..][w - 1 := to];
    }
  }

  lemma {:induction false} OwedNothing(workers: seq<Worker>)
    ensures Owed(workers) == 0 <==> forall w :: 0 <= w < |workers| ==> workers[w].Done?
  {
    if workers != [] {
      OwedNothing(workers[1..]);
      assert forall w :: 1 <= w < |workers| ==> workers[w] == workers[1..][w - 1];
    }
  }

  lemma {:induction false} OwedAtStart(concurrency: nat)
    ensures Owed(seq(concurrency, _ => Idle)) == concurrency
  {
    if concurrency > 0 {
      OwedAtStart(concurrency - 1);
      assert seq(concurrency, _ => Idle)[1..] == seq(concurrency - 1, _ => Idle);
    }
  }

  /** A step of a live worker is one step nearer the end. */
  lemma StepCounts<T, R>(p: Pool<R>, w: nat, targets: seq<T>, lint: T -> R)
    requires Bounded(p, |targets|) && w < |p.workers| && !p.workers[w].Done?
    ensures StepsLeft(Step(p, w, targets, lint), |targets|) == StepsLeft(p, |targets|) - 1
  {
    OwedUpdate(p.workers, w, Step(p, w, targets, lint).workers[w]);
  }

  ghost predicate AllDone<R>(p: Pool<R>) {
    forall w :: 0 <= w < |p.workers| ==> p.workers[w].Done?
  }

  /** The state after the workers move in the given order; a schedule names only live workers. */
  ghost predicate Reaches<T, R>(p: Pool<R>, schedule: seq<nat>, targets: seq<T>, lint: T -> R, q: Pool<R>)
    decreases |schedule|
  {
    if schedule == [] then p == q
    else
      && Bounded(p, |targets|) && schedule[0] < |p.workers| && !p.workers[schedule[0]].Done?
      && Reaches(Step(p, schedule[0], targets, lint), schedule[1..], targets, lint, q)
  }

  lemma {:induction false} RunKeeps<T, R>(p: Pool<R>, schedule: seq<nat>, targets: seq<T>, lint: T -> R, q: Pool<R>)
    requires Sound(p, targets, lint) && Reaches(p, schedule, targets, lint, q)
    ensures Sound(q, targets, lint) && |q.workers| == |p.workers|
    ensures StepsLeft(p, |targets|) == |schedule| + StepsLeft(q, |targets|)
    decreases |schedule|
  {
    if schedule != [] {
      StepKeepsSound(p, schedule[0], targets, lint);
      StepCounts(p, schedule[0], targets, lint);
      RunKeeps(Step(p, schedule[0], targets, lint), schedule[1..], targets, lint, q);
    }
  }

  lemma StartIsSound<T, R>(concurrency: nat, targets: seq<T>, lint: T -> R)
    ensures Sound<T, R>(Start(concurrency), targets, lint)
    ensures StepsLeft<R>(Start(concurrency), |targets|) == 2 * |targets| + concurrency
  {
    OwedAtStart(concurrency);
    assert Start<R>(concurrency).workers == seq(concurrency, _ => Idle);
  }

  /** A finished pool holds every target's own result, each linted once. */
  ghost predicate Complete<T, R>(q: Pool<R>, targets: seq<T>, lint: T -> R) {
    && (forall i: nat :: i in q.results <==> i < |targets|)
    && (forall i: nat :: i < |targets| ==> q.results[i] == lint(targets[i]))
    && |q.started| == |targets| && (forall i :: 0 <= i < |targets| ==> q.started[i].1 == i)
  }

  lemma DoneIsComplete<T, R>(q: Pool<R>, targets: seq<T>, lint: T -> R)
    requires Sound(q, targets, lint) && AllDone(q) && (|targets| > 0 ==> |q.workers| > 0)
    ensures Complete(q, targets, lint)
  {
    if |targets| > 0 { assert q.workers[0].Done?; }
    forall i: nat | i < |targets| ensures i in q.results { assert !Held(q, i); }
  }

  /**
   However the workers interleave: no run takes more than two steps a target and one a worker, it is
   over exactly when it has taken that many, and then no slot is missing, none is filled from another
   target, and no target was linted twice.
   */
  lemma EveryInterleaving<T, R>(concurrency: nat, schedule: seq<nat>, targets: seq<T>, lint: T -> R, q: Pool<R>)
    requires Reaches(Start(concurrency), schedule, targets, lint, q)
    requires |targets| > 0 ==> concurrency > 0
    ensures |schedule| <= 2 * |targets| + concurrency
    ensures AllDone(q) <==> |schedule| == 2 * |targets| + concurrency
    ensures AllDone(q) ==> Complete(q, targets, lint)
  {
    StartIsSound(concurrency, targets, lint);
    RunKeeps(Start(concurrency), schedule, targets, lint, q);
    OwedNothing(q.workers);
    if AllDone(q) {
      DoneIsComplete(q, targets, lint);
      if |targets| > 0 { assert q.workers[0].Done?; }
    }
  }

  datatype PoolError = MissingResult(index: nat)

  /** The results in target order, or the first slot that was never filled. */
  function Collect<R>(results: map<nat, R>, total: nat): Result<seq<R>, PoolError> {
    if total == 0 then Ok([])
    else
      match Collect(results, total - 1)
      case Err(error) => Err(error)
      case Ok(before) => if total - 1 in results then Ok(before + [results[total - 1]]) else Err(MissingResult(total - 1))
  }

  lemma {:induction false} CollectIsOk<R>(results: map<nat, R>, total: nat)
    ensures Collect(results, total).Ok? <==> forall i: nat :: i < total ==> i in results
    ensures Collect(results, total).Ok? ==>
              var all := Collect(results, total).value;
              |all| == total && forall i: nat :: i < total ==> i in results && all[i] == results[i]
  {
    if total > 0 { CollectIsOk(results, total - 1); }
  }

  /** `runAll`; which live worker moves next is left open. The missing-result error cannot happen. */
  method RunAll<T, R>(targets: seq<T>, concurrency: nat, lint: T -> R) returns (outcome: Result<seq<R>, PoolError>)
    requires |targets| > 0 ==> concurrency > 0
    ensures outcome.Ok? && |outcome.value| == |targets|
    ensures forall i :: 0 <= i < |targets| ==> outcome.value[i] == lint(targets[i])
  {
    var p: Pool<R> := Start(concurrency);
    StartIsSound(concurrency, targets, lint);
    while exists w :: 0 <= w < |p.workers| && !p.workers[w].Done?
      invariant Sound(p, targets, lint) && |p.workers| == concurrency
      decreases StepsLeft(p, |targets|)
    {
      var w :| 0 <= w < |p.workers| && !p.workers[w].Done?;
      StepKeepsSound(p, w, targets, lint);
      StepCounts(p, w, targets, lint);
      p := Step(p, w, targets, lint);
    }
    DoneIsComplete(p, targets, lint);
    CollectIsOk(p.results, |targets|);
    outcome := Collect(p.results, |targets|);
  }
}
