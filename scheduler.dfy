/**
  The scheduler (app/services/scheduler.py): the narrow cron interpreter, the
  stop-responsive sleep of the periodic loop, the single-flight flag of
  on-demand runs, and `run_once`, which fetches, upserts and records the run.
  Threads are replaced by a sequential model: a background job is the call of
  `RunJob` that follows a successful `TriggerAsync`, the stop event is a
  sequence of observations, and the clock is a parameter.
 */
module Scheduling {
  import opened Wrappers
  import opened Builtins
  import opened Papers
  import opened Storage

  const DefaultCron := "*/30 * * * *"
  const DefaultInterval := 30 * 60

  // ------------------------------------------------------------ interval

  // `_cron_to_interval_seconds`: a first whitespace-separated field "*/N", with
  // N an integer (signed, as `int` reads it), gives N minutes in seconds;
  // anything else (no field, a field not starting with "*/", an N that does not
  // parse) gives 30 minutes.
  function CronToInterval(expr: string): (seconds: int)
    ensures seconds % 60 == 0
    ensures FirstField(expr).None? ==> seconds == DefaultInterval
  {
    var field := FirstField(expr);
    var minutes := if field.Some? && StartsWith(field.value, "*/") then PyInt(field.value[2..]) else None;
    if minutes.Some? then MinutesToSeconds(minutes.value) else DefaultInterval
  }

  function MinutesToSeconds(m: int): (seconds: int)
    ensures seconds % 60 == 0 && seconds / 60 == m
  {
    m * 60
  }

  // "*/N" followed by the other fields (or by nothing) is read as N minutes, for every N.
  lemma CronEveryMinutes(n: int, rest: string)
    requires |rest| == 0 || IsSpace(rest[0])
    ensures CronToInterval("*/" + IntToText(n) + rest) == n * 60
  {
    var digits := IntToText(n);
    var field := "*/" + digits;
    var expr := field + rest;
    assert expr == "*/" + digits + rest;
    assert forall i :: 0 <= i < |field| ==> !IsSpace(field[i]) by {
      forall i | 0 <= i < |field| ensures !IsSpace(field[i]) {
        if i >= 2 {
          assert field[i] == digits[i - 2];
          if n < 0 && i > 2 { assert digits[i - 2] == NatToDigits(-n)[i - 3]; }
        }
      }
    }
    assert !IsSpace(expr[0]);
    assert SkipSpace(expr) == expr;
    TakeTokenOf(field, rest);
    assert FirstField(expr) == Some(field);
    assert field[..2] == "*/";
    assert field[2..] == digits;
    IntTextRoundTrip(n);
  }

  // Every step `int` accepts after "*/", in any spelling ("5", "05", "+5", "-05"), gives that many minutes.
  lemma CronStep(expr: string, n: int)
    requires FirstField(expr).Some? && StartsWith(FirstField(expr).value, "*/")
    requires PyInt(FirstField(expr).value[2..]) == Some(n)
    ensures CronToInterval(expr) == n * 60
  {
  }

  /** The first field of a field followed by whitespace (or by nothing) is that field. */
  lemma FirstFieldOf(field: string, rest: string)
    requires |field| > 0 && forall i :: 0 <= i < |field| ==> !IsSpace(field[i])
    requires |rest| == 0 || IsSpace(rest[0])
    ensures FirstField(field + rest) == Some(field)
  {
    assert (field + rest)[0] == field[0];
    assert SkipSpace(field + rest) == field + rest;
    TakeTokenOf(field, rest);
  }

  lemma CronQuarterHour()
    ensures CronToInterval("*/15 * * * *") == 900
  {
    FirstFieldOf("*/15", " * * * *");
    assert "*/15" + " * * * *" == "*/15 * * * *";
    assert "*/15"[2..] == "15";
    assert "15"[..1] == "1";
    assert DigitsValue("15") == 15;
  }

  lemma CronDefaultSchedule()
    ensures CronToInterval(DefaultCron) == DefaultInterval
  {
    FirstFieldOf("*/30", " * * * *");
    assert "*/30" + " * * * *" == DefaultCron;
    assert "*/30"[2..] == "30";
    assert "30"[..1] == "3";
    assert DigitsValue("30") == 30;
  }

  /** Empty and blank expressions have no first field and fall back to 30 minutes. */
  lemma CronBlankFallback(expr: string)
    requires forall i :: 0 <= i < |expr| ==> IsSpace(expr[i])
    ensures CronToInterval(expr) == DefaultInterval
  {
    assert |SkipSpace(expr)| == 0;
  }

  // A first field that does not start with "*/" (a fixed minute such as "0", a list, a range) falls back to 30 minutes.
  lemma CronFixedMinuteFallback(expr: string)
    requires FirstField(expr).Some? && !StartsWith(FirstField(expr).value, "*/")
    ensures CronToInterval(expr) == DefaultInterval
  {
  }

  // A step after "*/" that `int` refuses ("x", "", "1.5", "5-10") falls back to 30 minutes.
  lemma CronNonNumericFallback(expr: string)
    requires FirstField(expr).Some? && StartsWith(FirstField(expr).value, "*/")
    requires PyInt(FirstField(expr).value[2..]).None?
    ensures CronToInterval(expr) == DefaultInterval
  {
  }

  /** A negative step is accepted as written and gives a negative interval. */
  lemma CronNegativeStep()
    ensures CronToInterval("*/-5 * * * *") == -300
  {
    FirstFieldOf("*/-5", " * * * *");
    assert "*/-5" + " * * * *" == "*/-5 * * * *";
    assert "*/-5"[2..] == "-5";
    assert "-5"[1..] == "5";
    assert !IsDigit('-');
  }

  // ------------------------------------------------------------ sleeping

  /** The sleeps of one full interval: steps of 5 seconds, the last one shorter if need be. */
  function Slices(remaining: int): seq<int>
    decreases remaining
  {
    if remaining <= 0 then [] else [Min(5, remaining)] + Slices(remaining - Min(5, remaining))
  }

  function Sum(s: seq<int>): int
    decreases |s|
  {
    if |s| == 0 then 0 else Sum(s[..|s| - 1]) + s[|s| - 1]
  }

  lemma SumAppend(s: seq<int>, x: int)
    ensures Sum(s + [x]) == Sum(s) + x
  {
    assert (s + [x])[..|s|] == s;
  }

  lemma {:induction false} SumPrepend(x: int, s: seq<int>)
    ensures Sum([x] + s) == x + Sum(s)
    decreases |s|
  {
    if |s| > 0 {
      assert ([x] + s)[..|s|] == [x] + s[..|s| - 1];
      SumPrepend(x, s[..|s| - 1]);
    }
  }

  /** Every step is between 1 and 5 seconds, the steps add up to the interval, and there are ceil(interval / 5) of them. */
  lemma {:induction false} SlicesShape(n: int)
    ensures forall k :: 0 <= k < |Slices(n)| ==> 0 < Slices(n)[k] <= 5
    ensures Sum(Slices(n)) == Max(n, 0)
    ensures |Slices(n)| == if n <= 0 then 0 else (n + 4) / 5
    decreases n
  {
    if n > 0 {
      var step := Min(5, n);
      SlicesShape(n - step);
      SumPrepend(step, Slices(n - step));
    }
  }

  /** The loop's state: `steps` were slept, adding up to `slept`, and the rest of the schedule remains. */
  predicate SleptSoFar(interval: int, slept: int, steps: seq<int>) {
    && steps + Slices(interval - slept) == Slices(interval)
    && slept == Sum(steps) && 0 <= slept <= Max(interval, 0)
  }

  /** Taking the next step of the schedule moves it from what remains to what was slept. */
  lemma SleepStep(interval: int, slept: int, steps: seq<int>)
    requires SleptSoFar(interval, slept, steps) && slept < interval
    ensures SleptSoFar(interval, slept + Min(5, interval - slept), steps + [Min(5, interval - slept)])
  {
  }

  /** Whether the `k`-th look at the stop event finds it set; looks past the observed ones find it clear. */
  predicate StopSeenAt(stopChecks: seq<bool>, k: nat) {
    k < |stopChecks| && stopChecks[k]
  }

  predicate NeverStopped(stopChecks: seq<bool>) {
    forall k :: 0 <= k < |stopChecks| ==> !stopChecks[k]
  }

  /** None of the first `n` looks at the stop event found it set. */
  predicate NoStopBefore(stopChecks: seq<bool>, n: nat) {
    forall k :: 0 <= k < n ==> !StopSeenAt(stopChecks, k)
  }

  lemma NoStopExtends(stopChecks: seq<bool>, n: nat)
    requires NoStopBefore(stopChecks, n) && !StopSeenAt(stopChecks, n)
    ensures NoStopBefore(stopChecks, n + 1)
  {
  }

  /**
    The inner sleep of `_run_loop`: while less than the interval has been slept
    and the stop event is clear, sleep `min(5, interval - slept)`. The steps
    taken are the start of the full schedule, each at most 5 seconds; the loop
    only ends early when it sees the stop event, and without one it sleeps
    exactly the interval (nothing at all when the interval is not positive).
   */
  method SleepSliced(interval: int, stopChecks: seq<bool>) returns (slept: int, steps: seq<int>)
    ensures |steps| <= |Slices(interval)| && steps == Slices(interval)[..|steps|]
    ensures forall k :: 0 <= k < |steps| ==> 0 < steps[k] <= 5
    ensures slept == Sum(steps) && 0 <= slept <= Max(interval, 0)
    ensures forall k :: 0 <= k < |steps| ==> !StopSeenAt(stopChecks, k)
    ensures |steps| < |Slices(interval)| ==> StopSeenAt(stopChecks, |steps|)
    ensures NeverStopped(stopChecks) ==> slept == Max(interval, 0) && steps == Slices(interval)
  {
    slept := 0;
    steps := [];
    while slept < interval && !StopSeenAt(stopChecks, |steps|)
      invariant SleptSoFar(interval, slept, steps)
      invariant NoStopBefore(stopChecks, |steps|)
      decreases interval - slept
    {
      var step := Min(5, interval - slept);
      SleepStep(interval, slept, steps);
      NoStopExtends(stopChecks, |steps|);
      steps := steps + [step];
      slept := slept + step;
    }
    SleepOutcome(interval, stopChecks, slept, steps);
  }

  /** What the sleep loop's invariant gives once the loop has ended. */
  lemma SleepOutcome(interval: int, stopChecks: seq<bool>, slept: int, steps: seq<int>)
    requires SleptSoFar(interval, slept, steps) && NoStopBefore(stopChecks, |steps|)
    requires !(slept < interval && !StopSeenAt(stopChecks, |steps|))
    ensures |steps| <= |Slices(interval)| && steps == Slices(interval)[..|steps|]
    ensures forall k :: 0 <= k < |steps| ==> 0 < steps[k] <= 5
    ensures slept == Sum(steps) && 0 <= slept <= Max(interval, 0)
    ensures forall k :: 0 <= k < |steps| ==> !StopSeenAt(stopChecks, k)
    ensures |steps| < |Slices(interval)| ==> StopSeenAt(stopChecks, |steps|)
    ensures NeverStopped(stopChecks) ==> slept == Max(interval, 0) && steps == Slices(interval)
  {
    SlicesShape(interval);
    SlicesShape(interval - slept);
    assert steps == Slices(interval)[..|steps|];
    forall k | 0 <= k < |steps| ensures 0 < steps[k] <= 5 {
      assert steps[k] == Slices(interval)[k];
    }
  }

  // ------------------------------------------------------------ single flight

  /** The events the on-demand flag sees: a trigger, or the end of the background job. */
  datatype JobEvent = Trigger | Complete

  /** The flag after an event: a trigger claims it, a completed job releases it. */
  function FlagAfter(running: bool, e: JobEvent): bool {
    match e
    case Trigger => true
    case Complete => false
  }

  function Replay(running: bool, events: seq<JobEvent>): bool
    decreases |events|
  {
    if |events| == 0 then running else FlagAfter(Replay(running, events[..|events| - 1]), events[|events| - 1])
  }

  /** The answers the triggers of a trace get: started exactly when the flag was clear. */
  function Responses(running: bool, events: seq<JobEvent>): seq<bool>
    decreases |events|
  {
    if |events| == 0 then []
    else
      var before := Replay(running, events[..|events| - 1]);
      Responses(running, events[..|events| - 1]) + (if events[|events| - 1] == Trigger then [!before] else [])
  }

  function CountTrue(s: seq<bool>): nat
    decreases |s|
  {
    if |s| == 0 then 0 else CountTrue(s[..|s| - 1]) + (if s[|s| - 1] then 1 else 0)
  }

  function CountCompletes(events: seq<JobEvent>): nat
    decreases |events|
  {
    if |events| == 0 then 0 else CountCompletes(events[..|events| - 1]) + (if events[|events| - 1] == Complete then 1 else 0)
  }

  /** A job completes only after it was started: every `Complete` finds the flag set. */
  predicate CompletesOnlyRunning(running: bool, events: seq<JobEvent>) {
    forall k :: 0 <= k < |events| && events[k] == Complete ==> Replay(running, events[..k])
  }

  lemma CountTrueAppend(s: seq<bool>, b: bool)
    ensures CountTrue(s + [b]) == CountTrue(s) + (if b then 1 else 0)
  {
    assert (s + [b])[..|s|] == s;
  }

  /**
    Single flight: from a clear flag, the jobs started and not yet completed
    number exactly one when the flag is set and none when it is clear, so two
    on-demand jobs never run at once.
   */
  lemma {:induction false} SingleFlight(events: seq<JobEvent>)
    requires CompletesOnlyRunning(false, events)
    ensures CountTrue(Responses(false, events)) == CountCompletes(events) + (if Replay(false, events) then 1 else 0)
    decreases |events|
  {
    if |events| > 0 {
      var init := events[..|events| - 1];
      forall k | 0 <= k < |init| && init[k] == Complete ensures Replay(false, init[..k]) {
        assert events[k] == Complete;
        assert events[..k] == init[..k];
      }
      SingleFlight(init);
      var last := events[|events| - 1];
      var inner := if last == Trigger then [!Replay(false, init)] else [];
      assert Responses(false, events) == Responses(false, init) + inner;
      if last == Trigger {
        CountTrueAppend(Responses(false, init), !Replay(false, init));
      } else {
        assert events[..|events| - 1] == init;
        assert Replay(false, init);
        assert Responses(false, init) + inner == Responses(false, init);
      }
    }
  }

  /** Back to back triggers: the second is refused while the first runs; after it completes, a third starts. */
  lemma SingleFlightExample()
    ensures Responses(false, [Trigger, Trigger, Complete, Trigger]) == [true, false, true]
  {
    var e := [Trigger, Trigger, Complete, Trigger];
    assert e[..3] == [Trigger, Trigger, Complete];
    assert e[..3][..2] == [Trigger, Trigger];
    assert e[..3][..2][..1] == [Trigger];
    assert [Trigger][..0] == [];
    assert Replay(false, [Trigger]) == true;
    assert Replay(false, [Trigger, Trigger]) == true;
    assert Replay(false, [Trigger, Trigger, Complete]) == false;
    assert Responses(false, [Trigger]) == [true];
    assert Responses(false, [Trigger, Trigger]) == [true, false];
    assert Responses(false, [Trigger, Trigger, Complete]) == [true, false];
  }

  // ------------------------------------------------------------ one run

  /**
    The Nature crawler's contribution. `run_once` calls `fetch_search`, which
    the Nature crawler does not define, so the call raises `AttributeError`,
    which `run_once` absorbs: the site contributes nothing.
   */
  const NatureSearchOutcome: FetchOutcome := Raised

  /** `[f for f in (FEEDS or []) if f]`. */
  function TruthyFeeds(feeds: seq<string>): seq<string>
    decreases |feeds|
  {
    if |feeds| == 0 then []
    else TruthyFeeds(feeds[..|feeds| - 1]) + (if |feeds[|feeds| - 1]| > 0 then [feeds[|feeds| - 1]] else [])
  }

  lemma {:induction false} TruthyFeedsMembers(feeds: seq<string>)
    ensures forall f :: f in TruthyFeeds(feeds) <==> f in feeds && |f| > 0
    decreases |feeds|
  {
    if |feeds| > 0 {
      TruthyFeedsMembers(feeds[..|feeds| - 1]);
      assert feeds == feeds[..|feeds| - 1] + [feeds[|feeds| - 1]];
    }
  }

  /** The batch of one run: the Nature papers, then the RSS papers, the RSS crawler only run when a feed is configured. */
  function CombineBatch(nature: FetchOutcome, feeds: seq<string>, rss: FetchOutcome): seq<Paper> {
    Contribution(nature) + (if |feeds| > 0 then Contribution(rss) else [])
  }

  /** A fetcher that raises leaves the other fetcher's papers as the whole batch. */
  lemma FetcherFaultIsolation(nature: FetchOutcome, feeds: seq<string>, rss: FetchOutcome)
    ensures nature.Raised? ==> CombineBatch(nature, feeds, rss) == (if |feeds| > 0 then Contribution(rss) else [])
    ensures rss.Raised? ==> CombineBatch(nature, feeds, rss) == Contribution(nature)
    ensures |feeds| == 0 ==> CombineBatch(nature, feeds, rss) == Contribution(nature)
  {
  }

  function ConfiguredFeeds(config: Config): seq<string> {
    TruthyFeeds(config.feeds.GetOr([]))
  }

  /** The batch `run_once` upserts, given what the RSS crawler did. */
  function RunBatch(config: Config, rss: FetchOutcome): seq<Paper> {
    CombineBatch(NatureSearchOutcome, ConfiguredFeeds(config), rss)
  }

  /** As written, a run upserts exactly the RSS papers, and nothing at all without a configured feed. */
  lemma RunBatchIsRssOnly(config: Config, rss: FetchOutcome)
    ensures RunBatch(config, rss) == if |ConfiguredFeeds(config)| > 0 then Contribution(rss) else []
  {
  }

  /** Whether the upsert of `batch` raises: it does when a record's write faults; an empty batch never connects. */
  predicate UpsertFaults(batch: seq<Paper>, faultAt: Option<nat>) {
    |batch| > 0 && faultAt.Some? && faultAt.value < |batch|
  }

  /** The configuration entries the scheduler reads: the schedule, the storage backend, the feed list. */
  datatype Config = Config(schedulerCron: Option<string>, storageBackend: Option<string>, feeds: Option<seq<string>>)

  /** The two clocks a run reads: the database's CURRENT_TIMESTAMP and `datetime.utcnow().isoformat()`. */
  datatype Clock = Clock(dbTimestamp: string, utcIso: string)

  datatype RunError = BackendRejected | UpsertRaised

  /** What `status()` reports. */
  datatype StatusSnapshot = StatusSnapshot(lastRunAt: Option<string>, lastResultCount: int, running: bool, jobRunning: bool)

  class Scheduler {
    const config: Config
    const interval: int
    /** The database every `get_storage` call opens (one file, so one table). */
    const db: PaperTable
    var threadAlive: bool
    var stopSignalled: bool
    var lastRunAt: Option<string>
    var lastResultCount: int
    var jobRunning: bool

    ghost predicate Valid()
      reads this, db
    {
      db.Valid()
    }

    /** `__init__`: no thread, no run yet, the flag clear, and the interval read from the schedule once. */
    constructor (config: Config, db: PaperTable)
      requires db.Valid()
      ensures Valid()
      ensures this.config == config && this.db == db
      ensures interval == CronToInterval(config.schedulerCron.GetOr(DefaultCron))
      ensures !threadAlive && !stopSignalled && lastRunAt.None? && lastResultCount == 0 && !jobRunning
    {
      this.config := config;
      this.db := db;
      interval := CronToInterval(config.schedulerCron.GetOr(DefaultCron));
      threadAlive := false;
      stopSignalled := false;
      lastRunAt := None;
      lastResultCount := 0;
      jobRunning := false;
    }

    /** `start`: nothing when the loop's thread is alive; otherwise clear the stop event and start the loop. */
    method Start()
      modifies this
      ensures old(threadAlive) ==> threadAlive && stopSignalled == old(stopSignalled)
      ensures !old(threadAlive) ==> threadAlive && !stopSignalled
      ensures lastRunAt == old(lastRunAt) && lastResultCount == old(lastResultCount) && jobRunning == old(jobRunning)
    {
      if threadAlive {
        return;
      }
      stopSignalled := false;
      threadAlive := true;
    }

    /**
      `run_once`: check the storage backend, collect the batch, upsert it, and
      only once the upsert has returned record the time and its count. Either
      failure raises and leaves the table and the status as they were.
     */
    method RunOnce(rss: FetchOutcome, faultAt: Option<nat>, clock: Clock) returns (r: Result<nat, RunError>)
      requires Valid()
      modifies this, db
      ensures Valid()
      ensures threadAlive == old(threadAlive) && stopSignalled == old(stopSignalled) && jobRunning == old(jobRunning)
      ensures GetStorage(config.storageBackend).Failure? ==>
        r == Failure(BackendRejected) && db.State() == old(db.State()) && Status() == old(Status())
      ensures GetStorage(config.storageBackend).Success? && UpsertFaults(RunBatch(config, rss), faultAt) ==>
        r == Failure(UpsertRaised) && db.State() == old(db.State()) && Status() == old(Status())
      ensures GetStorage(config.storageBackend).Success? && !UpsertFaults(RunBatch(config, rss), faultAt) ==>
        var batch := RunBatch(config, rss);
        && r == Success(|batch|)
        && db.State() == ApplyBatch(old(db.State()), batch, clock.dbTimestamp)
        && Status() == old(Status()).(lastRunAt := Some(clock.utcIso), lastResultCount := |batch|)
    {
      var backend := GetStorage(config.storageBackend);
      if backend.Failure? {
        return Failure(BackendRejected);
      }
      var papers: seq<Paper> := Contribution(NatureSearchOutcome);
      var feeds := ConfiguredFeeds(config);
      if |feeds| > 0 {
        if rss.Returned? {
          papers := papers + rss.papers;
        }
      }
      assert papers == RunBatch(config, rss);
      var count := db.UpsertPapers(papers, faultAt, clock.dbTimestamp);
      if count.Failure? {
        return Failure(UpsertRaised);
      }
      if |papers| == 0 {
        assert ApplyBatch(old(db.State()), papers, clock.dbTimestamp) == old(db.State());
      }
      lastRunAt := Some(clock.utcIso);
      lastResultCount := count.value;
      return Success(count.value);
    }

    /** `run_once_async`: refuse and change nothing while a job runs; otherwise claim the flag and start one. */
    method TriggerAsync() returns (started: bool)
      modifies this
      ensures started == !old(jobRunning)
      ensures jobRunning == FlagAfter(old(jobRunning), Trigger)
      ensures threadAlive == old(threadAlive) && stopSignalled == old(stopSignalled)
      ensures lastRunAt == old(lastRunAt) && lastResultCount == old(lastResultCount)
    {
      if jobRunning {
        return false;
      }
      jobRunning := true;
      return true;
    }

    /**
      The background `_job`: one run, then the flag released whether the run
      returned or raised; the run's outcome is that of `RunOnce`.
     */
    method RunJob(rss: FetchOutcome, faultAt: Option<nat>, clock: Clock) returns (r: Result<nat, RunError>)
      requires Valid()
      modifies this, db
      ensures Valid()
      ensures jobRunning == FlagAfter(old(jobRunning), Complete)
      ensures threadAlive == old(threadAlive) && stopSignalled == old(stopSignalled)
      ensures GetStorage(config.storageBackend).Failure? ==>
        r == Failure(BackendRejected) && db.State() == old(db.State())
        && Status() == old(Status()).(jobRunning := false)
      ensures GetStorage(config.storageBackend).Success? && UpsertFaults(RunBatch(config, rss), faultAt) ==>
        r == Failure(UpsertRaised) && db.State() == old(db.State())
        && Status() == old(Status()).(jobRunning := false)
      ensures GetStorage(config.storageBackend).Success? && !UpsertFaults(RunBatch(config, rss), faultAt) ==>
        var batch := RunBatch(config, rss);
        && r == Success(|batch|)
        && db.State() == ApplyBatch(old(db.State()), batch, clock.dbTimestamp)
        && Status() == old(Status()).(lastRunAt := Some(clock.utcIso), lastResultCount := |batch|, jobRunning := false)
    {
      r := RunOnce(rss, faultAt, clock);
      jobRunning := false;
    }

    /**
      One pass of `_run_loop`: a run whose failure is swallowed so the loop
      survives it, then the sliced sleep of one interval. The run's outcome is
      returned alongside the sleep so that what it did to the table and the
      status can be stated.
     */
    method RunLoopPass(rss: FetchOutcome, faultAt: Option<nat>, clock: Clock, stopChecks: seq<bool>)
      returns (r: Result<nat, RunError>, slept: int, steps: seq<int>)
      requires Valid()
      modifies this, db
      ensures Valid()
      ensures jobRunning == old(jobRunning) && threadAlive == old(threadAlive) && stopSignalled == old(stopSignalled)
      ensures GetStorage(config.storageBackend).Failure? ==>
        r == Failure(BackendRejected) && db.State() == old(db.State()) && Status() == old(Status())
      ensures GetStorage(config.storageBackend).Success? && UpsertFaults(RunBatch(config, rss), faultAt) ==>
        r == Failure(UpsertRaised) && db.State() == old(db.State()) && Status() == old(Status())
      ensures GetStorage(config.storageBackend).Success? && !UpsertFaults(RunBatch(config, rss), faultAt) ==>
        var batch := RunBatch(config, rss);
        && r == Success(|batch|)
        && db.State() == ApplyBatch(old(db.State()), batch, clock.dbTimestamp)
        && Status() == old(Status()).(lastRunAt := Some(clock.utcIso), lastResultCount := |batch|)
      ensures |steps| <= |Slices(interval)| && steps == Slices(interval)[..|steps|] && slept == Sum(steps) && 0 <= slept <= Max(interval, 0)
      ensures forall k :: 0 <= k < |steps| ==> !StopSeenAt(stopChecks, k)
      ensures |steps| < |Slices(interval)| ==> StopSeenAt(stopChecks, |steps|)
      ensures NeverStopped(stopChecks) ==> slept == Max(interval, 0)
    {
      r := RunOnce(rss, faultAt, clock);
      slept, steps := SleepSliced(interval, stopChecks);
    }

    /** `status()`: the last completed run, whether the loop's thread is alive, and the on-demand flag. */
    function Status(): (s: StatusSnapshot)
      reads this
      ensures s.lastRunAt == lastRunAt && s.lastResultCount == lastResultCount
      ensures s.running == threadAlive && s.jobRunning == jobRunning
    {
      StatusSnapshot(lastRunAt, lastResultCount, threadAlive, jobRunning)
    }
  }
}
