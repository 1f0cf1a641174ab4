/** The `auto_backups` process: the interval parser and the decision rule of
    its endless loop. Sleeping, logging and the clock are left out; each
    pass of the loop is described by whether it attempted a backup, whether
    that backup raised, how long it then sleeps and the loop state after. */
module Process {
  import opened Common
  import opened Numerals

  const HOUR_TO_SECONDS: int := 60 * 60
  const RETRY_IN_MINUTES: int := 10

  /** The two `ValueError`s of `parse_time_string`. */
  datatype TimeError = MissingHourSuffix | NotAnInteger

  /** `s.replace(c, '')`: every occurrence of `c` removed. */
  function RemoveAll(s: string, c: char): (r: string)
    ensures c !in r
    ensures c !in s ==> r == s
    ensures |r| <= |s|
  {
    if s == [] then []
    else (if s[0] == c then [] else [s[0]]) + RemoveAll(s[1..], c)
  }

  lemma {:induction false} RemoveAllAppend(a: string, b: string, c: char)
    ensures RemoveAll(a + b, c) == RemoveAll(a, c) + RemoveAll(b, c)
    decreases |a|
  {
    if a != [] {
      assert (a + b)[1..] == a[1..] + b;
      RemoveAllAppend(a[1..], b, c);
    } else {
      assert a + b == b;
    }
  }

  /** `parse_time_string`: the text must contain an 'h'; every 'h' is
      removed and the rest must be an integer. */
  function ParseTimeString(s: string): (r: Result<int, TimeError>)
    ensures r == Err(MissingHourSuffix) <==> 'h' !in s
    ensures r == Err(NotAnInteger) <==> 'h' in s && !IsIntLiteral(RemoveAll(s, 'h'))
  {
    if 'h' !in s then Err(MissingHourSuffix)
    else
      match ParseInt(RemoveAll(s, 'h'))
      case None => Err(NotAnInteger)
      case Some(v) => Ok(v)
  }

  /** A printed integer has no 'h' in it. */
  lemma NoHourMarkInNumeral(n: int)
    ensures 'h' !in IntToString(n)
  {
    var d := NatToString(if n < 0 then -n else n);
    assert forall i :: 0 <= i < |d| ==> IsDigit(d[i]);
    assert 'h' !in d;
  }

  /** An integer followed by the hour marker parses to that integer; so
      does one with the marker anywhere inside it, since every 'h' is
      removed (`"1h2"` reads as 12). */
  lemma HourMarkAnywhere(n: int, a: string, b: string)
    requires a + b == IntToString(n)
    ensures ParseTimeString(a + "h" + b) == Ok(n)
  {
    NoHourMarkInNumeral(n);
    NoHourMarkInParts(IntToString(n), a, b);
    RemoveHourMark(a, b);
    assert (a + "h" + b)[|a|] == 'h';
    ParseIntToString(n);
  }

  /** Removing the one 'h' between two 'h'-free texts joins them. */
  lemma RemoveHourMark(a: string, b: string)
    requires 'h' !in a && 'h' !in b
    ensures RemoveAll(a + "h" + b, 'h') == a + b
  {
    var ah := a + "h";
    assert RemoveAll("h", 'h') == [] by {
      assert "h"[1..] == [];
    }
    RemoveAllAppend(a, "h", 'h');
    assert RemoveAll(ah, 'h') == a;
    RemoveAllAppend(ah, b, 'h');
  }

  lemma NoHourMarkInParts(t: string, a: string, b: string)
    requires a + b == t && 'h' !in t
    ensures 'h' !in a && 'h' !in b
  {
    assert forall i :: 0 <= i < |a| ==> a[i] == t[i];
    assert forall i :: 0 <= i < |b| ==> b[i] == t[|a| + i];
  }

  /** The interval `{n}h` the option's help text describes gives `n`. */
  lemma ParseHours(n: int)
    ensures ParseTimeString(IntToString(n) + "h") == Ok(n)
  {
    HourMarkAnywhere(n, IntToString(n), []);
    assert IntToString(n) + "h" + [] == IntToString(n) + "h";
  }

  lemma ParseTimeStringExamples()
    ensures ParseTimeString("6h") == Ok(6)
    ensures ParseTimeString("1h2") == Ok(12)
    ensures ParseTimeString("6") == Err(MissingHourSuffix)
    ensures ParseTimeString("h") == Err(NotAnInteger)
    ensures ParseTimeString("xh") == Err(NotAnInteger)
  {
    assert IntToString(6) == "6";
    HourMarkAnywhere(6, "6", "");
    assert "6" + "h" + "" == "6h";
    assert IntToString(12) == "12" by {
      assert NatToString(1) == "1";
    }
    HourMarkAnywhere(12, "1", "2");
    assert "1" + "h" + "2" == "1h2";
    assert RemoveAll("h", 'h') == [];
    assert RemoveAll("xh", 'h') == "x";
    assert !IsDigit('x');
  }

  /** `hours_conter` and `backup_failed`. */
  datatype LoopState = LoopState(hoursCounter: int, backupFailed: bool)

  /** One pass of the loop body. */
  datatype Iteration = Iteration(attempted: bool, raised: bool, sleepSeconds: int, after: LoopState)

  /** How a successful backup affects the counter: the loop as written
      leaves it alone; the evidently intended schedule restarts it. */
  datatype Policy = AsWritten | ResetOnSuccess

  /** One pass from state `s`; `raised` is whether a backup started in this
      pass would raise. A backup is attempted when the counter equals the
      interval; a raised backup makes the loop sleep `RETRY_IN_MINUTES` and
      leaves the counter alone, otherwise it sleeps an hour and counts it. */
  function Step(policy: Policy, s: LoopState, every: int, raised: bool): Iteration {
    var attempted := s.hoursCounter == every;
    var failed := if attempted then raised else s.backupFailed;
    var counter := if policy == ResetOnSuccess && attempted && !raised then 0 else s.hoursCounter;
    if failed then Iteration(attempted, attempted && raised, RETRY_IN_MINUTES * 60, LoopState(counter, true))
    else Iteration(attempted, attempted && raised, HOUR_TO_SECONDS, LoopState(counter + 1, false))
  }

  /** The state after the passes described by `raised`, starting from the
      counter at the interval and no failure. */
  function StateAfter(policy: Policy, every: int, raised: seq<bool>): LoopState
    decreases |raised|
  {
    if raised == [] then LoopState(every, false)
    else
      var n := |raised| - 1;
      Step(policy, StateAfter(policy, every, raised[..n]), every, raised[n]).after
  }

  /** The passes themselves. */
  function Run(policy: Policy, every: int, raised: seq<bool>): (run: seq<Iteration>)
    ensures |run| == |raised|
    decreases |raised|
  {
    if raised == [] then []
    else
      var n := |raised| - 1;
      Run(policy, every, raised[..n]) + [Step(policy, StateAfter(policy, every, raised[..n]), every, raised[n])]
  }

  /** The `auto_backups` command: parse the interval, then run the loop
      for as many passes as `raised` describes (the source loops forever).
      `AsWritten` is the loop of the source; `ResetOnSuccess` restarts the
      counter after a backup that succeeded, the schedule the command
      promises. */
  method AutoBackups(policy: Policy, every: string, raised: seq<bool>) returns (r: Result<seq<Iteration>, TimeError>)
    ensures ParseTimeString(every).Err? ==> r == Err(ParseTimeString(every).error)
    ensures ParseTimeString(every).Ok? ==> r == Ok(Run(policy, ParseTimeString(every).value, raised))
  {
    var parsed := ParseTimeString(every);
    if parsed.Err? {
      return Err(parsed.error);
    }
    var everyHours := parsed.value;
    var hoursCounter := everyHours;
    var backupFailed := false;
    var trace: seq<Iteration> := [];
    for k := 0 to |raised|
      invariant trace == Run(policy, everyHours, raised[..k])
      invariant LoopState(hoursCounter, backupFailed) == StateAfter(policy, everyHours, raised[..k])
    {
      assert raised[..k + 1][..k] == raised[..k];
      var attempted := hoursCounter == everyHours;
      if attempted {
        backupFailed := raised[k];
        if policy == ResetOnSuccess && !backupFailed {
          hoursCounter := 0;
        }
      }
      var sleepSeconds;
      if backupFailed {
        sleepSeconds := RETRY_IN_MINUTES * 60;
      } else {
        sleepSeconds := HOUR_TO_SECONDS;
        hoursCounter := hoursCounter + 1;
      }
      trace := trace + [Iteration(attempted, attempted && raised[k], sleepSeconds, LoopState(hoursCounter, backupFailed))];
    }
    assert raised[..|raised|] == raised;
    return Ok(trace);
  }

  /** Pass `k` starts from the state the first `k` passes leave. */
  lemma {:induction false} RunAt(policy: Policy, every: int, raised: seq<bool>, k: nat)
    requires k < |raised|
    ensures Run(policy, every, raised)[k] == Step(policy, StateAfter(policy, every, raised[..k]), every, raised[k])
    decreases |raised|
  {
    var n := |raised| - 1;
    if k < n {
      RunAt(policy, every, raised[..n], k);
      assert raised[..n][..k] == raised[..k];
    } else {
      assert raised[..k] == raised[..n];
    }
  }

  lemma StateAfterStep(policy: Policy, every: int, raised: seq<bool>, k: nat)
    requires k < |raised|
    ensures StateAfter(policy, every, raised[..k + 1]) ==
      Step(policy, StateAfter(policy, every, raised[..k]), every, raised[k]).after
  {
    assert raised[..k + 1][..k] == raised[..k];
  }

  /** The first pass attempts a backup. */
  lemma FirstPassBacksUp(policy: Policy, every: int, raised: seq<bool>)
    requires |raised| > 0
    ensures Run(policy, every, raised)[0].attempted
  {
    RunAt(policy, every, raised, 0);
    assert raised[..0] == [];
  }

  /** A backup that raised is retried on the very next pass, after a sleep
      of `RETRY_IN_MINUTES`. */
  lemma RetryAfterFailure(policy: Policy, every: int, raised: seq<bool>, k: nat)
    requires k + 1 < |raised| && Run(policy, every, raised)[k].raised
    ensures Run(policy, every, raised)[k].sleepSeconds == RETRY_IN_MINUTES * 60
    ensures Run(policy, every, raised)[k + 1].attempted
  {
    RunAt(policy, every, raised, k);
    RunAt(policy, every, raised, k + 1);
    StateAfterStep(policy, every, raised, k);
  }

  /** The loop as written: the counter starts at the interval and never
      goes down, and a failure is only ever pending at the interval. */
  lemma {:induction false} AsWrittenState(every: int, raised: seq<bool>)
    ensures StateAfter(AsWritten, every, raised).hoursCounter >= every
    ensures StateAfter(AsWritten, every, raised).backupFailed ==>
      StateAfter(AsWritten, every, raised).hoursCounter == every
    decreases |raised|
  {
    if raised != [] {
      AsWrittenState(every, raised[..|raised| - 1]);
    }
  }

  /** The loop as written: once the counter has passed the interval with
      no failure pending, it stays so. */
  lemma {:induction false} StaysPastInterval(every: int, raised: seq<bool>, i: nat, m: nat)
    requires i <= m <= |raised|
    requires StateAfter(AsWritten, every, raised[..i]).hoursCounter > every
    requires !StateAfter(AsWritten, every, raised[..i]).backupFailed
    ensures StateAfter(AsWritten, every, raised[..m]).hoursCounter > every
    ensures !StateAfter(AsWritten, every, raised[..m]).backupFailed
    decreases m - i
  {
    if i < m {
      StateAfterStep(AsWritten, every, raised, i);
      StaysPastInterval(every, raised, i + 1, m);
    }
  }

  /** The loop as written: after the first backup that succeeds, no backup
      is ever attempted again. */
  lemma NoBackupAfterFirstSuccess(every: int, raised: seq<bool>, k: nat, j: nat)
    requires k < j < |raised|
    requires Run(AsWritten, every, raised)[k].attempted && !Run(AsWritten, every, raised)[k].raised
    ensures !Run(AsWritten, every, raised)[j].attempted
  {
    RunAt(AsWritten, every, raised, k);
    StateAfterStep(AsWritten, every, raised, k);
    StaysPastInterval(every, raised, k + 1, j);
    RunAt(AsWritten, every, raised, j);
  }

  /** Under either policy, a run in which no backup raises never has a
      failure pending. */
  lemma {:induction false} NoFailurePending(policy: Policy, every: int, raised: seq<bool>)
    requires forall i :: 0 <= i < |raised| ==> !raised[i]
    ensures !StateAfter(policy, every, raised).backupFailed
    decreases |raised|
  {
    if raised != [] {
      NoFailurePending(policy, every, raised[..|raised| - 1]);
    }
  }

  /** With the counter restarted on success and no backup raising, `d`
      passes after a backup the counter stands at `d`. */
  lemma {:induction false} PeriodicCounter(every: int, raised: seq<bool>, k: nat, d: nat)
    requires every >= 1 && 1 <= d <= every && k + d <= |raised|
    requires forall i :: 0 <= i < |raised| ==> !raised[i]
    requires StateAfter(ResetOnSuccess, every, raised[..k]).hoursCounter == every
    ensures StateAfter(ResetOnSuccess, every, raised[..k + d]) == LoopState(d, false)
    decreases d
  {
    NoFailurePending(ResetOnSuccess, every, raised[..k]);
    if d > 1 {
      PeriodicCounter(every, raised, k, d - 1);
    }
    StateAfterStep(ResetOnSuccess, every, raised, k + d - 1);
  }

  /** The intended schedule: with no backup raising, after a pass that
      backs up the next backup comes exactly `every` passes (hours) later,
      and none in between. */
  lemma PeriodicBackups(every: int, raised: seq<bool>, k: nat)
    requires every >= 1 && k + every < |raised|
    requires forall i :: 0 <= i < |raised| ==> !raised[i]
    requires Run(ResetOnSuccess, every, raised)[k].attempted
    ensures forall j :: k < j < k + every ==> !Run(ResetOnSuccess, every, raised)[j].attempted
    ensures Run(ResetOnSuccess, every, raised)[k + every].attempted
  {
    RunAt(ResetOnSuccess, every, raised, k);
    forall j | k < j <= k + every
      ensures Run(ResetOnSuccess, every, raised)[j].attempted <==> j == k + every
    {
      PeriodicCounter(every, raised, k, j - k);
      RunAt(ResetOnSuccess, every, raised, j);
    }
  }

  /** With the default interval `6h` and no failure, pass 6 (six hours
      after the first backup) attempts a backup under the intended schedule
      and none as written. */
  lemma DefaultIntervalCounterexample(raised: seq<bool>)
    requires |raised| == 7 && forall i :: 0 <= i < 7 ==> !raised[i]
    ensures ParseTimeString("6h") == Ok(6)
    ensures Run(ResetOnSuccess, 6, raised)[6].attempted
    ensures !Run(AsWritten, 6, raised)[6].attempted
  {
    ParseTimeStringExamples();
    FirstPassBacksUp(ResetOnSuccess, 6, raised);
    PeriodicBackups(6, raised, 0);
    FirstPassBacksUp(AsWritten, 6, raised);
    RunAt(AsWritten, 6, raised, 0);
    NoBackupAfterFirstSuccess(6, raised, 0, 6);
  }
}
