/** What attempts and whole runs of the service thread come to, stated over the answers that they get. */
module Attempts {
  import opened Seqs
  import opened Wrappers
  import opened ServiceThread

  // ---- what stops an attempt

  /** The checks before a launch: conditions, files that must be absent, files that must be present. */
  predicate ChecksPass(config: Config, answers: Answers) {
    && answers.conditions
    && (forall i :: 0 <= i < config.filesBefore ==> !answers.beforePresent(i))
    && (forall i :: 0 <= i < config.filesAfter ==> answers.afterPresent(i))
  }

  predicate Bad(result: ProcessResult, ignored: bool) {
    result != Exited(0) && !ignored
  }

  /** The code that comes with a failure; it is 0 if the exit code could not be read. */
  predicate Gives(result: ProcessResult, code: nat) {
    result == CannotStart(code) || result == Exited(code) || (result == NoExitCode && code == 0)
  }

  /** The command at `k` is the first of ExecStartPre, from `i` on, to stop the attempt. */
  predicate PreStops(config: Config, answers: Answers, i: nat, k: nat) {
    && i <= k < |config.pre| && Bad(answers.pre(k), config.pre[k].flags.ignoreFail)
    && forall j :: i <= j < k ==> !Bad(answers.pre(j), config.pre[j].flags.ignoreFail)
  }

  predicate PreAllow(config: Config, answers: Answers, i: nat) {
    forall j :: i <= j < |config.pre| ==> !Bad(answers.pre(j), config.pre[j].flags.ignoreFail)
  }

  /** The attempt gets as far as the main command. */
  predicate Reaches(config: Config, answers: Answers) {
    ChecksPass(config, answers) && answers.dependentsReady && PreAllow(config, answers, 0)
  }

  /** The main command stops the attempt with a code. One whose exit code cannot be read does not. */
  predicate StartStops(config: Config, answers: Answers, code: nat) {
    config.start != "" && (answers.start == CannotStart(code) || (answers.start == Exited(code) && code != 0))
  }

  predicate StartAllows(config: Config, answers: Answers) {
    config.start == "" || answers.start == Exited(0) || answers.start == NoExitCode
  }

  /** Whether a failure of the ExecStartPost command at `k` is ignored: that is asked of ExecStartPre. */
  predicate PostIgnored(config: Config, k: nat) {
    k < |config.pre| && config.pre[k].flags.ignoreFail
  }

  predicate PostStops(config: Config, answers: Answers, i: nat, k: nat) {
    && i <= k < |config.post| && Bad(answers.post(k), PostIgnored(config, k))
    && forall j :: i <= j < k ==> !Bad(answers.post(j), PostIgnored(config, j))
  }

  predicate PostAllow(config: Config, answers: Answers, i: nat) {
    forall j :: i <= j < |config.post| ==> !Bad(answers.post(j), PostIgnored(config, j))
  }

  // ---- what an attempt does

  function PreRuns(answers: Answers, i: nat, n: nat): (events: seq<Event>)
    ensures |events| == n && forall k :: 0 <= k < n ==> events[k] == RanPre(i + k, answers.pre(i + k))
  {
    seq(n, k requires 0 <= k < n => RanPre(i + k, answers.pre(i + k)))
  }

  function PostRuns(answers: Answers, i: nat, n: nat): (events: seq<Event>)
    ensures |events| == n && forall k :: 0 <= k < n ==> events[k] == RanPost(i + k, answers.post(i + k))
  {
    seq(n, k requires 0 <= k < n => RanPost(i + k, answers.post(i + k)))
  }

  /** What comes before the main command in an attempt. */
  function BeforeStart(config: Config, answers: Answers): seq<Event> {
    [Reported(StartPending), Reported(Running)] + PreRuns(answers, 0, |config.pre|) + [Reported(Running)]
  }

  function Started(config: Config, answers: Answers): seq<Event> {
    if config.start == "" then [] else [RanStart(answers.start)]
  }

  lemma {:induction false} PrePasses(config: Config, answers: Answers, i: nat)
    requires i <= |config.pre| && PreAllow(config, answers, i)
    ensures PreFrom(config, answers, i) == Step(PreRuns(answers, i, |config.pre| - i), None)
    decreases |config.pre| - i
  {
    if i < |config.pre| {
      PrePasses(config, answers, i + 1);
      PreRunsNext(answers, i, |config.pre| - i);
    }
  }

  lemma PreRunsNext(answers: Answers, i: nat, n: nat)
    requires n > 0
    ensures PreRuns(answers, i, n) == [RanPre(i, answers.pre(i))] + PreRuns(answers, i + 1, n - 1)
  {
  }

  lemma {:induction false} PreStopped(config: Config, answers: Answers, i: nat, k: nat, code: nat)
    requires PreStops(config, answers, i, k) && Gives(answers.pre(k), code)
    ensures PreFrom(config, answers, i) == Step(PreRuns(answers, i, k + 1 - i), Some(Ended(code)))
    decreases |config.pre| - i
  {
    PreRunsNext(answers, i, k + 1 - i);
    if k > i {
      PreStopped(config, answers, i + 1, k, code);
    }
  }

  lemma {:induction false} PostPasses(config: Config, answers: Answers, i: nat)
    requires i <= |config.post| && PostAllow(config, answers, i)
    ensures PostFrom(config, answers, i) == Step(PostRuns(answers, i, |config.post| - i), None)
    decreases |config.post| - i
  {
    if i < |config.post| {
      PostPasses(config, answers, i + 1);
      PostRunsNext(answers, i, |config.post| - i);
    }
  }

  lemma PostRunsNext(answers: Answers, i: nat, n: nat)
    requires n > 0
    ensures PostRuns(answers, i, n) == [RanPost(i, answers.post(i))] + PostRuns(answers, i + 1, n - 1)
  {
  }

  lemma {:induction false} PostStopped(config: Config, answers: Answers, i: nat, k: nat, code: nat)
    requires PostStops(config, answers, i, k) && Gives(answers.post(k), code)
    ensures PostFrom(config, answers, i)
         == Step(PostRuns(answers, i, k + 1 - i), Some(if k < |config.pre| then Ended(code) else Fault))
    decreases |config.post| - i
  {
    PostRunsNext(answers, i, k + 1 - i);
    if k > i {
      PostStopped(config, answers, i + 1, k, code);
    }
  }

  /** Attempts that do not get to the ExecStartPre commands. */
  lemma NotLaunched(config: Config, answers: Answers)
    ensures !answers.conditions ==> Attempt(config, answers) == (Ended(1), [Reported(Stopped)])
    ensures answers.conditions && !ChecksPass(config, answers) ==> Attempt(config, answers) == (Ended(1), [])
    ensures ChecksPass(config, answers) && !answers.dependentsReady ==>
              Attempt(config, answers) == (Ended(1068), [Reported(StartPending)])
  {
  }

  /** The attempt as the four parts that follow the checks. */
  lemma Launched(config: Config, answers: Answers)
    requires ChecksPass(config, answers) && answers.dependentsReady
    ensures var pre, post := PreFrom(config, answers, 0), PostFrom(config, answers, 0);
            var start := StartStep(config, answers);
            var front := [Reported(StartPending), Reported(Running)] + pre.events;
            var main := front + [Reported(Running)] + start.events;
            Attempt(config, answers) ==
              if pre.ending.Some? then (pre.ending.value, front)
              else if start.ending.Some? then (start.ending.value, main)
              else (if post.ending.Some? then post.ending.value else Ended(0), main + post.events)
  {
    hide PreFrom, PostFrom, StartStep;
    var pre, start, post := PreFrom(config, answers, 0), StartStep(config, answers), PostFrom(config, answers, 0);
    var front := [Reported(StartPending), Reported(Running)];
    Assoc(front, pre.events, [Reported(Running)] + start.events);
    Assoc(front + pre.events, [Reported(Running)], start.events);
    Assoc([Reported(Running)], start.events, post.events);
    Assoc(pre.events, [Reported(Running)] + start.events, post.events);
    Assoc(front, pre.events + ([Reported(Running)] + start.events), post.events);
  }

  /** The first ExecStartPre failure that is not ignored ends the attempt, with its code. */
  lemma PreFailure(config: Config, answers: Answers, k: nat, code: nat)
    requires ChecksPass(config, answers) && answers.dependentsReady
    requires PreStops(config, answers, 0, k) && Gives(answers.pre(k), code)
    ensures Attempt(config, answers)
         == (Ended(code), [Reported(StartPending), Reported(Running)] + PreRuns(answers, 0, k + 1))
  {
    hide Attempt, PreFrom, StartStep, PostFrom;
    PreStopped(config, answers, 0, k, code);
    Launched(config, answers);
  }

  /** A main command that cannot be created, or exits nonzero, ends the attempt with that code. */
  lemma StartFailure(config: Config, answers: Answers, code: nat)
    requires Reaches(config, answers) && StartStops(config, answers, code)
    ensures Attempt(config, answers) == (Ended(code), BeforeStart(config, answers) + [RanStart(answers.start)])
  {
    hide Attempt, PreFrom, PostFrom;
    PrePasses(config, answers, 0);
    Launched(config, answers);
  }

  /** Behind a main command that is absent or done, all ExecStartPost commands run if no failure stops
      them, and the attempt ends with 0. */
  lemma Success(config: Config, answers: Answers)
    requires Reaches(config, answers) && StartAllows(config, answers) && PostAllow(config, answers, 0)
    ensures Attempt(config, answers)
         == (Ended(0), BeforeStart(config, answers) + Started(config, answers) + PostRuns(answers, 0, |config.post|))
  {
    hide Attempt, PreFrom, PostFrom;
    PrePasses(config, answers, 0);
    PostPasses(config, answers, 0);
    Launched(config, answers);
  }

  /** Otherwise they run up to the first failure that does, which ends the attempt with its code or,
      where there is no ExecStartPre command to ask for its flags, reads past their vector. */
  lemma PostFailure(config: Config, answers: Answers, k: nat, code: nat)
    requires Reaches(config, answers) && StartAllows(config, answers)
    requires PostStops(config, answers, 0, k) && Gives(answers.post(k), code)
    ensures Attempt(config, answers)
         == (if k < |config.pre| then Ended(code) else Fault,
             BeforeStart(config, answers) + Started(config, answers) + PostRuns(answers, 0, k + 1))
  {
    hide Attempt, PreFrom, PostFrom;
    PrePasses(config, answers, 0);
    PostStopped(config, answers, 0, k, code);
    Launched(config, answers);
  }

  lemma {:induction false} SomePreStops(config: Config, answers: Answers, i: nat) returns (k: nat, code: nat)
    requires i <= |config.pre| && !PreAllow(config, answers, i)
    ensures PreStops(config, answers, i, k) && Gives(answers.pre(k), code)
    decreases |config.pre| - i
  {
    if Bad(answers.pre(i), config.pre[i].flags.ignoreFail) {
      k, code := i, CodeOf(answers.pre(i));
    } else {
      k, code := SomePreStops(config, answers, i + 1);
    }
  }

  lemma {:induction false} SomePostStops(config: Config, answers: Answers, i: nat) returns (k: nat, code: nat)
    requires i <= |config.post| && !PostAllow(config, answers, i)
    ensures PostStops(config, answers, i, k) && Gives(answers.post(k), code)
    decreases |config.post| - i
  {
    if Bad(answers.post(i), PostIgnored(config, i)) {
      k, code := i, CodeOf(answers.post(i));
    } else {
      k, code := SomePostStops(config, answers, i + 1);
    }
  }

  ghost function CodeOf(result: ProcessResult): (code: nat)
    ensures Gives(result, code)
  {
    match result
    case CannotStart(e) => e
    case NoExitCode => 0
    case Exited(c) => c
  }

  /** What an attempt ends with, over its answers alone. */
  ghost predicate EndsIn(config: Config, answers: Answers, code: nat) {
    if !ChecksPass(config, answers) then code == 1
    else if !answers.dependentsReady then code == 1068
    else if !PreAllow(config, answers, 0) then
      exists k: nat :: PreStops(config, answers, 0, k) && Gives(answers.pre(k), code)
    else if !StartAllows(config, answers) then StartStops(config, answers, code)
    else if PostAllow(config, answers, 0) then code == 0
    else exists k: nat :: PostStops(config, answers, 0, k) && k < |config.pre| && Gives(answers.post(k), code)
  }

  lemma EndsInIff(config: Config, answers: Answers, code: nat)
    ensures Attempt(config, answers).0 == Ended(code) <==> EndsIn(config, answers, code)
  {
    hide Attempt;
    NotLaunched(config, answers);
    if ChecksPass(config, answers) && answers.dependentsReady {
      if !PreAllow(config, answers, 0) {
        var k, c := SomePreStops(config, answers, 0);
        PreFailure(config, answers, k, c);
        assert Gives(answers.pre(k), code) <==> code == c;
      } else if !StartAllows(config, answers) {
        StartFailure(config, answers, CodeOf(answers.start));
      } else if PostAllow(config, answers, 0) {
        Success(config, answers);
      } else {
        var k, c := SomePostStops(config, answers, 0);
        PostFailure(config, answers, k, c);
        assert Gives(answers.post(k), code) <==> code == c;
      }
    }
  }

  predicate NoStart(events: seq<Event>) {
    forall k :: 0 <= k < |events| ==> !events[k].RanStart?
  }

  /** An attempt that reaches the main command starts as it should and goes on with it, if there is one;
      any other never runs it. */
  lemma AttemptMeaning(config: Config, answers: Answers) returns (after: seq<Event>)
    ensures NoStart(after)
    ensures var events := Attempt(config, answers).1;
            if Reaches(config, answers) then
              events == BeforeStart(config, answers) + Started(config, answers) + after
            else NoStart(events)
  {
    hide Attempt;
    after := [];
    NotLaunched(config, answers);
    if ChecksPass(config, answers) && answers.dependentsReady {
      if !PreAllow(config, answers, 0) {
        var k, c := SomePreStops(config, answers, 0);
        PreFailure(config, answers, k, c);
      } else if !StartAllows(config, answers) {
        StartFailure(config, answers, CodeOf(answers.start));
        WithEmpty(BeforeStart(config, answers) + Started(config, answers));
      } else if PostAllow(config, answers, 0) {
        Success(config, answers);
        after := PostRuns(answers, 0, |config.post|);
      } else {
        var k, c := SomePostStops(config, answers, 0);
        PostFailure(config, answers, k, c);
        after := PostRuns(answers, 0, k + 1);
      }
    }
  }

  /** The main command is run exactly when the attempt reaches it and there is one. */
  lemma StartsIff(config: Config, answers: Answers)
    ensures RanStart(answers.start) in Attempt(config, answers).1 <==> Reaches(config, answers) && config.start != ""
  {
    var after := AttemptMeaning(config, answers);
    hide Attempt, Reaches;
  }

  /** Wherever the main command stands in an attempt, everything that must come before it is there. */
  lemma StartComesAfter(config: Config, answers: Answers, k: nat)
    requires k < |Attempt(config, answers).1| && Attempt(config, answers).1[k].RanStart?
    ensures Reaches(config, answers) && Attempt(config, answers).1[..k] == BeforeStart(config, answers)
  {
    var after := AttemptMeaning(config, answers);
    hide Attempt, Reaches;
    var before := BeforeStart(config, answers);
    assert NoStart(before);
  }

  // ---- whole runs

  /** Attempts that are followed by another one. */
  ghost predicate Retries(config: Config, answers: seq<Answers>) {
    forall a :: 0 <= a < |answers| ==> RetriesAfter(config, answers[a])
  }

  ghost predicate RetriesAfter(config: Config, one: Answers) {
    Attempt(config, one).0.Ended? && !DoneAfter(config.restart, Attempt(config, one).0.code)
  }

  ghost function Retried(config: Config, answers: seq<Answers>): (events: seq<Event>) {
    if answers == [] then []
    else Attempt(config, answers[0]).1 + [Reported(Paused), Slept] + Retried(config, answers[1..])
  }

  /** The first `a` attempts are followed by another one: their events come first. */
  lemma {:induction false} RunRetries(config: Config, answers: seq<Answers>, a: nat)
    requires a <= |answers| && Retries(config, answers[..a])
    ensures Run(config, answers).0 == Run(config, answers[a..]).0
    ensures Run(config, answers).1 == Retried(config, answers[..a]) + Run(config, answers[a..]).1
    decreases a
  {
    hide Attempt, DoneAfter;
    if a == 0 {
      assert answers[0..] == answers && answers[..0] == [];
      WithEmpty(Run(config, answers).1);
    } else {
      var rest := answers[1..];
      TakeCons(answers, a - 1);
      assert answers[..a][0] == answers[0] && answers[..a][1..] == rest[..a - 1] && rest[a - 1..] == answers[a..];
      RetriesTail(config, answers[..a]);
      RunRetries(config, rest, a - 1);
      Assoc(Attempt(config, answers[0]).1 + [Reported(Paused), Slept], Retried(config, rest[..a - 1]),
            Run(config, answers[a..]).1);
    }
  }

  lemma RetriesTail(config: Config, answers: seq<Answers>)
    requires Retries(config, answers) && answers != []
    ensures RetriesAfter(config, answers[0]) && Retries(config, answers[1..])
  {
  }

  /** The thread finishes exactly with the first attempt that its restart action lets it end with,
      no earlier attempt having crashed. */
  lemma {:induction false} FinishesIff(config: Config, answers: seq<Answers>)
    ensures Run(config, answers).0.Finished? <==>
              exists a :: 0 <= a < |answers| && Retries(config, answers[..a]) && Ends(config, answers[a])
    decreases |answers|
  {
    hide Attempt, DoneAfter;
    if answers != [] {
      var rest := answers[1..];
      FinishesIff(config, rest);
      if Run(config, answers).0.Finished? {
        if Ends(config, answers[0]) {
          assert Retries(config, answers[..0]);
        } else {
          var a :| 0 <= a < |rest| && Retries(config, rest[..a]) && Ends(config, rest[a]);
          RetriesMore(config, answers, a);
          assert rest[a] == answers[a + 1];
        }
      }
      if a :| 0 <= a < |answers| && Retries(config, answers[..a]) && Ends(config, answers[a]) {
        RunRetries(config, answers, a);
      }
    }
  }

  ghost predicate Ends(config: Config, one: Answers) {
    Attempt(config, one).0.Ended? && DoneAfter(config.restart, Attempt(config, one).0.code)
  }

  lemma RetriesMore(config: Config, answers: seq<Answers>, a: nat)
    requires a < |answers| && RetriesAfter(config, answers[0]) && Retries(config, answers[1..][..a])
    ensures Retries(config, answers[..a + 1])
  {
    hide RetriesAfter;
    var first := answers[..a + 1];
    forall k | 0 <= k < |first| ensures RetriesAfter(config, first[k]) {
      if k > 0 {
        assert answers[1..][..a][k - 1] == answers[k];
      }
    }
  }

  /** How such a run goes: the events of the attempts before it, its own, and two reports. */
  lemma RunFinishes(config: Config, answers: seq<Answers>, a: nat)
    requires a < |answers| && Retries(config, answers[..a]) && Ends(config, answers[a])
    ensures Run(config, answers)
         == (Finished, Retried(config, answers[..a])
                       + (Attempt(config, answers[a]).1 + [Reported(Paused), Reported(Stopped)]))
  {
    hide Attempt, DoneAfter, Retried;
    RunRetries(config, answers, a);
  }

  /** A run that reads past a vector ends there, and one whose attempts are all followed by another is
      still trying when the answers run out. */
  lemma RunCrashes(config: Config, answers: seq<Answers>, a: nat)
    requires a < |answers| && Retries(config, answers[..a]) && Attempt(config, answers[a]).0.Fault?
    ensures Run(config, answers) == (Crashed, Retried(config, answers[..a]) + Attempt(config, answers[a]).1)
  {
    hide Attempt, DoneAfter, Retried;
    RunRetries(config, answers, a);
  }

  lemma RunTries(config: Config, answers: seq<Answers>)
    requires Retries(config, answers)
    ensures Run(config, answers) == (Trying, Retried(config, answers))
  {
    hide Attempt, DoneAfter, Retried;
    assert answers[..|answers|] == answers;
    RunRetries(config, answers, |answers|);
    WithEmpty(Retried(config, answers));
  }

  /** Restart=no, and an action that is not known: one attempt, whatever comes of it. */
  lemma {:induction false} RestartNo(config: Config, answers: seq<Answers>)
    requires config.restart in {Undefined, No} && answers != [] && Attempt(config, answers[0]).0.Ended?
    ensures Run(config, answers) == (Finished, Attempt(config, answers[0]).1 + [Reported(Paused), Reported(Stopped)])
  {
    hide Attempt;
  }

  /** Restart=on-success, and on-failure, which does the same: the thread finishes exactly at the
      first nonzero code, all earlier attempts having ended with 0. */
  lemma {:induction false} RestartOnCode(config: Config, answers: seq<Answers>)
    requires config.restart == OnSuccess || config.restart == OnFailure
    ensures Run(config, answers).0.Finished? <==>
              exists a, code: nat :: 0 <= a < |answers| && code != 0 && EndsIn(config, answers[a], code)
                                     && forall b :: 0 <= b < a ==> EndsIn(config, answers[b], 0)
  {
    FinishesIff(config, answers);
    hide Attempt, EndsIn;
    forall a | 0 <= a < |answers|
      ensures Ends(config, answers[a]) <==> exists code: nat :: code != 0 && EndsIn(config, answers[a], code)
      ensures Retries(config, answers[..a]) <==> forall b :: 0 <= b < a ==> EndsIn(config, answers[b], 0)
    {
      forall code ensures Attempt(config, answers[a]).0 == Ended(code) <==> EndsIn(config, answers[a], code) {
        EndsInIff(config, answers[a], code);
      }
      forall b | 0 <= b < a ensures RetriesAfter(config, answers[..a][b]) <==> EndsIn(config, answers[b], 0) {
        EndsInIff(config, answers[b], 0);
      }
    }
  }

  /** The other actions: the thread never finishes by itself. */
  lemma {:induction false} RestartAlways(config: Config, answers: seq<Answers>)
    requires config.restart !in {Undefined, No, OnSuccess, OnFailure}
    ensures !Run(config, answers).0.Finished?
  {
    FinishesIff(config, answers);
  }

  /** Over a whole run: where the main command is started, the attempt's preparation stands in front of
      it, so all ExecStartPre commands have just run in order and allowed it. */
  lemma {:induction false} RunStartComesAfter(config: Config, answers: seq<Answers>, k: nat) returns (a: nat)
    requires k < |Run(config, answers).1| && Run(config, answers).1[k].RanStart?
    ensures a < |answers| && Reaches(config, answers[a])
    ensures var before := BeforeStart(config, answers[a]);
            k >= |before| && Run(config, answers).1[k - |before|..k] == before
    decreases |answers|
  {
    hide Attempt, Reaches, BeforeStart;
    var events := Attempt(config, answers[0]).1;
    if k < |events| {
      assert Run(config, answers).1[..|events|] == events;
      StartComesAfter(config, answers[0], k);
      assert Run(config, answers).1[0..k] == events[..k];
      a := 0;
    } else {
      var rest := Run(config, answers[1..]).1;
      var shift := |events| + 2;
      assert Run(config, answers).1 == events + [Reported(Paused), Slept] + rest;
      assert Run(config, answers).1[shift..] == rest && k >= shift && Run(config, answers).1[k] == rest[k - shift];
      a := RunStartComesAfter(config, answers[1..], k - shift);
      var n := |BeforeStart(config, answers[1..][a])|;
      assert Run(config, answers).1[k - n..k] == rest[k - shift - n..k - shift];
      a := a + 1;
    }
  }

  // ---- the flags of ExecStartPost

  /** The ExecStartPost loop with the flags that its own commands carry. */
  function PostByOwnFlags(config: Config, answers: Answers, i: nat): Option<Ending>
    requires i <= |config.post|
    decreases |config.post| - i
  {
    if i == |config.post| then None
    else if answers.post(i).Fails() && !config.post[i].flags.ignoreFail then Some(Ended(answers.post(i).Code()))
    else PostByOwnFlags(config, answers, i + 1)
  }

  /** At each position ExecStartPre has a command, whose failure is ignored if and only if that of the
      ExecStartPost command is. */
  predicate FlagsAgree(config: Config) {
    |config.post| <= |config.pre|
    && forall i :: 0 <= i < |config.post| ==> config.pre[i].flags.ignoreFail == config.post[i].flags.ignoreFail
  }

  lemma {:induction false} AgreeingFlags(config: Config, answers: Answers, i: nat)
    requires i <= |config.post| && FlagsAgree(config)
    ensures PostFrom(config, answers, i).ending == PostByOwnFlags(config, answers, i)
    decreases |config.post| - i
  {
    if i < |config.post| {
      AgreeingFlags(config, answers, i + 1);
    }
  }

  /** Only the command at `i` fails. */
  function FailingAt(i: nat): Answers {
    Answers(true, k => false, k => true, true, k => Exited(0), Exited(0), k => if k == i then Exited(1) else Exited(0))
  }

  lemma {:induction false} OneFailure(config: Config, i: nat, j: nat)
    requires i < |config.post| && j <= |config.post|
    ensures PostFrom(config, FailingAt(i), j).ending ==
              if j > i then None
              else if i >= |config.pre| then Some(Fault)
              else if config.pre[i].flags.ignoreFail then None
              else Some(Ended(1))
    ensures PostByOwnFlags(config, FailingAt(i), j) ==
              if j > i || config.post[i].flags.ignoreFail then None else Some(Ended(1))
    decreases |config.post| - j
  {
    if j < |config.post| {
      OneFailure(config, i, j + 1);
    }
  }

  /** The ExecStartPost loop asks for the flags of ExecStartPre. It honours the flags of its own
      commands on all answers if and only if the two agree; otherwise some answers make it read past
      the vector, end the attempt in spite of a `-`, or go on without one. */
  lemma PostFlagsIff(config: Config)
    ensures (forall answers :: PostFrom(config, answers, 0).ending == PostByOwnFlags(config, answers, 0))
       <==> FlagsAgree(config)
  {
    if FlagsAgree(config) {
      forall answers ensures PostFrom(config, answers, 0).ending == PostByOwnFlags(config, answers, 0) {
        AgreeingFlags(config, answers, 0);
      }
    } else {
      var i := if |config.post| > |config.pre| then |config.pre|
               else var j :| 0 <= j < |config.post|
                                      && config.pre[j].flags.ignoreFail != config.post[j].flags.ignoreFail; j;
      OneFailure(config, i, 0);
      assert PostFrom(config, FailingAt(i), 0).ending != PostByOwnFlags(config, FailingAt(i), 0);
    }
  }
}
