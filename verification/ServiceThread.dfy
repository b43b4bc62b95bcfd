/** The service thread of the wrapper: attempts to run a service's commands, and when it tries again.
    Processes, files and the state of other services are answers that each attempt is given. */
module ServiceThread {
  import opened Seqs
  import opened Wrappers

  // ---- special characters in front of a command

  datatype Flags = Flags(arg0: bool, ignoreFail: bool, fullPrivilege: bool, ambientPrivilege: bool,
                         elevatePrivilege: bool)

  const NO_FLAGS := Flags(false, false, false, false, false)

  function EraseFront(s: string, n: nat): string {
    if n <= |s| then s[n..] else ""
  }

  /** The flags and the rest of the command. A single `!` takes the character after it along. */
  function Special(ws: string, flags: Flags): (Flags, string)
    decreases |ws|
  {
    if ws == "" then (flags, ws)
    else match ws[0]
      case '@' => Special(ws[1..], flags.(arg0 := true))
      case '-' => Special(ws[1..], flags.(ignoreFail := true))
      case '+' => Special(ws[1..], flags.(fullPrivilege := true))
      case '!' =>
        if |ws| > 1 && ws[1] == '!' then Special(EraseFront(ws, 2), flags.(ambientPrivilege := true))
        else Special(EraseFront(ws, 2), flags.(elevatePrivilege := true))
      case _ => (flags, ws)
  }

  /** The loop that erases in place; `ws` is the string by reference. */
  method ProcessSpecialCharacters(ws0: string) returns (mask: Flags, ws: string)
    ensures (mask, ws) == Special(ws0, NO_FLAGS)
  {
    mask, ws := NO_FLAGS, ws0;
    while ws != ""
      invariant Special(ws, mask) == Special(ws0, NO_FLAGS)
      decreases |ws|
    {
      match ws[0]
      case '@' => mask, ws := mask.(arg0 := true), ws[1..];
      case '-' => mask, ws := mask.(ignoreFail := true), ws[1..];
      case '+' => mask, ws := mask.(fullPrivilege := true), ws[1..];
      case '!' =>
        if |ws| > 1 && ws[1] == '!' {
          mask, ws := mask.(ambientPrivilege := true), EraseFront(ws, 2);
        } else {
          mask, ws := mask.(elevatePrivilege := true), EraseFront(ws, 2);
        }
      case _ => return;
    }
  }

  /** The prefixes that stand on their own. */
  datatype Prefix = At | Minus | Plus | Bangs {
    function Text(): string {
      match this
      case At => "@"
      case Minus => "-"
      case Plus => "+"
      case Bangs => "!!"
    }
  }

  function Prefixed(prefixes: seq<Prefix>, command: string): string {
    if prefixes == [] then command else prefixes[0].Text() + Prefixed(prefixes[1..], command)
  }

  predicate Plain(command: string) {
    command == "" || command[0] !in "@-+!"
  }

  function WithPrefixes(flags: Flags, prefixes: seq<Prefix>): Flags {
    Flags(flags.arg0 || At in prefixes, flags.ignoreFail || Minus in prefixes, flags.fullPrivilege || Plus in prefixes,
          flags.ambientPrivilege || Bangs in prefixes, flags.elevatePrivilege)
  }

  function With(flags: Flags, prefix: Prefix): Flags {
    match prefix
    case At => flags.(arg0 := true)
    case Minus => flags.(ignoreFail := true)
    case Plus => flags.(fullPrivilege := true)
    case Bangs => flags.(ambientPrivilege := true)
  }

  lemma SpecialOne(prefix: Prefix, rest: string, flags: Flags)
    ensures Special(prefix.Text() + rest, flags) == Special(rest, With(flags, prefix))
  {
    CutAppend(prefix.Text(), rest);
  }

  lemma {:induction false} SpecialUndoes(prefixes: seq<Prefix>, command: string, flags: Flags)
    requires Plain(command)
    ensures Special(Prefixed(prefixes, command), flags) == (WithPrefixes(flags, prefixes), command)
    decreases |prefixes|
  {
    if prefixes == [] {
      assert Special(command, flags) == (flags, command);
    } else {
      hide Special, Plain;
      SpecialOne(prefixes[0], Prefixed(prefixes[1..], command), flags);
      hide With, WithPrefixes, Prefix.Text;
      SpecialUndoes(prefixes[1..], command, With(flags, prefixes[0]));
      WithMore(flags, prefixes);
    }
  }

  lemma WithMore(flags: Flags, prefixes: seq<Prefix>)
    requires prefixes != []
    ensures WithPrefixes(With(flags, prefixes[0]), prefixes[1..]) == WithPrefixes(flags, prefixes)
  {
    Cons(prefixes);
    assert forall p :: p in prefixes <==> p == prefixes[0] || p in prefixes[1..];
  }

  /** Prefixes in any order and number are taken off, and each sets its flag. */
  lemma PrefixesRoundTrip(prefixes: seq<Prefix>, command: string)
    requires Plain(command)
    ensures Special(Prefixed(prefixes, command), NO_FLAGS)
         == (Flags(At in prefixes, Minus in prefixes, Plus in prefixes, Bangs in prefixes, false), command)
  {
    SpecialUndoes(prefixes, command, NO_FLAGS);
  }

  /** The end of a run of special characters leaves a `!` that takes the character after it along. */
  predicate Dangling(p: string)
    decreases |p|
  {
    if p == "" then false
    else if p[0] == '!' then |p| == 1 || Dangling(p[2..])
    else Dangling(p[1..])
  }

  /** The special characters that a single `!` takes along. */
  function Swallowed(p: string): (taken: set<char>)
    decreases |p|
  {
    if |p| < 2 then {}
    else if p[0] == '!' then Swallowed(p[2..]) + if p[1] == '!' then {} else {p[1]}
    else Swallowed(p[1..])
  }

  /** The special characters that are taken off one by one. */
  function Kept(p: string): (kept: set<char>)
    decreases |p|
  {
    if p == "" then {}
    else if p[0] == '!' then if |p| < 2 then {} else Kept(p[2..])
    else {p[0]} + Kept(p[1..])
  }

  /** The flags that the characters should set: each its own, `!!` and a single `!` theirs. */
  function Meant(p: string, flags: Flags): Flags
    decreases |p|
  {
    if p == "" then flags
    else match p[0]
      case '@' => Meant(p[1..], flags.(arg0 := true))
      case '-' => Meant(p[1..], flags.(ignoreFail := true))
      case '+' => Meant(p[1..], flags.(fullPrivilege := true))
      case _ =>
        if |p| > 1 && p[1] == '!' then Meant(p[2..], flags.(ambientPrivilege := true))
        else Meant(p[1..], flags.(elevatePrivilege := true))
  }

  function WithChars(flags: Flags, chars: set<char>): Flags {
    Flags(flags.arg0 || '@' in chars, flags.ignoreFail || '-' in chars, flags.fullPrivilege || '+' in chars,
          flags.ambientPrivilege, flags.elevatePrivilege)
  }

  predicate SpecialOnly(p: string) {
    forall i :: 0 <= i < |p| ==> p[i] in "@-+!"
  }

  /** Nothing is added to a command. */
  lemma {:induction false} SpecialShortens(ws: string, flags: Flags)
    ensures |Special(ws, flags).1| <= |ws|
    decreases |ws|
  {
    if ws != "" {
      match ws[0]
      case '@' => SpecialShortens(ws[1..], flags.(arg0 := true));
      case '-' => SpecialShortens(ws[1..], flags.(ignoreFail := true));
      case '+' => SpecialShortens(ws[1..], flags.(fullPrivilege := true));
      case '!' =>
        SpecialShortens(EraseFront(ws, 2), flags.(ambientPrivilege := true));
        SpecialShortens(EraseFront(ws, 2), flags.(elevatePrivilege := true));
      case _ =>
    }
  }

  /** The front of a string with special characters, and what is left to walk. */
  lemma SpecialStep(p: string, c: string, flags: Flags)
    requires p != "" && SpecialOnly(p)
    ensures p[0] == '@' ==> Special(p + c, flags) == Special(p[1..] + c, flags.(arg0 := true))
    ensures p[0] == '-' ==> Special(p + c, flags) == Special(p[1..] + c, flags.(ignoreFail := true))
    ensures p[0] == '+' ==> Special(p + c, flags) == Special(p[1..] + c, flags.(fullPrivilege := true))
    ensures p[0] == '!' && |p| > 1 ==>
              Special(p + c, flags) == Special(p[2..] + c, if p[1] == '!' then flags.(ambientPrivilege := true)
                                                           else flags.(elevatePrivilege := true))
    ensures SpecialOnly(p[1..]) && (|p| > 1 ==> SpecialOnly(p[2..]))
  {
    TailOfAppend(p, c);
    if |p| > 1 {
      assert (p + c)[2..] == p[2..] + c;
    }
  }

  /** The command is left whole exactly when no `!` reaches into it. */
  lemma {:induction false} CommandWholeIff(p: string, c: string, flags: Flags)
    requires SpecialOnly(p) && Plain(c)
    ensures Special(p + c, flags).1 == c <==> !Dangling(p) || c == ""
    decreases |p|
  {
    hide SpecialOnly;
    if p == "" {
      assert p + c == c;
    } else if p[0] == '!' && |p| == 1 {
      assert p + c == ['!'] + c;
      BangAlone(c, flags);
    } else {
      SpecialStep(p, c, flags);
      SpecialChars(p);
      CommandWholeIff(if p[0] == '!' then p[2..] else p[1..], c, Next(p, flags));
    }
  }

  /** Where it is not, a single `!` has taken the first character of the command along. */
  lemma {:induction false} FirstTaken(p: string, c: string, flags: Flags)
    requires SpecialOnly(p) && Dangling(p) && c != "" && Plain(c) && Plain(c[1..])
    ensures Special(p + c, flags).1 == c[1..]
    decreases |p|
  {
    hide SpecialOnly;
    if |p| == 1 {
      assert p + c == ['!'] + c;
      assert (['!'] + c)[1] == c[0] && (['!'] + c)[2..] == c[1..];
    } else {
      SpecialStep(p, c, flags);
      SpecialChars(p);
      FirstTaken(if p[0] == '!' then p[2..] else p[1..], c, Next(p, flags));
    }
  }

  lemma LastStep(p: string, c: string, flags: Flags)
    requires Plain(c) && (p == "" || (p == "!" && c == ""))
    ensures Special(p + c, flags).0 == if p == "" then flags else flags.(elevatePrivilege := true)
  {
    assert p + c == if p == "" then c else "!";
  }

  lemma TailSpecial(p: string)
    requires SpecialOnly(p) && p != ""
    ensures SpecialOnly(p[1..])
  {
  }

  /** Where the command is left whole, the flags lack those of the characters taken along. */
  lemma {:induction false} FlagsLack(p: string, c: string, flags: Flags)
    requires SpecialOnly(p) && Plain(c) && (!Dangling(p) || c == "")
    ensures WithChars(Special(p + c, flags).0, Swallowed(p)) == Meant(p, flags)
    decreases |p|
  {
    hide Special, SpecialOnly, Plain;
    if p == "" || (p[0] == '!' && |p| == 1) {
      LastStep(p, c, flags);
    } else {
      SpecialStep(p, c, flags);
      SpecialChars(p);
      var next := Next(p, flags);
      var rest := if p[0] == '!' then p[2..] else p[1..];
      FlagsLack(rest, c, next);
      if p[0] == '!' && p[1] != '!' {
        TailSpecial(p);
        SpecialChars(p[1..]);
        assert p[1..][1..] == rest;
        MeantMore(rest, next, p[1]);
      }
    }
  }

  /** The flags after the first step. */
  function Next(p: string, flags: Flags): Flags
    requires p != ""
  {
    match p[0]
    case '@' => flags.(arg0 := true)
    case '-' => flags.(ignoreFail := true)
    case '+' => flags.(fullPrivilege := true)
    case _ => if |p| > 1 && p[1] == '!' then flags.(ambientPrivilege := true) else flags.(elevatePrivilege := true)
  }

  /** A flag set before stays set and changes nothing else. */
  lemma {:induction false} MeantMore(p: string, flags: Flags, c: char)
    ensures Meant(p, WithChars(flags, {c})) == WithChars(Meant(p, flags), {c})
    decreases |p|
  {
    if p != "" {
      match p[0]
      case '@' => MeantMore(p[1..], flags.(arg0 := true), c);
      case '-' => MeantMore(p[1..], flags.(ignoreFail := true), c);
      case '+' => MeantMore(p[1..], flags.(fullPrivilege := true), c);
      case _ =>
        if |p| > 1 && p[1] == '!' {
          MeantMore(p[2..], flags.(ambientPrivilege := true), c);
        } else {
          MeantMore(p[1..], flags.(elevatePrivilege := true), c);
        }
    }
  }

  /** The flags that are set for special characters are those of the characters kept. */
  lemma {:induction false} FlagsKept(p: string, c: string, flags: Flags)
    requires SpecialOnly(p) && Plain(c) && (!Dangling(p) || c == "")
    ensures var f := Special(p + c, flags).0;
            && f.arg0 == (flags.arg0 || '@' in Kept(p)) && f.ignoreFail == (flags.ignoreFail || '-' in Kept(p))
            && f.fullPrivilege == (flags.fullPrivilege || '+' in Kept(p))
    decreases |p|
  {
    hide Special, SpecialOnly, Plain;
    if p == "" || (p[0] == '!' && |p| == 1) {
      LastStep(p, c, flags);
    } else {
      SpecialStep(p, c, flags);
      SpecialChars(p);
      FlagsKept(if p[0] == '!' then p[2..] else p[1..], c, Next(p, flags));
    }
  }

  lemma {:induction false} SwallowedSpecial(p: string)
    requires SpecialOnly(p)
    ensures Swallowed(p) <= {'@', '-', '+'}
    decreases |p|
  {
    if |p| >= 2 {
      SpecialStep(p, "", NO_FLAGS);
      SpecialChars(p);
      SpecialChars(p[1..]);
      SwallowedSpecial(if p[0] == '!' then p[2..] else p[1..]);
    }
  }

  /** Special characters in front of a command are taken off, each setting its flag and the command
      left whole, if and only if no single `!` reaches into the command and every character that one
      takes along stands elsewhere on its own. */
  lemma PrefixesTakenIff(p: string, c: string)
    requires SpecialOnly(p) && Plain(c)
    ensures Special(p + c, NO_FLAGS) == (Meant(p, NO_FLAGS), c) <==>
              (!Dangling(p) || c == "") && Swallowed(p) <= Kept(p)
  {
    CommandWholeIff(p, c, NO_FLAGS);
    if !Dangling(p) || c == "" {
      FlagsLack(p, c, NO_FLAGS);
      FlagsKept(p, c, NO_FLAGS);
      SwallowedSpecial(p);
      var f := Special(p + c, NO_FLAGS).0;
      assert f == WithChars(f, Swallowed(p)) <==> Swallowed(p) <= Kept(p) by {
        if f == WithChars(f, Swallowed(p)) {
          forall x | x in Swallowed(p) ensures x in Kept(p) {
            assert x == '@' || x == '-' || x == '+';
          }
        }
      }
    }
  }

  /** One input on which they are not: the command loses its first character. */
  lemma SingleBangCounterexample()
    ensures Special("!cmd", NO_FLAGS) == (NO_FLAGS.(elevatePrivilege := true), "md")
  {
    assert "!cmd"[2..] == "md";
  }

  lemma SpecialChars(p: string)
    requires SpecialOnly(p) && p != ""
    ensures p[0] == '@' || p[0] == '-' || p[0] == '+' || p[0] == '!'
  {
    assert p[0] in "@-+!";
  }

  lemma BangAlone(c: string, flags: Flags)
    requires Plain(c)
    ensures Special(['!'] + c, flags).1 == c <==> c == ""
  {
    var ws := ['!'] + c;
    if c != "" {
      assert ws[1] == c[0] && ws[2..] == c[1..];
      SpecialShortens(c[1..], flags.(elevatePrivilege := true));
    }
  }

  // ---- one attempt

  /** What becomes of a process: it cannot be created, its exit code cannot be read, or it exits. */
  datatype ProcessResult = CannotStart(error: nat) | NoExitCode | Exited(code: nat) {
    /** StartProcess throws when it waits for the process. */
    predicate Fails() {
      this != Exited(0)
    }

    /** The code it throws with; 0 when the exit code could not be read. */
    function Code(): nat {
      match this
      case CannotStart(e) => e
      case NoExitCode => 0
      case Exited(c) => c
    }
  }

  datatype RestartAction = Undefined | No | Always | OnSuccess | OnFailure | OnAbnormal | OnAbort | OnWatchdog

  datatype Command = Command(flags: Flags, line: string)

  datatype Config = Config(filesBefore: nat, filesAfter: nat, pre: seq<Command>, start: string, post: seq<Command>,
                           restart: RestartAction)

  /** The answers that one attempt gets. Files are known by their position in the lists. */
  datatype Answers = Answers(conditions: bool, beforePresent: nat -> bool, afterPresent: nat -> bool,
                              dependentsReady: bool,
                             pre: nat -> ProcessResult, start: ProcessResult, post: nat -> ProcessResult)

  datatype Status = Stopped | StartPending | Running | Paused

  datatype Event =
    | Reported(status: Status)
    | RanPre(index: nat, result: ProcessResult)
    | RanStart(result: ProcessResult)
    | RanPost(index: nat, result: ProcessResult)
    | Slept

  /** How an attempt ends: by RestartException with a code, or by reading past a vector. */
  datatype Ending = Ended(code: nat) | Fault

  datatype Step = Step(events: seq<Event>, ending: Option<Ending>)

  /** The rest of the ExecStartPre loop. */
  function PreFrom(config: Config, answers: Answers, i: nat): Step
    requires i <= |config.pre|
    decreases |config.pre| - i
  {
    if i == |config.pre| then Step([], None)
    else
      var r := answers.pre(i);
      if r.Fails() && !config.pre[i].flags.ignoreFail then Step([RanPre(i, r)], Some(Ended(r.Code())))
      else
        var rest := PreFrom(config, answers, i + 1);
        Step([RanPre(i, r)] + rest.events, rest.ending)
  }

  /** The rest of the ExecStartPost loop, which asks for the flags of ExecStartPre. */
  function PostFrom(config: Config, answers: Answers, i: nat): Step
    requires i <= |config.post|
    decreases |config.post| - i
  {
    if i == |config.post| then Step([], None)
    else
      var r := answers.post(i);
      if r.Fails() && i >= |config.pre| then Step([RanPost(i, r)], Some(Fault))
      else if r.Fails() && !config.pre[i].flags.ignoreFail then Step([RanPost(i, r)], Some(Ended(r.Code())))
      else
        var rest := PostFrom(config, answers, i + 1);
        Step([RanPost(i, r)] + rest.events, rest.ending)
  }

  /** The main command: one whose exit code cannot be read counts as done. */
  function StartStep(config: Config, answers: Answers): Step {
    if config.start == "" then Step([], None)
    else
      var r := answers.start;
      Step([RanStart(r)], if r == Exited(0) || r == NoExitCode then None else Some(Ended(r.Code())))
  }

  function Then(first: Step, second: Step): Step {
    if first.ending.Some? then first else Step(first.events + second.events, second.ending)
  }

  predicate FilesAllow(config: Config, answers: Answers) {
    && (forall i :: 0 <= i < config.filesBefore ==> !answers.beforePresent(i))
    && (forall i :: 0 <= i < config.filesAfter ==> answers.afterPresent(i))
  }

  /** One attempt up to its exception. */
  function Attempt(config: Config, answers: Answers): (Ending, seq<Event>) {
    if !answers.conditions then (Ended(1), [Reported(Stopped)])
    else if !FilesAllow(config, answers) then (Ended(1), [])
    else if !answers.dependentsReady then (Ended(1068), [Reported(StartPending)])
    else
      var s := Then(Step([Reported(StartPending), Reported(Running)], None),
               Then(PreFrom(config, answers, 0),
               Then(Step([Reported(Running)], None),
               Then(StartStep(config, answers), PostFrom(config, answers, 0)))));
      (if s.ending.Some? then s.ending.value else Ended(0), s.events)
  }

  // ---- the loop over attempts

  /** The exception handler: whether the thread is done after an attempt that ended with this code. */
  predicate DoneAfter(restart: RestartAction, code: nat) {
    match restart
    case Undefined => true
    case No => true
    case OnSuccess => code != 0
    case OnFailure => code != 0
    case _ => false
  }

  /** Where the thread is when the answers run out. */
  datatype Fate = Finished | Crashed | Trying

  function Run(config: Config, answers: seq<Answers>): (Fate, seq<Event>)
    decreases |answers|
  {
    if answers == [] then (Trying, [])
    else
      var (ending, events) := Attempt(config, answers[0]);
      if ending.Fault? then (Crashed, events)
      else if DoneAfter(config.restart, ending.code) then (Finished, events + [Reported(Paused), Reported(Stopped)])
      else
        var (fate, more) := Run(config, answers[1..]);
        (fate, events + [Reported(Paused), Slept] + more)
  }

  class CWrapperService {
    const config: Config
    var trace: seq<Event>

    /** The flags and command lines come from the unit's strings; a shell may be put around them. */
    constructor (filesBefore: nat, filesAfter: nat, execStartPre: seq<string>, execStart: string,
                 execStartPost: seq<string>,
                 restart: RestartAction, shellPre: string, shellPost: string)
      ensures trace == []
      ensures config == Config(filesBefore, filesAfter, Commands(execStartPre, shellPre, shellPost),
                               if execStart == "" then "" else shellPre + Special(execStart, NO_FLAGS).1 + shellPost,
                               Commands(execStartPost, shellPre, shellPost), restart)
    {
      var pre := CommandsOf(execStartPre, shellPre, shellPost);
      var post := CommandsOf(execStartPost, shellPre, shellPost);
      var start := "";
      if execStart != "" {
        var _, command := ProcessSpecialCharacters(execStart);
        start := shellPre + command + shellPost;
      }
      config, trace := Config(filesBefore, filesAfter, pre, start, post, restart), [];
    }

    method Record(event: Event)
      modifies this`trace
      ensures trace == old(trace) + [event]
    {
      trace := trace + [event];
    }

    /** The two loops over files that must be absent and files that must be present. */
    method CheckFiles(answers: Answers) returns (allowed: bool)
      ensures allowed == FilesAllow(config, answers)
    {
      for i := 0 to config.filesBefore
        invariant forall k :: 0 <= k < i ==> !answers.beforePresent(k)
      {
        if answers.beforePresent(i) {
          return false;
        }
      }
      for i := 0 to config.filesAfter
        invariant forall k :: 0 <= k < i ==> answers.afterPresent(k)
      {
        if !answers.afterPresent(i) {
          return false;
        }
      }
      return true;
    }

    /** The body of the try block. */
    method RunOnce(answers: Answers) returns (ending: Ending)
      modifies this`trace
      ensures ending == Attempt(config, answers).0 && trace == old(trace) + Attempt(config, answers).1
    {
      hide PreFrom, StartStep, PostFrom, FilesAllow;
      if !answers.conditions {
        Record(Reported(Stopped));
        return Ended(1);
      }
      var allowed := CheckFiles(answers);
      if !allowed {
        WithEmpty(trace);
        return Ended(1);
      }
      Record(Reported(StartPending));
      if !answers.dependentsReady {
        return Ended(1068);
      }
      Record(Reported(Running));
      ghost var start := trace;
      var thrown := RunPre(answers);
      if thrown.Some? {
        return thrown.value;
      }
      Record(Reported(Running));
      thrown := RunStart(answers);
      if thrown.Some? {
        return thrown.value;
      }
      thrown := RunPost(answers);
      if thrown.Some? {
        return thrown.value;
      }
      return Ended(0);
    }

    /** The loop over ExecStartPre. */
    method RunPre(answers: Answers) returns (thrown: Option<Ending>)
      modifies this`trace
      ensures Step(trace, thrown) == Then(Step(old(trace), None), PreFrom(config, answers, 0))
    {
      ghost var whole := PreFrom(config, answers, 0);
      for i := 0 to |config.pre|
        invariant trace + PreFrom(config, answers, i).events == old(trace) + whole.events
        invariant PreFrom(config, answers, i).ending == whole.ending
      {
        var result := answers.pre(i);
        Assoc(trace, [RanPre(i, result)], PreFrom(config, answers, i + 1).events);
        Record(RanPre(i, result));
        if result.Fails() {
          if !config.pre[i].flags.ignoreFail {
            return Some(Ended(result.Code()));
          }
        }
      }
      WithEmpty(trace);
      return None;
    }

    /** The main command is started and waited for. */
    method RunStart(answers: Answers) returns (thrown: Option<Ending>)
      modifies this`trace
      ensures Step(trace, thrown) == Then(Step(old(trace), None), StartStep(config, answers))
    {
      WithEmpty(trace);
      if config.start != "" {
        Record(RanStart(answers.start));
        match answers.start
        case CannotStart(error) => return Some(Ended(error));
        case NoExitCode =>
        case Exited(code) =>
          if code != 0 {
            return Some(Ended(code));
          }
      }
      return None;
    }

    /** The loop over ExecStartPost. */
    method RunPost(answers: Answers) returns (thrown: Option<Ending>)
      modifies this`trace
      ensures Step(trace, thrown) == Then(Step(old(trace), None), PostFrom(config, answers, 0))
    {
      ghost var whole := PostFrom(config, answers, 0);
      for i := 0 to |config.post|
        invariant trace + PostFrom(config, answers, i).events == old(trace) + whole.events
        invariant PostFrom(config, answers, i).ending == whole.ending
      {
        var result := answers.post(i);
        Assoc(trace, [RanPost(i, result)], PostFrom(config, answers, i + 1).events);
        Record(RanPost(i, result));
        if result.Fails() {
          if i >= |config.pre| {
            return Some(Fault);
          }
          if !config.pre[i].flags.ignoreFail {
            return Some(Ended(result.Code()));
          }
        }
      }
      WithEmpty(trace);
      return None;
    }

    /** ServiceThread, as far as the answers reach. */
    method Serve(answers: seq<Answers>) returns (fate: Fate)
      requires answers != []
      modifies this`trace
      ensures (fate, trace) == (Run(config, answers).0, old(trace) + Run(config, answers).1)
    {
      hide Attempt, DoneAfter;
      ghost var whole := Run(config, answers);
      var i, done := 0, false;
      assert answers[0..] == answers;
      while i < |answers| && !done
        invariant i <= |answers|
        invariant !done ==> Run(config, answers[i..]).0 == whole.0
                            && trace + Run(config, answers[i..]).1 == old(trace) + whole.1
        invariant done ==> whole.0 == Finished && trace + [Reported(Stopped)] == old(trace) + whole.1
        decreases |answers| - i
      {
        ghost var before, rest := trace, Run(config, answers[i + 1..]);
        assert answers[i..][1..] == answers[i + 1..];
        ghost var events := Attempt(config, answers[i]).1;
        var ending := RunOnce(answers[i]);
        if ending.Fault? {
          return Crashed;
        }
        Record(Reported(Paused));
        done := Handle(ending.code);
        i := i + 1;
        if !done {
          Record(Slept);
          assert before + (events + [Reported(Paused), Slept] + rest.1)
              == before + events + [Reported(Paused)] + [Slept] + rest.1;
        } else {
          assert before + (events + [Reported(Paused), Reported(Stopped)])
              == before + events + [Reported(Paused)] + [Reported(Stopped)];
        }
      }
      if done {
        Record(Reported(Stopped));
        return Finished;
      }
      WithEmpty(trace);
      return Trying;
    }

    /** The switch over the restart action. */
    method Handle(code: nat) returns (done: bool)
      ensures done == DoneAfter(config.restart, code)
    {
      done := false;
      match config.restart
      case Undefined => done := true;  // default:
      case No => done := true;
      case Always =>
      case OnSuccess =>
        if code != 0 {
          done := true;
        }
      case OnFailure =>
        if code != 0 {
          done := true;
        }
      case OnAbnormal =>
      case OnAbort =>
      case OnWatchdog =>
    }
  }

  function Commands(texts: seq<string>, shellPre: string, shellPost: string): (commands: seq<Command>)
    ensures |commands| == |texts|
  {
    if texts == [] then []
    else
      var (flags, text) := Special(texts[0], NO_FLAGS);
      [Command(flags, shellPre + text + shellPost)] + Commands(texts[1..], shellPre, shellPost)
  }

  method CommandsOf(texts: seq<string>, shellPre: string, shellPost: string) returns (commands: seq<Command>)
    ensures commands == Commands(texts, shellPre, shellPost)
  {
    commands := [];
    hide Special;
    WithEmpty(Commands(texts, shellPre, shellPost));
    assert texts[0..] == texts;
    for i := 0 to |texts|
      invariant commands + Commands(texts[i..], shellPre, shellPost) == Commands(texts, shellPre, shellPost)
    {
      assert texts[i..][1..] == texts[i + 1..];
      var flags, text := ProcessSpecialCharacters(texts[i]);
      var line := shellPre + text + shellPost;
      Assoc(commands, [Command(flags, line)], Commands(texts[i + 1..], shellPre, shellPost));
      commands := commands + [Command(flags, line)];
    }
    WithEmpty(commands);
  }

  /** A command has the flags of the prefixes in front of its text, and the text inside the shell's. */
  lemma {:induction false} CommandAt(texts: seq<string>, shellPre: string, shellPost: string, i: nat,
                                     prefixes: seq<Prefix>, command: string)
    requires i < |texts| && texts[i] == Prefixed(prefixes, command) && Plain(command)
    ensures Commands(texts, shellPre, shellPost)[i]
         == Command(Flags(At in prefixes, Minus in prefixes, Plus in prefixes, Bangs in prefixes, false),
                    shellPre + command + shellPost)
  {
    hide Special, Prefixed, Plain;
    if i == 0 {
      PrefixesRoundTrip(prefixes, command);
    } else {
      CommandAt(texts[1..], shellPre, shellPost, i - 1, prefixes, command);
    }
  }
}
