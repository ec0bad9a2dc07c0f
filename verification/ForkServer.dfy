/** The fork server in the target, with the kernel, the child and the fuzzer as adversaries. */
module ForkServer {
  import opened Wrappers

  const FS_OPT_ENABLED: bv32 := 0x80000001
  const FS_OPT_AUTODICT: bv32 := 0x10000000
  const FS_OPT_SHDMEM_FUZZ: bv32 := 0x01000000

  /** persistent: is_persistent; shm: __afl_sharedmem_fuzzing; dict: a dictionary is compiled in. */
  datatype Config = Config(persistent: bool, shm: bool, dict: bool)

  /** An unreaped child. A stop is reported to waitpid at most once. */
  datatype Status = Running | Stopped(reported: bool) | Dead

  datatype Pc =
    | Hello | Options | Dictionary              // handshake
    | Command | WriteOff | Launch | SendPid | Wait | SendStatus
    | Detached                                  // nobody listens, the program just runs
    | Exited                                    // _exit(1)

  datatype Word = Pid(pid: nat) | StatusOf(pid: nat, stopped: bool)

  datatype State = State(
    pc: Pc,
    childStopped: bool,
    childPid: nat,
    wasKilled: bv32,
    alreadyReadFirst: bool,
    fuzzPtr: bool,
    procs: map<nat, Status>,   // unreaped children of the server
    out: seq<Word>,            // words written by the main loop
    commands: nat,             // run commands taken
    forks: nat,
    announced: Option<nat>,    // the pid word that answered the current command
    killed: bool)              // the fuzzer has killed the announced process

  datatype Event =
    | SayHello(ok: bool) | ReadOptions(w: bv32) | SendDictionary
    | TakeCommand(w: bv32) | ReapKilled | Fork(p: nat) | Continue | WritePid | WaitStatus | WriteStatus
    | ChildStops(p: nat) | ChildExits(p: nat) | Kill(p: nat)
    | Fail

  predicate HasAll(w: bv32, mask: bv32) {
    w & mask == mask
  }

  predicate Init(s: State) {
    s == State(Hello, false, 0, s.wasKilled, false, false, map[], [], 0, 0, None, false)
  }

  /** One step of the server, a child or the fuzzer. Any read, write, fork or wait may fail at any time. */
  predicate Step(c: Config, s: State, e: Event, t: State) {
    match e
    case SayHello(ok) =>
      && s.pc == Hello
      && t == s.(pc := if !ok then Detached else if c.shm || c.dict then Options else Command)
    case ReadOptions(w) =>
      && s.pc == Options
      && var mapped := s.fuzzPtr || HasAll(w, FS_OPT_ENABLED | FS_OPT_SHDMEM_FUZZ);
         var u := s.(wasKilled := w, fuzzPtr := mapped);
         t == if HasAll(w, FS_OPT_ENABLED | FS_OPT_AUTODICT) && c.dict then u.(pc := Dictionary)
              else u.(alreadyReadFirst := !mapped, pc := Command)
    case SendDictionary =>
      s.pc == Dictionary && t == s.(pc := Command)
    case TakeCommand(w) =>
      && s.pc == Command && (s.alreadyReadFirst ==> w == s.wasKilled)
      && var writeOff := s.childStopped && w != 0;
         t == s.(alreadyReadFirst := false, wasKilled := w, commands := s.commands + 1,
                 announced := None, killed := false,
                 childStopped := s.childStopped && !writeOff,
                 pc := if writeOff then WriteOff else Launch)
    case ReapKilled =>
      && s.pc == WriteOff && s.childPid in s.procs && s.procs[s.childPid] == Dead
      && t == s.(procs := s.procs - {s.childPid}, pc := Launch)
    case Fork(p) =>
      && s.pc == Launch && !s.childStopped && p != 0 && p !in s.procs
      && t == s.(childPid := p, procs := s.procs[p := Running], forks := s.forks + 1, pc := SendPid)
    case Continue =>
      && s.pc == Launch && s.childStopped
      && t == s.(childStopped := false, pc := SendPid,
                 procs := if s.childPid in s.procs && s.procs[s.childPid].Stopped?
                          then s.procs[s.childPid := Running] else s.procs)
    case WritePid =>
      s.pc == SendPid && t == s.(out := s.out + [Pid(s.childPid)], announced := Some(s.childPid), pc := Wait)
    case WaitStatus =>
      && s.pc == Wait && s.childPid in s.procs
      && (match s.procs[s.childPid]
          case Running => false
          case Dead => t == s.(procs := s.procs - {s.childPid}, pc := SendStatus)
          case Stopped(reported) =>
            && c.persistent && !reported
            && t == s.(procs := s.procs[s.childPid := Stopped(true)], childStopped := true, pc := SendStatus))
    case WriteStatus =>
      s.pc == SendStatus && t == s.(out := s.out + [StatusOf(s.childPid, s.childStopped)], pc := Command)
    case ChildStops(p) =>
      p in s.procs && s.procs[p] == Running && t == s.(procs := s.procs[p := Stopped(false)])
    case ChildExits(p) =>
      p in s.procs && s.procs[p] == Running && t == s.(procs := s.procs[p := Dead])
    case Kill(p) =>
      p in s.procs && t == s.(procs := s.procs[p := Dead], killed := s.killed || s.announced == Some(p))
    case Fail =>
      !s.pc.Detached? && t == s.(pc := Exited)
  }

  // the step a run takes with its i-th event
  ghost predicate StepAt(c: Config, ss: seq<State>, es: seq<Event>, i: nat)
    requires |ss| == |es| + 1 && i < |es|
  {
    Step(c, ss[i], es[i], ss[i + 1])
  }

  ghost predicate Run(c: Config, ss: seq<State>, es: seq<Event>) {
    && |ss| == |es| + 1 && Init(ss[0])
    && forall i: nat | i < |es| :: StepAt(c, ss, es, i)
  }

  // events of one part of the protocol
  predicate Handshake(e: Event) { e.SayHello? || e.ReadOptions? || e.SendDictionary? }
  predicate Launching(e: Event) { e.TakeCommand? || e.ReapKilled? || e.Fork? || e.Continue? }
  predicate Answering(e: Event) { e.WritePid? || e.WaitStatus? || e.WriteStatus? }
  predicate Outside(e: Event) { e.ChildStops? || e.ChildExits? || e.Kill? || e.Fail? }

  // ----- children -----

  /** No child but the current one is ever unreaped, and none at all when the server is about to fork. */
  ghost predicate Children(s: State) {
    match s.pc
    case Hello => s.procs == map[] && !s.childStopped
    case Options => s.procs == map[] && !s.childStopped
    case Dictionary => s.procs == map[] && !s.childStopped
    case Command => s.procs.Keys == if s.childStopped then {s.childPid} else {}
    case Launch => s.procs.Keys == if s.childStopped then {s.childPid} else {}
    case WriteOff => s.procs.Keys == {s.childPid} && !s.childStopped
    case SendPid => s.procs.Keys == {s.childPid} && !s.childStopped
    case Wait => s.procs.Keys == {s.childPid} && !s.childStopped
    case SendStatus => s.procs.Keys == if s.childStopped then {s.childPid} else {}
    case Detached => s.procs == map[]
    case Exited => s.procs.Keys <= {s.childPid}
  }

  lemma HandshakeKeepsChildren(c: Config, s: State, e: Event, t: State)
    requires Handshake(e) && Children(s) && Step(c, s, e, t)
    ensures Children(t)
  {}

  lemma LaunchingKeepsChildren(c: Config, s: State, e: Event, t: State)
    requires Launching(e) && Children(s) && Step(c, s, e, t)
    ensures Children(t)
  {}

  lemma AnsweringKeepsChildren(c: Config, s: State, e: Event, t: State)
    requires Answering(e) && Children(s) && Step(c, s, e, t)
    ensures Children(t)
  {}

  lemma OutsideKeepsChildren(c: Config, s: State, e: Event, t: State)
    requires Outside(e) && Children(s) && Step(c, s, e, t)
    ensures Children(t)
  {}

  lemma StepKeepsChildren(c: Config, s: State, e: Event, t: State)
    requires Children(s) && Step(c, s, e, t)
    ensures Children(t)
  {
    if Handshake(e) {
      HandshakeKeepsChildren(c, s, e, t);
    } else if Launching(e) {
      LaunchingKeepsChildren(c, s, e, t);
    } else if Answering(e) {
      AnsweringKeepsChildren(c, s, e, t);
    } else {
      OutsideKeepsChildren(c, s, e, t);
    }
  }

  // ----- answers -----

  /** The words are n answers: a pid, then a status of that same process. */
  ghost predicate Answers(out: seq<Word>, n: nat) {
    && |out| == 2 * n
    && forall i | 0 <= i < n ::
         out[2 * i].Pid? && out[2 * i + 1].StatusOf? && out[2 * i].pid == out[2 * i + 1].pid
  }

  ghost predicate Answered(s: State) {
    match s.pc
    case Hello => s.commands == 0 && s.out == []
    case Options => s.commands == 0 && s.out == []
    case Dictionary => s.commands == 0 && s.out == []
    case Detached => s.commands == 0 && s.out == []
    case Command => Answers(s.out, s.commands)
    case WriteOff => s.commands > 0 && Answers(s.out, s.commands - 1)
    case Launch => s.commands > 0 && Answers(s.out, s.commands - 1)
    case SendPid => s.commands > 0 && Answers(s.out, s.commands - 1)
    case Wait => HalfAnswered(s)
    case SendStatus => HalfAnswered(s)
    case Exited =>
      Answers(s.out, s.commands) || (s.commands > 0 && Answers(s.out, s.commands - 1)) || HalfAnswered(s)
  }

  ghost predicate HalfAnswered(s: State) {
    && s.commands > 0 && |s.out| == 2 * s.commands - 1
    && Answers(s.out[..2 * (s.commands - 1)], s.commands - 1)
    && s.out[2 * (s.commands - 1)] == Pid(s.childPid)
  }

  lemma AnswersExtend(out: seq<Word>, n: nat, p: nat, stopped: bool)
    requires |out| == 2 * n + 1 && Answers(out[..2 * n], n) && out[2 * n] == Pid(p)
    ensures Answers(out + [StatusOf(p, stopped)], n + 1)
  {
    var r := out + [StatusOf(p, stopped)];
    forall i | 0 <= i < n + 1
      ensures r[2 * i].Pid? && r[2 * i + 1].StatusOf? && r[2 * i].pid == r[2 * i + 1].pid
    {
      if i < n {
        assert out[..2 * n][2 * i] == r[2 * i] && out[..2 * n][2 * i + 1] == r[2 * i + 1];
      }
    }
  }

  lemma PidAnswers(c: Config, s: State, t: State)
    requires Answered(s) && Step(c, s, WritePid, t)
    ensures Answered(t)
  {
    assert t.out[..|s.out|] == s.out;
  }

  lemma StatusAnswers(c: Config, s: State, t: State)
    requires Answered(s) && Step(c, s, WriteStatus, t)
    ensures Answered(t)
  {
    AnswersExtend(s.out, s.commands - 1, s.childPid, s.childStopped);
  }

  lemma HandshakeKeepsAnswered(c: Config, s: State, e: Event, t: State)
    requires Handshake(e) && Answered(s) && Step(c, s, e, t)
    ensures Answered(t)
  {}

  lemma LaunchingKeepsAnswered(c: Config, s: State, e: Event, t: State)
    requires Launching(e) && Answered(s) && Step(c, s, e, t)
    ensures Answered(t)
  {}

  lemma AnsweringKeepsAnswered(c: Config, s: State, e: Event, t: State)
    requires Answering(e) && Answered(s) && Step(c, s, e, t)
    ensures Answered(t)
  {
    match e
    case WritePid => PidAnswers(c, s, t);
    case WaitStatus => assert t.out == s.out;
    case WriteStatus => StatusAnswers(c, s, t);
  }

  lemma OutsideKeepsAnswered(c: Config, s: State, e: Event, t: State)
    requires Outside(e) && Answered(s) && Step(c, s, e, t)
    ensures Answered(t)
  {}

  lemma StepKeepsAnswered(c: Config, s: State, e: Event, t: State)
    requires Answered(s) && Step(c, s, e, t)
    ensures Answered(t)
  {
    if Handshake(e) {
      HandshakeKeepsAnswered(c, s, e, t);
    } else if Launching(e) {
      LaunchingKeepsAnswered(c, s, e, t);
    } else if Answering(e) {
      AnsweringKeepsAnswered(c, s, e, t);
    } else {
      OutsideKeepsAnswered(c, s, e, t);
    }
  }

  // ----- killed children -----

  /** The fuzzer sets the word exactly when it has killed the process announced for the last command. */
  ghost predicate Honest(s: State, e: Event) {
    e.TakeCommand? && !s.alreadyReadFirst ==> (e.w != 0 <==> s.killed)
  }

  ghost predicate KillsKnown(s: State) {
    && (s.announced.Some? ==> s.announced.value == s.childPid)
    && (s.announced.Some? ==> s.pc in {Wait, SendStatus, Command, Exited})
    && (s.killed ==> s.announced.Some? && (s.childPid in s.procs ==> s.procs[s.childPid] == Dead))
    && (s.alreadyReadFirst ==> s.pc in {Command, Exited} && !s.childStopped)
    && (s.pc.WriteOff? ==> s.childPid in s.procs && s.procs[s.childPid] == Dead)
  }

  lemma HandshakeKeepsKillsKnown(c: Config, s: State, e: Event, t: State)
    requires Handshake(e) && Children(s) && KillsKnown(s) && Honest(s, e) && Step(c, s, e, t)
    ensures KillsKnown(t)
  {}

  lemma LaunchingKeepsKillsKnown(c: Config, s: State, e: Event, t: State)
    requires Launching(e) && Children(s) && KillsKnown(s) && Honest(s, e) && Step(c, s, e, t)
    ensures KillsKnown(t)
  {}

  lemma AnsweringKeepsKillsKnown(c: Config, s: State, e: Event, t: State)
    requires Answering(e) && Children(s) && KillsKnown(s) && Honest(s, e) && Step(c, s, e, t)
    ensures KillsKnown(t)
  {}

  lemma OutsideKeepsKillsKnown(c: Config, s: State, e: Event, t: State)
    requires Outside(e) && Children(s) && KillsKnown(s) && Honest(s, e) && Step(c, s, e, t)
    ensures KillsKnown(t)
  {}

  lemma StepKeepsKillsKnown(c: Config, s: State, e: Event, t: State)
    requires Children(s) && KillsKnown(s) && Honest(s, e) && Step(c, s, e, t)
    ensures KillsKnown(t)
  {
    if Handshake(e) {
      HandshakeKeepsKillsKnown(c, s, e, t);
    } else if Launching(e) {
      LaunchingKeepsKillsKnown(c, s, e, t);
    } else if Answering(e) {
      AnsweringKeepsKillsKnown(c, s, e, t);
    } else {
      OutsideKeepsKillsKnown(c, s, e, t);
    }
  }

  // ----- whole runs -----

  lemma {:induction false} RunInvariant(c: Config, ss: seq<State>, es: seq<Event>, n: nat)
    requires Run(c, ss, es) && n < |ss|
    ensures Children(ss[n]) && Answered(ss[n])
  {
    if n > 0 {
      RunInvariant(c, ss, es, n - 1);
      assert StepAt(c, ss, es, n - 1);
      StepKeepsChildren(c, ss[n - 1], es[n - 1], ss[n]);
      StepKeepsAnswered(c, ss[n - 1], es[n - 1], ss[n]);
    }
  }

  /** Safety, whatever the fuzzer does and whatever it writes: at most one unreaped child at any time,
      a fork only after the previous child was reaped, and a wait only for an existing child. */
  lemma ForkServerSafety(c: Config, ss: seq<State>, es: seq<Event>, n: nat)
    requires Run(c, ss, es) && n < |ss|
    ensures |ss[n].procs| <= 1
    ensures n < |es| && es[n].Fork? ==> ss[n].procs == map[]
    ensures ss[n].pc.Wait? || ss[n].pc.WriteOff? ==> ss[n].childPid in ss[n].procs
  {
    RunInvariant(c, ss, es, n);
    assert n < |es| ==> StepAt(c, ss, es, n);
    var keys := ss[n].procs.Keys;
    assert keys <= {ss[n].childPid};
    assert keys == {} || keys == {ss[n].childPid};
  }

  // ----- what the words say -----

  /** A status word says stopped exactly when the child is still there to be continued. */
  lemma StatusIsTrue(c: Config, ss: seq<State>, es: seq<Event>, n: nat)
    requires Run(c, ss, es) && n < |es| && es[n].WriteStatus?
    ensures ss[n + 1].out == ss[n].out + [StatusOf(ss[n].childPid, ss[n].procs != map[])]
  {
    RunInvariant(c, ss, es, n);
    assert StepAt(c, ss, es, n);
    assert ss[n].procs == map[] <==> ss[n].procs.Keys == {};
  }

  /** A pid word names the only child. */
  lemma PidIsTrue(c: Config, ss: seq<State>, es: seq<Event>, n: nat)
    requires Run(c, ss, es) && n < |es| && es[n].WritePid?
    ensures ss[n + 1].out == ss[n].out + [Pid(ss[n].childPid)] && ss[n].procs.Keys == {ss[n].childPid}
  {
    RunInvariant(c, ss, es, n);
    assert StepAt(c, ss, es, n);
  }

  lemma StepToStatus(c: Config, s: State, e: Event, t: State)
    requires Step(c, s, e, t) && Children(s) && t.pc.SendStatus?
    ensures t.childPid == s.childPid
    ensures e.WaitStatus? ==> s.childPid in s.procs && (s.procs[s.childPid].Stopped? <==> t.childStopped)
    ensures !e.WaitStatus? ==> Outside(e) && s.pc.SendStatus? && t.childStopped == s.childStopped
  {
  }

  /** What is reported is what the last wait found, and nothing but the child and the fuzzer acted since. */
  lemma {:induction false} LastWait(c: Config, ss: seq<State>, es: seq<Event>, n: nat) returns (w: nat)
    requires Run(c, ss, es) && n < |ss| && ss[n].pc.SendStatus?
    ensures w < n && es[w].WaitStatus? && ss[w].childPid == ss[n].childPid && ss[n].childPid in ss[w].procs
    ensures ss[w].procs[ss[n].childPid].Stopped? <==> ss[n].childStopped
    ensures forall i | w < i < n :: Outside(es[i])
  {
    assert n > 0;
    assert StepAt(c, ss, es, n - 1);
    RunInvariant(c, ss, es, n - 1);
    StepToStatus(c, ss[n - 1], es[n - 1], ss[n]);
    if es[n - 1].WaitStatus? {
      w := n - 1;
    } else {
      w := LastWait(c, ss, es, n - 1);
    }
  }

  lemma {:induction false} WordsStay(c: Config, ss: seq<State>, es: seq<Event>, m: nat, n: nat)
    requires Run(c, ss, es) && m <= n < |ss|
    ensures ss[m].out <= ss[n].out
    decreases n - m
  {
    if m < n {
      WordsStay(c, ss, es, m, n - 1);
      assert StepAt(c, ss, es, n - 1);
      OneWordAtMost(c, ss[n - 1], es[n - 1], ss[n]);
    }
  }

  lemma OneWordAtMost(c: Config, s: State, e: Event, t: State)
    requires Step(c, s, e, t)
    ensures s.out <= t.out && |t.out| <= |s.out| + 1
    ensures |t.out| > |s.out| ==> (e.WritePid? && t.out[|s.out|].Pid?) || (e.WriteStatus? && t.out[|s.out|].StatusOf?)
  {
  }

  /** The step that wrote word j. */
  lemma {:induction false} WordWritten(c: Config, ss: seq<State>, es: seq<Event>, n: nat, j: nat) returns (m: nat)
    requires Run(c, ss, es) && n < |ss| && j < |ss[n].out|
    ensures m < n && |ss[m].out| == j && ss[m].out < ss[m + 1].out <= ss[n].out
  {
    assert n > 0;
    assert StepAt(c, ss, es, n - 1);
    OneWordAtMost(c, ss[n - 1], es[n - 1], ss[n]);
    if j < |ss[n - 1].out| {
      m := WordWritten(c, ss, es, n - 1, j);
    } else {
      m := n - 1;
    }
  }

  /** Command i was answered in step m, truthfully. */
  ghost predicate AnsweredAt(ss: seq<State>, es: seq<Event>, n: nat, i: nat, m: nat)
    requires n < |ss| && |ss| == |es| + 1
  {
    && m < n && es[m].WriteStatus? && |ss[m].out| == 2 * i + 1 && 2 * i + 1 < |ss[n].out|
    && ss[n].out[2 * i] == Pid(ss[m].childPid)
    && ss[n].out[2 * i + 1] == StatusOf(ss[m].childPid, ss[m].procs != map[])
  }

  ghost predicate TrulyAnswered(ss: seq<State>, es: seq<Event>, n: nat, i: nat)
    requires n < |ss| && |ss| == |es| + 1
  {
    exists m: nat :: AnsweredAt(ss, es, n, i, m)
  }

  lemma AnswerOf(c: Config, ss: seq<State>, es: seq<Event>, n: nat, i: nat) returns (m: nat)
    requires Run(c, ss, es) && n < |ss| && Answers(ss[n].out, ss[n].commands) && i < ss[n].commands
    ensures AnsweredAt(ss, es, n, i, m)
  {
    m := WordWritten(c, ss, es, n, 2 * i + 1);
    assert StepAt(c, ss, es, m);
    OneWordAtMost(c, ss[m], es[m], ss[m + 1]);
    assert ss[n].out[2 * i + 1] == ss[m + 1].out[2 * i + 1];
    StatusIsTrue(c, ss, es, m);
  }

  /** Every command gets one pid word and then one status word of that process, before the next is taken; the status
      says whether the process was stopped or gone. */
  lemma OneAnswerPerCommand(c: Config, ss: seq<State>, es: seq<Event>, n: nat)
    requires Run(c, ss, es) && n < |es| && es[n].TakeCommand?
    ensures Answers(ss[n].out, ss[n].commands) && ss[n].commands == Taken(es, n)
    ensures forall i: nat | i < ss[n].commands :: TrulyAnswered(ss, es, n, i)
  {
    RunInvariant(c, ss, es, n);
    CountsAre(c, ss, es, n);
    assert StepAt(c, ss, es, n);
    forall i: nat | i < ss[n].commands ensures TrulyAnswered(ss, es, n, i) {
      var m := AnswerOf(c, ss, es, n, i);
    }
  }

  /** Commands taken, and forks, in the first n steps. */
  function Taken(es: seq<Event>, n: nat): nat
    requires n <= |es|
  {
    if n == 0 then 0 else Taken(es, n - 1) + if es[n - 1].TakeCommand? then 1 else 0
  }

  function Forked(es: seq<Event>, n: nat): nat
    requires n <= |es|
  {
    if n == 0 then 0 else Forked(es, n - 1) + if es[n - 1].Fork? then 1 else 0
  }

  lemma StepCounts(c: Config, s: State, e: Event, t: State)
    requires Step(c, s, e, t)
    ensures t.commands == s.commands + if e.TakeCommand? then 1 else 0
    ensures t.forks == s.forks + if e.Fork? then 1 else 0
  {
  }

  lemma {:induction false} CountsAre(c: Config, ss: seq<State>, es: seq<Event>, n: nat)
    requires Run(c, ss, es) && n < |ss|
    ensures ss[n].commands == Taken(es, n) && ss[n].forks == Forked(es, n)
  {
    if n > 0 {
      CountsAre(c, ss, es, n - 1);
      assert StepAt(c, ss, es, n - 1);
      StepCounts(c, ss[n - 1], es[n - 1], ss[n]);
    }
  }

  // ----- what a command does -----

  ghost predicate WordHeeded(s: State) {
    && (s.pc.Launch? && s.wasKilled != 0 ==> !s.childStopped)
    && (s.pc.WriteOff? ==> s.wasKilled != 0)
  }

  lemma StepHeedsWord(c: Config, s: State, e: Event, t: State)
    requires Step(c, s, e, t) && Children(s) && WordHeeded(s)
    ensures WordHeeded(t)
  {
  }

  lemma {:induction false} RunHeedsWord(c: Config, ss: seq<State>, es: seq<Event>, n: nat)
    requires Run(c, ss, es) && n < |ss|
    ensures WordHeeded(ss[n])
  {
    if n > 0 {
      RunHeedsWord(c, ss, es, n - 1);
      RunInvariant(c, ss, es, n - 1);
      assert StepAt(c, ss, es, n - 1);
      StepHeedsWord(c, ss[n - 1], es[n - 1], ss[n]);
    }
  }

  /** A stopped child is continued only by a zero word and written off only by another; there is a fork in all other
      cases. */
  lemma ContinueOnlyUnkilled(c: Config, ss: seq<State>, es: seq<Event>, n: nat)
    requires Run(c, ss, es) && n < |es|
    ensures es[n].Continue? ==> ss[n].wasKilled == 0 && ss[n].procs.Keys == {ss[n].childPid}
    ensures es[n].ReapKilled? ==> ss[n].wasKilled != 0
    ensures es[n].TakeCommand? ==>
              ss[n + 1].pc == if ss[n].procs != map[] && es[n].w != 0 then WriteOff else Launch
  {
    RunHeedsWord(c, ss, es, n);
    RunInvariant(c, ss, es, n);
    assert StepAt(c, ss, es, n);
    assert ss[n].procs == map[] <==> ss[n].procs.Keys == {};
  }

  // ----- the handshake word as the first command -----

  /** The fuzzer knows no options: it asked for no shared memory, and for no dictionary that there is. */
  predicate PlainHello(c: Config, w: bv32) {
    w & 0x81000001 != 0x81000001 && !(w & 0x90000001 == 0x90000001 && c.dict)
  }

  ghost predicate HelloKnown(c: Config, s: State) {
    && (s.pc.Hello? || s.pc.Options? ==> !s.fuzzPtr && !s.alreadyReadFirst)
    && (s.pc.Dictionary? ==> !s.alreadyReadFirst)
    && (s.alreadyReadFirst ==> (s.pc.Command? || s.pc.Exited?) && s.commands == 0 && PlainHello(c, s.wasKilled))
  }

  lemma StepKnowsHello(c: Config, s: State, e: Event, t: State)
    requires Step(c, s, e, t) && HelloKnown(c, s) && (s.pc.Options? ==> s.commands == 0)
    ensures HelloKnown(c, t)
    ensures s.alreadyReadFirst && !e.TakeCommand? ==> t.alreadyReadFirst && t.wasKilled == s.wasKilled
    ensures s.alreadyReadFirst && e.TakeCommand? ==> e.w == s.wasKilled
  {
  }

  lemma {:induction false} HelloInvariant(c: Config, ss: seq<State>, es: seq<Event>, n: nat)
    requires Run(c, ss, es) && n < |ss|
    ensures HelloKnown(c, ss[n])
  {
    if n > 0 {
      HelloInvariant(c, ss, es, n - 1);
      RunInvariant(c, ss, es, n - 1);
      assert StepAt(c, ss, es, n - 1);
      StepKnowsHello(c, ss[n - 1], es[n - 1], ss[n]);
    }
  }

  /** The handshake word is the first command exactly when the fuzzer knows no options. */
  lemma HandshakeIsCommand(c: Config, ss: seq<State>, es: seq<Event>, n: nat)
    requires Run(c, ss, es) && n < |es| && es[n].ReadOptions?
    ensures ss[n + 1].wasKilled == es[n].w && (ss[n + 1].alreadyReadFirst <==> PlainHello(c, es[n].w))
    ensures ss[n + 1].commands == 0
  {
    HelloInvariant(c, ss, es, n);
    RunInvariant(c, ss, es, n);
    assert StepAt(c, ss, es, n);
  }

  lemma {:induction false} HandshakeStays(c: Config, ss: seq<State>, es: seq<Event>, m: nat, n: nat)
    requires Run(c, ss, es) && m <= n < |ss| && ss[m].alreadyReadFirst
    requires forall i | m <= i < n :: !es[i].TakeCommand?
    ensures ss[n].alreadyReadFirst && ss[n].wasKilled == ss[m].wasKilled
    decreases n - m
  {
    if m < n {
      HandshakeStays(c, ss, es, m, n - 1);
      HelloInvariant(c, ss, es, n - 1);
      RunInvariant(c, ss, es, n - 1);
      assert StepAt(c, ss, es, n - 1);
      StepKnowsHello(c, ss[n - 1], es[n - 1], ss[n]);
    }
  }

  /** Then the first command taken is that very word. */
  lemma HandshakeTaken(c: Config, ss: seq<State>, es: seq<Event>, m: nat, n: nat)
    requires Run(c, ss, es) && m < n < |es| && es[m].ReadOptions? && PlainHello(c, es[m].w)
    requires es[n].TakeCommand? && forall i | m < i < n :: !es[i].TakeCommand?
    ensures es[n].w == es[m].w
  {
    HandshakeIsCommand(c, ss, es, m);
    HandshakeStays(c, ss, es, m + 1, n);
    HelloInvariant(c, ss, es, n);
    RunInvariant(c, ss, es, n);
    assert StepAt(c, ss, es, n);
    StepKnowsHello(c, ss[n], es[n], ss[n + 1]);
  }

  /** Handshake words read in the first n steps. */
  function Read(es: seq<Event>, n: nat): nat
    requires n <= |es|
  {
    if n == 0 then 0 else Read(es, n - 1) + if es[n - 1].ReadOptions? then 1 else 0
  }

  ghost predicate ReadKnown(c: Config, s: State, read: nat) {
    match s.pc
    case Hello => read == 0
    case Options => read == 0 && (c.shm || c.dict)
    case Detached => read == 0
    case Exited => read <= 1
    case _ => read == if c.shm || c.dict then 1 else 0
  }

  lemma StepReads(c: Config, s: State, e: Event, t: State, read: nat)
    requires Step(c, s, e, t) && ReadKnown(c, s, read)
    ensures ReadKnown(c, t, read + if e.ReadOptions? then 1 else 0)
  {
  }

  lemma {:induction false} RunReads(c: Config, ss: seq<State>, es: seq<Event>, n: nat)
    requires Run(c, ss, es) && n < |ss|
    ensures ReadKnown(c, ss[n], Read(es, n))
  {
    if n > 0 {
      RunReads(c, ss, es, n - 1);
      assert StepAt(c, ss, es, n - 1);
      StepReads(c, ss[n - 1], es[n - 1], ss[n], Read(es, n - 1));
    }
  }

  /** Before the first command exactly one handshake word is read if shared-memory input or a dictionary is there to be
      asked for, and none otherwise. */
  lemma HandshakeRead(c: Config, ss: seq<State>, es: seq<Event>, n: nat)
    requires Run(c, ss, es) && n < |es| && es[n].TakeCommand?
    ensures Read(es, n) == if c.shm || c.dict then 1 else 0
  {
    RunReads(c, ss, es, n);
    assert StepAt(c, ss, es, n);
  }

  // ----- without persistent mode -----

  lemma StepNeverStopped(c: Config, s: State, e: Event, t: State)
    requires Step(c, s, e, t) && !c.persistent && !s.childStopped
    ensures !t.childStopped
  {
  }

  lemma StepNoWriteOff(c: Config, s: State, e: Event, t: State)
    requires Step(c, s, e, t) && !s.childStopped && !s.pc.WriteOff?
    ensures !t.pc.WriteOff?
  {
  }

  lemma {:induction false} PlainMode(c: Config, ss: seq<State>, es: seq<Event>, n: nat)
    requires Run(c, ss, es) && n < |ss| && !c.persistent
    ensures !ss[n].pc.WriteOff? && !ss[n].childStopped
  {
    if n > 0 {
      PlainMode(c, ss, es, n - 1);
      assert StepAt(c, ss, es, n - 1);
      StepNeverStopped(c, ss[n - 1], es[n - 1], ss[n]);
      StepNoWriteOff(c, ss[n - 1], es[n - 1], ss[n]);
    }
  }

  /** Outside persistent mode no child is ever reported stopped, continued or written off: every command forks. */
  lemma NeverStopped(c: Config, ss: seq<State>, es: seq<Event>, n: nat)
    requires Run(c, ss, es) && n < |es| && !c.persistent
    ensures !es[n].Continue? && !es[n].ReapKilled?
    ensures es[n].WriteStatus? ==> ss[n + 1].out == ss[n].out + [StatusOf(ss[n].childPid, false)]
  {
    PlainMode(c, ss, es, n);
    assert StepAt(c, ss, es, n);
  }

  // ----- an honest fuzzer -----

  /** In step m the fuzzer killed the process announced for the current command. */
  ghost predicate KilledAt(ss: seq<State>, es: seq<Event>, m: nat)
    requires |ss| == |es| + 1
  {
    m < |es| && es[m].Kill? && ss[m].announced == Some(es[m].p)
  }

  lemma StepKills(c: Config, s: State, e: Event, t: State)
    requires Step(c, s, e, t)
    ensures t.killed <==> !e.TakeCommand? && (s.killed || (e.Kill? && s.announced == Some(e.p)))
  {
  }

  ghost predicate KilledSince(ss: seq<State>, es: seq<Event>, n: nat)
    requires |ss| == |es| + 1 && n <= |es|
  {
    exists m: nat :: m < n && KilledAt(ss, es, m) && Taken(es, m) == Taken(es, n)
  }

  lemma SinceNext(ss: seq<State>, es: seq<Event>, n: nat)
    requires |ss| == |es| + 1 && n < |es|
    ensures KilledSince(ss, es, n + 1) <==>
            !es[n].TakeCommand? && (KilledSince(ss, es, n) || KilledAt(ss, es, n))
  {
    if KilledSince(ss, es, n + 1) {
      var m: nat :| m < n + 1 && KilledAt(ss, es, m) && Taken(es, m) == Taken(es, n + 1);
      TakenGrows(es, m, n);
      assert m == n || KilledSince(ss, es, n);
    }
    if !es[n].TakeCommand? && KilledSince(ss, es, n) {
      var m: nat :| m < n && KilledAt(ss, es, m) && Taken(es, m) == Taken(es, n);
      assert Taken(es, m) == Taken(es, n + 1);
    }
    if !es[n].TakeCommand? && KilledAt(ss, es, n) {
      assert Taken(es, n) == Taken(es, n + 1);
    }
  }

  /** What an honest fuzzer reports: whether it has killed the announced process since the last command. */
  lemma {:induction false} KilledMeans(c: Config, ss: seq<State>, es: seq<Event>, n: nat)
    requires Run(c, ss, es) && n < |ss|
    ensures ss[n].killed <==> KilledSince(ss, es, n)
  {
    if n > 0 {
      KilledMeans(c, ss, es, n - 1);
      assert StepAt(c, ss, es, n - 1);
      StepKills(c, ss[n - 1], es[n - 1], ss[n]);
      SinceNext(ss, es, n - 1);
    }
  }

  lemma {:induction false} TakenGrows(es: seq<Event>, m: nat, n: nat)
    requires m <= n <= |es|
    ensures Taken(es, m) <= Taken(es, n)
    decreases n - m
  {
    if m < n {
      TakenGrows(es, m, n - 1);
    }
  }

  lemma {:induction false} HonestInvariant(c: Config, ss: seq<State>, es: seq<Event>, n: nat)
    requires Run(c, ss, es) && n < |ss| && forall i | 0 <= i < |es| :: Honest(ss[i], es[i])
    ensures KillsKnown(ss[n])
  {
    if n > 0 {
      HonestInvariant(c, ss, es, n - 1);
      RunInvariant(c, ss, es, n - 1);
      assert StepAt(c, ss, es, n - 1);
      StepKeepsKillsKnown(c, ss[n - 1], es[n - 1], ss[n]);
    }
  }

  /** With an honest fuzzer the server never waits for a written-off child that is still alive. */
  lemma WriteOffNeverBlocks(c: Config, ss: seq<State>, es: seq<Event>, n: nat)
    requires Run(c, ss, es) && n < |ss| && ss[n].pc.WriteOff?
    requires forall i | 0 <= i < |es| :: Honest(ss[i], es[i])
    ensures exists t :: Step(c, ss[n], ReapKilled, t)
  {
    HonestInvariant(c, ss, es, n);
    var s := ss[n];
    assert Step(c, s, ReapKilled, s.(procs := s.procs - {s.childPid}, pc := Launch));
  }
}
