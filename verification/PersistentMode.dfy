/** __AFL_LOOP in the child together with the fork server in the parent. */
module PersistentMode {
  import opened ForkServer
  import opened Wrappers

  const U32_MODULUS: nat := 0x1_0000_0000

  /** What a call of __afl_persistent_loop does: return 1 at once, stop and return 1 when continued, or return 0. */
  datatype Outcome = GoOn | StopThenGoOn | Leave

  /** The static variables of the function. */
  datatype Loop = Loop(firstPass: bool, cycleCnt: nat)

  function Call(l: Loop, maxCnt: nat): (Loop, Outcome) {
    if l.firstPass then (Loop(false, maxCnt), GoOn)
    else
      var cnt := (l.cycleCnt + U32_MODULUS - 1) % U32_MODULUS;
      (Loop(false, cnt), if cnt != 0 then StopThenGoOn else Leave)
  }

  class PersistentLoop {
    var firstPass: bool
    var cycleCnt: nat
    var area: array<bv8>   // __afl_area_ptr
    const dummy: array<bv8>
    var prevLoc: seq<nat>

    ghost function Model(): Loop
      reads this
    {
      Loop(firstPass, cycleCnt)
    }

    constructor (area: array<bv8>, dummy: array<bv8>)
      requires area.Length > 0
      ensures Model() == Loop(true, 0) && this.area == area && this.dummy == dummy
    {
      this.area, this.dummy := area, dummy;
      firstPass, cycleCnt, prevLoc := true, 0, [];
    }

    /** The first call also clears the map; leaving the loop redirects tracing to the dummy area. */
    method Next(maxCnt: nat) returns (o: Outcome)
      requires maxCnt < U32_MODULUS && area.Length > 0
      modifies this, area
      ensures (Model(), o) == Call(old(Model()), maxCnt)
      ensures o.Leave? ==> area == dummy && unchanged(old(area))
      ensures !o.Leave? ==> area == old(area) && area[0] == 1 && prevLoc == []
      ensures o.GoOn? ==> forall i | 0 < i < area.Length :: area[i] == 0
      ensures o.StopThenGoOn? ==> forall i | 0 < i < area.Length :: area[i] == old(area[i])
    {
      if firstPass {
        forall i | 0 <= i < area.Length { area[i] := 0; }
        area[0] := 1;
        prevLoc := [];
        cycleCnt := maxCnt;
        firstPass := false;
        return GoOn;
      }
      cycleCnt := (cycleCnt + U32_MODULUS - 1) % U32_MODULUS;
      if cycleCnt != 0 {
        area[0] := 1;
        prevLoc := [];
        return StopThenGoOn;
      }
      area := dummy;
      return Leave;
    }
  }

  /** How many runs one process serves: a count of zero wraps around. */
  function RunsPerFork(maxCnt: nat): (n: nat)
    ensures n > 0
  {
    if maxCnt == 0 then U32_MODULUS else maxCnt
  }

  /** A count of n stands for n runs, zero for 2^32. */
  lemma RunsInNumbers(maxCnt: nat)
    requires maxCnt < 0x1_0000_0000
    ensures RunsPerFork(maxCnt) == if maxCnt == 0 then 4294967296 else maxCnt
  {}

  /** The server, the loop variables of the current child, and how many runs that child has finished. */
  datatype Pair = Pair(s: State, l: Loop, done: nat)

  datatype Move = Server(e: Event) | ChildCalls

  /** No crashes, no kills, no failures; the child stops or exits only as its loop decides. */
  predicate PairStep(c: Config, maxCnt: nat, a: Pair, m: Move, b: Pair) {
    match m
    case Server(e) =>
      && !e.Kill? && !e.Fail? && !e.ChildStops? && !e.ChildExits?
      && (e.TakeCommand? && !a.s.alreadyReadFirst ==> e.w == 0)
      && Step(c, a.s, e, b.s)
      && (if e.Fork? then b.l == Loop(true, 0) && b.done == 0 else b.l == a.l && b.done == a.done)
    case ChildCalls =>
      var p := a.s.childPid;
      && p in a.s.procs && a.s.procs[p] == Running
      && var (l, o) := Call(a.l, maxCnt);
         && b.l == l
         && b.done == (if o.GoOn? then a.done else a.done + 1)
         && (match o
             case GoOn => b.s == a.s
             case StopThenGoOn => Step(c, a.s, ChildStops(p), b.s)
             case Leave => Step(c, a.s, ChildExits(p), b.s))
  }

  ghost predicate PairRun(c: Config, maxCnt: nat, ps: seq<Pair>, ms: seq<Move>) {
    && |ps| == |ms| + 1 && Init(ps[0].s) && ps[0].l == Loop(true, 0) && ps[0].done == 0
    && forall i | 0 <= i < |ms| :: PairStep(c, maxCnt, ps[i], ms[i], ps[i + 1])
  }

  /** The loop variables count down from the number of runs per fork. */
  ghost predicate Counting(n: nat, l: Loop, done: nat) {
    && (l.firstPass ==> done == 0)
    && (!l.firstPass ==> done <= n && l.cycleCnt == (n - done) % U32_MODULUS)
  }

  /** Runs finished by the current child, as its process state shows it. */
  ghost predicate Progress(n: nat, st: Status, done: nat) {
    match st
    case Running => done < n
    case Stopped(_) => 0 < done < n
    case Dead => done == n
  }

  /** Answered runs: all earlier children served n each, the current one `done`. */
  ghost predicate Accounted(n: nat, a: Pair, runs: nat) {
    a.s.forks > 0 && runs == (a.s.forks - 1) * n + a.done
  }

  ghost predicate Served(n: nat, a: Pair) {
    var s := a.s;
    && Children(s) && Counting(n, a.l, a.done)
    && (s.childPid in s.procs ==> Progress(n, s.procs[s.childPid], a.done))
    && (s.alreadyReadFirst ==> s.pc.Command? && !s.childStopped)
    && match s.pc
       case Command => Idle(n, a, s.commands)
       case Launch => s.commands > 0 && Idle(n, a, s.commands - 1)
       case SendPid => Busy(n, a)
       case Wait => Busy(n, a)
       case SendStatus => s.commands > 0 && Idle(n, a, s.commands)
       case WriteOff => false
       case Exited => false
       case _ => s.commands == 0 && s.forks == 0
  }

  /** Between runs: the child is stopped and has runs left, or it is gone and has served all of them. */
  ghost predicate Idle(n: nat, a: Pair, runs: nat) {
    if a.s.childStopped then
      a.s.childPid in a.s.procs && a.s.procs[a.s.childPid] == Stopped(true) && Accounted(n, a, runs)
    else runs == a.s.forks * n && (a.s.forks > 0 ==> a.done == n)
  }

  ghost predicate Busy(n: nat, a: Pair) {
    && a.s.commands > 0 && a.s.childPid in a.s.procs
    && a.s.procs[a.s.childPid] != Stopped(true)
    && Accounted(n, a, if a.s.procs[a.s.childPid] == Running then a.s.commands - 1 else a.s.commands)
  }

  lemma CallCounts(maxCnt: nat, l: Loop, done: nat)
    requires maxCnt < U32_MODULUS && Counting(RunsPerFork(maxCnt), l, done) && done < RunsPerFork(maxCnt)
    ensures var n := RunsPerFork(maxCnt); var (l', o) := Call(l, maxCnt);
            if o.GoOn? then Counting(n, l', done)
            else Counting(n, l', done + 1) && (o.Leave? <==> done + 1 == n)
  {
  }

  lemma ChildStepServes(c: Config, maxCnt: nat, a: Pair, b: Pair)
    requires maxCnt < U32_MODULUS && Served(RunsPerFork(maxCnt), a) && PairStep(c, maxCnt, a, ChildCalls, b)
    ensures Served(RunsPerFork(maxCnt), b)
  {
    CallCounts(maxCnt, a.l, a.done);
  }

  lemma ServerStepServes(c: Config, maxCnt: nat, a: Pair, e: Event, b: Pair)
    requires c.persistent && Served(RunsPerFork(maxCnt), a) && PairStep(c, maxCnt, a, Server(e), b)
    ensures Served(RunsPerFork(maxCnt), b)
  {
  }

  lemma {:induction false} RunServes(c: Config, maxCnt: nat, ps: seq<Pair>, ms: seq<Move>, i: nat)
    requires c.persistent && maxCnt < U32_MODULUS && PairRun(c, maxCnt, ps, ms) && i < |ps|
    ensures Served(RunsPerFork(maxCnt), ps[i])
  {
    if i > 0 {
      RunServes(c, maxCnt, ps, ms, i - 1);
      assert PairStep(c, maxCnt, ps[i - 1], ms[i - 1], ps[i]);
      match ms[i - 1]
      case Server(e) => ServerStepServes(c, maxCnt, ps[i - 1], e, ps[i]);
      case ChildCalls => ChildStepServes(c, maxCnt, ps[i - 1], ps[i]);
    }
  }

  lemma TimesLess(a: nat, n: nat)
    requires a > 0
    ensures a * n == (a - 1) * n + n
  {
  }

  /** Each fork serves exactly n runs: the number of children forked is the number of answered commands
      divided by n, rounded up. */
  lemma ForksPerRuns(c: Config, maxCnt: nat, ps: seq<Pair>, ms: seq<Move>, i: nat)
    requires c.persistent && maxCnt < U32_MODULUS && PairRun(c, maxCnt, ps, ms) && i < |ps|
    requires ps[i].s.pc.Command?
    ensures var n, r, forks := RunsPerFork(maxCnt), ps[i].s.commands, ps[i].s.forks;
            r <= forks * n && (forks > 0 ==> (forks - 1) * n < r)
  {
    RunServes(c, maxCnt, ps, ms, i);
    if ps[i].s.forks > 0 {
      TimesLess(ps[i].s.forks, RunsPerFork(maxCnt));
    }
  }
}
