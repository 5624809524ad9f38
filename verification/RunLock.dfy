/**
 The run lock of scripts/run_backend_tests_segmented.py for any number of processes whose
 file-system calls interleave freely. The lock file is a directory entry naming an inode, so
 a process that is still writing keeps writing to its own inode after the entry is removed.

 Main results: the lock stays intact over a run exactly when no stale-lock unlink hits a
 process that is creating or holding the lock (`IntactIffUnlinksHarmless`); runs that keep
 create+write, read+probe and check+unlink together and probe liveness truthfully are of that
 kind (`AtomicRunsExcludeEachOther`); dropping any one of the four loses mutual exclusion. A
 leftover lock is taken over (`LeftoverLockIsTakenOver`), a released one is taken
 (`ReleasedLockIsTaken`), a live holder's is refused (`LiveHolderRefuses`).
 */
module RunLock {

  import opened Wrappers

  /** Where a process is in `acquire_run_lock` and `release_run_lock`. */
  datatype Pc =
    | Start                  // about to create the file
    | Created(inode: nat)    // has created it, has not written its pid
    | Holding
    | Exists                 // creation failed, about to read the holder's pid
    | Judging(holder: nat)   // has read this pid, about to probe it
    | LooksEmpty             // no pid to be read, about to look at the size after the pause
    | Stale                  // about to unlink
    | Busy                   // the holder is alive, about to check the deadline
    | GaveUp
    | Releasing              // has seen the file exist, about to unlink it
    | Released
    | Dead

  /** `saysAlive` is the liveness probe's answer, `timedOut` the deadline check's. */
  datatype Action =
    | TryCreate
    | Write
    | Read
    | Probe(saysAlive: bool)
    | Stat
    | Unlink
    | CheckDeadline(timedOut: bool)
    | BeginRelease
    | EndRelease
    | Crash

  /** `path` is the inode the lock path names, `written` the pid stored in an inode. */
  datatype State = State(
    path: Option<nat>,
    written: map<nat, nat>,
    freshInode: nat,
    pcs: map<nat, Pc>)

  datatype Move = Move(pid: nat, action: Action)

  const INIT: State := State(None, map[], 0, map[])

  function PcOf(s: State, pid: nat): Pc {
    if pid in s.pcs then s.pcs[pid] else Start
  }

  function Goto(s: State, pid: nat, pc: Pc): State {
    s.(pcs := s.pcs[pid := pc])
  }

  /** The pid read from the lock file; 0 when the file is missing or still empty. */
  function Holder(s: State): nat {
    if s.path.Some? && s.path.value in s.written then s.written[s.path.value] else 0
  }

  function Step(s: State, m: Move): State {
    var pid := m.pid;
    match (PcOf(s, pid), m.action)
    case (Start, TryCreate) =>
      if s.path == None
      then Goto(s.(path := Some(s.freshInode), freshInode := s.freshInode + 1), pid, Created(s.freshInode))
      else Goto(s, pid, Exists)
    case (Created(inode), Write) => Goto(s.(written := s.written[inode := pid]), pid, Holding)
    case (Exists, Read) => Goto(s, pid, if Holder(s) == 0 then LooksEmpty else Judging(Holder(s)))
    case (Judging(_), Probe(saysAlive)) => Goto(s, pid, if saysAlive then Busy else Stale)
    case (LooksEmpty, Stat) =>
      Goto(s, pid, if s.path == None || s.path.value !in s.written then Stale else Busy)
    case (Stale, Unlink) => Goto(s.(path := None), pid, Start)
    case (Busy, CheckDeadline(timedOut)) => Goto(s, pid, if timedOut then GaveUp else Start)
    case (Holding, BeginRelease) => Goto(s, pid, if s.path == None then Released else Releasing)
    case (Releasing, EndRelease) => Goto(s.(path := None), pid, Released)
    case (_, Crash) => Goto(s, pid, Dead)
    case _ => s
  }

  function Run(s: State, moves: seq<Move>): State
    decreases |moves|
  {
    if moves == [] then s else Run(Step(s, moves[0]), moves[1..])
  }

  predicate Holds(s: State, pid: nat) {
    PcOf(s, pid).Holding? || PcOf(s, pid).Releasing?
  }

  predicate Owns(s: State, pid: nat) {
    PcOf(s, pid).Created? || Holds(s, pid)
  }

  /** The lock file is the one every creating or holding process believes it to be. */
  ghost predicate Intact(s: State) {
    && (forall p :: PcOf(s, p).Created? ==>
          s.path == Some(PcOf(s, p).inode) && PcOf(s, p).inode !in s.written)
    && (forall p :: Holds(s, p) ==> p > 0 && Holder(s) == p)
  }

  ghost predicate NobodyOwns(s: State) {
    forall p :: !Owns(s, p)
  }

  /** Facts about inodes and pids that no interleaving can break. */
  ghost predicate Sane(s: State) {
    DistinctInodes(s) && RealHolders(s)
  }

  ghost predicate DistinctInodes(s: State) {
    && (forall i :: i in s.written ==> i < s.freshInode)
    && (s.path.Some? ==> s.path.value < s.freshInode)
    && (forall p :: PcOf(s, p).Created? ==> PcOf(s, p).inode < s.freshInode)
    && (forall p, q :: PcOf(s, p).Created? && PcOf(s, q).Created? && p != q
          ==> PcOf(s, p).inode != PcOf(s, q).inode)
  }

  ghost predicate RealHolders(s: State) {
    && (forall p :: p > 0 || PcOf(s, p) == Start)
    && (forall i :: i in s.written ==> s.written[i] > 0)
    && (Holder(s) > 0 ==> Holds(s, Holder(s)) || PcOf(s, Holder(s)) == Dead)
  }

  ghost predicate RealPids(moves: seq<Move>) {
    forall m :: m in moves ==> m.pid > 0
  }

  predicate IsUnlink(s: State, m: Move) {
    m.action == Unlink && PcOf(s, m.pid) == Stale
  }

  ghost predicate SameOthers(s: State, s': State, pid: nat) {
    forall q :: q != pid ==> PcOf(s', q) == PcOf(s, q)
  }

  /** What one step can do: other processes stay where they are, a new file gets a new inode,
      and only a creator writes, into its own inode. */
  lemma StepEffect(s: State, m: Move)
    ensures var s' := Step(s, m); var pc, pc' := PcOf(s, m.pid), PcOf(s', m.pid);
            && SameOthers(s, s', m.pid) && s'.freshInode >= s.freshInode
            && (s'.path == s.path || s'.path == None
                || (s'.path == Some(s.freshInode) && s'.freshInode == s.freshInode + 1))
            && (s'.written == s.written || (pc.Created? && s'.written == s.written[pc.inode := m.pid]))
            && (pc'.Created? ==> pc' == pc || (pc'.inode == s.freshInode && s'.freshInode == s.freshInode + 1))
  {}

  lemma StepKeepsInodes(s: State, m: Move)
    requires DistinctInodes(s)
    ensures DistinctInodes(Step(s, m))
  {
    hide Step, PcOf;
    StepEffect(s, m);
  }

  lemma StepKeepsHolders(s: State, m: Move)
    requires DistinctInodes(s) && RealHolders(s) && m.pid > 0
    ensures RealHolders(Step(s, m))
  {
    StepEffect(s, m);
    assert PcOf(s, 0) == Start;
  }

  lemma StepKeepsSane(s: State, m: Move)
    requires Sane(s) && m.pid > 0
    ensures Sane(Step(s, m))
  {
    StepKeepsInodes(s, m);
    StepKeepsHolders(s, m);
  }

  /** One step keeps the lock intact unless it is an unlink that hits an owner. */
  lemma StepIntactIff(s: State, m: Move)
    requires Sane(s) && m.pid > 0 && Intact(s)
    ensures Intact(Step(s, m)) <==> (IsUnlink(s, m) ==> NobodyOwns(s))
  {
    if IsUnlink(s, m) {
      UnlinkIntactIff(s, m);
    } else {
      OtherStepKeepsIntact(s, m);
    }
  }

  lemma UnlinkIntactIff(s: State, m: Move)
    requires IsUnlink(s, m)
    ensures Intact(Step(s, m)) <==> NobodyOwns(s)
  {
    var s' := Step(s, m);
    assert Holder(s') == 0;
    forall p ensures Owns(s', p) == Owns(s, p) {}
    if NobodyOwns(s) {
      forall p ensures !PcOf(s', p).Created? && !Holds(s', p) { assert !Owns(s, p); }
    } else {
      var p :| Owns(s, p);
      assert Owns(s', p);
    }
  }

  lemma OtherStepKeepsIntact(s: State, m: Move)
    requires Sane(s) && m.pid > 0 && Intact(s) && !IsUnlink(s, m)
    ensures Intact(Step(s, m))
  {
    var s' := Step(s, m);
    assert Holds(s, m.pid) ==> Holder(s) == m.pid;
    forall p ensures PcOf(s', p).Created? ==>
        s'.path == Some(PcOf(s', p).inode) && PcOf(s', p).inode !in s'.written
    {
      assert p != m.pid ==> PcOf(s', p) == PcOf(s, p);
    }
    forall p ensures Holds(s', p) ==> p > 0 && Holder(s') == p {
      assert p != m.pid ==> PcOf(s', p) == PcOf(s, p);
      assert Holds(s, p) ==> Holder(s) == p;
    }
  }

  ghost predicate AlwaysIntact(s: State, moves: seq<Move>)
    decreases |moves|
  {
    Intact(s) && (moves != [] ==> AlwaysIntact(Step(s, moves[0]), moves[1..]))
  }

  ghost predicate UnlinksHarmless(s: State, moves: seq<Move>)
    decreases |moves|
  {
    moves != [] ==>
      && (IsUnlink(s, moves[0]) ==> NobodyOwns(s))
      && UnlinksHarmless(Step(s, moves[0]), moves[1..])
  }

  lemma {:induction false} IntactIff(s: State, moves: seq<Move>)
    requires Sane(s) && Intact(s) && RealPids(moves)
    ensures AlwaysIntact(s, moves) <==> UnlinksHarmless(s, moves)
    decreases |moves|
  {
    if moves != [] {
      assert moves[0] in moves;
      StepIntactIff(s, moves[0]);
      StepKeepsSane(s, moves[0]);
      var s' := Step(s, moves[0]);
      if Intact(s') {
        IntactIff(s', moves[1..]);
      } else {
        assert !AlwaysIntact(s', moves[1..]);
      }
    }
  }

  /** For every interleaving of every number of processes: the lock is intact at each moment
      exactly when each stale-lock unlink happens while nobody creates or holds the lock. */
  lemma IntactIffUnlinksHarmless(moves: seq<Move>)
    requires RealPids(moves)
    ensures AlwaysIntact(INIT, moves) <==> UnlinksHarmless(INIT, moves)
  {
    IntactIff(INIT, moves);
  }

  // ---- the assumptions under which the lock excludes

  /** Create and pid write are not separated by a step of another process. */
  ghost predicate CreateIsAtomic(s: State, m: Move) {
    m.action == Crash || forall q :: q != m.pid ==> !PcOf(s, q).Created?
  }

  /** Finding a lock stale and unlinking it are not separated either. */
  ghost predicate TakeoverIsAtomic(s: State, m: Move) {
    m.action == Crash || forall q :: q != m.pid ==> PcOf(s, q) != Stale
  }

  /** Nor are reading the holder's pid and probing it. */
  ghost predicate ReadIsAtomic(s: State, m: Move) {
    m.action == Crash || forall q :: q != m.pid ==> !PcOf(s, q).Judging?
  }

  /** The liveness probe never reports a live process as dead. */
  predicate ProbeIsTruthful(s: State, m: Move) {
    m.action == Probe(false) && PcOf(s, m.pid).Judging? ==> PcOf(s, PcOf(s, m.pid).holder) == Dead
  }

  /** Which of the four assumptions a run is held to. */
  datatype Assumptions = Assumptions(create: bool, takeover: bool, read: bool, probe: bool)

  const ALL: Assumptions := Assumptions(true, true, true, true)

  ghost predicate Allowed(s: State, m: Move, a: Assumptions) {
    && (a.create ==> CreateIsAtomic(s, m))
    && (a.takeover ==> TakeoverIsAtomic(s, m))
    && (a.read ==> ReadIsAtomic(s, m))
    && (a.probe ==> ProbeIsTruthful(s, m))
  }

  ghost predicate Careful(s: State, moves: seq<Move>, a: Assumptions)
    decreases |moves|
  {
    moves != [] ==> Allowed(s, moves[0], a) && Careful(Step(s, moves[0]), moves[1..], a)
  }

  ghost predicate StaleMeansFree(s: State) {
    forall p :: PcOf(s, p) == Stale ==> NobodyOwns(s)
  }

  /** A pid that is being judged is the one in the file. */
  ghost predicate JudgesHolder(s: State) {
    forall p :: PcOf(s, p).Judging? ==> PcOf(s, p).holder == Holder(s) > 0
  }

  lemma CarefulStepJudges(s: State, m: Move)
    requires JudgesHolder(s) && ReadIsAtomic(s, m)
    ensures JudgesHolder(Step(s, m))
  {
    var s' := Step(s, m);
    forall p | PcOf(s', p).Judging? ensures PcOf(s', p).holder == Holder(s') > 0 {
      if p != m.pid {
        assert PcOf(s', p) == PcOf(s, p);
        assert m.action == Crash && Holder(s') == Holder(s);
      }
    }
  }

  lemma CarefulStep(s: State, m: Move)
    requires Sane(s) && m.pid > 0 && Intact(s) && StaleMeansFree(s) && JudgesHolder(s)
    requires Allowed(s, m, ALL)
    ensures StaleMeansFree(Step(s, m))
  {
    var s' := Step(s, m);
    assert forall p :: p != m.pid ==> PcOf(s', p) == PcOf(s, p);
    forall p | PcOf(s', p) == Stale ensures NobodyOwns(s') {
      if p == m.pid && PcOf(s, p) != Stale {
        forall q ensures !Owns(s', q) {
          assert Holds(s, q) ==> Holder(s) == q;
        }
      } else {
        assert PcOf(s, p) == Stale;
        forall q ensures !Owns(s', q) { assert !Owns(s, q); }
      }
    }
  }

  lemma {:induction false} CarefulRun(s: State, moves: seq<Move>)
    requires Sane(s) && Intact(s) && StaleMeansFree(s) && JudgesHolder(s)
    requires RealPids(moves) && Careful(s, moves, ALL)
    ensures Intact(Run(s, moves)) && UnlinksHarmless(s, moves) && Sane(Run(s, moves))
    decreases |moves|
  {
    if moves != [] {
      assert moves[0] in moves;
      StepIntactIff(s, moves[0]);
      StepKeepsSane(s, moves[0]);
      CarefulStep(s, moves[0]);
      CarefulStepJudges(s, moves[0]);
      CarefulRun(Step(s, moves[0]), moves[1..]);
    }
  }

  /** Under the four assumptions at most one process holds the lock, and the file names it. */
  lemma AtomicRunsExcludeEachOther(moves: seq<Move>, p: nat, q: nat)
    requires RealPids(moves) && Careful(INIT, moves, ALL)
    requires Holds(Run(INIT, moves), p) && Holds(Run(INIT, moves), q)
    ensures p == q && Holder(Run(INIT, moves)) == p
  {
    CarefulRun(INIT, moves);
  }

  /** The steps by which a process alone clears the lock file it finds. */
  function ToStart(s: State, pid: nat): seq<Move> {
    if s.path == None then []
    else [Move(pid, TryCreate), Move(pid, Read),
          Move(pid, if Holder(s) > 0 then Probe(false) else Stat), Move(pid, Unlink)]
  }

  function TakeOver(s: State, pid: nat): seq<Move> {
    ToStart(s, pid) + [Move(pid, TryCreate), Move(pid, Write)]
  }

  lemma {:induction false} RunKeepsSane(s: State, moves: seq<Move>)
    requires Sane(s) && RealPids(moves)
    ensures Sane(Run(s, moves))
    decreases |moves|
  {
    if moves != [] {
      hide Sane, Step;
      assert moves[0] in moves;
      StepKeepsSane(s, moves[0]);
      RunKeepsSane(Step(s, moves[0]), moves[1..]);
    }
  }

  /** A lock left behind can always be taken over: after any run, when nobody alive creates or
      holds it, a process at the start that then runs alone holds the lock after at most six of
      its own steps, whatever the crashed processes left. */
  lemma LeftoverLockIsTakenOver(moves: seq<Move>, pid: nat)
    requires RealPids(moves) && pid > 0
    requires PcOf(Run(INIT, moves), pid) == Start && NobodyOwns(Run(INIT, moves))
    ensures var s := Run(INIT, moves); var own := TakeOver(s, pid);
            && |own| <= 6 && TruthfulRun(s, own) && Holds(Run(s, own), pid)
  {
    RunKeepsSane(INIT, moves);
    var s := Run(INIT, moves);
    RunAppend(s, ToStart(s, pid), [Move(pid, TryCreate), Move(pid, Write)]);
    if s.path != None {
      LeftoverIsUnlinked(s, pid, ToStart(s, pid));
    }
    FreeLockIsTaken(Run(s, ToStart(s, pid)), pid);
  }

  ghost predicate TruthfulRun(s: State, moves: seq<Move>)
    decreases |moves|
  {
    moves != [] ==> ProbeIsTruthful(s, moves[0]) && TruthfulRun(Step(s, moves[0]), moves[1..])
  }

  lemma {:induction false} RunAppend(s: State, a: seq<Move>, b: seq<Move>)
    ensures Run(s, a + b) == Run(Run(s, a), b)
    ensures TruthfulRun(s, a + b) <==> TruthfulRun(s, a) && TruthfulRun(Run(s, a), b)
    decreases |a|
  {
    if a == [] {
      assert a + b == b;
    } else {
      assert (a + b)[1..] == a[1..] + b;
      RunAppend(Step(s, a[0]), a[1..], b);
    }
  }

  lemma FreeLockIsTaken(s: State, pid: nat)
    requires PcOf(s, pid) == Start && s.path == None
    ensures var own := [Move(pid, TryCreate), Move(pid, Write)];
            Holds(Run(s, own), pid) && TruthfulRun(s, own)
  {
    var own := [Move(pid, TryCreate), Move(pid, Write)];
    var s1 := Step(s, own[0]);
    var s2 := Step(s1, own[1]);
    assert own[1..] == [Move(pid, Write)] && own[1..][1..] == [];
    assert Run(s1, own[1..]) == Run(s2, []) == s2;
    assert TruthfulRun(s1, own[1..]);
  }

  lemma LeftoverIsUnlinked(s: State, pid: nat, own: seq<Move>)
    requires Sane(s) && NobodyOwns(s) && PcOf(s, pid) == Start && s.path.Some?
    requires own == ToStart(s, pid)
    ensures TruthfulRun(s, own) && PcOf(Run(s, own), pid) == Start && Run(s, own).path == None
  {
    assert !Owns(s, Holder(s));
    var s1 := Step(s, own[0]);
    RunAppend(s1, [own[1]], own[2..]);
    if Holder(s) > 0 {
      DeadHolderIsUnlinked(s1, pid, own[1..]);
    } else {
      EmptyFileIsUnlinked(s1, pid, own[1..]);
    }
  }

  lemma DeadHolderIsUnlinked(s: State, pid: nat, own: seq<Move>)
    requires PcOf(s, pid) == Exists && Holder(s) > 0 && PcOf(s, Holder(s)) == Dead
    requires own == [Move(pid, Read), Move(pid, Probe(false)), Move(pid, Unlink)]
    ensures TruthfulRun(s, own) && PcOf(Run(s, own), pid) == Start && Run(s, own).path == None
  {
    var s1 := Step(s, own[0]);
    ThreeSteps(s, own);
    assert PcOf(s1, pid) == Judging(Holder(s)) && PcOf(s1, Holder(s)) == Dead;
  }

  lemma EmptyFileIsUnlinked(s: State, pid: nat, own: seq<Move>)
    requires PcOf(s, pid) == Exists && s.path.Some? && s.path.value !in s.written
    requires own == [Move(pid, Read), Move(pid, Stat), Move(pid, Unlink)]
    ensures TruthfulRun(s, own) && PcOf(Run(s, own), pid) == Start && Run(s, own).path == None
  {
    ThreeSteps(s, own);
  }

  // ---- giving up and waiting

  /** A process gives up exactly when the holder was found alive and the deadline has passed;
      before the deadline it goes back to the start. */
  lemma GivesUpIff(s: State, m: Move, p: nat)
    requires PcOf(s, p) != GaveUp
    ensures PcOf(Step(s, m), p) == GaveUp
            <==> p == m.pid && PcOf(s, p) == Busy && m.action == CheckDeadline(true)
    ensures PcOf(s, m.pid) == Busy && m.action == CheckDeadline(false) ==> Step(s, m) == Goto(s, m.pid, Start)
  {}

  lemma ThreeSteps(s: State, own: seq<Move>)
    requires |own| == 3
    ensures var s1 := Step(s, own[0]); var s2 := Step(s1, own[1]);
            && Run(s, own) == Step(s2, own[2])
            && (ProbeIsTruthful(s, own[0]) && ProbeIsTruthful(s1, own[1]) && ProbeIsTruthful(s2, own[2])
                ==> TruthfulRun(s, own))
  {
    hide Step, ProbeIsTruthful;
    var s1 := Step(s, own[0]);
    var s2 := Step(s1, own[1]);
    var s3 := Step(s2, own[2]);
    assert own[1..] == [own[1], own[2]] && own[1..][1..] == [own[2]] && [own[2]][1..] == [];
    assert Run(s2, [own[2]]) == Run(s3, []) == s3;
    assert Run(s1, own[1..]) == Run(s2, [own[2]]);
    assert TruthfulRun(s3, []);
    assert ProbeIsTruthful(s2, own[2]) ==> TruthfulRun(s2, [own[2]]);
    assert ProbeIsTruthful(s1, own[1]) && ProbeIsTruthful(s2, own[2]) ==> TruthfulRun(s1, own[1..]);
  }

  /** The ordinary refusal: a process that finds a live holder and has no time left gives up
      after four steps and leaves the lock file as it is; with time left it starts over. */
  lemma LiveHolderRefuses(s: State, pid: nat, timedOut: bool)
    requires PcOf(s, pid) == Start && Holder(s) > 0
    ensures Run(s, [Move(pid, TryCreate), Move(pid, Read), Move(pid, Probe(true)), Move(pid, CheckDeadline(timedOut))])
            == Goto(s, pid, if timedOut then GaveUp else Start)
  {
    var s1 := Step(s, Move(pid, TryCreate));
    var own := [Move(pid, Read), Move(pid, Probe(true)), Move(pid, CheckDeadline(timedOut))];
    assert s1 == Goto(s, pid, Exists);
    assert ([Move(pid, TryCreate)] + own)[1..] == own;
    assert [Move(pid, TryCreate)] + own
           == [Move(pid, TryCreate), Move(pid, Read), Move(pid, Probe(true)), Move(pid, CheckDeadline(timedOut))];
    ThreeSteps(s1, own);
    RefusalSteps(s1, pid, timedOut);
    assert s.pcs[pid := Exists][pid := if timedOut then GaveUp else Start]
           == s.pcs[pid := if timedOut then GaveUp else Start];
  }

  lemma RefusalSteps(s: State, pid: nat, timedOut: bool)
    requires PcOf(s, pid) == Exists && Holder(s) > 0
    ensures Step(Step(Step(s, Move(pid, Read)), Move(pid, Probe(true))), Move(pid, CheckDeadline(timedOut)))
            == Goto(s, pid, if timedOut then GaveUp else Start)
  {
    var s1 := Step(s, Move(pid, Read));
    assert s1 == Goto(s, pid, Judging(Holder(s)));
    var s2 := Step(s1, Move(pid, Probe(true)));
    assert s2.pcs == s.pcs[pid := Busy];
    assert Step(s2, Move(pid, CheckDeadline(timedOut))).pcs == s.pcs[pid := if timedOut then GaveUp else Start];
  }

  /** Releasing frees the lock: in two steps the holder is through and the file is gone; when it
      is gone already, one step is enough. */
  lemma ReleaseFrees(s: State, pid: nat)
    requires PcOf(s, pid) == Holding
    ensures var s' := Run(s, [Move(pid, BeginRelease), Move(pid, EndRelease)]);
            s'.path == None && PcOf(s', pid) == Released && SameOthers(s, s', pid)
    ensures s.path == None ==> PcOf(Step(s, Move(pid, BeginRelease)), pid) == Released
  {
    TwoSteps(s, Move(pid, BeginRelease), Move(pid, EndRelease));
  }

  lemma TwoSteps(s: State, a: Move, b: Move)
    ensures Run(s, [a, b]) == Step(Step(s, a), b)
  {
    hide Step;
    assert [a, b][1..] == [b] && [b][1..] == [];
    assert Run(Step(s, a), [b]) == Run(Step(Step(s, a), b), []);
  }

  /** A process somewhere in the loop of `acquire_run_lock`. */
  predicate Waits(pc: Pc) {
    pc == Start || pc == Exists || pc.Judging? || pc == LooksEmpty || pc == Stale || pc == Busy
  }

  /** The steps, with a truthful probe and time left, that bring a waiting process back to the
      start when there is no lock file. */
  function BackToStart(s: State, pid: nat): seq<Move> {
    match PcOf(s, pid)
    case Exists => [Move(pid, Read), Move(pid, Stat), Move(pid, Unlink)]
    case LooksEmpty => [Move(pid, Stat), Move(pid, Unlink)]
    case Judging(holder) =>
      if PcOf(s, holder) == Dead then [Move(pid, Probe(false)), Move(pid, Unlink)]
      else [Move(pid, Probe(true)), Move(pid, CheckDeadline(false))]
    case Stale => [Move(pid, Unlink)]
    case Busy => [Move(pid, CheckDeadline(false))]
    case _ => []
  }

  lemma WaitingReachesStart(s: State, pid: nat)
    requires Waits(PcOf(s, pid)) && s.path == None
    ensures var own := BackToStart(s, pid); var s' := Run(s, own);
            |own| <= 3 && TruthfulRun(s, own) && PcOf(s', pid) == Start && s'.path == None
  {
    var own := BackToStart(s, pid);
    if PcOf(s, pid) == Exists {
      ThreeSteps(s, own);
    } else if |own| == 2 {
      TwoSteps(s, own[0], own[1]);
      TwoTruthful(s, own[0], own[1]);
      assert own == [own[0], own[1]];
    } else if |own| == 1 {
      assert own[1..] == [];
      assert Run(Step(s, own[0]), own[1..]) == Step(s, own[0]) && TruthfulRun(Step(s, own[0]), own[1..]);
    }
  }

  lemma TwoTruthful(s: State, a: Move, b: Move)
    ensures ProbeIsTruthful(s, a) && ProbeIsTruthful(Step(s, a), b) ==> TruthfulRun(s, [a, b])
  {
    hide Step, ProbeIsTruthful;
    assert [a, b][1..] == [b] && [b][1..] == [];
    assert TruthfulRun(Step(Step(s, a), b), []);
    assert ProbeIsTruthful(Step(s, a), b) ==> TruthfulRun(Step(s, a), [b]);
  }

  /** What the waiting process does after the holder `h` has released. */
  function TakeReleased(s: State, h: nat, pid: nat): seq<Move> {
    BackToStart(Run(s, [Move(h, BeginRelease), Move(h, EndRelease)]), pid)
    + [Move(pid, TryCreate), Move(pid, Write)]
  }

  /** A released lock is taken: wherever a process is waiting when the live holder releases, it
      holds the lock after at most five of its own steps if it then runs alone, its probe is
      truthful and its deadline has not passed. */
  lemma ReleasedLockIsTaken(s: State, h: nat, pid: nat)
    requires PcOf(s, h) == Holding && Waits(PcOf(s, pid))
    ensures var s1 := Run(s, [Move(h, BeginRelease), Move(h, EndRelease)]); var own := TakeReleased(s, h, pid);
            && |own| <= 5 && TruthfulRun(s1, own) && Holds(Run(s1, own), pid)
            && Move(pid, CheckDeadline(true)) !in own
  {
    ReleaseFrees(s, h);
    var s1 := Run(s, [Move(h, BeginRelease), Move(h, EndRelease)]);
    assert PcOf(s1, pid) == PcOf(s, pid);
    WaitingReachesStart(s1, pid);
    RunAppend(s1, BackToStart(s1, pid), [Move(pid, TryCreate), Move(pid, Write)]);
    FreeLockIsTaken(Run(s1, BackToStart(s1, pid)), pid);
  }

  /** Has created the file, or is past that. */
  predicate Committed(pc: Pc) { pc.Created? || pc == Holding || pc == Releasing || pc == Released || pc == Dead }

  lemma {:induction false} CommittedStays(s: State, moves: seq<Move>, p: nat)
    requires Committed(PcOf(s, p))
    ensures Committed(PcOf(Run(s, moves), p))
    decreases |moves|
  {
    if moves != [] {
      StepEffect(s, moves[0]);
      assert Committed(PcOf(Step(s, moves[0]), p));
      hide Step;
      CommittedStays(Step(s, moves[0]), moves[1..], p);
    }
  }

  /** The move changes the lock file: its directory entry or a pid written into it. */
  predicate ChangesFile(s: State, m: Move) { Step(s, m).path != s.path || Step(s, m).written != s.written }

  /** A process that gives up has never created the file nor written into one; the only change
      it can have made is the unlink of a lock file it had found stale. */
  lemma GivingUpLeavesFile(before: seq<Move>, m: Move, after: seq<Move>)
    requires PcOf(Run(INIT, before + [m] + after), m.pid) == GaveUp
    ensures var s := Run(INIT, before);
            && Step(s, m).written == s.written
            && (ChangesFile(s, m) <==> IsUnlink(s, m) && s.path.Some?)
            && (ChangesFile(s, m) ==> Step(s, m).path == None)
  {
    var s := Run(INIT, before);
    RunAppend(INIT, before + [m], after);
    RunAppend(INIT, before, [m]);
    assert [m][1..] == [];
    assert Run(Step(s, m), []) == Step(s, m);
    hide Step, PcOf;
    if Committed(PcOf(Step(s, m), m.pid)) { CommittedStays(Step(s, m), after, m.pid); }
    UncommittedStep(s, m);
  }

  lemma UncommittedStep(s: State, m: Move)
    requires !Committed(PcOf(Step(s, m), m.pid))
    ensures Step(s, m).written == s.written
    ensures ChangesFile(s, m) <==> IsUnlink(s, m) && s.path.Some?
    ensures ChangesFile(s, m) ==> Step(s, m).path == None
  {}

  // ---- none of the four assumptions can be dropped

  ghost predicate Reaches(moves: seq<Move>, s: State, a: Assumptions) {
    RealPids(moves) && Careful(INIT, moves, a) && Run(INIT, moves) == s
  }

  ghost predicate Reachable(s: State, a: Assumptions) {
    exists moves :: Reaches(moves, s, a)
  }

  ghost predicate TwoHolders(s: State, a: Assumptions) {
    Reachable(s, a) && Holds(s, 1) && Holds(s, 2)
  }

  lemma {:induction false} CarefulAppend(s: State, moves: seq<Move>, m: Move, a: Assumptions)
    requires Careful(s, moves, a) && Allowed(Run(s, moves), m, a)
    ensures Careful(s, moves + [m], a) && Run(s, moves + [m]) == Step(Run(s, moves), m)
    decreases |moves|
  {
    if moves == [] {
      assert (moves + [m])[1..] == [];
      assert Run(Step(s, m), []) == Step(s, m);
    } else {
      assert (moves + [m])[1..] == moves[1..] + [m];
      CarefulAppend(Step(s, moves[0]), moves[1..], m, a);
    }
  }

  /** Lengthens a witness by one move. */
  lemma Extend(s: State, m: Move, a: Assumptions) returns (s': State)
    requires Reachable(s, a) && m.pid > 0 && Allowed(s, m, a)
    ensures Reachable(s', a) && s' == Step(s, m) && SameOthers(s, s', m.pid)
  {
    hide Step, Careful, Run, Allowed;
    StepEffect(s, m);
    s' := Step(s, m);
    var moves :| Reaches(moves, s, a);
    CarefulAppend(INIT, moves, m, a);
    assert Reaches(moves + [m], s', a);
  }

  /** No other process forbids `pid` to move. */
  ghost predicate Unblocked(s: State, pid: nat, a: Assumptions) {
    && pid > 0
    && (a.create ==> forall q :: q != pid ==> !PcOf(s, q).Created?)
    && (a.takeover ==> forall q :: q != pid ==> PcOf(s, q) != Stale)
    && (a.read ==> forall q :: q != pid ==> !PcOf(s, q).Judging?)
  }

  lemma CreateFile(s: State, pid: nat, a: Assumptions) returns (s': State)
    requires Reachable(s, a) && Unblocked(s, pid, a) && PcOf(s, pid) == Start && s.path == None
    ensures Reachable(s', a) && PcOf(s', pid) == Created(s.freshInode) && SameOthers(s, s', pid)
    ensures s'.path == Some(s.freshInode) && s'.written == s.written
  {
    s' := Extend(s, Move(pid, TryCreate), a);
  }

  lemma WritePid(s: State, pid: nat, a: Assumptions) returns (s': State)
    requires Reachable(s, a) && Unblocked(s, pid, a) && PcOf(s, pid).Created?
    ensures Reachable(s', a) && PcOf(s', pid) == Holding && SameOthers(s, s', pid)
    ensures s'.path == s.path && s'.written == s.written[PcOf(s, pid).inode := pid]
  {
    s' := Extend(s, Move(pid, Write), a);
  }

  lemma TakeFreeLock(s: State, pid: nat, a: Assumptions) returns (s': State)
    requires Reachable(s, a) && Unblocked(s, pid, a) && PcOf(s, pid) == Start && s.path == None
    ensures Reachable(s', a) && PcOf(s', pid) == Holding && SameOthers(s, s', pid)
    ensures s'.path == Some(s.freshInode) && s'.written == s.written[s.freshInode := pid]
  {
    var s1 := CreateFile(s, pid, a);
    s' := WritePid(s1, pid, a);
  }

  lemma ReadHolder(s: State, pid: nat, a: Assumptions) returns (s': State)
    requires Reachable(s, a) && Unblocked(s, pid, a) && PcOf(s, pid) == Start && Holder(s) > 0
    ensures Reachable(s', a) && PcOf(s', pid) == Judging(Holder(s)) && SameOthers(s, s', pid)
    ensures s'.path == s.path && s'.written == s.written && s'.freshInode == s.freshInode
  {
    var s1 := Extend(s, Move(pid, TryCreate), a);
    s' := Extend(s1, Move(pid, Read), a);
  }

  lemma JudgeStale(s: State, pid: nat, a: Assumptions) returns (s': State)
    requires Reachable(s, a) && Unblocked(s, pid, a) && PcOf(s, pid) == Start
    requires Holder(s) > 0 && Holder(s) != pid && (a.probe ==> PcOf(s, Holder(s)) == Dead)
    ensures Reachable(s', a) && PcOf(s', pid) == Stale && SameOthers(s, s', pid)
    ensures s'.path == s.path && s'.written == s.written
  {
    var s1 := ReadHolder(s, pid, a);
    assert PcOf(s1, Holder(s)) == PcOf(s, Holder(s));
    s' := Condemn(s1, pid, a);
  }

  lemma Condemn(s: State, pid: nat, a: Assumptions) returns (s': State)
    requires Reachable(s, a) && Unblocked(s, pid, a) && PcOf(s, pid).Judging?
    requires a.probe ==> PcOf(s, PcOf(s, pid).holder) == Dead
    ensures Reachable(s', a) && PcOf(s', pid) == Stale && SameOthers(s, s', pid)
    ensures s'.path == s.path && s'.written == s.written
  {
    s' := Extend(s, Move(pid, Probe(false)), a);
  }

  lemma JudgeEmpty(s: State, pid: nat, a: Assumptions) returns (s': State)
    requires Reachable(s, a) && Unblocked(s, pid, a) && PcOf(s, pid) == Start
    requires s.path.Some? && s.path.value !in s.written
    ensures Reachable(s', a) && PcOf(s', pid) == Stale && SameOthers(s, s', pid)
  {
    var s1 := Extend(s, Move(pid, TryCreate), a);
    var s2 := Extend(s1, Move(pid, Read), a);
    s' := Extend(s2, Move(pid, Stat), a);
  }

  lemma RemoveStale(s: State, pid: nat, a: Assumptions) returns (s': State)
    requires Reachable(s, a) && Unblocked(s, pid, a) && PcOf(s, pid) == Stale
    ensures Reachable(s', a) && PcOf(s', pid) == Start && SameOthers(s, s', pid) && s'.path == None
  {
    s' := Extend(s, Move(pid, Unlink), a);
  }

  /** A process ends, wherever it is. */
  lemma End(s: State, pid: nat, a: Assumptions) returns (s': State)
    requires Reachable(s, a) && pid > 0
    ensures Reachable(s', a) && PcOf(s', pid) == Dead && SameOthers(s, s', pid)
    ensures s'.path == s.path && s'.written == s.written
  {
    s' := Extend(s, Move(pid, Crash), a);
  }

  lemma ReleaseAndEnd(s: State, pid: nat, a: Assumptions) returns (s': State)
    requires Reachable(s, a) && Unblocked(s, pid, a) && PcOf(s, pid) == Holding && s.path.Some?
    ensures Reachable(s', a) && PcOf(s', pid) == Dead && SameOthers(s, s', pid)
    ensures s'.path == None && s'.written == s.written
  {
    var s1 := Extend(s, Move(pid, BeginRelease), a);
    var s2 := Extend(s1, Move(pid, EndRelease), a);
    s' := End(s2, pid, a);
  }

  lemma StartReachable(a: Assumptions)
    ensures Reachable(INIT, a) && forall p :: PcOf(INIT, p) == Start
  {
    assert Reaches([], INIT, a);
  }

  /** Giving up does not mean having left the file alone: process 2 unlinks the lock of a dead
      process, is overtaken by process 1 and then gives up. */
  lemma GivingUpAfterUnlink()
    ensures exists before, after :: && Careful(INIT, before, ALL) && ChangesFile(Run(INIT, before), Move(2, Unlink))
                                    && PcOf(Run(INIT, before + [Move(2, Unlink)] + after), 2) == GaveUp
  {
    hide Step, PcOf, Reachable, Careful, Run, Holder;
    var before, s := StaleAfterCrash();
    var take := [Move(1, TryCreate), Move(1, Write)];
    var refuse := [Move(2, TryCreate), Move(2, Read), Move(2, Probe(true)), Move(2, CheckDeadline(true))];
    UnlinkThenRefused(s, take, refuse);
    RunAppend(INIT, before + [Move(2, Unlink)], take + refuse);
    RunAppend(INIT, before, [Move(2, Unlink)]);
    assert Run(INIT, before + [Move(2, Unlink)] + (take + refuse))
           == Run(Run(s, [Move(2, Unlink)]), take + refuse);
  }

  /** Process 3 takes the lock and ends; process 2 finds the lock stale. */
  lemma StaleAfterCrash() returns (moves: seq<Move>, s: State)
    ensures Reaches(moves, s, ALL) && PcOf(s, 2) == Stale && s.path.Some? && PcOf(s, 1) == Start
  {
    StartReachable(ALL);
    hide Step, PcOf;
    s := TakeFreeLock(INIT, 3, ALL);
    s := End(s, 3, ALL);
    s := JudgeStale(s, 2, ALL);
    moves :| Reaches(moves, s, ALL);
  }

  lemma UnlinkThenRefused(s: State, take: seq<Move>, refuse: seq<Move>)
    requires PcOf(s, 2) == Stale && s.path.Some? && PcOf(s, 1) == Start
    requires take == [Move(1, TryCreate), Move(1, Write)]
    requires refuse == [Move(2, TryCreate), Move(2, Read), Move(2, Probe(true)), Move(2, CheckDeadline(true))]
    ensures ChangesFile(s, Move(2, Unlink))
    ensures PcOf(Run(Run(s, [Move(2, Unlink)]), take + refuse), 2) == GaveUp
  {
    var unlink := [Move(2, Unlink)];
    var s1 := Step(s, unlink[0]);
    assert unlink[1..] == [] && Run(s1, []) == s1 && Run(s, unlink) == s1;
    RunAppend(s1, take, refuse);
    TwoSteps(s1, take[0], take[1]);
    var s2 := Run(s1, take);
    assert Holder(s2) == 1 && PcOf(s2, 2) == Start;
    LiveHolderRefuses(s2, 2, true);
  }

  /** A slow creator's empty file is taken for a leftover; it then writes into its own, already
      unlinked inode and believes it holds the lock. */
  lemma SlowCreatorLosesExclusion()
    ensures exists s :: TwoHolders(s, ALL.(create := false))
  {
    var a := ALL.(create := false);
    StartReachable(a);
    hide Step, PcOf, Reachable;
    var s := CreateFile(INIT, 1, a);
    s := JudgeEmpty(s, 2, a);
    s := RemoveStale(s, 2, a);
    s := TakeFreeLock(s, 2, a);
    s := WritePid(s, 1, a);
    assert TwoHolders(s, a);
  }

  /** Two processes find the same dead holder; the slower one unlinks the faster one's lock. */
  lemma SlowTakeoverLosesExclusion()
    ensures exists s :: TwoHolders(s, ALL.(takeover := false))
  {
    var a := ALL.(takeover := false);
    StartReachable(a);
    hide Step, PcOf, Reachable;
    var s := TakeFreeLock(INIT, 3, a);
    s := End(s, 3, a);
    s := JudgeStale(s, 1, a);
    s := JudgeStale(s, 2, a);
    s := RemoveStale(s, 1, a);
    s := TakeFreeLock(s, 1, a);
    s := RemoveStale(s, 2, a);
    s := TakeFreeLock(s, 2, a);
    assert TwoHolders(s, a);
  }

  /** Between a process's reading the holder's pid and its probing that pid, the holder releases
      the lock and ends and another process takes it: the truthful probe condemns the new lock. */
  lemma SlowProbeLosesExclusion()
    ensures exists s :: TwoHolders(s, ALL.(read := false))
  {
    var a := ALL.(read := false);
    StartReachable(a);
    hide Step, PcOf, Reachable;
    var s := TakeFreeLock(INIT, 3, a);
    s := ReadHolder(s, 2, a);
    s := ReleaseAndEnd(s, 3, a);
    s := TakeFreeLock(s, 1, a);
    s := Condemn(s, 2, a);
    s := RemoveStale(s, 2, a);
    s := TakeFreeLock(s, 2, a);
    assert TwoHolders(s, a);
  }

  /** The probe takes every OSError for death, so a live holder it may not signal loses its lock. */
  lemma WrongProbeLosesExclusion()
    ensures exists s :: TwoHolders(s, ALL.(probe := false))
  {
    var a := ALL.(probe := false);
    StartReachable(a);
    var s := TakeFreeLock(INIT, 1, a);
    s := JudgeStale(s, 2, a);
    s := RemoveStale(s, 2, a);
    s := TakeFreeLock(s, 2, a);
    assert TwoHolders(s, a);
  }
}
