/**
 Inter-processor interrupts and device responses (bbl/mtrap.c, bbl/mentry.S), as atomic steps on any number of harts.

 A step is one atomic swap, one read of shared memory or one CSR access, or the update of a queue that
 only its own hart touches.  Any hart may take the next step, so a run is an arbitrary interleaving.
 */
module Ipi {
  import opened Basics

  /** Where a hart is inside machine mode; Idle is anywhere in supervisor or user mode. */
  datatype Pc =
    | Idle
    | Raised(to: nat)    // send_ipi: the swap returned 0, send_ipi is not written yet
    | Forwarding         // soft interrupt: MSIP is cleared, SSIP is not set yet
    | ClearingSsip       // clear_ipi: saw an empty response queue
    | Swapping           // clear_ipi: before the swap
    | LastTaken          // dev_resp: removed the last response
    | Rechecking         // dev_resp: cleared SSIP, ipi_pending is not read yet
    | Restoring          // dev_resp: read ipi_pending = 1
    | Signalling         // a response is queued, SSIP is not set yet

  datatype Hart = Hart(pc: Pc, msip: bool, ssip: bool, pending: bool, queue: seq<nat>)

  type State = seq<Hart>

  datatype Action =
    | SendIpi(recipient: nat)
    | ClearIpi
    | DevResp
    | Respond(message: nat)
    | TakeSoftInterrupt
    | Continue

  datatype Move = Move(hart: nat, action: Action)

  function Initial(n: nat): State {
    seq(n, _ => Hart(Idle, false, false, false, []))
  }

  /** Calls start on an idle hart; Continue is the next step of the call in progress. */
  predicate Possible(s: State, m: Move) {
    && m.hart < |s|
    && (m.action.Continue? <==> !s[m.hart].pc.Idle?)
    && (m.action.TakeSoftInterrupt? ==> s[m.hart].msip)
  }

  predicate WellFormed(s: State) {
    forall h :: 0 <= h < |s| && s[h].pc.Raised? ==> s[h].pc.to < |s|
  }

  function After(s: State, m: Move): (t: State)
    requires WellFormed(s) && Possible(s, m)
    ensures |t| == |s| && WellFormed(t)
  {
    var h, x := m.hart, s[m.hart];
    match m.action
    case SendIpi(r) =>
      if r >= |s| then s
      else
        var t := s[h := if s[r].pending then x else x.(pc := Raised(r))];
        t[r := t[r].(pending := true)]
    case ClearIpi => s[h := x.(pc := if x.queue == [] then ClearingSsip else Swapping)]
    case DevResp =>
      if x.queue == [] then s
      else s[h := x.(pc := if |x.queue| == 1 then LastTaken else Idle, queue := x.queue[1..])]
    case Respond(message) => s[h := x.(pc := Signalling, queue := x.queue + [message])]
    case TakeSoftInterrupt => s[h := x.(pc := Forwarding, msip := false)]
    case Continue =>
      match x.pc {
        case Idle => s
        case Raised(r) =>
          var t := s[h := x.(pc := Idle)];
          t[r := t[r].(msip := true)]
        case Forwarding => s[h := x.(pc := Idle, ssip := true)]
        case ClearingSsip => s[h := x.(pc := Swapping, ssip := false)]
        case Swapping => s[h := x.(pc := Idle, pending := false)]
        case LastTaken => s[h := x.(pc := Rechecking, ssip := false)]
        case Rechecking => s[h := x.(pc := if x.pending then Restoring else Idle)]
        case Restoring => s[h := x.(pc := Idle, ssip := true)]
        case Signalling => s[h := x.(pc := Idle, ssip := true)]
      }
  }

  /** The moves lead from s to t. */
  ghost predicate Runs(s: State, moves: seq<Move>, t: State)
    requires WellFormed(s)
    decreases |moves|
  {
    if moves == [] then s == t
    else Possible(s, moves[0]) && Runs(After(s, moves[0]), moves[1..], t)
  }

  // ---------------------------------------------------------------- nothing is lost

  /** The steps of hart r itself that will set SSIP, or hand a raised flag to the supervisor. */
  predicate WillNotice(pc: Pc) {
    pc.Forwarding? || pc.Swapping? || pc.Rechecking? || pc.Restoring? || pc.Signalling?
  }

  ghost predicate BeingSent(s: State, r: nat) {
    exists h :: 0 <= h < |s| && s[h].pc == Raised(r)
  }

  /** A raised flag is always on its way to the supervisor. */
  ghost predicate OnItsWay(s: State, r: nat)
    requires r < |s|
  {
    s[r].pending ==> s[r].msip || s[r].ssip || WillNotice(s[r].pc) || BeingSent(s, r)
  }

  /** A queued response is always announced or about to be; SSIP is only cleared with the queue empty. */
  predicate Announced(x: Hart) {
    && (x.queue != [] ==> x.ssip || x.pc.Signalling?)
    && (x.pc.ClearingSsip? || x.pc.LastTaken? || x.pc.Rechecking? || x.pc.Restoring? ==> x.queue == [])
  }

  ghost predicate NothingLost(s: State) {
    forall r :: 0 <= r < |s| ==> OnItsWay(s, r) && Announced(s[r])
  }

  lemma StillBeingSent(s: State, m: Move, r: nat)
    requires WellFormed(s) && Possible(s, m) && r < |s| && BeingSent(s, r)
    ensures var t := After(s, m); t[r].msip || BeingSent(t, r)
  {
    var h :| 0 <= h < |s| && s[h].pc == Raised(r);
    assert After(s, m)[r].msip || After(s, m)[h].pc == Raised(r);
  }

  lemma FlagStaysOnItsWay(s: State, m: Move, r: nat)
    requires WellFormed(s) && Possible(s, m) && NothingLost(s) && r < |s|
    ensures OnItsWay(After(s, m), r)
  {
    var t := After(s, m);
    if BeingSent(s, r) {
      StillBeingSent(s, m, r);
    } else if !s[r].pending && t[r].pending {
      assert t[m.hart].pc == Raised(r);
    }
  }

  /** Another hart's move only reaches ipi_pending and MSIP. */
  lemma OthersMove(s: State, m: Move, r: nat)
    requires WellFormed(s) && Possible(s, m) && r < |s| && m.hart != r
    ensures var x, y := s[r], After(s, m)[r]; y.pc == x.pc && y.ssip == x.ssip && y.queue == x.queue
  {
  }

  lemma QueueStaysAnnounced(s: State, m: Move, r: nat)
    requires WellFormed(s) && Possible(s, m) && r < |s| && Announced(s[r])
    ensures Announced(After(s, m)[r])
  {
    if m.hart != r {
      OthersMove(s, m, r);
      hide After;
    }
  }

  lemma MoveLosesNothing(s: State, m: Move)
    requires WellFormed(s) && Possible(s, m) && NothingLost(s)
    ensures NothingLost(After(s, m))
  {
    hide After, OnItsWay, Announced;
    forall r | 0 <= r < |s|
      ensures OnItsWay(After(s, m), r) && Announced(After(s, m)[r])
    {
      FlagStaysOnItsWay(s, m, r);
      QueueStaysAnnounced(s, m, r);
    }
  }

  /** In every state of every run, whatever the number of harts and the interleaving. */
  lemma {:induction false} RunLosesNothing(s: State, moves: seq<Move>, t: State)
    requires WellFormed(s) && NothingLost(s) && Runs(s, moves, t)
    ensures |t| == |s| && WellFormed(t) && NothingLost(t)
    decreases |moves|
  {
    if moves != [] {
      MoveLosesNothing(s, moves[0]);
      RunLosesNothing(After(s, moves[0]), moves[1..], t);
    }
  }

  /** With no hart inside machine mode, a raised flag shows in MSIP or SSIP, and a queued response in SSIP. */
  lemma QuietStatesAnnounce(n: nat, moves: seq<Move>, t: State, r: nat)
    requires Runs(Initial(n), moves, t) && r < n
    requires forall h :: 0 <= h < |t| ==> t[h].pc == Idle
    ensures |t| == n
    ensures t[r].pending ==> t[r].msip || t[r].ssip
    ensures t[r].queue != [] ==> t[r].ssip
  {
    RunLosesNothing(Initial(n), moves, t);
  }

  // ---------------------------------------------------------------- what is done with an interrupt goes away

  /** What a move does, register by register: which moves set and clear each, and that nothing else changes them. */
  lemma RegistersChange(s: State, m: Move, r: nat)
    requires WellFormed(s) && Possible(s, m) && r < |s|
    ensures
      var x, t, own := s[r], After(s, m)[r], m.hart == r;
      var steps := own && m.action.Continue?;
      && t.msip == (if own && m.action.TakeSoftInterrupt? then false
                    else x.msip || (m.action.Continue? && s[m.hart].pc == Raised(r)))
      && t.ssip == (if steps && (x.pc.ClearingSsip? || x.pc.LastTaken?) then false
                    else x.ssip || (steps && (x.pc.Forwarding? || x.pc.Restoring? || x.pc.Signalling?)))
      && t.pending == (if steps && x.pc.Swapping? then false else x.pending || m.action == SendIpi(r))
      && t.queue == (if own && m.action.Respond? then x.queue + [m.action.message]
                     else if own && m.action.DevResp? && x.queue != [] then x.queue[1..] else x.queue)
  {
  }

  /** Between clearing SSIP and finishing the call nothing sets it again. */
  predicate Lowered(x: Hart) {
    (x.pc.Swapping? && x.queue == []) || x.pc.Rechecking? || x.pc.Restoring? ==> !x.ssip
  }

  ghost predicate AllLowered(s: State) {
    forall r :: 0 <= r < |s| ==> Lowered(s[r])
  }

  lemma LoweredStays(s: State, m: Move, r: nat)
    requires WellFormed(s) && NothingLost(s) && Possible(s, m) && r < |s| && Lowered(s[r])
    ensures Lowered(After(s, m)[r])
  {
    assert Announced(s[r]);
  }

  lemma {:induction false} RunLowers(s: State, moves: seq<Move>, t: State)
    requires WellFormed(s) && NothingLost(s) && AllLowered(s) && Runs(s, moves, t)
    ensures |t| == |s| && WellFormed(t) && NothingLost(t) && AllLowered(t)
    decreases |moves|
  {
    hide Lowered;
    if moves != [] {
      var u := After(s, moves[0]);
      MoveLosesNothing(s, moves[0]);
      forall r | 0 <= r < |u|
        ensures Lowered(u[r])
      {
        LoweredStays(s, moves[0], r);
      }
      RunLowers(u, moves[1..], t);
    }
  }

  /** A clear_ipi call that found no response ends with the flag and SSIP down, whatever other harts did meanwhile. */
  lemma ClearIpiLowers(n: nat, moves: seq<Move>, t: State, r: nat)
    requires Runs(Initial(n), moves, t) && r < |t| && t[r].pc.Swapping? && t[r].queue == []
    ensures WellFormed(t) && Possible(t, Move(r, Continue))
    ensures var x := After(t, Move(r, Continue))[r]; x.pc.Idle? && !x.pending && !x.ssip
  {
    RunLowers(Initial(n), moves, t);
    assert Lowered(t[r]);
  }

  /** A dev_resp call that took the last response ends with SSIP up exactly if it read a raised flag. */
  lemma DevRespLowers(n: nat, moves: seq<Move>, t: State, r: nat)
    requires Runs(Initial(n), moves, t) && r < |t| && t[r].pc.Rechecking?
    ensures WellFormed(t) && Possible(t, Move(r, Continue))
    ensures
      var x := After(t, Move(r, Continue))[r];
      !x.ssip && if t[r].pending then x.pc.Restoring? else x.pc.Idle?
  {
    RunLowers(Initial(n), moves, t);
    assert Lowered(t[r]);
  }

  /** In the first case its last step puts it up, again whatever other harts did meanwhile. */
  lemma DevRespRestores(n: nat, moves: seq<Move>, t: State, r: nat)
    requires Runs(Initial(n), moves, t) && r < |t| && t[r].pc.Restoring?
    ensures WellFormed(t) && !t[r].ssip && Possible(t, Move(r, Continue))
    ensures var x := After(t, Move(r, Continue))[r]; x.pc.Idle? && x.ssip
  {
    RunLowers(Initial(n), moves, t);
    assert Lowered(t[r]);
  }

  // ---------------------------------------------------------------- whole calls, other harts moving in between

  /** s leads to t without a step of r. */
  ghost predicate Meanwhile(s: State, moves: seq<Move>, t: State, r: nat)
    requires WellFormed(s)
  {
    Runs(s, moves, t) && OwnSteps(moves, r) == 0
  }

  lemma {:induction false} OthersRun(s: State, moves: seq<Move>, t: State, r: nat)
    requires WellFormed(s) && Meanwhile(s, moves, t, r) && r < |s|
    ensures |t| == |s| && WellFormed(t) && t[r].pc == s[r].pc && t[r].ssip == s[r].ssip && t[r].queue == s[r].queue
    ensures s[r].pending ==> t[r].pending
    decreases |moves|
  {
    if moves != [] {
      OthersMove(s, moves[0], r);
      OthersRun(After(s, moves[0]), moves[1..], t, r);
    }
  }

  /** clear_ipi with no response queued: the flag goes down, and SSIP with it. */
  lemma ClearIpiCall(s: State, a: seq<Move>, s1: State, b: seq<Move>, s2: State, r: nat)
    requires WellFormed(s) && r < |s| && s[r].pc.Idle? && s[r].queue == []
    requires Meanwhile(After(s, Move(r, ClearIpi)), a, s1, r)
    ensures WellFormed(s1) && r < |s1| && Possible(s1, Move(r, Continue))
    ensures Meanwhile(After(s1, Move(r, Continue)), b, s2, r) ==>
              && WellFormed(s2) && r < |s2| && Possible(s2, Move(r, Continue))
              && var x := After(s2, Move(r, Continue))[r]; x.pc.Idle? && !x.pending && !x.ssip && x.queue == []
  {
    OthersRun(After(s, Move(r, ClearIpi)), a, s1, r);
    if Meanwhile(After(s1, Move(r, Continue)), b, s2, r) {
      OthersRun(After(s1, Move(r, Continue)), b, s2, r);
    }
  }

  /** With responses queued the flag goes down and SSIP stays as it is. */
  lemma ClearIpiKeeps(s: State, a: seq<Move>, s1: State, r: nat)
    requires WellFormed(s) && r < |s| && s[r].pc.Idle? && s[r].queue != []
    requires Meanwhile(After(s, Move(r, ClearIpi)), a, s1, r)
    ensures WellFormed(s1) && r < |s1| && Possible(s1, Move(r, Continue))
    ensures var x := After(s1, Move(r, Continue))[r]; x.pc.Idle? && !x.pending && x.ssip == s[r].ssip && x.queue == s[r].queue
  {
    OthersRun(After(s, Move(r, ClearIpi)), a, s1, r);
  }

  /** dev_resp of the last response: SSIP ends up exactly if the flag, as the call reads it, is up. */
  lemma DevRespCall(s: State, a: seq<Move>, s1: State, b: seq<Move>, s2: State, c: seq<Move>, s3: State, r: nat)
    requires WellFormed(s) && r < |s| && s[r].pc.Idle? && |s[r].queue| == 1
    requires Meanwhile(After(s, Move(r, DevResp)), a, s1, r)
    ensures WellFormed(s1) && r < |s1| && Possible(s1, Move(r, Continue))
    ensures Meanwhile(After(s1, Move(r, Continue)), b, s2, r) ==>
              && WellFormed(s2) && r < |s2| && Possible(s2, Move(r, Continue))
              && var t := After(s2, Move(r, Continue));
                 if !s2[r].pending then t[r].pc.Idle? && !t[r].ssip && t[r].queue == []
                 else Meanwhile(t, c, s3, r) ==>
                   && WellFormed(s3) && r < |s3| && Possible(s3, Move(r, Continue))
                   && var x := After(s3, Move(r, Continue))[r]; x.pc.Idle? && x.ssip && x.queue == []
  {
    OthersRun(After(s, Move(r, DevResp)), a, s1, r);
    if Meanwhile(After(s1, Move(r, Continue)), b, s2, r) {
      OthersRun(After(s1, Move(r, Continue)), b, s2, r);
      var t := After(s2, Move(r, Continue));
      if Meanwhile(t, c, s3, r) {
        OthersRun(t, c, s3, r);
      }
    }
  }

  /** dev_resp with more queued takes the oldest and nothing else. */
  lemma DevRespMore(s: State, r: nat)
    requires WellFormed(s) && r < |s| && s[r].pc.Idle? && |s[r].queue| > 1
    ensures After(s, Move(r, DevResp))[r] == s[r].(queue := s[r].queue[1..])
  {
  }

  /** send_ipi interrupts the recipient if it raised the flag, and otherwise does nothing more. */
  lemma SendIpiCall(s: State, q: nat, a: seq<Move>, s1: State, r: nat)
    requires WellFormed(s) && r < |s| && q < |s| && s[r].pc.Idle?
    requires Meanwhile(After(s, Move(r, SendIpi(q))), a, s1, r)
    ensures After(s, Move(r, SendIpi(q)))[q].pending
    ensures if s[q].pending then After(s, Move(r, SendIpi(q))) == s
            else
              && WellFormed(s1) && |s1| == |s| && Possible(s1, Move(r, Continue))
              && var t := After(s1, Move(r, Continue)); t[r].pc.Idle? && t[q].msip
  {
    OthersRun(After(s, Move(r, SendIpi(q))), a, s1, r);
    if s[q].pending {
      assert After(s, Move(r, SendIpi(q))) == s;
    }
  }

  /** A response is queued last and SSIP set; a machine interrupt taken becomes SSIP. */
  lemma RespondCall(s: State, action: Action, a: seq<Move>, s1: State, r: nat)
    requires WellFormed(s) && r < |s| && s[r].pc.Idle?
    requires action.Respond? || (action.TakeSoftInterrupt? && s[r].msip)
    requires Meanwhile(After(s, Move(r, action)), a, s1, r)
    ensures WellFormed(s1) && r < |s1| && Possible(s1, Move(r, Continue))
    ensures
      var x := After(s1, Move(r, Continue))[r];
      x.pc.Idle? && x.ssip && x.queue == s[r].queue + if action.Respond? then [action.message] else []
  {
    OthersRun(After(s, Move(r, action)), a, s1, r);
  }

  // ---------------------------------------------------------------- interrupts are not repeated

  /** A machine interrupt is taken at most once for each write to send_ipi. */
  lemma {:induction false} InterruptsAreSent(s: State, moves: seq<Move>, t: State, r: nat)
    requires WellFormed(s) && Runs(s, moves, t) && r < |s|
    ensures |t| == |s|
    ensures InterruptsTaken(moves, r) + Bit(t[r].msip) <= Bit(s[r].msip) + SendWrites(s, moves, r)
    decreases |moves|
  {
    if moves != [] {
      RegistersChange(s, moves[0], r);
      InterruptsAreSent(After(s, moves[0]), moves[1..], t, r);
    }
  }

  function InterruptsTaken(moves: seq<Move>, r: nat): nat {
    if moves == [] then 0
    else Bit(moves[0].hart == r && moves[0].action.TakeSoftInterrupt?) + InterruptsTaken(moves[1..], r)
  }

  /** Writes to send_ipi for hart r. */
  function SendWrites(s: State, moves: seq<Move>, r: nat): nat
    requires WellFormed(s)
    decreases |moves|
  {
    if moves == [] || !Possible(s, moves[0]) then 0
    else
      Bit(moves[0].action.Continue? && s[moves[0].hart].pc == Raised(r))
      + SendWrites(After(s, moves[0]), moves[1..], r)
  }

  // ---------------------------------------------------------------- bounded delivery

  /** The supervisor of r sees the interrupt, or its clear_ipi call has taken the flag. */
  predicate Noticed(t: State, r: nat)
    requires r < |t|
  {
    t[r].ssip || !t[r].pending
  }

  lemma {:induction false} RunsThen(s: State, moves: seq<Move>, t: State, m: Move)
    requires WellFormed(s) && WellFormed(t) && Runs(s, moves, t) && Possible(t, m)
    ensures Runs(s, moves + [m], After(t, m))
    decreases |moves|
  {
    if moves == [] {
      assert Runs(After(s, m), [], After(s, m));
      assert (moves + [m])[1..] == [];
    } else {
      RunsThen(After(s, moves[0]), moves[1..], t, m);
      assert (moves + [m])[1..] == moves[1..] + [m];
    }
  }

  /**
   From any state of any run, at most six further steps bring a raised flag to the supervisor of its hart:
   the hart finishes its call, the sender writes send_ipi, and the hart takes the interrupt.
   */
  lemma RaisedIsDelivered(s: State, r: nat) returns (moves: seq<Move>, t: State)
    requires WellFormed(s) && NothingLost(s) && r < |s| && s[r].pending
    ensures |moves| <= 6 && Runs(s, moves, t) && |t| == |s| && Noticed(t, r)
  {
    hide Runs;
    moves, t := FinishCall(s, r);
    if !Noticed(t, r) {
      if !t[r].msip {
        var m := SenderWrites(t, r);
        RunsThen(s, moves, t, m);
        moves, t := moves + [m], After(t, m);
      }
      var take, post := Move(r, TakeSoftInterrupt), Move(r, Continue);
      TakenAndPosted(t, r);
      RunsThen(s, moves, t, take);
      moves, t := moves + [take], After(t, take);
      RunsThen(s, moves, t, post);
      moves, t := moves + [post], After(t, post);
    }
  }

  lemma SenderWrites(s: State, r: nat) returns (m: Move)
    requires WellFormed(s) && NothingLost(s) && r < |s| && s[r].pc == Idle && !Noticed(s, r) && !s[r].msip
    ensures Possible(s, m) && After(s, m)[r].msip && After(s, m)[r].pc == Idle
  {
    var h :| 0 <= h < |s| && s[h].pc == Raised(r);
    m := Move(h, Continue);
  }

  lemma TakenAndPosted(s: State, r: nat)
    requires WellFormed(s) && r < |s| && s[r].pc == Idle && s[r].msip
    ensures Possible(s, Move(r, TakeSoftInterrupt))
    ensures
      var t := After(s, Move(r, TakeSoftInterrupt));
      Possible(t, Move(r, Continue)) && After(t, Move(r, Continue))[r].ssip
  {
  }

  /** A hart finishes the call it is in within three steps of its own. */
  lemma FinishCall(s: State, r: nat) returns (moves: seq<Move>, t: State)
    requires WellFormed(s) && NothingLost(s) && r < |s|
    ensures |moves| <= 3 && Runs(s, moves, t) && |t| == |s| && WellFormed(t) && NothingLost(t)
    ensures t[r].pc == Idle
  {
    moves, t := [], s;
    var m := Move(r, Continue);
    while t[r].pc != Idle
      invariant |t| == |s| && |moves| <= 3 - StepsLeft(t[r].pc)
      invariant WellFormed(t) && NothingLost(t) && Runs(s, moves, t)
      decreases StepsLeft(t[r].pc)
    {
      RunsThen(s, moves, t, m);
      MoveLosesNothing(t, m);
      moves, t := moves + [m], After(t, m);
    }
  }

  function StepsLeft(pc: Pc): nat {
    match pc
    case Idle => 0
    case ClearingSsip => 2
    case LastTaken => 3
    case Rechecking => 2
    case _ => 1
  }

  // ---------------------------------------------------------------- every fair schedule

  /** A pending machine interrupt is taken before an idle hart makes another call. */
  predicate Prompt(s: State, m: Move)
    requires m.hart < |s|
  {
    s[m.hart].pc.Idle? && s[m.hart].msip ==> m.action.TakeSoftInterrupt?
  }

  /** A run in which every move is possible and prompt. */
  predicate PromptRun(s: State, moves: seq<Move>)
    requires WellFormed(s)
    decreases |moves|
  {
    moves == [] || (Possible(s, moves[0]) && Prompt(s, moves[0]) && PromptRun(After(s, moves[0]), moves[1..]))
  }

  /** At some point of the run the interrupt of r is noticed. */
  predicate NoticedAlong(s: State, moves: seq<Move>, r: nat)
    requires WellFormed(s) && r < |s| && PromptRun(s, moves)
    decreases |moves|
  {
    Noticed(s, r) || (moves != [] && NoticedAlong(After(s, moves[0]), moves[1..], r))
  }

  /** The steps a hart takes itself. */
  function OwnSteps(moves: seq<Move>, h: nat): nat {
    if moves == [] then 0 else OwnSteps(moves[1..], h) + Bit(moves[0].hart == h)
  }

  lemma {:induction false} OwnStepsJoin(a: seq<Move>, b: seq<Move>, h: nat)
    ensures OwnSteps(a + b, h) == OwnSteps(a, h) + OwnSteps(b, h)
  {
    if a == [] {
      assert a + b == b;
    } else {
      assert (a + b)[1..] == a[1..] + b;
      OwnStepsJoin(a[1..], b, h);
    }
  }

  /** It is up to the hart itself: its interrupt is pending, or it is in a step that will notice. */
  predicate Due(x: Hart) {
    x.msip || WillNotice(x.pc)
  }

  /** How many steps of its own that takes it. */
  function Wait(pc: Pc): (n: nat)
    ensures n <= 3
  {
    match pc
    case Idle => 2
    case Raised(_) => 3
    case ClearingSsip => 2
    case LastTaken => 3
    case Rechecking => 2
    case _ => 1
  }

  /** Each step of its own brings the hart closer, and steps of others do not hold it up. */
  lemma DueStep(s: State, m: Move, r: nat)
    requires WellFormed(s) && r < |s| && Possible(s, m) && Prompt(s, m) && s[r].pending && Due(s[r]) && !Noticed(s, r)
    ensures
      var t := After(s, m);
      Noticed(t, r) || (t[r].pending && Due(t[r]) && Wait(t[r].pc) + Bit(m.hart == r) <= Wait(s[r].pc))
  {
  }

  lemma {:induction false} DueIsDelivered(s: State, moves: seq<Move>, r: nat)
    requires WellFormed(s) && r < |s| && PromptRun(s, moves) && s[r].pending && Due(s[r]) && Wait(s[r].pc) <= OwnSteps(moves, r)
    ensures NoticedAlong(s, moves, r)
    decreases |moves|
  {
    hide Possible, Prompt, Noticed, Due, Wait;
    if !Noticed(s, r) {
      if moves == [] {
        WaitPositive(s[r].pc);
      } else {
        DueStep(s, moves[0], r);
        if !Noticed(After(s, moves[0]), r) {
          DueIsDelivered(After(s, moves[0]), moves[1..], r);
        }
      }
    }
  }

  lemma WaitPositive(pc: Pc)
    ensures Wait(pc) > 0
  {
  }

  /** Until the sender's step nothing is lost; with it the interrupt is due. */
  lemma SenderStep(s: State, m: Move, r: nat, h: nat)
    requires WellFormed(s) && r < |s| && h < |s| && Possible(s, m) && s[r].pending && s[h].pc == Raised(r)
    ensures
      var t := After(s, m);
      Noticed(t, r) || (t[r].pending && if m.hart == h then t[r].msip else t[h].pc == Raised(r))
  {
  }

  lemma {:induction false} SentIsDelivered(s: State, a: seq<Move>, b: seq<Move>, r: nat, h: nat)
    requires WellFormed(s) && r < |s| && h < |s| && PromptRun(s, a + b) && s[r].pending && s[h].pc == Raised(r)
    requires 1 <= OwnSteps(a, h) && 3 <= OwnSteps(b, r)
    ensures NoticedAlong(s, a + b, r)
    decreases |a|
  {
    hide Possible, Prompt, Noticed, Wait, After;
    var m, rest := a[0], a[1..];
    assert (a + b)[0] == m && (a + b)[1..] == rest + b;
    if !Noticed(s, r) {
      SenderStep(s, m, r, h);
      var t := After(s, m);
      if !Noticed(t, r) {
        if m.hart == h {
          OwnStepsJoin(rest, b, r);
          DueIsDelivered(t, rest + b, r);
        } else {
          SentIsDelivered(t, rest, b, r, h);
        }
      }
    }
  }

  /**
   On every schedule, once each hart has taken a step and then r three of its own, a raised flag of r has come to the
   notice of its supervisor.
   */
  lemma EveryFairRunDelivers(s: State, a: seq<Move>, b: seq<Move>, r: nat)
    requires WellFormed(s) && NothingLost(s) && r < |s| && s[r].pending && PromptRun(s, a + b)
    requires (forall h :: 0 <= h < |s| ==> 1 <= OwnSteps(a, h)) && 3 <= OwnSteps(b, r)
    ensures NoticedAlong(s, a + b, r)
  {
    hide PromptRun, OwnSteps, NoticedAlong;
    assert OnItsWay(s, r);
    if Noticed(s, r) {
      NoticedNow(s, a + b, r);
    } else if Due(s[r]) {
      OwnStepsJoin(a, b, r);
      DueIsDelivered(s, a + b, r);
    } else {
      var h :| 0 <= h < |s| && s[h].pc == Raised(r);
      SentIsDelivered(s, a, b, r, h);
    }
  }

  lemma NoticedNow(s: State, moves: seq<Move>, r: nat)
    requires WellFormed(s) && r < |s| && PromptRun(s, moves) && Noticed(s, r)
    ensures NoticedAlong(s, moves, r)
  {
  }

  // ---------------------------------------------------------------- conservation

  /** send_ipi calls to r whose swap returned 0. */
  function SendsRaising(s: State, moves: seq<Move>, r: nat): nat
    requires WellFormed(s) && r < |s|
    decreases |moves|
  {
    if moves == [] || !Possible(s, moves[0]) then 0
    else Bit(moves[0].action == SendIpi(r) && !s[r].pending) + SendsRaising(After(s, moves[0]), moves[1..], r)
  }

  /** clear_ipi calls of r whose swap returned 1. */
  function ClearsTaking(s: State, moves: seq<Move>, r: nat): nat
    requires WellFormed(s) && r < |s|
    decreases |moves|
  {
    if moves == [] || !Possible(s, moves[0]) then 0
    else Bit(moves[0] == Move(r, Continue) && s[r].pc.Swapping? && s[r].pending)
         + ClearsTaking(After(s, moves[0]), moves[1..], r)
  }

  /** Every flag raised is taken exactly once, or is still up. */
  lemma {:induction false} SendsAreConserved(s: State, moves: seq<Move>, t: State, r: nat)
    requires WellFormed(s) && Runs(s, moves, t) && r < |s|
    ensures |t| == |s|
    ensures Bit(s[r].pending) + SendsRaising(s, moves, r) == ClearsTaking(s, moves, r) + Bit(t[r].pending)
    decreases |moves|
  {
    if moves != [] {
      SendsAreConserved(After(s, moves[0]), moves[1..], t, r);
    }
  }

  function QueuedBy(m: Move, r: nat): seq<nat> {
    if m.hart == r && m.action.Respond? then [m.action.message] else []
  }

  /** What a dev_resp call of r returns; the null of an empty queue is not listed. */
  function ReturnedBy(s: State, m: Move, r: nat): seq<nat>
    requires r < |s|
  {
    if m == Move(r, DevResp) && s[r].queue != [] then [s[r].queue[0]] else []
  }

  /** The responses queued on r, in order. */
  function Queued(s: State, moves: seq<Move>, r: nat): seq<nat>
    requires WellFormed(s) && r < |s|
    decreases |moves|
  {
    if moves == [] || !Possible(s, moves[0]) then []
    else QueuedBy(moves[0], r) + Queued(After(s, moves[0]), moves[1..], r)
  }

  /** What the dev_resp calls of r returned, in order. */
  function Returned(s: State, moves: seq<Move>, r: nat): seq<nat>
    requires WellFormed(s) && r < |s|
    decreases |moves|
  {
    if moves == [] || !Possible(s, moves[0]) then []
    else ReturnedBy(s, moves[0], r) + Returned(After(s, moves[0]), moves[1..], r)
  }

  lemma QueueStep(s: State, m: Move, r: nat)
    requires WellFormed(s) && Possible(s, m) && r < |s|
    ensures s[r].queue + QueuedBy(m, r) == ReturnedBy(s, m, r) + After(s, m)[r].queue
  {
  }

  /** Responses come back once each, in the order they were queued. */
  lemma {:induction false} ResponsesAreConserved(s: State, moves: seq<Move>, t: State, r: nat)
    requires WellFormed(s) && Runs(s, moves, t) && r < |s|
    ensures |t| == |s|
    ensures s[r].queue + Queued(s, moves, r) == Returned(s, moves, r) + t[r].queue
    decreases |moves|
  {
    hide After, QueuedBy, ReturnedBy;
    if moves != [] {
      var u := After(s, moves[0]);
      QueueStep(s, moves[0], r);
      ResponsesAreConserved(u, moves[1..], t, r);
      SameEnds(s[r].queue, QueuedBy(moves[0], r), ReturnedBy(s, moves[0], r), u[r].queue,
               Queued(u, moves[1..], r), Returned(u, moves[1..], r), t[r].queue);
    }
  }

  lemma SameEnds(q: seq<nat>, a: seq<nat>, b: seq<nat>, q1: seq<nat>, c: seq<nat>, d: seq<nat>, q2: seq<nat>)
    requires q + a == b + q1 && q1 + c == d + q2
    ensures q + (a + c) == (b + d) + q2
  {
    calc {
      q + (a + c);
      (q + a) + c;
      b + (q1 + c);
      (b + d) + q2;
    }
  }
}
