/** A whole transfer: the sender's event loop, interleaved in every way with the receiver. Each session is
    a run of the transfer, a history of the sender and a run of the loop at once, so that what is known of
    each of these can be put together. */
module Sessions {
  import opened Protocol
  import opened Chunking
  import opened SenderSpec
  import opened EventLoop
  import Transfer
  import Retries

  datatype Status = Active | Finished | GaveUp

  /** Both sides, what has been transmitted, the loop's last reading of the clock, and how things stand. */
  datatype Session = Session(c: Transfer.System, log: seq<Retries.Transmission>, clock: Word64, status: Status)

  /** A pass of the sender's loop, or a packet handed to the receiver. */
  datatype Move =
    | Turn(p: Pass, sent: seq<Packet>, resent: seq<Packet>)
    | Deliver(q: Packet, replies: seq<Packet>)

  /** A session: both sides at rest, the first window, and then the moves. */
  datatype Trace =
    Trace(rest: Transfer.System, start: Word64, sent: seq<Packet>, states: seq<Session>, moves: seq<Move>)

  ghost predicate Starts(x: Trace, file: seq<Byte>, j: Session) {
    && Transfer.Initial(x.rest, file)
    && Transfer.Next(x.rest, j.c, Transfer.SendStep(x.start, x.sent))
    && j == Session(j.c, Retries.Logged(Range(0, j.c.s.nextSeq), x.start), x.start, Active)
  }

  /** A pass while the transfer is active. Any bytes may come as an ACK. */
  ghost predicate Turned(j: Session, k: Session, p: Pass, sent: seq<Packet>, resent: seq<Packet>)
    requires j.c.s.Valid()
  {
    var s := AfterAck(j.c.s, p.ack);
    var t := SendWindow(s, p.sendAt);
    var u := CheckTimeouts(t, p.checkAt);
    && WindowSent(s, t, p.sendAt, sent)
    && CarriesChunks(resent, t.file, Resent(t, p.checkAt))
    && k.c == j.c.(s := u, data := j.c.data + (set q | q in sent) + set q | q in resent)
    && k.log == j.log + Retries.Logged(Range(s.nextSeq, t.nextSeq), p.sendAt)
                + Retries.Logged(Resent(t, p.checkAt), p.checkAt)
    && k.clock == p.checkAt
    && k.status == if GivesUp(t, p.checkAt) then GaveUp else if u.Complete() then Finished else Active
  }

  ghost predicate Next(j: Session, k: Session, move: Move) {
    match move
    case Turn(p, sent, resent) =>
      && j.c.s.Valid() && j.clock <= p.sendAt <= p.checkAt
      && if j.status == Active then Turned(j, k, p, sent, resent) else k == j.(clock := p.checkAt)
    case Deliver(q, replies) =>
      Transfer.Next(j.c, k.c, Transfer.DataStep(q, replies)) && k == j.(c := k.c)
  }

  ghost predicate IsSession(file: seq<Byte>, x: Trace) {
    && |x.states| == |x.moves| + 1
    && Starts(x, file, x.states[0])
    && forall i :: 0 <= i < |x.moves| ==> Next(x.states[i], x.states[i + 1], x.moves[i])
  }

  /** The ACK that the sender's loop takes in move `i`, if any. */
  ghost function Heard(x: Trace, i: nat): Option<Packet>
    requires i < |x.moves| < |x.states|
  {
    if x.moves[i].Turn? && x.states[i].status == Active then x.moves[i].p.ack else None
  }

  /** Every ACK heard says nothing false. */
  ghost predicate Truthful(x: Trace)
    requires |x.moves| < |x.states|
  {
    forall i :: 0 <= i < |x.moves| && Heard(x, i).Some? ==> Transfer.Harmless(x.states[i].c, Heard(x, i).value)
  }

  /** The loop looks at the clock at least every `gap` ms. */
  ghost predicate Timely(x: Trace, gap: nat)
    requires |x.moves| < |x.states|
  {
    forall i :: 0 <= i < |x.moves| && x.moves[i].Turn? ==> x.moves[i].p.checkAt <= x.states[i].clock + gap
  }

  // ---- A session is a run of the transfer.

  ghost predicate Reaches(file: seq<Byte>, run: seq<Transfer.System>, steps: seq<Transfer.Step>, c: Transfer.System) {
    Transfer.IsRun(file, run, steps) && run[|steps|] == c
  }

  lemma RunLonger(file: seq<Byte>, run: seq<Transfer.System>, steps: seq<Transfer.Step>, c: Transfer.System,
                  more: seq<Transfer.System>, next: seq<Transfer.Step>)
    requires Reaches(file, run, steps, c) && |more| == |next| + 1 && more[0] == c
    requires forall i :: 0 <= i < |next| ==> Transfer.Next(more[i], more[i + 1], next[i])
    ensures Reaches(file, run[..|steps|] + more, steps + next, more[|next|])
    ensures Transfer.HarmlessRun(run, steps) && Transfer.HarmlessRun(more, next) ==>
              Transfer.HarmlessRun(run[..|steps|] + more, steps + next)
  {
    hide Transfer.Next, Transfer.Initial, Transfer.Harmless;
    var all, path := run[..|steps|] + more, steps + next;
    forall i | 0 <= i < |path| ensures Transfer.Next(all[i], all[i + 1], path[i]) {
      if i >= |steps| {
        assert Transfer.Next(more[i - |steps|], more[i - |steps| + 1], next[i - |steps|]);
      }
    }
    if Transfer.HarmlessRun(run, steps) && Transfer.HarmlessRun(more, next) {
      forall i | 0 <= i < |path| && path[i].AckStep? ensures Transfer.Harmless(all[i], path[i].p) {
        if i >= |steps| {
          assert Transfer.Harmless(more[i - |steps|], next[i - |steps|].p);
        }
      }
    }
  }

  /** The stretch of a run that a move is. */
  lemma MoveIsRun(j: Session, k: Session, move: Move) returns (run: seq<Transfer.System>, steps: seq<Transfer.Step>)
    requires Next(j, k, move)
    ensures |run| == |steps| + 1 && run[0] == j.c && run[|steps|] == k.c
    ensures forall i :: 0 <= i < |steps| ==> Transfer.Next(run[i], run[i + 1], steps[i])
    ensures (move.Turn? && j.status == Active && move.p.ack.Some? ==> Transfer.Harmless(j.c, move.p.ack.value)) ==>
              Transfer.HarmlessRun(run, steps)
  {
    hide Transfer.Next, Transfer.Harmless, SendWindow, CheckTimeouts, HandleAck, CarriesChunks, GivesUp, Resent;
    if move.Deliver? {
      run, steps := [j.c, k.c], [Transfer.DataStep(move.q, move.replies)];
    } else if j.status == Active {
      run, steps := PassIsRun(j.c, move.p, move.sent, move.resent);
    } else {
      run, steps := [j.c], [];
    }
  }

  lemma {:induction false} IsTransferRun(file: seq<Byte>, x: Trace, m: nat)
      returns (run: seq<Transfer.System>, steps: seq<Transfer.Step>)
    requires IsSession(file, x) && m < |x.states|
    ensures Reaches(file, run, steps, x.states[m].c)
    ensures Truthful(x) ==> Transfer.HarmlessRun(run, steps)
  {
    hide Transfer.Next, Transfer.Initial, Transfer.Harmless, Next;
    if m == 0 {
      run, steps := [x.rest, x.states[0].c], [Transfer.SendStep(x.start, x.sent)];
    } else {
      run, steps := IsTransferRun(file, x, m - 1);
      assert Next(x.states[m - 1], x.states[m], x.moves[m - 1]);
      var more, next := MoveIsRun(x.states[m - 1], x.states[m], x.moves[m - 1]);
      RunLonger(file, run, steps, x.states[m - 1].c, more, next);
      if Truthful(x) {
        assert Heard(x, m - 1).Some? ==> Transfer.Harmless(x.states[m - 1].c, Heard(x, m - 1).value);
      }
      run, steps := run[..|steps|] + more, steps + next;
    }
  }

  // ---- A session is a history of the sender.

  /** `h` is where a history of the sender on a clock that does not go back has come. */
  ghost predicate Recorded(run: seq<Retries.History>, calls: seq<Retries.Call>, h: Retries.History) {
    Retries.IsRun(run, calls) && Retries.Forward(run, calls) && run[|calls|] == h
  }

  lemma HistoryLonger(run: seq<Retries.History>, calls: seq<Retries.Call>, h: Retries.History, g: Retries.History,
                      call: Retries.Call)
    requires Recorded(run, calls, h) && Retries.Next(h, g, call) && h.clock <= g.clock
    ensures Recorded(run + [g], calls + [call], g)
  {
    hide Retries.Next, InitialSender;
    var all, path := run + [g], calls + [call];
    forall i | 0 <= i < |path| ensures Retries.Next(all[i], all[i + 1], path[i]) && all[i].clock <= all[i + 1].clock {
      if i < |calls| {
        assert Retries.Next(run[i], run[i + 1], calls[i]);
      }
    }
  }

  /** The sender in a pass, when it is about to check for timeouts. */
  ghost function AtCheck(h: Retries.History, p: Pass): (g: Retries.History)
    requires h.s.Valid()
    ensures g.s.Valid()
  {
    var s := AfterAck(h.s, p.ack);
    var t := SendWindow(s, p.sendAt);
    Retries.History(t, h.log + Retries.Logged(Range(s.nextSeq, t.nextSeq), p.sendAt), p.sendAt)
  }

  ghost function PastCheck(g: Retries.History, p: Pass): Retries.History
    requires g.s.Valid()
  {
    Retries.History(CheckTimeouts(g.s, p.checkAt), g.log + Retries.Logged(Resent(g.s, p.checkAt), p.checkAt), p.checkAt)
  }

  lemma ToCheck(run: seq<Retries.History>, calls: seq<Retries.Call>, h: Retries.History, p: Pass)
      returns (run': seq<Retries.History>, calls': seq<Retries.Call>)
    requires h.s.Valid() && Recorded(run, calls, h) && h.clock <= p.sendAt
    ensures Recorded(run', calls', AtCheck(h, p))
  {
    hide SendWindow, HandleAck, Recorded;
    run', calls' := run, calls;
    var a := h.(s := AfterAck(h.s, p.ack));
    if p.ack.Some? {
      HistoryLonger(run, calls, h, a, Retries.AckCall(p.ack.value));
      run', calls' := run + [a], calls + [Retries.AckCall(p.ack.value)];
    }
    HistoryLonger(run', calls', a, AtCheck(h, p), Retries.SendCall(p.sendAt));
    run', calls' := run' + [AtCheck(h, p)], calls' + [Retries.SendCall(p.sendAt)];
  }

  lemma OverCheck(run: seq<Retries.History>, calls: seq<Retries.Call>, g: Retries.History, p: Pass)
      returns (run': seq<Retries.History>, calls': seq<Retries.Call>)
    requires g.s.Valid() && Recorded(run, calls, g) && g.clock <= p.checkAt
    ensures Recorded(run', calls', PastCheck(g, p))
  {
    hide CheckTimeouts, Resent, Recorded;
    HistoryLonger(run, calls, g, PastCheck(g, p), Retries.TimeoutCall(p.checkAt));
    run', calls' := run + [PastCheck(g, p)], calls + [Retries.TimeoutCall(p.checkAt)];
  }

  lemma TurnRecorded(run: seq<Retries.History>, calls: seq<Retries.Call>, h: Retries.History, j: Session, k: Session,
                     move: Move)
      returns (run': seq<Retries.History>, calls': seq<Retries.Call>, h': Retries.History)
    requires Next(j, k, move) && move.Turn? && j.status == Active
    requires Recorded(run, calls, h) && h.s == j.c.s && h.log == j.log && h.clock <= j.clock
    ensures Recorded(run', calls', h') && k.c.s.Valid() && h'.s == k.c.s && h'.log == k.log && h'.clock == k.clock
  {
    hide SendWindow, CheckTimeouts, Resent, HandleAck, AfterAck, CarriesChunks, GivesUp, Recorded;
    var p := move.p;
    run', calls' := ToCheck(run, calls, h, p);
    var g := AtCheck(h, p);
    run', calls' := OverCheck(run', calls', g, p);
    h' := PastCheck(g, p);
  }

  lemma {:induction false} IsSenderRun(file: seq<Byte>, x: Trace, m: nat)
      returns (run: seq<Retries.History>, calls: seq<Retries.Call>, h: Retries.History)
    requires IsSession(file, x) && m < |x.states|
    ensures Recorded(run, calls, h) && x.states[m].c.s.Valid()
    ensures h.s == x.states[m].c.s && h.log == x.states[m].log && h.clock <= x.states[m].clock
  {
    hide Starts, Turned, Recorded;
    if m == 0 {
      run, calls, h := StartsRecorded(file, x);
    } else {
      var j, k := x.states[m - 1], x.states[m];
      run, calls, h := IsSenderRun(file, x, m - 1);
      assert Next(j, k, x.moves[m - 1]);
      if x.moves[m - 1].Turn? && j.status == Active {
        run, calls, h := TurnRecorded(run, calls, h, j, k, x.moves[m - 1]);
      }
    }
  }

  lemma StartsRecorded(file: seq<Byte>, x: Trace)
      returns (run: seq<Retries.History>, calls: seq<Retries.Call>, h: Retries.History)
    requires IsSession(file, x)
    ensures Recorded(run, calls, h) && x.states[0].c.s.Valid()
    ensures h == Retries.History(x.states[0].c.s, x.states[0].log, x.states[0].clock)
  {
    hide SendWindow, CarriesChunks;
    var a := Retries.History(x.rest.s, [], x.start);
    h := Retries.History(x.states[0].c.s, x.states[0].log, x.start);
    assert Retries.Next(a, h, Retries.SendCall(x.start));
    run, calls := [a, h], [Retries.SendCall(x.start)];
  }

  // ---- A session is a run of the loop.

  ghost function Passes(moves: seq<Move>): seq<Pass> {
    if moves == [] then []
    else Passes(moves[..|moves| - 1]) + if moves[|moves| - 1].Turn? then [moves[|moves| - 1].p] else []
  }

  lemma PassesLonger(moves: seq<Move>, m: nat)
    requires 0 < m <= |moves|
    ensures Passes(moves[..m]) == Passes(moves[..m - 1]) + if moves[m - 1].Turn? then [moves[m - 1].p] else []
  {
    assert moves[..m][..m - 1] == moves[..m - 1];
  }

  ghost predicate Looped(file: seq<Byte>, start: Word64, loops: seq<Loop>, passes: seq<Pass>, gap: nat, l: Loop) {
    && IsTransfer(file, start, loops, passes) && loops[|passes|] == l
    && forall i :: 0 <= i < |passes| ==> passes[i].checkAt <= loops[i].clock + gap
  }

  lemma LoopLonger(file: seq<Byte>, start: Word64, loops: seq<Loop>, passes: seq<Pass>, gap: nat, l: Loop, p: Pass)
    requires Looped(file, start, loops, passes, gap, l)
    requires l.s.Valid() && l.clock <= p.sendAt <= p.checkAt <= l.clock + gap
    ensures Looped(file, start, loops + [Tick(l, p)], passes + [p], gap, Tick(l, p))
  {
    hide Tick, SendWindow, InitialSender;
    var all, path := loops + [Tick(l, p)], passes + [p];
    forall i | 0 <= i < |path| ensures Follows(all[i], path[i], all[i + 1]) && path[i].checkAt <= all[i].clock + gap {
      if i < |passes| {
        assert Follows(loops[i], passes[i], loops[i + 1]);
      }
    }
  }

  ghost function LoopOf(j: Session): Loop {
    Loop(j.c.s, j.status == Active, j.clock)
  }

  lemma MoveTicks(j: Session, k: Session, move: Move)
    requires Next(j, k, move)
    ensures move.Deliver? ==> LoopOf(k) == LoopOf(j)
    ensures move.Turn? ==>
              && j.c.s.Valid() && j.clock <= move.p.sendAt <= move.p.checkAt
              && LoopOf(k) == Tick(LoopOf(j), move.p)
  {
    hide SendWindow, CheckTimeouts, Resent, HandleAck, AfterAck, CarriesChunks, GivesUp;
  }

  lemma {:induction false} IsLoopRun(file: seq<Byte>, x: Trace, gap: nat, m: nat) returns (loops: seq<Loop>)
    requires IsSession(file, x) && Timely(x, gap) && m < |x.states|
    ensures Looped(Cut(file), x.start, loops, Passes(x.moves[..m]), gap, LoopOf(x.states[m]))
  {
    hide Cut, Next, Looped, SendWindow, CarriesChunks, Tick;
    if m == 0 {
      loops := [LoopOf(x.states[0])];
      StartsLooped(file, x, gap);
    } else {
      loops := IsLoopRun(file, x, gap, m - 1);
      assert Next(x.states[m - 1], x.states[m], x.moves[m - 1]);
      MoveTicks(x.states[m - 1], x.states[m], x.moves[m - 1]);
      PassesLonger(x.moves, m);
      if x.moves[m - 1].Turn? {
        LoopLonger(Cut(file), x.start, loops, Passes(x.moves[..m - 1]), gap, LoopOf(x.states[m - 1]), x.moves[m - 1].p);
        loops := loops + [LoopOf(x.states[m])];
      } else {
        assert Passes(x.moves[..m]) == Passes(x.moves[..m - 1]);
      }
    }
  }

  lemma StartsLooped(file: seq<Byte>, x: Trace, gap: nat)
    requires IsSession(file, x)
    ensures Looped(Cut(file), x.start, [LoopOf(x.states[0])], Passes(x.moves[..0]), gap, LoopOf(x.states[0]))
  {
    hide SendWindow, CarriesChunks;
  }
}
