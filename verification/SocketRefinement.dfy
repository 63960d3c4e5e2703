/** The socket as its users think of it: an owner, and borrowers that delay its disposal. */
module Ownership {
  datatype Mode = Open | Closing | Closed | Released | Abandoned

  datatype Owner = Owner(mode: Mode, borrowers: set<int>)

  datatype Act = Borrow(who: int) | Return(who: int) | BeginClosing | DisposeAs(mode: Mode) | Abandon | Stutter

  predicate Allowed(a: Owner, act: Act) {
    match act
    case Borrow(who) => a.mode == Open && who !in a.borrowers
    case Return(who) => who in a.borrowers
    case BeginClosing => a.mode == Open
    case DisposeAs(mode) => a.mode == Closing && a.borrowers == {} && (mode == Closed || mode == Released)
    case Abandon => a.mode == Closing
    case Stutter => true
  }

  function Perform(a: Owner, act: Act): Owner
    requires Allowed(a, act)
  {
    match act
    case Borrow(who) => a.(borrowers := a.borrowers + {who})
    case Return(who) => a.(borrowers := a.borrowers - {who})
    case BeginClosing => a.(mode := Closing)
    case DisposeAs(mode) => a.(mode := mode)
    case Abandon => a.(mode := Abandoned)
    case Stutter => a
  }

  ghost predicate Behaviour(a: Owner, acts: seq<Act>, b: Owner)
    decreases |acts|
  {
    if acts == [] then a == b
    else Allowed(a, acts[0]) && Behaviour(Perform(a, acts[0]), acts[1..], b)
  }

  /** Nothing is lent out of a socket that was disposed of. */
  lemma {:induction false} DisposedHasNoBorrowers(a: Owner, acts: seq<Act>, b: Owner)
    requires Behaviour(a, acts, b)
    requires (a.mode == Closed || a.mode == Released) ==> a.borrowers == {}
    ensures (b.mode == Closed || b.mode == Released) ==> b.borrowers == {}
    decreases |acts|
  {
    if acts != [] {
      DisposedHasNoBorrowers(Perform(a, acts[0]), acts[1..], b);
    }
  }
}

/** The step machine refines the ownership machine. */
module SocketRefinement {
  import opened GateWord
  import opened SocketMachine
  import opened SocketInvariant
  import opened SocketTheorems
  import O = Ownership

  function ModeOf(p: Phase): O.Mode {
    match p
    case Live => O.Open
    case Over(SockClosed) => O.Closed
    case Over(CloseFailed) => O.Closed
    case Over(SockReleased) => O.Released
    case Over(_) => O.Abandoned
    case _ => O.Closing
  }

  function Borrowers(s: State): set<int> {
    set i | 0 <= i < |s.threads| && HeldFd(s.threads[i]) != -1
  }

  function View(s: State): O.Owner {
    O.Owner(ModeOf(s.sh.phase), Borrowers(s))
  }

  /** The act of the ownership machine that one step of thread `i` amounts to. */
  function ActOfLocal(i: int, p: Phase, pc: Pc, p': Phase, pc': Pc): O.Act {
    if HeldFd(pc) == -1 && HeldFd(pc') != -1 then O.Borrow(i)
    else if HeldFd(pc) != -1 && HeldFd(pc') == -1 then O.Return(i)
    else if ModeOf(p) == ModeOf(p') then O.Stutter
    else if ModeOf(p') == O.Closing then O.BeginClosing
    else if ModeOf(p') == O.Abandoned then O.Abandon
    else O.DisposeAs(ModeOf(p'))
  }

  function ActOf(c: Config, s: State, l: Label): O.Act
    requires Enabled(c, s, l)
  {
    var t := Next(c, s, l);
    if l.Step? then ActOfLocal(l.i, s.sh.phase, s.threads[l.i], t.sh.phase, t.threads[l.i]) else O.Stutter
  }

  /** What a single step may do to the mode and to its own thread's borrowing. */
  lemma LocalAct(c: Config, i: int, sh: Shared, pc: Pc, ch: Choice)
    requires c.Valid() && ThreadOk(c, sh, i, pc) && Local(c, i, sh, pc, ch).Effect?
    requires sh.cell == if sh.phase == Live then c.fd else -1
    ensures var e := Local(c, i, sh, pc, ch);
            var m, m' := ModeOf(sh.phase), ModeOf(e.sh.phase);
            && (HeldFd(pc) == -1 && HeldFd(e.pc) != -1 ==> m == m' == O.Open)
            && (HeldFd(pc) != -1 && HeldFd(e.pc) == -1 ==> m == m')
            && (m != m' ==> (m == O.Open && m' == O.Closing)
                            || (m == O.Closing && m' == O.Abandoned)
                            || (m == O.Closing && (m' == O.Closed || m' == O.Released) && sh.phase == Disposing))
  {
  }

  lemma BorrowersAfter(s: State, i: int, pc: Pc)
    requires 0 <= i < |s.threads|
    ensures Borrowers(s.(threads := s.threads[i := pc]))
            == if HeldFd(pc) != -1 then Borrowers(s) + {i} else Borrowers(s) - {i}
    ensures i in Borrowers(s) <==> HeldFd(s.threads[i]) != -1
  {
  }

  lemma DrainedHasNoBorrowers(c: Config, s: State)
    requires Inv(c, s) && Drained(s.sh.phase)
    ensures Borrowers(s) == {}
  {
    forall i | 0 <= i < |s.threads| ensures HeldFd(s.threads[i]) == -1 {
      var others := InsideOthers(s, i);
    }
  }

  /** Every step of the machine is one act of the ownership machine, or a stutter. */
  lemma StepRefines(c: Config, s: State, l: Label)
    requires Inv(c, s) && Enabled(c, s, l)
    ensures O.Allowed(View(s), ActOf(c, s, l))
    ensures View(Next(c, s, l)) == O.Perform(View(s), ActOf(c, s, l))
  {
    if l.Step? {
      var pc := s.threads[l.i];
      var e := Local(c, l.i, s.sh, pc, l.ch);
      assert ThreadOk(c, s.sh, l.i, pc);
      LocalAct(c, l.i, s.sh, pc, l.ch);
      BorrowersAfter(s, l.i, e.pc);
      if s.sh.phase == Disposing {
        DrainedHasNoBorrowers(c, s);
      }
      assert Borrowers(Next(c, s, l)) == Borrowers(s.(threads := s.threads[l.i := e.pc]));
    }
  }

  lemma {:induction false} RunRefinesFrom(c: Config, s: State, labels: seq<Label>, t: State) returns (acts: seq<O.Act>)
    requires Inv(c, s) && Run(c, s, labels, t)
    ensures O.Behaviour(View(s), acts, View(t)) && |acts| == |labels|
    decreases |labels|
  {
    if labels == [] {
      acts := [];
    } else {
      StepRefines(c, s, labels[0]);
      NextInv(c, s, labels[0]);
      var rest := RunRefinesFrom(c, Next(c, s, labels[0]), labels[1..], t);
      acts := [ActOf(c, s, labels[0])] + rest;
      assert acts[1..] == rest;
    }
  }

  /** Every run of a fresh socket is, seen from outside, a behaviour of a fresh owner. */
  lemma RunRefines(c: Config, s: State, labels: seq<Label>, t: State)
    requires Init(c, s) && |s.threads| < GATE_CLOSED && Run(c, s, labels, t)
    ensures View(s) == O.Owner(O.Open, {})
    ensures exists acts :: O.Behaviour(View(s), acts, View(t))
    ensures (View(t).mode == O.Closed || View(t).mode == O.Released) ==> View(t).borrowers == {}
  {
    InitInv(c, s);
    var acts := RunRefinesFrom(c, s, labels, t);
    O.DisposedHasNoBorrowers(View(s), acts, View(t));
  }

  /**
    The abstract modes mean what they say in the kernel: the descriptor leaves the socket's hands in
    exactly the steps that the ownership machine sees as disposal.
   */
  lemma DisposalIsTheOnlyLoss(c: Config, s: State, l: Label)
    requires Inv(c, s) && Enabled(c, s, l) && Owned(c, s, c.fd) && !Owned(c, Next(c, s, l), c.fd)
    ensures ActOf(c, s, l).DisposeAs? && View(s).borrowers == {}
  {
    assert l.Step?;
    assert ThreadOk(c, s.sh, l.i, s.threads[l.i]);
    LossLocal(c, l.i, s.sh, s.threads[l.i], l.ch);
    DrainedHasNoBorrowers(c, s);
  }

  lemma LossLocal(c: Config, i: int, sh: Shared, pc: Pc, ch: Choice)
    requires c.Valid() && ThreadOk(c, sh, i, pc) && Local(c, i, sh, pc, ch).Effect?
    requires c.fd in sh.table && sh.table[c.fd] == Sock
    requires var t := Local(c, i, sh, pc, ch).sh.table; !(c.fd in t && t[c.fd] == Sock)
    ensures pc.Dispose? && sh.phase == Disposing && !SockHeld(Local(c, i, sh, pc, ch).sh.phase)
    ensures HeldFd(Local(c, i, sh, pc, ch).pc) == -1
  {
  }
}
