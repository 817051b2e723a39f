/** Runs of the buddy allocator: which blocks are live, and what the bitmap then says. */
module BuddyRuns {
  import opened BuddySpec
  import opened FramesSpec

  datatype Op = Alloc(p: Piece) | Free(p: Piece)

  /** The bitmap, and the blocks handed out and not yet freed. */
  datatype State = State(bits: Bits, live: set<Piece>)

  /** Callers free only blocks that they have. */
  ghost predicate Step(n: nat, s: State, op: Op, t: State) {
    match op
    case Alloc(p) => Taken(n, s.bits, t.bits, p.level, p.pos) && t.live == s.live + {p}
    case Free(p) => p in s.live && Released(n, s.bits, t.bits, p.level, p.pos) && t.live == s.live - {p}
  }

  ghost predicate Inv(n: nat, s: State) {
    Fits(n, s.bits) && Consistent(n, s.bits) && Owns(n, Busy(n, s.bits), s.live)
  }

  lemma StepInv(n: nat, s: State, op: Op, t: State)
    requires Inv(n, s) && Step(n, s, op, t)
    ensures Inv(n, t)
  {
    hide Consistent, Owns;
    match op {
      case Alloc(p) => OwnAlloc(n, Busy(n, s.bits), s.live, p);
      case Free(p) => OwnFree(n, Busy(n, s.bits), s.live, p);
    }
  }

  ghost predicate Fresh(n: nat, s: State) {
    Fits(n, s.bits) && s.live == {} && forall i :: 0 <= i < |s.bits| ==> !s.bits[i]
  }

  ghost predicate Trace(n: nat, states: seq<State>, ops: seq<Op>) {
    && |states| == |ops| + 1
    && forall i | 0 <= i < |ops| :: Step(n, states[i], ops[i], states[i + 1])
  }

  lemma {:induction false} TraceInv(n: nat, states: seq<State>, ops: seq<Op>, k: nat)
    requires Trace(n, states, ops) && k <= |ops| && Inv(n, states[0])
    ensures Inv(n, states[k]) && |states[k].bits| == |states[0].bits|
    ensures states[k].bits[Until(n, NLEVELS)..] == states[0].bits[Until(n, NLEVELS)..]
  {
    hide Inv;
    if k > 0 {
      TraceInv(n, states, ops, k - 1);
      assert Step(n, states[k - 1], ops[k - 1], states[k]);
      InvFits(n, states[k - 1]);
      StepInv(n, states[k - 1], ops[k - 1], states[k]);
    }
    InvFits(n, states[k]);
  }

  lemma InvFits(n: nat, s: State)
    requires Inv(n, s)
    ensures Fits(n, s.bits)
  {
  }

  /** In every state of every run from a fresh bitmap: live blocks share no frame, and the bit of a block
      is set iff some live block has a frame in it. */
  lemma BitsTellLiveBlocks(n: nat, states: seq<State>, ops: seq<Op>, k: nat, level: nat, pos: nat)
    requires Trace(n, states, ops) && k <= |ops| && Fresh(n, states[0]) && ValidPos(n, level, pos)
    ensures forall p, q :: p in states[k].live && q in states[k].live && p != q ==> p.Frames(n) !! q.Frames(n)
    ensures Fits(n, states[k].bits)
    ensures At(n, states[k].bits, level, pos) <==>
              exists p :: p in states[k].live && !(p.Frames(n) !! Block(n, level, pos))
  {
    AllClear(n, states[0].bits);
    TraceInv(n, states, ops, k);
    var s := states[k];
    Exactness(n, s.bits, level, pos);
    hide Consistent, At;
    if At(n, s.bits, level, pos) {
      var f :| f in Block(n, level, pos) && f in Busy(n, s.bits);
      var p :| p in s.live && f in p.Frames(n);
      assert !(p.Frames(n) !! Block(n, level, pos));
    } else {
      forall p | p in s.live ensures p.Frames(n) !! Block(n, level, pos) {
        assert forall f :: f in p.Frames(n) ==> f in Busy(n, s.bits);
      }
    }
  }

  /** A run that ends with no live block, whatever the order of its frees, ends with the bitmap it began with:
      every bit at every level clear. */
  lemma AllFreedIsFresh(n: nat, states: seq<State>, ops: seq<Op>)
    requires Trace(n, states, ops) && Fresh(n, states[0]) && states[|ops|].live == {}
    ensures states[|ops|].bits == states[0].bits
  {
    AllClear(n, states[0].bits);
    TraceInv(n, states, ops, |ops|);
    var s := states[|ops|];
    assert Busy(n, s.bits) == {};
    DeterminedByFrames(n, s.bits, states[0].bits);
  }
}
