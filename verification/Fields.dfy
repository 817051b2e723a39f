/** Words assembled from bit fields by a sequence of `|=`, and taken apart again. */
module Fields {
  import opened Shift
  import opened Word

  /** One `|= bits_set(FLAG, val)`: the low sz bits of val at bit position pos. */
  datatype Part = Part(pos: nat, sz: nat, val: nat) {
    function Bits(): nat {
      Arrange(pos, sz, val)
    }
  }

  /** The value accumulated by or-ing the parts one after the other. */
  function Assemble(ps: seq<Part>): nat {
    if ps == [] then 0 else Or(Assemble(ps[..|ps| - 1]), ps[|ps| - 1].Bits())
  }

  predicate Apart(pos1: nat, sz1: nat, pos2: nat, sz2: nat) {
    pos1 + sz1 <= pos2 || pos2 + sz2 <= pos1
  }

  lemma ArrangedApart(p: Part, pos: nat, sz: nat)
    requires Apart(p.pos, p.sz, pos, sz)
    ensures Extract(p.Bits(), pos, sz) == 0
  {
    forall i: nat ensures Bit(Extract(p.Bits(), pos, sz), i) == Bit(0, i) {
      BitExtract(p.Bits(), pos, sz, i);
      BitArrange(p.pos, p.sz, p.val, pos + i);
      BitZero(i);
    }
    SameBits(Extract(p.Bits(), pos, sz), 0);
  }

  /** A field that no part touches reads as zero. */
  lemma {:induction false} AbsentField(ps: seq<Part>, pos: nat, sz: nat)
    requires forall j :: 0 <= j < |ps| ==> Apart(ps[j].pos, ps[j].sz, pos, sz)
    ensures Extract(Assemble(ps), pos, sz) == 0
  {
    if ps == [] {
      forall i: nat ensures Bit(Extract(0, pos, sz), i) == Bit(0, i) {
        BitExtract(0, pos, sz, i);
        BitZero(i);
        BitZero(pos + i);
      }
      SameBits(Extract(0, pos, sz), 0);
    } else {
      var front, last := ps[..|ps| - 1], ps[|ps| - 1];
      AbsentField(front, pos, sz);
      ArrangedApart(last, pos, sz);
      ExtractOr(Assemble(front), last.Bits(), pos, sz);
    }
  }

  /** A field written by exactly one part reads back that part's value, cut to the field's width. */
  lemma {:induction false} PresentField(ps: seq<Part>, k: nat)
    requires k < |ps|
    requires forall j :: 0 <= j < |ps| && j != k ==> Apart(ps[j].pos, ps[j].sz, ps[k].pos, ps[k].sz)
    ensures Extract(Assemble(ps), ps[k].pos, ps[k].sz) == ps[k].val % Pow2(ps[k].sz)
    decreases |ps|
  {
    var front, last := ps[..|ps| - 1], ps[|ps| - 1];
    var pos, sz := ps[k].pos, ps[k].sz;
    ExtractOr(Assemble(front), last.Bits(), pos, sz);
    if k == |ps| - 1 {
      AbsentField(front, pos, sz);
      ExtractArrange(pos, sz, last.val);
      OrZero(Extract(last.Bits(), pos, sz));
    } else {
      PresentField(front, k);
      ArrangedApart(last, pos, sz);
      OrZero(Extract(Assemble(front), pos, sz));
    }
  }

  lemma {:induction false} AssembleFits(ps: seq<Part>)
    requires forall j :: 0 <= j < |ps| ==> ps[j].pos + ps[j].sz <= 32
    ensures Assemble(ps) < 0x1_0000_0000
  {
    WordPow2();
    if ps != [] {
      var last := ps[|ps| - 1];
      AssembleFits(ps[..|ps| - 1]);
      forall i: nat | i >= 32 ensures !Bit(last.Bits(), i) {
        BitArrange(last.pos, last.sz, last.val, i);
      }
      BitBound(last.Bits(), 32);
      OrFits(Assemble(ps[..|ps| - 1]), last.Bits(), 32);
    }
  }
}
