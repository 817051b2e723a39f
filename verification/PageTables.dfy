/** Two-level page tables as values: the directory, and the physical memory that holds the
    second-level tables.  `Walk` is the translation that the tables define. */
module PageTables {
  import opened Wrappers
  import opened Shift
  import opened Word
  import opened Descriptors

  const PDES: nat := 4096
  const PTES: nat := 256

  /** The directory, and physical memory as words: a table at physical address pa starts at word pa / 4. */
  datatype Tables = Tables(pd: seq<word>, ram: seq<word>)

  function PdeIndex(va: nat): nat {
    va / 0x10_0000
  }

  function PteIndex(va: nat): nat {
    va / 0x1000 % 0x100
  }

  /** The directory entries served by the statically allocated tables k_pt. */
  predicate InWindow(j: nat) {
    0x400 <= j < 0x404
  }

  /** First word of the table behind entry j: the static shortcut inside the window, the entry's base outside. */
  function TableStart(t: Tables, kpt: word, j: nat): nat
    requires j < |t.pd|
  {
    if InWindow(j) then kpt / 4 + (j - 0x400) * 0x100 else PdeTable(t.pd[j]) / 4
  }

  predicate TableAddress(ram: seq<word>, tpa: nat) {
    tpa % 0x400 == 0 && tpa / 4 + PTES <= |ram|
  }

  ghost predicate Inv(t: Tables, kpt: word) {
    && |t.pd| == PDES
    && kpt % 0x1000 == 0
    && (forall j | 0 <= j < PDES && InWindow(j) ::
          PdeType(t.pd[j]) == 1 && PdeTable(t.pd[j]) == kpt + (j - 0x400) * 0x400)
    && (forall j | 0 <= j < PDES && PdeType(t.pd[j]) == 1 ::
          TableAddress(t.ram, PdeTable(t.pd[j])) && PlainLink(t.pd[j]))
    && (forall i, j | 0 <= i < j < PDES && PdeType(t.pd[i]) == 1 && PdeType(t.pd[j]) == 1 ::
          PdeTable(t.pd[i]) != PdeTable(t.pd[j]))
  }

  /** The static shortcut selects the table that the directory entry names. */
  lemma ShortcutAgrees(t: Tables, kpt: word, j: nat)
    requires Inv(t, kpt) && j < PDES && PdeType(t.pd[j]) == 1
    ensures TableStart(t, kpt, j) == PdeTable(t.pd[j]) / 4
    ensures TableStart(t, kpt, j) + PTES <= |t.ram|
  {
  }

  /** What the tables say about a virtual address. */
  function Walk(t: Tables, kpt: word, va: word): Option<Entry>
    requires Inv(t, kpt)
  {
    var de := t.pd[PdeIndex(va)];
    if PdeType(de) == 2 then
      Some(Entry(PdePa(de, va), PdeUnit(de), PdeAttrs(de)))
    else if PdeType(de) == 1 then
      ShortcutAgrees(t, kpt, PdeIndex(va));
      var te := t.ram[TableStart(t, kpt, PdeIndex(va)) + PteIndex(va)];
      if PteType(te) == 0 then None else Some(Entry(PtePa(te, va), PteUnit(te), PteAttrs(de, te)))
    else None
  }

  /** s with `count` words from `start` on replaced by w. */
  function Fill(s: seq<word>, start: nat, count: nat, w: word): (r: seq<word>)
    requires start + count <= |s|
    ensures |r| == |s|
    ensures forall i :: 0 <= i < |s| ==> r[i] == if start <= i < start + count then w else s[i]
  {
    s[..start] + seq(count, _ => w) + s[start + count..]
  }

  // ---- Addresses and slots ----

  /** The addresses of one section unit are exactly those whose directory index is among its slots. */
  lemma SectionSlots(mu: Unit, va: word, x: word)
    requires mu.IsSection() && va % mu.Size() == 0
    ensures PdeIndex(va) + mu.Copies() <= PDES
    ensures va <= x < va + mu.Size() <==> PdeIndex(va) <= PdeIndex(x) < PdeIndex(va) + mu.Copies()
  {
  }

  lemma PageSlots(mu: Unit, va: word, x: word)
    requires !mu.IsSection() && va % mu.Size() == 0
    ensures PteIndex(va) + mu.Copies() <= PTES
    ensures va <= x < va + mu.Size() <==>
            PdeIndex(x) == PdeIndex(va) && PteIndex(va) <= PteIndex(x) < PteIndex(va) + mu.Copies()
  {
    hide PdeIndex, PteIndex;
    PageNumber(va);
    PageNumber(x);
    PagesOfUnit(va, x, mu.Copies());
    PageRun(va / 0x1000, x / 0x1000, mu.Copies());
  }

  lemma PagesOfUnit(va: word, x: word, n: nat)
    requires n == 1 || n == 16
    requires va % (n * 0x1000) == 0
    ensures (va / 0x1000) % n == 0
    ensures va <= x < va + n * 0x1000 <==> va / 0x1000 <= x / 0x1000 < va / 0x1000 + n
  {
  }

  lemma PageNumber(x: word)
    ensures PdeIndex(x) == (x / 0x1000) / 0x100 && PteIndex(x) == (x / 0x1000) % 0x100
  {
  }

  lemma PageRun(p: nat, q: nat, n: nat)
    requires n == 1 || n == 16
    requires p % n == 0
    ensures p % 0x100 + n <= 0x100
    ensures p <= q < p + n <==> q / 0x100 == p / 0x100 && p % 0x100 <= q % 0x100 < p % 0x100 + n
  {
    if n == 16 {
      Sixteenths(p);
      Sixteenths(q);
    }
  }

  lemma Sixteenths(q: nat)
    ensures q / 0x100 == q / 16 / 16 && q % 0x100 == 16 * (q / 16 % 16) + q % 16
    ensures q / 16 == 16 * (q / 0x100) + q / 16 % 16
  {
  }

  lemma IndexRange(va: word)
    ensures PdeIndex(va) < PDES && PteIndex(va) < PTES
  {
  }

  lemma FirstOfIndex(j: nat)
    requires j < PDES
    ensures PdeIndex(j * 0x10_0000) == j && j * 0x10_0000 < 0x1_0000_0000
  {
  }

  lemma IndexBits(va: word)
    ensures Extract(va, 20, 12) == PdeIndex(va) < PDES
    ensures Extract(va, 12, 8) == PteIndex(va)
  {
    hide Extract;
    ExtractArith(va, 20, 12);
    ExtractArith(va, 12, 8);
    hide Pow2;
    Powers();
    Pow2Eight();
    IndexRange(va);
    Small(PdeIndex(va), 0x1000);
  }

  lemma Small(i: nat, m: nat)
    requires i < m
    ensures i % m == i
  {
  }

  lemma Pow2Eight()
    ensures Pow2(8) == 0x100
  {
  }

  lemma ZeroIsInvalid()
    ensures PdeType(0) == 0 && PteType(0) == 0
  {
    ExtractArith(0, 0, 2);
  }

  // ---- One step of each operation ----

  /** Entries of one kind never stand for the other: nothing is translated through a type 0 entry. */
  lemma EmptyPde(t: Tables, kpt: word, x: word)
    requires Inv(t, kpt) && PdeType(t.pd[PdeIndex(x)]) == 0
    ensures Walk(t, kpt, x) == None
  {
  }

  /** Writing the slots of one free section unit maps exactly that unit. */
  lemma SectionStep(t: Tables, kpt: word, r: Request, va: word, pa: word)
    requires Inv(t, kpt) && r.mu.IsSection() && r.mt < 9 && r.ap < 4
    requires va % r.mu.Size() == 0 && pa % r.mu.Size() == 0 && pa + r.mu.Size() <= 0x1_0000_0000
    requires forall j | PdeIndex(va) <= j < PdeIndex(va) + r.mu.Copies() && j < PDES :: PdeType(t.pd[j]) == 0
    ensures PdeIndex(va) + r.mu.Copies() <= PDES
    ensures var t' := t.(pd := Fill(t.pd, PdeIndex(va), r.mu.Copies(), SectionWord(r, pa)));
            && Inv(t', kpt)
            && forall x: word :: Walk(t', kpt, x) ==
                 if va <= x < va + r.mu.Size() then Some(Entry(pa + (x - va), r.mu, r.Attributes()))
                 else Walk(t, kpt, x)
  {
    hide PdeType, PlainLink, PdeTable, SectionWord, PdePa, PdeUnit, PdeAttrs, PteType, PtePa, PteUnit,
      PteAttrs, PdeIndex,
      PteIndex;
    SectionSlots(r.mu, va, va);
    var t' := t.(pd := Fill(t.pd, PdeIndex(va), r.mu.Copies(), SectionWord(r, pa)));
    SectionMeaning(r, va, pa, va);
    forall j | 0 <= j < PDES ensures PdeType(t'.pd[j]) == 1 ==> t'.pd[j] == t.pd[j] {
    }
    forall j | 0 <= j < PDES && InWindow(j) ensures t'.pd[j] == t.pd[j] {
    }
    assert Inv(t', kpt);
    forall x: word ensures Walk(t', kpt, x) ==
      if va <= x < va + r.mu.Size() then Some(Entry(pa + (x - va), r.mu, r.Attributes())) else Walk(t, kpt, x)
    {
      SectionSlots(r.mu, va, x);
      IndexRange(x);
      if va <= x < va + r.mu.Size() {
        SectionMeaning(r, va, pa, x);
      }
    }
  }

  /** Two different tables share no word. */
  lemma TablesDisjoint(t: Tables, kpt: word, i: nat, j: nat, a: nat, b: nat)
    requires Inv(t, kpt) && i < PDES && j < PDES && i != j && a < PTES && b < PTES
    requires PdeType(t.pd[i]) == 1 && PdeType(t.pd[j]) == 1
    ensures TableStart(t, kpt, i) + a != TableStart(t, kpt, j) + b
  {
    hide PdeType, PlainLink, PdeTable;
    ShortcutAgrees(t, kpt, i);
    ShortcutAgrees(t, kpt, j);
    var x, y := PdeTable(t.pd[i]), PdeTable(t.pd[j]);
    assert x != y;
    assert TableAddress(t.ram, x) && TableAddress(t.ram, y);
    hide Inv, TableStart;
    AlignedApart(x, y);
  }

  /** A table that no entry names yet. */
  ghost predicate Fresh(t: Tables, tpa: word)
    requires |t.pd| == PDES
  {
    TableAddress(t.ram, tpa) && forall j | 0 <= j < PDES && PdeType(t.pd[j]) == 1 :: PdeTable(t.pd[j]) != tpa
  }

  lemma TableStepInv(t: Tables, kpt: word, j: nat, tpa: word)
    requires Inv(t, kpt) && j < PDES && PdeType(t.pd[j]) == 0 && Fresh(t, tpa)
    ensures Inv(Tables(t.pd[j := TableWord(tpa)], Fill(t.ram, tpa / 4, PTES, 0)), kpt)
  {
    hide PdeType, PlainLink, PdeTable, TableWord;
    TableWordDecodes(tpa);
  }

  /** Hooking up a fresh, zeroed table changes no translation. */
  lemma TableStep(t: Tables, kpt: word, j: nat, tpa: word)
    requires Inv(t, kpt) && j < PDES && PdeType(t.pd[j]) == 0 && Fresh(t, tpa)
    ensures var t' := Tables(t.pd[j := TableWord(tpa)], Fill(t.ram, tpa / 4, PTES, 0));
            Inv(t', kpt) && forall x: word :: Walk(t', kpt, x) == Walk(t, kpt, x)
  {
    hide Walk, PdeType, PdeTable, TableWord;
    var t' := Tables(t.pd[j := TableWord(tpa)], Fill(t.ram, tpa / 4, PTES, 0));
    TableStepInv(t, kpt, j, tpa);
    forall x: word ensures Walk(t', kpt, x) == Walk(t, kpt, x) {
      TableStepAt(t, kpt, j, tpa, x);
    }
  }

  lemma TableStepAt(t: Tables, kpt: word, j: nat, tpa: word, x: word)
    requires Inv(t, kpt) && j < PDES && PdeType(t.pd[j]) == 0 && Fresh(t, tpa)
    requires Inv(Tables(t.pd[j := TableWord(tpa)], Fill(t.ram, tpa / 4, PTES, 0)), kpt)
    ensures Walk(Tables(t.pd[j := TableWord(tpa)], Fill(t.ram, tpa / 4, PTES, 0)), kpt, x) == Walk(t, kpt, x)
  {
    hide PdeType, PlainLink, PdeTable, TableWord, PteType, PdePa, PdeUnit, PdeAttrs, PtePa, PteUnit, PteAttrs,
      PdeIndex, PteIndex;
    TableWordDecodes(tpa);
    ZeroIsInvalid();
    IndexRange(x);
    var t' := Tables(t.pd[j := TableWord(tpa)], Fill(t.ram, tpa / 4, PTES, 0));
    var i := PdeIndex(x);
    if i == j {
      EmptyPde(t, kpt, x);
      ShortcutAgrees(t', kpt, j);
    } else if PdeType(t.pd[i]) == 1 {
      OtherTableKept(t, t', kpt, i, j, PteIndex(x), tpa);
    }
  }

  lemma OtherTableKept(t: Tables, t': Tables, kpt: word, i: nat, j: nat, a: nat, tpa: word)
    requires Inv(t, kpt) && Inv(t', kpt) && i < PDES && j < PDES && i != j && a < PTES
    requires TableAddress(t.ram, tpa) && PdeType(t.pd[i]) == 1 && PdeTable(t.pd[i]) != tpa
    requires t'.ram == Fill(t.ram, tpa / 4, PTES, 0)
    ensures TableStart(t, kpt, i) + a < |t.ram|
    ensures t'.ram[TableStart(t, kpt, i) + a] == t.ram[TableStart(t, kpt, i) + a]
  {
    hide PdeType, PlainLink, PdeTable;
    ShortcutAgrees(t, kpt, i);
    assert TableAddress(t.ram, PdeTable(t.pd[i]));
    hide Inv, TableStart;
    AlignedApart(PdeTable(t.pd[i]), tpa);
  }

  lemma AlignedApart(x: nat, y: nat)
    requires x % 0x400 == 0 && y % 0x400 == 0 && x != y
    ensures x / 4 + PTES <= y / 4 || y / 4 + PTES <= x / 4
  {
  }

  /** Writing the slots of one page unit maps exactly that unit. */
  lemma PageStep(t: Tables, kpt: word, r: Request, va: word, pa: word)
    requires Inv(t, kpt) && !r.mu.IsSection() && r.mt < 9 && r.ap < 4
    requires va % r.mu.Size() == 0 && pa % r.mu.Size() == 0 && pa + r.mu.Size() <= 0x1_0000_0000
    requires PdeType(t.pd[PdeIndex(va)]) == 1
    ensures TableStart(t, kpt, PdeIndex(va)) + PteIndex(va) + r.mu.Copies() <= |t.ram|
    ensures var start := TableStart(t, kpt, PdeIndex(va)) + PteIndex(va);
            var t' := t.(ram := Fill(t.ram, start, r.mu.Copies(), PageWord(r, pa)));
            && Inv(t', kpt)
            && forall x: word :: Walk(t', kpt, x) ==
                 if va <= x < va + r.mu.Size() then Some(Entry(pa + (x - va), r.mu, r.Attributes()))
                 else Walk(t, kpt, x)
  {
    hide PdeType, PlainLink, PdeTable, PageWord, PdePa, PdeUnit, PdeAttrs, PteType, PtePa, PteUnit, PteAttrs,
      PdeIndex, PteIndex;
    IndexRange(va);
    PageSlots(r.mu, va, va);
    ShortcutAgrees(t, kpt, PdeIndex(va));
    var start := TableStart(t, kpt, PdeIndex(va)) + PteIndex(va);
    var t' := t.(ram := Fill(t.ram, start, r.mu.Copies(), PageWord(r, pa)));
    assert Inv(t', kpt);
    forall x: word ensures Walk(t', kpt, x) ==
      if va <= x < va + r.mu.Size() then Some(Entry(pa + (x - va), r.mu, r.Attributes())) else Walk(t, kpt, x)
    {
      PageSlots(r.mu, va, x);
      IndexRange(x);
      if va <= x < va + r.mu.Size() {
        PageMeaning(r, t.pd[PdeIndex(x)], va, pa, x);
      } else if PdeType(t.pd[PdeIndex(x)]) == 1 {
        SlotKept(t, kpt, va, x, r.mu.Copies());
      }
    }
  }

  /** The slot of x is not among the n slots at va, unless they share a directory entry. */
  lemma SlotKept(t: Tables, kpt: word, va: word, x: word, n: nat)
    requires Inv(t, kpt) && PdeType(t.pd[PdeIndex(va)]) == 1 && PdeType(t.pd[PdeIndex(x)]) == 1
    requires PteIndex(va) + n <= PTES
    requires !(PdeIndex(x) == PdeIndex(va) && PteIndex(va) <= PteIndex(x) < PteIndex(va) + n)
    ensures var start := TableStart(t, kpt, PdeIndex(va)) + PteIndex(va);
            var slot := TableStart(t, kpt, PdeIndex(x)) + PteIndex(x);
            !(start <= slot < start + n)
  {
    hide PdeType, PlainLink, PdeTable;
    if PdeIndex(x) != PdeIndex(va) {
      var start := TableStart(t, kpt, PdeIndex(va)) + PteIndex(va);
      var slot := TableStart(t, kpt, PdeIndex(x)) + PteIndex(x);
      if start <= slot < start + n {
        TablesDisjoint(t, kpt, PdeIndex(va), PdeIndex(x), PteIndex(va) + (slot - start), PteIndex(x));
      }
    }
  }

  /** Zeroing the slots of one page unit unmaps exactly that unit. */
  lemma PageClear(t: Tables, kpt: word, mu: Unit, va: word)
    requires Inv(t, kpt) && !mu.IsSection() && va % mu.Size() == 0
    requires PdeType(t.pd[PdeIndex(va)]) == 1
    ensures TableStart(t, kpt, PdeIndex(va)) + PteIndex(va) + mu.Copies() <= |t.ram|
    ensures var t' := t.(ram := Fill(t.ram, TableStart(t, kpt, PdeIndex(va)) + PteIndex(va), mu.Copies(), 0));
            && Inv(t', kpt)
            && forall x: word :: Walk(t', kpt, x) == if va <= x < va + mu.Size() then None else Walk(t, kpt, x)
  {
    hide PdeType, PlainLink, PdeTable, PdePa, PdeUnit, PdeAttrs, PteType, PtePa, PteUnit, PteAttrs, PdeIndex, PteIndex;
    ZeroIsInvalid();
    IndexRange(va);
    PageSlots(mu, va, va);
    ShortcutAgrees(t, kpt, PdeIndex(va));
    var start := TableStart(t, kpt, PdeIndex(va)) + PteIndex(va);
    var t' := t.(ram := Fill(t.ram, start, mu.Copies(), 0));
    assert Inv(t', kpt);
    forall x: word ensures Walk(t', kpt, x) == if va <= x < va + mu.Size() then None else Walk(t, kpt, x) {
      PageSlots(mu, va, x);
      IndexRange(x);
      if !(va <= x < va + mu.Size()) && PdeType(t.pd[PdeIndex(x)]) == 1 {
        SlotKept(t, kpt, va, x, mu.Copies());
      }
    }
  }

  /** Writing any word into the small-page slot of va decides the translation of that page only. */
  lemma PageWrite(t: Tables, kpt: word, va: word, te: word)
    requires Inv(t, kpt) && va % 0x1000 == 0 && PdeType(t.pd[PdeIndex(va)]) == 1
    ensures TableStart(t, kpt, PdeIndex(va)) + PteIndex(va) < |t.ram|
    ensures var t' := t.(ram := t.ram[TableStart(t, kpt, PdeIndex(va)) + PteIndex(va) := te]);
            && Inv(t', kpt)
            && forall x: word :: Walk(t', kpt, x) ==
                 if va <= x < va + 0x1000 then
                   if PteType(te) == 0 then None
                   else Some(Entry(PtePa(te, x), PteUnit(te), PteAttrs(t.pd[PdeIndex(va)], te)))
                 else Walk(t, kpt, x)
  {
    hide PdeType, PlainLink, PdeTable, PdePa, PdeUnit, PdeAttrs, PteType, PtePa, PteUnit, PteAttrs, PdeIndex, PteIndex;
    IndexRange(va);
    ShortcutAgrees(t, kpt, PdeIndex(va));
    var slot := TableStart(t, kpt, PdeIndex(va)) + PteIndex(va);
    var t' := t.(ram := t.ram[slot := te]);
    assert Inv(t', kpt);
    forall x: word ensures Walk(t', kpt, x) ==
      if va <= x < va + 0x1000 then
        if PteType(te) == 0 then None else Some(Entry(PtePa(te, x), PteUnit(te), PteAttrs(t.pd[PdeIndex(va)], te)))
      else Walk(t, kpt, x)
    {
      PageSlots(SmallPage, va, x);
      IndexRange(x);
      if !(va <= x < va + 0x1000) && PdeType(t.pd[PdeIndex(x)]) == 1 {
        SlotKept(t, kpt, va, x, 1);
      }
    }
  }
}
