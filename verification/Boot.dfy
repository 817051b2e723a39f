/** The page tables built at boot: an identity map of the first 4MB, and the kernel's sections
    mapped with small pages through the static tables. */
module Boot {
  import opened Wrappers
  import opened Shift
  import opened Word
  import opened Fields
  import opened Descriptors
  import opened PageTables
  import opened MapSpec
  import opened Mmu

  const KMODE_VA: word := 0x4000_0000

  /** A section of the kernel image; desc is its rwx permission, 4 2 1. */
  datatype Sect = Sect(start: word, end: nat, desc: nat) {
    predicate InWindow() {
      start % 0x1000 == 0 && KMODE_VA <= start <= end <= KMODE_VA + 0x40_0000
    }

    /** The pages that start below the end of the section. */
    predicate Holds(x: nat) {
      start <= x && x / 0x1000 * 0x1000 < end
    }

    /** Normal write-back memory; executable and writable as desc says. */
    function Attributes(): Attrs {
      Attrs(if desc % 2 == 0 then 1 else 0, 0, 0, 1, 7, if desc / 2 % 2 == 0 then 2 else 0, 0, true)
    }
  }

  /** The identity map is read-write, executable, accessed, and normal write-back memory, in domain 0. */
  const IDENTITY := Attrs(0, 0, 0, 1, 7, 0, 0, true)

  function SectParts(s: Sect, pa: nat): seq<Part> {
    [Part(1, 1, 1), Part(4, 1, 1),
     Part(0, 1, if s.desc % 2 == 0 then 1 else 0),
     Part(9, 1, if s.desc / 2 % 2 == 0 then 1 else 0),
     Part(3, 1, 1), Part(2, 1, 1), Part(6, 3, 1),
     Part(12, 20, Extract(pa, 12, 20))]
  }

  function SectWord(s: Sect, pa: nat): word {
    AssembleFits(SectParts(s, pa));
    Assemble(SectParts(s, pa))
  }

  function IdentityParts(i: nat): seq<Part> {
    [Part(0, 2, 2), Part(20, 12, i), Part(10, 1, 1), Part(3, 1, 1), Part(2, 1, 1), Part(12, 3, 1)]
  }

  /** The section descriptor that maps megabyte i to itself. */
  function IdentityWord(i: nat): word {
    AssembleFits(IdentityParts(i));
    Assemble(IdentityParts(i))
  }

  // ---- Decoding ----

  lemma SectField(s: Sect, pa: nat, k: nat)
    requires k < |SectParts(s, pa)|
    ensures var p := SectParts(s, pa)[k]; Extract(SectWord(s, pa), p.pos, p.sz) == p.val % Pow2(p.sz)
  {
    hide Extract, Assemble, Pow2;
    PresentField(SectParts(s, pa), k);
  }

  lemma SectAbsent(s: Sect, pa: nat, pos: nat)
    requires pos == 5 || pos == 10 || pos == 11
    ensures Extract(SectWord(s, pa), pos, 1) == 0
  {
    hide Extract, Assemble, Pow2;
    AbsentField(SectParts(s, pa), pos, 1);
  }

  lemma SectAttributes(s: Sect, de: nat, pa: nat)
    requires PlainLink(de)
    ensures PteType(SectWord(s, pa)) != 0 && PteUnit(SectWord(s, pa)) == SmallPage
    ensures PteAttrs(de, SectWord(s, pa)) == s.Attributes()
  {
    hide Extract, SectWord, Pow2;
    Powers();
    LowTwoBits(SectWord(s, pa));
    SectField(s, pa, 0);
    SectField(s, pa, 1);
    SectField(s, pa, 2);
    SectField(s, pa, 3);
    SectField(s, pa, 4);
    SectField(s, pa, 5);
    SectField(s, pa, 6);
    SectAbsent(s, pa, 5);
    SectAbsent(s, pa, 10);
    SectAbsent(s, pa, 11);
  }

  lemma SectMeaning(s: Sect, de: nat, va: word, x: word)
    requires PlainLink(de) && va % 0x1000 == 0 && KMODE_VA <= va <= x < va + 0x1000
    ensures PteType(SectWord(s, va - KMODE_VA)) != 0
    ensures PtePa(SectWord(s, va - KMODE_VA), x) == x - KMODE_VA
    ensures PteUnit(SectWord(s, va - KMODE_VA)) == SmallPage
    ensures PteAttrs(de, SectWord(s, va - KMODE_VA)) == s.Attributes()
  {
    hide Extract, SectWord, InPlace, AndNot, Shl, PteAttrs, Pow2, Mask;
    Powers();
    SectAttributes(s, de, va - KMODE_VA);
    SectField(s, va - KMODE_VA, 7);
    BaseAndOffset(SectWord(s, va - KMODE_VA), va - KMODE_VA, va, x, 12, 20, 0x1000);
  }

  lemma IdentityField(i: nat, k: nat)
    requires k < |IdentityParts(i)|
    ensures var p := IdentityParts(i)[k]; Extract(IdentityWord(i), p.pos, p.sz) == p.val % Pow2(p.sz)
  {
    hide Extract, Assemble, Pow2;
    PresentField(IdentityParts(i), k);
  }

  /** The first sections map each address to itself, with the same attributes. */
  lemma IdentityMeaning(x: word)
    requires x < 0x40_0000
    ensures PdeType(IdentityWord(PdeIndex(x))) == 2 && PdePa(IdentityWord(PdeIndex(x)), x) == x
    ensures PdeUnit(IdentityWord(PdeIndex(x))) == Section && PdeAttrs(IdentityWord(PdeIndex(x))) == IDENTITY
  {
    hide Extract, IdentityWord, PdePa, PdeAttrs;
    IdentityAddress(x);
    IdentityNotSuper(PdeIndex(x));
    IdentityAttributes(PdeIndex(x));
  }

  lemma IdentityAddress(x: word)
    requires x < 0x40_0000
    ensures PdeType(IdentityWord(PdeIndex(x))) == 2 && PdePa(IdentityWord(PdeIndex(x)), x) == x
  {
    hide Extract, IdentityWord, InPlace, AndNot, Shl, Pow2, Mask;
    Powers();
    var i := PdeIndex(x);
    IdentityField(i, 0);
    IdentityField(i, 1);
    IdentityNotSuper(i);
    ExtractArith(i * 0x10_0000, 20, 12);
    DivModUnique(i * 0x10_0000, 0x10_0000, i, 0);
    IdentityBase(i);
    BaseAndOffset(IdentityWord(i), i * 0x10_0000, i * 0x10_0000, x, 20, 12, 0x10_0000);
  }

  lemma IdentityBase(i: nat)
    ensures (i % Pow2(12)) % Pow2(12) == i % Pow2(12)
  {
    hide Pow2;
    Powers();
  }

  lemma IdentityAbsent(i: nat, pos: nat, sz: nat)
    requires (pos == 5 && sz == 4) || (sz == 1 && pos in {4, 9, 11, 15, 16, 17, 19})
    ensures Extract(IdentityWord(i), pos, sz) == 0
  {
    hide Extract, Assemble;
    AbsentField(IdentityParts(i), pos, sz);
  }

  lemma IdentityAttributes(i: nat)
    ensures PdeAttrs(IdentityWord(i)) == IDENTITY
  {
    hide Extract, IdentityWord, Pow2;
    Powers();
    IdentityField(i, 2);
    IdentityField(i, 3);
    IdentityField(i, 4);
    IdentityField(i, 5);
    IdentityNotSuper(i);
    IdentityAbsent(i, 4, 1);
    IdentityAbsent(i, 5, 4);
    IdentityAbsent(i, 9, 1);
    IdentityAbsent(i, 11, 1);
    IdentityAbsent(i, 15, 1);
    IdentityAbsent(i, 16, 1);
    IdentityAbsent(i, 17, 1);
    IdentityAbsent(i, 19, 1);
  }

  lemma IdentityNotSuper(i: nat)
    ensures Extract(IdentityWord(i), 18, 1) == 0
  {
    hide Extract, Assemble;
    AbsentField(IdentityParts(i), 18, 1);
  }

  // ---- What the tables mean ----

  /** The mapping of x by the sections; a later section would override an earlier one. */
  function Mapping(si: seq<Sect>, x: word): Option<Entry> {
    if si == [] then None
    else if si[|si| - 1].Holds(x) && KMODE_VA <= x then
      Some(Entry(x - KMODE_VA, SmallPage, si[|si| - 1].Attributes()))
    else Mapping(si[..|si| - 1], x)
  }

  /** The state of the section loops: sections before i are mapped, and section i up to va. */
  ghost predicate Progress(t: Tables, kpt: word, si: seq<Sect>, i: nat, va: nat)
    requires i <= |si|
  {
    && Inv(t, kpt)
    && (forall j | 0 <= j < 4 :: t.pd[j] == IdentityWord(j))
    && (forall j | 4 <= j < PDES && !InWindow(j) :: t.pd[j] == 0)
    && (forall x: word | x >= 0x40_0000 ::
          Walk(t, kpt, x) == if i < |si| && KMODE_VA <= si[i].start <= x < va then
            Some(Entry(x - KMODE_VA, SmallPage, si[i].Attributes())) else Mapping(si[..i], x))
  }

  /** One page of section i. */
  lemma PageOfSection(t: Tables, kpt: word, si: seq<Sect>, i: nat, va: word)
    requires i < |si| && Progress(t, kpt, si, i, va) && si[i].InWindow()
    requires va % 0x1000 == 0 && si[i].start <= va < si[i].end
    ensures PdeIndex(va) < PDES && InWindow(PdeIndex(va))
    ensures var slot := TableStart(t, kpt, PdeIndex(va)) + PteIndex(va);
            && slot < |t.ram|
            && Progress(t.(ram := t.ram[slot := SectWord(si[i], va - KMODE_VA)]), kpt, si, i, va + 0x1000)
  {
    hide Walk, SectWord, PdeType, PdeTable, IdentityWord, Mapping, PteType, PtePa, PteUnit, PteAttrs, TableStart;
    assert InWindow(PdeIndex(va));
    var te := SectWord(si[i], va - KMODE_VA);
    PageWrite(t, kpt, va, te);
    var t' := t.(ram := t.ram[TableStart(t, kpt, PdeIndex(va)) + PteIndex(va) := te]);
    forall x: word | x >= 0x40_0000
      ensures Walk(t', kpt, x) == if si[i].start <= x < va + 0x1000 then
                Some(Entry(x - KMODE_VA, SmallPage, si[i].Attributes())) else Mapping(si[..i], x)
    {
      if va <= x < va + 0x1000 {
        SectMeaning(si[i], t.pd[PdeIndex(va)], va, x);
      } else {
        assert Walk(t', kpt, x) == Walk(t, kpt, x);
      }
    }
  }

  /** The pages written for section i are the pages it holds. */
  lemma SectionDone(t: Tables, kpt: word, si: seq<Sect>, i: nat, va: nat)
    requires i < |si| && Progress(t, kpt, si, i, va) && si[i].InWindow()
    requires va % 0x1000 == 0 && va >= si[i].end && va >= si[i].start
    requires va == si[i].start || va - 0x1000 < si[i].end
    ensures Progress(t, kpt, si, i + 1, 0)
  {
    hide Walk, IdentityWord, Inv, Sect.Attributes;
    assert si[..i + 1][..i] == si[..i];
    forall x: word ensures si[i].Holds(x) <==> si[i].start <= x < va {
    }
  }

  /** Both tables zeroed, the identity sections and the four table entries in place. */
  lemma Prepared(t: Tables, kpt: word, si: seq<Sect>)
    requires |t.pd| == PDES && kpt % 0x1000 == 0 && kpt + 0x1000 <= 0x1_0000_0000 && kpt / 4 + 0x400 <= |t.ram|
    requires forall k | kpt / 4 <= k < kpt / 4 + 0x400 :: t.ram[k] == 0
    requires forall j | 0 <= j < 4 :: t.pd[j] == IdentityWord(j)
    requires forall j | 0 <= j < PDES && InWindow(j) :: t.pd[j] == TableWord(kpt + (j - 0x400) * 0x400)
    requires forall j | 4 <= j < PDES && !InWindow(j) :: t.pd[j] == 0
    ensures Progress(t, kpt, si, 0, 0)
  {
    PreparedInv(t, kpt);
    hide PdeType, PdeTable, PlainLink, TableWord, IdentityWord, PteType, PdePa, PdeAttrs, PdeUnit,
      PtePa, PteUnit, PteAttrs, PteIndex;
    ZeroIsInvalid();
    forall x: word | x >= 0x40_0000 ensures Walk(t, kpt, x) == None {
      IndexRange(x);
      if InWindow(PdeIndex(x)) {
        TableWordDecodes(kpt + (PdeIndex(x) - 0x400) * 0x400);
        WindowSlotZero(t, kpt, x);
      }
    }
  }

  lemma WindowSlotZero(t: Tables, kpt: word, x: word)
    requires Inv(t, kpt) && InWindow(PdeIndex(x)) && kpt / 4 + 0x400 <= |t.ram|
    requires forall k | kpt / 4 <= k < kpt / 4 + 0x400 :: t.ram[k] == 0
    ensures TableStart(t, kpt, PdeIndex(x)) + PteIndex(x) < |t.ram|
    ensures t.ram[TableStart(t, kpt, PdeIndex(x)) + PteIndex(x)] == 0
  {
    hide PdeIndex, PteIndex, Inv;
    IndexRange(x);
  }

  ghost predicate PreparedPd(t: Tables, kpt: word) {
    && |t.pd| == PDES && kpt % 0x1000 == 0 && kpt + 0x1000 <= 0x1_0000_0000 && kpt / 4 + 0x400 <= |t.ram|
    && (forall j | 0 <= j < 4 :: t.pd[j] == IdentityWord(j))
    && (forall j | 0 <= j < PDES && InWindow(j) :: t.pd[j] == TableWord(kpt + (j - 0x400) * 0x400))
    && (forall j | 4 <= j < PDES && !InWindow(j) :: t.pd[j] == 0)
  }

  lemma PreparedEntry(t: Tables, kpt: word, j: nat)
    requires PreparedPd(t, kpt) && j < PDES
    ensures PdeType(t.pd[j]) == 1 <==> InWindow(j)
    ensures InWindow(j) ==> PdeTable(t.pd[j]) == kpt + (j - 0x400) * 0x400 && TableAddress(t.ram, PdeTable(t.pd[j]))
                            && PlainLink(t.pd[j])
  {
    hide PdeType, PdeTable, PlainLink, TableWord, IdentityWord;
    ZeroIsInvalid();
    if j < 4 {
      IdentityType(j);
      hide PreparedPd;
    } else if InWindow(j) {
      var tpa := kpt + (j - 0x400) * 0x400;
      WindowAddress(kpt, j, tpa);
      assert t.pd[j] == TableWord(tpa);
      assert TableAddress(t.ram, tpa);
      hide PreparedPd, TableAddress;
      TableWordDecodes(tpa);
    }
  }

  lemma WindowAddress(kpt: word, j: nat, tpa: int)
    requires InWindow(j) && tpa == kpt + (j - 0x400) * 0x400 && kpt % 0x1000 == 0 && kpt + 0x1000 <= 0x1_0000_0000
    ensures tpa % 0x400 == 0 && kpt <= tpa && tpa + 0x400 <= kpt + 0x1000
  {
  }

  lemma PreparedInv(t: Tables, kpt: word)
    requires PreparedPd(t, kpt)
    ensures Inv(t, kpt)
  {
    hide PdeType, PdeTable, PlainLink, InWindow, TableAddress;
    forall j: nat | j < PDES
      ensures PdeType(t.pd[j]) == 1 <==> InWindow(j)
      ensures InWindow(j) ==> PdeTable(t.pd[j]) == kpt + (j - 0x400) * 0x400 && TableAddress(t.ram, PdeTable(t.pd[j]))
                              && PlainLink(t.pd[j])
    {
      PreparedEntry(t, kpt, j);
    }
    assert |t.pd| == PDES && kpt % 0x1000 == 0;
    hide PreparedPd;
  }

  lemma IdentityType(i: nat)
    ensures PdeType(IdentityWord(i)) == 2
  {
    hide Extract, IdentityWord, Pow2;
    Powers();
    IdentityField(i, 0);
  }

  /** An address is mapped as the one section that holds it says: executable iff bit 0 of its permission is set,
      writable iff bit 1 is. */
  lemma {:induction false} MappingOfSection(si: seq<Sect>, k: nat, x: word)
    requires k < |si| && KMODE_VA <= x && si[k].Holds(x)
    requires forall j | 0 <= j < |si| && j != k :: !si[j].Holds(x)
    ensures Mapping(si, x) == Some(Entry(x - KMODE_VA, SmallPage, si[k].Attributes()))
    ensures var a := Mapping(si, x).value.attrs;
            && (a.xn == 0 <==> si[k].desc % 2 == 1) && (a.xn == 1 <==> si[k].desc % 2 == 0)
            && (a.ap == 0 <==> si[k].desc / 2 % 2 == 1) && (a.ap == 2 <==> si[k].desc / 2 % 2 == 0)
            && a.shr == 0 && a.ng == 0 && a.af == 1 && a.mt == 7 && a.dom == 0 && a.clean
    decreases |si|
  {
    if k < |si| - 1 {
      MappingOfSection(si[..|si| - 1], k, x);
    }
  }

  /** Builds the tables at boot, before the MMU is enabled: tables are reached by physical address. */
  method BootMap(pd: array<word>, ram: array<word>, kpt: word, si: seq<Sect>)
    requires pd != ram && pd.Length == PDES
    requires kpt % 0x1000 == 0 && kpt + 0x1000 <= 0x1_0000_0000 && kpt / 4 + 0x400 <= ram.Length
    requires forall s | s in si :: s.InWindow()
    modifies pd, ram
    ensures var t := Tables(pd[..], ram[..]);
            && Inv(t, kpt)
            && (forall x: word :: x < 0x40_0000 ==>
                  Walk(t, kpt, x) == Some(Entry(x, Section, IDENTITY)) && !InWindow(PdeIndex(x)))
            && (forall x: word :: x >= 0x40_0000 ==> Walk(t, kpt, x) == Mapping(si, x))
            && (forall j | 0 <= j < PDES :: PdeType(t.pd[j]) == if InWindow(j) then 1 else if j < 4 then 2 else 0)
  {
    hide Progress, Walk, IdentityWord, TableWord, SectWord, Inv, Mapping, Extract, PdeType;
    ZeroAndHook(pd, ram, kpt);
    Prepared(Tables(pd[..], ram[..]), kpt, si);
    for i := 0 to |si|
      invariant Progress(Tables(pd[..], ram[..]), kpt, si, i, 0)
    {
      MapSection(pd, ram, kpt, si, i);
    }
    BootResult(Tables(pd[..], ram[..]), kpt, si);
  }

  method ZeroAndHook(pd: array<word>, ram: array<word>, kpt: word)
    requires pd != ram && pd.Length == PDES
    requires kpt % 0x1000 == 0 && kpt + 0x1000 <= 0x1_0000_0000 && kpt / 4 + 0x400 <= ram.Length
    modifies pd, ram
    ensures forall k | kpt / 4 <= k < kpt / 4 + 0x400 :: ram[k] == 0
    ensures forall j | 0 <= j < 4 :: pd[j] == IdentityWord(j)
    ensures forall j | 0 <= j < PDES && InWindow(j) :: pd[j] == TableWord(kpt + (j - 0x400) * 0x400)
    ensures forall j | 4 <= j < PDES && !InWindow(j) :: pd[j] == 0
  {
    hide IdentityWord, TableWord, Extract;
    WriteRun(ram, kpt / 4, 0x400, 0);
    WriteRun(pd, 0, PDES, 0);
    assert forall j :: 0 <= j < PDES ==> pd[..][j] == 0;
    for i := 0 to 4
      invariant ram[..] == Fill(old(ram[..]), kpt / 4, 0x400, 0)
      invariant forall j | 0 <= j < PDES :: pd[j] == if j < i then IdentityWord(j) else 0
    {
      pd[i] := IdentityWord(i);
    }
    IndexBits(KMODE_VA);
    var j := Extract(KMODE_VA, 20, 12);
    var pa: nat := kpt;
    for i := 0 to 4
      invariant ram[..] == Fill(old(ram[..]), kpt / 4, 0x400, 0)
      invariant pa == kpt + i * 0x400
      invariant forall k | 0 <= k < PDES :: pd[k] ==
                  if k < 4 then IdentityWord(k)
                  else if 0x400 <= k < 0x400 + i then TableWord(kpt + (k - 0x400) * 0x400) else 0
    {
      pd[j + i] := TableWord(pa);
      pa := pa + 0x400;
    }
    assert forall k | kpt / 4 <= k < kpt / 4 + 0x400 :: ram[..][k] == 0;
  }

  method MapSection(pd: array<word>, ram: array<word>, kpt: word, si: seq<Sect>, i: nat)
    requires pd != ram && i < |si| && forall s | s in si :: s.InWindow()
    requires Progress(Tables(pd[..], ram[..]), kpt, si, i, 0)
    modifies ram
    ensures Progress(Tables(pd[..], ram[..]), kpt, si, i + 1, 0)
  {
    hide Progress, Walk, IdentityWord, SectWord, Inv, Mapping, Extract, InPlace, TableStart, PdeIndex, PteIndex;
    var s := si[i];
    assert s.InWindow();
    var va := s.start;
    StartSection(Tables(pd[..], ram[..]), kpt, si, i);
    while va < s.end
      invariant va % 0x1000 == 0 && s.start <= va <= KMODE_VA + 0x40_0000
      invariant va == s.start || va - 0x1000 < s.end
      invariant Progress(Tables(pd[..], ram[..]), kpt, si, i, va)
    {
      ghost var t := Tables(pd[..], ram[..]);
      PageOfSection(t, kpt, si, i, va);
      IndexBits(va);
      var j := Extract(va, 20, 12);
      WindowTable(t, kpt, si, i, va, j);
      var pt := InPlace(pd[j], 10, 22) / 4;
      var slot := pt + Extract(va, 12, 8);
      ram[slot] := SectWord(s, va - KMODE_VA);
      assert ram[..] == t.ram[slot := SectWord(s, va - KMODE_VA)];
      va := va + 0x1000;
    }
    SectionDone(Tables(pd[..], ram[..]), kpt, si, i, va);
  }

  lemma StartSection(t: Tables, kpt: word, si: seq<Sect>, i: nat)
    requires i < |si| && Progress(t, kpt, si, i, 0)
    ensures Progress(t, kpt, si, i, si[i].start)
  {
    hide Walk, Inv, Mapping;
  }

  /** At boot the table is found by the address in the directory entry. */
  lemma WindowTable(t: Tables, kpt: word, si: seq<Sect>, i: nat, va: word, j: nat)
    requires i < |si| && Progress(t, kpt, si, i, va) && j == PdeIndex(va) < PDES && InWindow(j)
    ensures |t.pd| == PDES && InPlace(t.pd[j], 10, 22) / 4 == TableStart(t, kpt, j)
  {
    hide Walk, Mapping, InPlace;
    ShortcutAgrees(t, kpt, j);
  }

  lemma BootResult(t: Tables, kpt: word, si: seq<Sect>)
    requires Progress(t, kpt, si, |si|, 0)
    ensures Inv(t, kpt)
    ensures forall x: word :: x < 0x40_0000 ==>
              Walk(t, kpt, x) == Some(Entry(x, Section, IDENTITY)) && !InWindow(PdeIndex(x))
    ensures forall x: word :: x >= 0x40_0000 ==> Walk(t, kpt, x) == Mapping(si, x)
    ensures forall j | 0 <= j < PDES :: PdeType(t.pd[j]) == if InWindow(j) then 1 else if j < 4 then 2 else 0
  {
    hide Mapping, IdentityWord, PdePa, PdeType, PdeAttrs, PdeUnit;
    assert si[..|si|] == si;
    ZeroIsInvalid();
    forall j: nat | j < PDES ensures PdeType(t.pd[j]) == if InWindow(j) then 1 else if j < 4 then 2 else 0 {
      if j < 4 {
        IdentityType(j);
      }
    }
    forall x: word | x < 0x40_0000
      ensures Walk(t, kpt, x) == Some(Entry(x, Section, IDENTITY)) && !InWindow(PdeIndex(x))
    {
      IdentityMeaning(x);
      assert PdeIndex(x) < 4;
    }
  }

  /** Once virtual addresses are in use the identity map is removed, and only the sections remain. */
  method RemoveIdentityMap(pd: array<word>, ghost ram: seq<word>, ghost kpt: word)
    requires pd.Length == PDES && Inv(Tables(pd[..], ram), kpt)
    modifies pd
    ensures Inv(Tables(pd[..], ram), kpt) && pd[..] == Fill(old(pd[..]), 0, 4, 0)
    ensures forall x: word :: Walk(Tables(pd[..], ram), kpt, x) ==
              if x < 0x40_0000 then None else Walk(Tables(old(pd[..]), ram), kpt, x)
  {
    ghost var t := Tables(pd[..], ram);
    WriteRun(pd, 0, 4, 0);
    IdentityRemoved(t, kpt);
  }

  lemma IdentityRemoved(t: Tables, kpt: word)
    requires Inv(t, kpt)
    ensures var t' := t.(pd := Fill(t.pd, 0, 4, 0));
            Inv(t', kpt) && forall x: word :: Walk(t', kpt, x) == if x < 0x40_0000 then None else Walk(t, kpt, x)
  {
    hide PdeType, PdeTable, PdePa, PdeUnit, PdeAttrs, PteType, PtePa, PteUnit, PteAttrs;
    ZeroIsInvalid();
    var t' := t.(pd := Fill(t.pd, 0, 4, 0));
    assert Inv(t', kpt);
    forall x: word ensures Walk(t', kpt, x) == if x < 0x40_0000 then None else Walk(t, kpt, x) {
      assert PdeIndex(x) < 4 <==> x < 0x40_0000;
    }
  }

  // ---- The tables in use ----

  /** The tables after boot: no identity map, and the sections in the window. */
  ghost predicate Booted(t: Tables, kpt: word, si: seq<Sect>) {
    && Inv(t, kpt)
    && (forall j | 0 <= j < PDES :: PdeType(t.pd[j]) == if InWindow(j) then 1 else 0)
    && (forall x: word :: Walk(t, kpt, x) == if x < 0x40_0000 then None else Mapping(si, x))
  }

  /** From boot to the first use of the MMU code: the boot tables, once the identity map is gone, are
      the tables that it maps into, with any supply of tables outside the static ones. */
  method BootMmu(pd: array<word>, ram: array<word>, kpt: word, si: seq<Sect>, pool: seq<word>) returns (m: Mmu)
    requires pd != ram && pd.Length == PDES
    requires kpt % 0x1000 == 0 && kpt + 0x1000 <= 0x1_0000_0000 && kpt / 4 + 0x400 <= ram.Length
    requires forall s | s in si :: s.InWindow()
    requires forall i :: 0 <= i < |pool| ==> pool[i] % 0x400 == 0 && pool[i] / 4 + PTES <= ram.Length
    requires forall i :: 0 <= i < |pool| ==> pool[i] < kpt || kpt + 0x1000 <= pool[i]
    requires forall i, j :: 0 <= i < j < |pool| ==> pool[i] != pool[j]
    modifies pd, ram
    ensures fresh(m) && m.Valid() && m.pd == pd && m.ram == ram && m.kpt == kpt && m.pool == pool
    ensures Booted(m.T(), kpt, si) && Coherent(m.T(), kpt)
  {
    hide Walk, Inv, Mapping, PdeType, Coherent;
    BootMap(pd, ram, kpt, si);
    ghost var t := Tables(pd[..], ram[..]);
    RemoveIdentityMap(pd, ram[..], kpt);
    ghost var n := Tables(pd[..], ram[..]);
    WindowStays(t, n);
    BootedIsCoherent(n, kpt, si);
    forall i | 0 <= i < |pool| ensures Fresh(n, pool[i]) {
      OutsideIsFresh(n, kpt, pool[i]);
    }
    m := new Mmu(pd, ram, kpt, pool);
  }

  lemma WindowStays(t: Tables, n: Tables)
    requires |t.pd| == PDES && n.pd == Fill(t.pd, 0, 4, 0)
    requires forall j | 0 <= j < PDES :: PdeType(t.pd[j]) == if InWindow(j) then 1 else if j < 4 then 2 else 0
    ensures forall j | 0 <= j < PDES :: PdeType(n.pd[j]) == if InWindow(j) then 1 else 0
  {
    hide PdeType;
    ZeroIsInvalid();
  }

  /** A table outside the static ones is named by no entry. */
  lemma OutsideIsFresh(t: Tables, kpt: word, tpa: word)
    requires Inv(t, kpt) && forall j | 0 <= j < PDES :: PdeType(t.pd[j]) == 1 <==> InWindow(j)
    requires TableAddress(t.ram, tpa) && (tpa < kpt || kpt + 0x1000 <= tpa)
    ensures Fresh(t, tpa)
  {
    hide PdeType, PdeTable;
  }

  /** The boot tables are coherent: pages are mapped whole. */
  lemma BootedIsCoherent(t: Tables, kpt: word, si: seq<Sect>)
    requires Booted(t, kpt, si) && forall s | s in si :: s.InWindow()
    ensures Coherent(t, kpt)
  {
    hide Walk, Mapping, PdeType;
    forall x: word, y: word | Walk(t, kpt, x).Some? && SameUnit(Walk(t, kpt, x).value.unit, x, y)
      ensures Agree(t, kpt, x, y)
    {
      PageMappedWhole(si, x, x);
      assert SmallPage.Size() == 0x1000;
      PageMappedWhole(si, x, y);
    }
  }

  lemma {:induction false} PageMappedWhole(si: seq<Sect>, x: word, y: word)
    requires (forall s | s in si :: s.InWindow()) && x / 0x1000 == y / 0x1000
    ensures Mapping(si, x).Some? ==> x >= KMODE_VA && y >= KMODE_VA && Mapping(si, x).value.pa == x - KMODE_VA
                                     && Mapping(si, x).value.unit == SmallPage
    ensures Mapping(si, x).Some? ==> Mapping(si, y) == Some(Mapping(si, x).value.(pa := y - KMODE_VA))
  {
    hide Sect.Holds, Sect.InWindow, Sect.Attributes;
    if si != [] {
      PageMappedWhole(si[..|si| - 1], x, y);
      HoldsPage(si[|si| - 1], x, y);
    }
  }

  lemma HoldsPage(s: Sect, x: word, y: word)
    requires s.InWindow() && x / 0x1000 == y / 0x1000
    ensures s.Holds(x) <==> s.Holds(y)
    ensures KMODE_VA <= x <==> KMODE_VA <= y
  {
  }
}
