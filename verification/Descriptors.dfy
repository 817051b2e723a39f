/** First- and second-level descriptors in the ARMv6 (XP = 1) format: how a map request is
    encoded, and what a descriptor means to the table walk. */
module Descriptors {
  import opened Shift
  import opened Word
  import opened Fields

  datatype Unit = SmallPage | LargePage | Section | SuperSection {
    /** Bytes mapped by one unit. */
    function Size(): (s: nat)
      ensures s > 0
    {
      match this
      case SmallPage => 0x1000
      case LargePage => 0x1_0000
      case Section => 0x10_0000
      case SuperSection => 0x100_0000
    }

    /** Descriptor slots that hold one unit; a large page and a super section are replicated. */
    function Copies(): nat {
      match this
      case SmallPage => 1
      case LargePage => 16
      case Section => 1
      case SuperSection => 16
    }

    predicate IsSection() {
      this == Section || this == SuperSection
    }
  }

  datatype Request = Request(n: int, vaStart: word, paStart: word, mt: nat, ap: nat, mu: Unit, flags: word) {
    /** Distance of unit i from the start of the range. */
    function Offset(i: int): int {
      i * mu.Size()
    }

    function Length(): int {
      Offset(n)
    }

    /** Both ranges start aligned to the unit and end within the 4GB spaces. */
    predicate Sized() {
      && n > 0
      && vaStart % mu.Size() == 0 && paStart % mu.Size() == 0
      && vaStart + Length() <= 0x1_0000_0000
      && paStart + Length() <= 0x1_0000_0000
    }

    /** What the code asserts of a map request. */
    predicate Legal() {
      mt < 9 && ap < 4 && Sized()
    }

    predicate Covers(va: int) {
      vaStart <= va < vaStart + Length()
    }

    function Attributes(): Attrs {
      Attrs(Extract(flags, 0, 1), Extract(flags, 2, 1), Extract(flags, 1, 1), Extract(flags, 3, 1), mt, ap,
            if mu == Section then Extract(flags, 4, 4) else 0, true)
    }
  }

  /** Execute-never, shared, not-global, access flag, memory type (TEX C B), access permission (APX AP), domain,
      and whether all the bits that no field names are zero. */
  datatype Attrs = Attrs(xn: nat, shr: nat, ng: nat, af: nat, mt: nat, ap: nat, dom: nat, clean: bool)

  /** What a virtual address means: its physical address, and the unit and attributes of its mapping. */
  datatype Entry = Entry(pa: nat, unit: Unit, attrs: Attrs)

  // ---- First level ----

  function PdeType(de: nat): nat {
    Extract(de, 0, 2)
  }

  function PdeTable(de: nat): nat {
    InPlace(de, 10, 22)
  }

  function TableParts(tpa: nat): seq<Part> {
    [Part(0, 2, 1), Part(10, 22, Extract(tpa, 10, 22))]
  }

  /** A first-level descriptor that points to a second-level table. */
  function TableWord(tpa: nat): word {
    AssembleFits(TableParts(tpa));
    Assemble(TableParts(tpa))
  }

  /** An entry that points to a table has domain 0, and no other bit set but its type and its base. */
  predicate PlainLink(de: nat) {
    Extract(de, 2, 3) == 0 && Extract(de, 5, 4) == 0 && Extract(de, 9, 1) == 0
  }

  function SectionParts(r: Request, pa: nat): seq<Part> {
    [Part(0, 2, 2),
     if r.mu == SuperSection then Part(18, 1, 1) else Part(5, 4, Extract(r.flags, 4, 4)),
     if r.mu == SuperSection then Part(24, 8, Extract(pa, 24, 8)) else Part(20, 12, Extract(pa, 20, 12)),
     Part(4, 1, Extract(r.flags, 0, 1)),
     Part(16, 1, Extract(r.flags, 2, 1)),
     Part(17, 1, Extract(r.flags, 1, 1)),
     Part(10, 1, Extract(r.flags, 3, 1)),
     Part(12, 3, r.mt / 4),
     Part(3, 1, r.mt / 2),
     Part(2, 1, r.mt),
     Part(15, 1, r.ap / 2),
     Part(11, 1, r.ap)]
  }

  /** The descriptor of one section or super section. */
  function SectionWord(r: Request, pa: nat): word {
    AssembleFits(SectionParts(r, pa));
    Assemble(SectionParts(r, pa))
  }

  function PdeAttrs(de: nat): Attrs {
    Attrs(Extract(de, 4, 1), Extract(de, 16, 1), Extract(de, 17, 1), Extract(de, 10, 1),
          4 * Extract(de, 12, 3) + 2 * Extract(de, 3, 1) + Extract(de, 2, 1),
          2 * Extract(de, 15, 1) + Extract(de, 11, 1),
          if Extract(de, 18, 1) == 0 then Extract(de, 5, 4) else 0,
          PdeClean(de))
  }

  /** Only a super section has zeros in place of the domain, and below its base. */
  predicate PdeClean(de: nat) {
    && Extract(de, 9, 1) == 0 && Extract(de, 19, 1) == 0
    && (Extract(de, 18, 1) != 0 ==> Extract(de, 5, 4) == 0 && Extract(de, 20, 4) == 0)
  }

  /** Physical address behind va, mapped by a section descriptor. */
  function PdePa(de: nat, va: nat): nat {
    if Extract(de, 18, 1) == 0
    then (InPlace(de, 20, 12) + AndNot(va, Shl(Mask(12), 20))) % 0x1_0000_0000
    else (InPlace(de, 24, 8) + AndNot(va, Shl(Mask(8), 24))) % 0x1_0000_0000
  }

  function PdeUnit(de: nat): Unit {
    if Extract(de, 18, 1) == 0 then Section else SuperSection
  }

  // ---- Second level ----

  function PteType(te: nat): nat {
    Extract(te, 0, 2)
  }

  /** The small-page type value 2 is bit 1; bit 0 is execute-never. */
  function PageParts(r: Request, pa: nat): seq<Part> {
    [if r.mu == LargePage then Part(0, 2, 1) else Part(1, 1, 1),
     if r.mu == LargePage then Part(16, 16, Extract(pa, 16, 16)) else Part(12, 20, Extract(pa, 12, 20)),
     if r.mu == LargePage then Part(15, 1, Extract(r.flags, 0, 1)) else Part(0, 1, Extract(r.flags, 0, 1)),
     if r.mu == LargePage then Part(12, 3, r.mt / 4) else Part(6, 3, r.mt / 4),
     Part(10, 1, Extract(r.flags, 2, 1)),
     Part(11, 1, Extract(r.flags, 1, 1)),
     Part(4, 1, Extract(r.flags, 3, 1)),
     Part(3, 1, r.mt / 2),
     Part(2, 1, r.mt),
     Part(9, 1, r.ap / 2),
     Part(5, 1, r.ap)]
  }

  /** The descriptor of one small or large page. */
  function PageWord(r: Request, pa: nat): word {
    AssembleFits(PageParts(r, pa));
    Assemble(PageParts(r, pa))
  }

  function PteUnit(te: nat): Unit {
    if PteType(te) == 1 then LargePage else SmallPage
  }

  /** What a page's descriptor says, with the domain of the first-level entry de. */
  function PteAttrs(de: nat, te: nat): Attrs {
    var large := PteType(te) == 1;
    Attrs(if large then Extract(te, 15, 1) else Extract(te, 0, 1),
          Extract(te, 10, 1), Extract(te, 11, 1), Extract(te, 4, 1),
          4 * (if large then Extract(te, 12, 3) else Extract(te, 6, 3)) + 2 * Extract(te, 3, 1) + Extract(te, 2, 1),
          2 * Extract(te, 9, 1) + Extract(te, 5, 1),
          Extract(de, 5, 4),
          Extract(de, 2, 3) == 0 && Extract(de, 9, 1) == 0 && (large ==> Extract(te, 6, 3) == 0))
  }

  function PtePa(te: nat, va: nat): nat {
    if PteType(te) == 1
    then (InPlace(te, 16, 16) + AndNot(va, Shl(Mask(16), 16))) % 0x1_0000_0000
    else (InPlace(te, 12, 20) + AndNot(va, Shl(Mask(20), 12))) % 0x1_0000_0000
  }

  // ---- Decoding undoes encoding ----

  lemma Powers()
    ensures Pow2(0) == 1 && Pow2(1) == 2 && Pow2(2) == 4 && Pow2(3) == 8 && Pow2(10) == 0x400
    ensures Pow2(12) == 0x1000 && Pow2(16) == 0x1_0000 && Pow2(20) == 0x10_0000
    ensures Pow2(22) == 0x40_0000 && Pow2(24) == 0x100_0000
  {
    assert Pow2(8) == 256;
    Pow2Add(8, 8);
    Pow2Add(8, 16);
    assert Pow2(10) == 0x400;
    Pow2Add(10, 10);
    Pow2Add(2, 20);
  }

  lemma TableWordDecodes(tpa: word)
    requires tpa % 0x400 == 0
    ensures PdeType(TableWord(tpa)) == 1 && PdeTable(TableWord(tpa)) == tpa && PlainLink(TableWord(tpa))
  {
    TableWordIsPlain(tpa);
    hide PlainLink;
    hide Extract, Assemble, InPlace, Pow2;
    Powers();
    WordPow2();
    var ps := TableParts(tpa);
    PresentField(ps, 0);
    PresentField(ps, 1);
    InPlaceIsArrangeExtract(TableWord(tpa), 10, 22);
    ExtractArith(tpa, 10, 22);
    HighField(tpa, 0x400, 0x40_0000);
  }

  lemma TableWordIsPlain(tpa: word)
    ensures PlainLink(TableWord(tpa))
  {
    hide Extract, Assemble;
    AbsentField(TableParts(tpa), 2, 3);
    AbsentField(TableParts(tpa), 5, 4);
    AbsentField(TableParts(tpa), 9, 1);
  }

  lemma ShortMod(mt: nat, ap: nat)
    requires mt < 9 && ap < 4
    ensures 4 * ((mt / 4) % 8) + 2 * ((mt / 2) % 2) + mt % 2 == mt
    ensures 2 * ((ap / 2) % 2) + ap % 2 == ap
  {
  }

  /** Every field of a section descriptor reads back what was put there. */
  lemma SectionField(r: Request, pa: word, k: nat)
    requires k < |SectionParts(r, pa)|
    ensures var p := SectionParts(r, pa)[k];
            Extract(SectionWord(r, pa), p.pos, p.sz) == p.val % Pow2(p.sz)
  {
    hide Extract, Assemble, Pow2;
    PresentField(SectionParts(r, pa), k);
  }

  lemma SectionFields(r: Request, pa: word)
    requires r.mu.IsSection() && r.mt < 9 && r.ap < 4
    ensures PdeType(SectionWord(r, pa)) == 2
    ensures PdeAttrs(SectionWord(r, pa)) == r.Attributes()
    ensures PdeUnit(SectionWord(r, pa)) == r.mu
    ensures r.mu == Section ==> Extract(SectionWord(r, pa), 20, 12) == Extract(pa, 20, 12) % Pow2(12)
    ensures r.mu == SuperSection ==> Extract(SectionWord(r, pa), 24, 8) == Extract(pa, 24, 8) % Pow2(8)
  {
    hide Extract, Assemble, InPlace, SectionWord, Pow2;
    Powers();
    SectionField(r, pa, 0);
    SectionField(r, pa, 2);
    SectionDomain(r, pa);
    SectionAttributes(r, pa);
    hide PdeAttrs;
  }

  lemma SectionIsNotSuper(r: Request, pa: word)
    requires r.mu == Section
    ensures Extract(SectionWord(r, pa), 18, 1) == 0
  {
    hide Extract, Assemble;
    AbsentField(SectionParts(r, pa), 18, 1);
  }

  /** The domain of a section is the one requested; a super section has none. */
  lemma SectionDomain(r: Request, pa: word)
    requires r.mu.IsSection()
    ensures Extract(SectionWord(r, pa), 18, 1) == (if r.mu == Section then 0 else 1)
    ensures r.mu == Section ==> Extract(SectionWord(r, pa), 5, 4) == Extract(r.flags, 4, 4)
    ensures PdeClean(SectionWord(r, pa))
  {
    hide Extract, Assemble, Pow2;
    Powers();
    SectionField(r, pa, 1);
    AbsentField(SectionParts(r, pa), 9, 1);
    AbsentField(SectionParts(r, pa), 19, 1);
    if r.mu == Section {
      SectionIsNotSuper(r, pa);
      FourBits(r.flags, 4);
    } else {
      AbsentField(SectionParts(r, pa), 5, 4);
      AbsentField(SectionParts(r, pa), 20, 4);
    }
  }

  lemma FourBits(x: nat, pos: nat)
    ensures Extract(x, pos, 4) % Pow2(4) == Extract(x, pos, 4)
  {
    ExtractArith(x, pos, 4);
    assert Pow2(4) == 16;
  }

  lemma SectionAttributes(r: Request, pa: word)
    requires r.mu.IsSection() && r.mt < 9 && r.ap < 4
    ensures PdeAttrs(SectionWord(r, pa)) == r.Attributes()
  {
    hide Extract, SectionWord, Pow2, PdeClean;
    Powers();
    SectionDomain(r, pa);
    SectionField(r, pa, 3);
    SectionField(r, pa, 4);
    SectionField(r, pa, 5);
    SectionField(r, pa, 6);
    SectionField(r, pa, 7);
    SectionField(r, pa, 8);
    SectionField(r, pa, 9);
    SectionField(r, pa, 10);
    SectionField(r, pa, 11);
    ShortMod(r.mt, r.ap);
    FlagBits(r.flags);
  }

  lemma FlagBits(flags: word)
    ensures Extract(flags, 0, 1) < 2 && Extract(flags, 1, 1) < 2 && Extract(flags, 2, 1) < 2 && Extract(flags, 3, 1) < 2
  {
    hide Extract;
    FlagBit(flags, 0);
    FlagBit(flags, 1);
    FlagBit(flags, 2);
    FlagBit(flags, 3);
  }

  /** The flags of a request, bit by bit: execute-never, not-global, shared, access flag, and from bit 4 on the
      domain, which only a section can have. */
  lemma RequestedAttributes(r: Request)
    ensures r.Attributes() ==
            Attrs(r.flags % 2, r.flags / 4 % 2, r.flags / 2 % 2, r.flags / 8 % 2, r.mt, r.ap,
                  if r.mu == Section then r.flags / 16 % 16 else 0, true)
  {
    hide Extract;
    ExtractArith(r.flags, 0, 1);
    ExtractArith(r.flags, 1, 1);
    ExtractArith(r.flags, 2, 1);
    ExtractArith(r.flags, 3, 1);
    ExtractArith(r.flags, 4, 4);
    assert Pow2(1) == 2 && Pow2(2) == 4 && Pow2(3) == 8 && Pow2(4) == 16;
  }

  lemma PageField(r: Request, pa: word, k: nat)
    requires k < |PageParts(r, pa)|
    ensures var p := PageParts(r, pa)[k];
            Extract(PageWord(r, pa), p.pos, p.sz) == p.val % Pow2(p.sz)
  {
    hide Extract, Assemble, Pow2;
    PresentField(PageParts(r, pa), k);
  }

  lemma LowTwoBits(te: nat)
    ensures PteType(te) == Extract(te, 0, 1) + 2 * Extract(te, 1, 1)
    ensures Extract(te, 0, 1) < 2
  {
    ExtractArith(te, 0, 2);
    ExtractArith(te, 0, 1);
    ExtractArith(te, 1, 1);
    assert Pow2(0) == 1 && Pow2(1) == 2 && Pow2(2) == 4;
  }

  lemma PageFields(r: Request, de: nat, pa: word)
    requires !r.mu.IsSection() && r.mt < 9 && r.ap < 4 && PlainLink(de)
    ensures PteType(PageWord(r, pa)) != 0 && PteUnit(PageWord(r, pa)) == r.mu
    ensures PteAttrs(de, PageWord(r, pa)) == r.Attributes()
    ensures r.mu == SmallPage ==> Extract(PageWord(r, pa), 12, 20) == Extract(pa, 12, 20) % Pow2(20)
    ensures r.mu == LargePage ==> Extract(PageWord(r, pa), 16, 16) == Extract(pa, 16, 16) % Pow2(16)
  {
    hide Extract, PageWord, Pow2, PteAttrs, PteUnit, PteType;
    PageUnit(r, pa);
    PageField(r, pa, 1);
    PageAttributes(r, de, pa);
  }

  lemma PageUnit(r: Request, pa: word)
    requires !r.mu.IsSection()
    ensures PteType(PageWord(r, pa)) != 0 && PteUnit(PageWord(r, pa)) == r.mu
  {
    hide Extract, PageWord, Pow2;
    Powers();
    LowTwoBits(PageWord(r, pa));
    PageField(r, pa, 0);
  }

  lemma LargePageIsClean(r: Request, pa: word)
    requires r.mu == LargePage
    ensures Extract(PageWord(r, pa), 6, 3) == 0
  {
    hide Extract, Assemble;
    AbsentField(PageParts(r, pa), 6, 3);
  }

  lemma PageAttributes(r: Request, de: nat, pa: word)
    requires !r.mu.IsSection() && r.mt < 9 && r.ap < 4 && PlainLink(de)
    ensures PteAttrs(de, PageWord(r, pa)) == r.Attributes()
  {
    hide Extract, PageWord, Pow2, PteUnit, PteType;
    PageUnit(r, pa);
    PageFlags(r, pa);
    PageMemoryType(r, pa);
    PagePermission(r, pa);
    if r.mu == LargePage {
      LargePageIsClean(r, pa);
      LargeType(r, pa);
    } else {
      SmallType(r, pa);
    }
  }

  lemma LargeType(r: Request, pa: word)
    requires r.mu == LargePage
    ensures PteType(PageWord(r, pa)) == 1
  {
    hide PageWord, Extract;
    PageUnit(r, pa);
  }

  lemma SmallType(r: Request, pa: word)
    requires r.mu == SmallPage
    ensures PteType(PageWord(r, pa)) != 1
  {
    hide PageWord, Extract;
    PageUnit(r, pa);
  }

  lemma PagePermission(r: Request, pa: word)
    requires !r.mu.IsSection() && r.mt < 9 && r.ap < 4
    ensures 2 * Extract(PageWord(r, pa), 9, 1) + Extract(PageWord(r, pa), 5, 1) == r.ap
  {
    hide Extract, PageWord, Pow2;
    Powers();
    PageField(r, pa, 9);
    PageField(r, pa, 10);
    ShortMod(r.mt, r.ap);
  }

  lemma PageFlags(r: Request, pa: word)
    requires !r.mu.IsSection()
    ensures var te := PageWord(r, pa);
            && Extract(te, if r.mu == LargePage then 15 else 0, 1) == Extract(r.flags, 0, 1)
            && Extract(te, 10, 1) == Extract(r.flags, 2, 1)
            && Extract(te, 11, 1) == Extract(r.flags, 1, 1)
            && Extract(te, 4, 1) == Extract(r.flags, 3, 1)
  {
    hide Extract, PageWord, Pow2;
    Powers();
    PageField(r, pa, 2);
    PageField(r, pa, 4);
    PageField(r, pa, 5);
    PageField(r, pa, 6);
    FlagBits(r.flags);
  }

  lemma PageMemoryType(r: Request, pa: word)
    requires !r.mu.IsSection() && r.mt < 9 && r.ap < 4
    ensures var te := PageWord(r, pa);
            4 * Extract(te, if r.mu == LargePage then 12 else 6, 3) + 2 * Extract(te, 3, 1) + Extract(te, 2, 1) == r.mt
  {
    hide Extract, PageWord, Pow2;
    Powers();
    PageField(r, pa, 3);
    PageField(r, pa, 7);
    PageField(r, pa, 8);
    ShortMod(r.mt, r.ap);
  }

  /** An aligned base is what its own field leaves in place, and base plus offset is the address. */
  lemma BaseAndOffset(de: word, base: word, va: word, x: word, pos: nat, sz: nat, size: nat)
    requires pos + sz == 32 && size == Pow2(pos)
    requires Extract(de, pos, sz) == Extract(base, pos, sz) % Pow2(sz)
    requires base % size == 0 && va % size == 0 && va <= x < va + size
    requires base + (x - va) < 0x1_0000_0000
    ensures (InPlace(de, pos, sz) + AndNot(x, Shl(Mask(sz), pos))) % 0x1_0000_0000 == base + (x - va)
  {
    hide Extract, InPlace, AndNot, Shl, Pow2;
    BaseInPlace(de, base, pos, sz, size);
    OffsetPart(va, x, pos, sz, size);
  }

  lemma BaseInPlace(de: word, base: word, pos: nat, sz: nat, size: nat)
    requires pos + sz == 32 && size == Pow2(pos) && base % size == 0
    requires Extract(de, pos, sz) == Extract(base, pos, sz) % Pow2(sz)
    ensures InPlace(de, pos, sz) == base
  {
    hide Extract, InPlace, Pow2;
    WordPow2();
    Pow2Add(pos, sz);
    InPlaceIsArrangeExtract(de, pos, sz);
    ExtractArith(base, pos, sz);
    HighField(base, size, Pow2(sz));
  }

  lemma OffsetPart(va: word, x: word, pos: nat, sz: nat, size: nat)
    requires pos + sz == 32 && size == Pow2(pos) && va % size == 0 && va <= x < va + size
    ensures AndNot(x, Shl(Mask(sz), pos)) == x - va
  {
    hide AndNot, Shl, Pow2, Mask;
    AndNotHigh(x, pos, sz);
    OffsetInUnit(va, x, size);
  }

  lemma HighField(base: word, p: nat, s: nat)
    requires p > 0 && s > 0 && p * s == 0x1_0000_0000 && base % p == 0
    ensures ((base / p) % s) % s * p == base
  {
    var q := base / p;
    assert base == q * p;
    if q >= s {
      MulMonotone(s, q, p);
    }
    assert q < s;
    DivModUnique(q, s, 0, q);
  }

  lemma OffsetInUnit(va: nat, x: nat, size: nat)
    requires size > 0 && va % size == 0 && va <= x < va + size
    ensures x % size == x - va
  {
    DivModUnique(x, size, va / size, x - va);
  }

  /** A section descriptor maps every address of its unit to base plus offset, as requested. */
  lemma SectionMeaning(r: Request, va: word, pa: word, x: word)
    requires r.mu.IsSection() && r.mt < 9 && r.ap < 4
    requires va % r.mu.Size() == 0 && pa % r.mu.Size() == 0
    requires va <= x < va + r.mu.Size() && pa + (x - va) < 0x1_0000_0000
    ensures PdeType(SectionWord(r, pa)) == 2
    ensures PdePa(SectionWord(r, pa), x) == pa + (x - va)
    ensures PdeUnit(SectionWord(r, pa)) == r.mu && PdeAttrs(SectionWord(r, pa)) == r.Attributes()
  {
    hide Extract, SectionWord, InPlace, AndNot, Shl, PdeAttrs, Pow2, Mask;
    Powers();
    SectionFields(r, pa);
    if r.mu == Section {
      BaseAndOffset(SectionWord(r, pa), pa, va, x, 20, 12, 0x10_0000);
    } else {
      BaseAndOffset(SectionWord(r, pa), pa, va, x, 24, 8, 0x100_0000);
    }
  }

  lemma PageMeaning(r: Request, de: nat, va: word, pa: word, x: word)
    requires !r.mu.IsSection() && r.mt < 9 && r.ap < 4 && PlainLink(de)
    requires va % r.mu.Size() == 0 && pa % r.mu.Size() == 0
    requires va <= x < va + r.mu.Size() && pa + (x - va) < 0x1_0000_0000
    ensures PteType(PageWord(r, pa)) != 0
    ensures PtePa(PageWord(r, pa), x) == pa + (x - va)
    ensures PteUnit(PageWord(r, pa)) == r.mu && PteAttrs(de, PageWord(r, pa)) == r.Attributes()
  {
    hide Extract, PageWord, InPlace, AndNot, Shl, PteAttrs, Pow2, Mask;
    Powers();
    PageFields(r, de, pa);
    if r.mu == LargePage {
      BaseAndOffset(PageWord(r, pa), pa, va, x, 16, 16, 0x1_0000);
    } else {
      BaseAndOffset(PageWord(r, pa), pa, va, x, 12, 20, 0x1000);
    }
  }

  lemma FlagBit(flags: word, pos: nat)
    ensures Extract(flags, pos, 1) < 2
  {
    ExtractArith(flags, pos, 1);
    assert Pow2(1) == 2;
  }
}
