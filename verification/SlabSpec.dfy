/** One slab: a page cut into equal objects, whose free objects are threaded into a list through
    their own first words. */
module SlabSpec {
  import opened Shift

  const PAGE_SIZE := 4096
  const PAGE_WORDS := 1024

  /** Base-2 logarithms of the object sizes that share a page: 8 bytes to 2 KB. */
  type Log = lg: nat | 3 <= lg <= 11 witness 3

  /** The 16-byte slabs give away their first nine objects, to slab headers, when they are set up. */
  function Reserved(lg: Log): nat {
    if lg == 4 then 9 else 0
  }

  function Count(lg: Log): nat {
    Shr(PAGE_SIZE, lg)
  }

  /** 32-bit words in an object. */
  function Words(lg: Log): nat {
    Pow2(lg - 2)
  }

  /** Index in the page of the first word of object `j`. */
  function At(j: nat, lg: Log): nat {
    j * Words(lg)
  }

  lemma Powers()
    ensures Pow2(1) == 2 && Pow2(2) == 4 && Pow2(3) == 8 && Pow2(4) == 16 && Pow2(5) == 32 && Pow2(6) == 64
    ensures Pow2(7) == 128 && Pow2(8) == 256 && Pow2(9) == 512 && Pow2(10) == 1024 && Pow2(11) == 2048
    ensures Pow2(12) == PAGE_SIZE
  {
  }

  lemma Geometry(lg: Log)
    ensures Count(lg) * Words(lg) == PAGE_WORDS
    ensures 2 <= Count(lg) <= 512 && Words(lg) >= 2 && Reserved(lg) < Count(lg) && Pow2(lg) == 4 * Words(lg)
  {
    Pow2Add(12 - lg, lg);
    Pow2Add(12 - lg, lg - 2);
    Pow2Add(2, lg - 2);
    Powers();
    ShrOfMultiple(Pow2(12 - lg), lg);
    hide Pow2, Shr;
    assert Count(lg) == Pow2(12 - lg);
    assert lg == 3 || lg == 4 || lg == 5 || lg == 6 || lg == 7 || lg == 8 || lg == 9 || lg == 10 || lg == 11;
  }

  lemma Objects(lg: Log)
    ensures Count(lg) == PAGE_SIZE / Pow2(lg)
  {
    Geometry(lg);
    hide Count, Words, Pow2;
    DivModUnique(PAGE_SIZE, Pow2(lg), Count(lg), 0);
  }

  /** Distinct objects of a page share no word. */
  lemma ObjectsApart(i: nat, j: nat, lg: Log)
    requires i < j
    ensures At(i, lg) + Words(lg) <= At(j, lg)
  {
    hide Words;
    MultipleGap(i, j, Words(lg));
  }

  /** Every object lies inside the page. */
  lemma ObjectInPage(j: nat, lg: Log)
    requires j < Count(lg)
    ensures At(j, lg) + Words(lg) <= PAGE_WORDS
  {
    hide Words, Count;
    Geometry(lg);
    ObjectsApart(j, Count(lg), lg);
  }

  /** The byte offset the code computes, `j << log_sz`, names that word. */
  lemma OffsetIsAt(j: nat, lg: Log)
    ensures j * Pow2(lg) == 4 * At(j, lg)
  {
    hide Pow2, Words;
    Geometry(lg);
  }

  /** Contents of the page, and the two fields of the slab's header. */
  datatype Slab = Slab(words: seq<int>, free: int, nfree: int)

  // ---- The free list ----

  /** Where the code gets to by following `k` links from `free`; it stops at any index past the last object. */
  function Visit(s: Slab, lg: Log, k: nat): int
    requires |s.words| == PAGE_WORDS
  {
    if k == 0 then s.free else
    var j := Visit(s, lg, k - 1);
    if 0 <= j < Count(lg) then (ObjectInPage(j, lg); Geometry(lg); s.words[At(j, lg)]) else j
  }

  /** The free list is sound: following the links from `free` visits `nfree` distinct free objects, then `n`. */
  ghost predicate Sound(s: Slab, lg: Log) {
    && |s.words| == PAGE_WORDS
    && 0 <= s.nfree
    && (forall k :: 0 <= k < s.nfree ==> Reserved(lg) <= Visit(s, lg, k) < Count(lg))
    && (forall k, l :: 0 <= k < l < s.nfree ==> Visit(s, lg, k) != Visit(s, lg, l))
    && Visit(s, lg, s.nfree) == Count(lg)
  }

  function Link(chain: seq<nat>, i: int, n: nat): int {
    if 0 <= i < |chain| then chain[i] else n
  }

  /** `chain` is the free list, as a sequence. */
  ghost predicate Threaded(s: Slab, lg: Log, chain: seq<nat>) {
    && |s.words| == PAGE_WORDS
    && |chain| == s.nfree
    && s.free == Link(chain, 0, Count(lg))
    && (forall i :: 0 <= i < |chain| ==> Reserved(lg) <= chain[i] < Count(lg))
    && (forall i :: 0 <= i < |chain| ==> Holds(s.words, At(chain[i], lg), Link(chain, i + 1, Count(lg))))
    && (forall i, j :: 0 <= i < j < |chain| ==> chain[i] != chain[j])
  }

  predicate Holds(words: seq<int>, at: nat, v: int) {
    at < |words| && words[at] == v
  }

  lemma {:induction false} VisitsChain(s: Slab, lg: Log, chain: seq<nat>, k: nat)
    requires Threaded(s, lg, chain) && k <= |chain|
    ensures Visit(s, lg, k) == Link(chain, k, Count(lg))
  {
    hide Count, At, Reserved;
    if k > 0 {
      VisitsChain(s, lg, chain, k - 1);
      assert Holds(s.words, At(chain[k - 1], lg), Link(chain, k - 1 + 1, Count(lg)));
    }
  }

  lemma ThreadedIsSound(s: Slab, lg: Log, chain: seq<nat>)
    requires Threaded(s, lg, chain)
    ensures Sound(s, lg) && Chain(s, lg) == chain
  {
    hide Count, At, Reserved;
    forall k: nat | k <= |chain| ensures Visit(s, lg, k) == Link(chain, k, Count(lg)) {
      VisitsChain(s, lg, chain, k);
    }
    assert |Chain(s, lg)| == |chain|;
    forall k | 0 <= k < |chain| ensures Chain(s, lg)[k] == chain[k] {
      assert Visit(s, lg, k) == Link(chain, k, Count(lg));
    }
  }

  ghost function Chain(s: Slab, lg: Log): seq<nat>
    requires Sound(s, lg)
  {
    seq(s.nfree, k requires 0 <= k < s.nfree => Visit(s, lg, k) as nat)
  }

  lemma SoundIsThreaded(s: Slab, lg: Log)
    requires Sound(s, lg)
    ensures Threaded(s, lg, Chain(s, lg))
  {
    hide Count, At, Reserved;
    var c := Chain(s, lg);
    forall i | 0 <= i < |c| ensures Holds(s.words, At(c[i], lg), Link(c, i + 1, Count(lg))) {
      ObjectInPage(c[i], lg);
      Geometry(lg);
      assert Visit(s, lg, i + 1) == s.words[At(Visit(s, lg, i), lg)];
    }
    forall i, j | 0 <= i < j < |c| ensures c[i] != c[j] {
      assert Visit(s, lg, i) != Visit(s, lg, j);
    }
  }

  // ---- Who has the objects ----

  ghost function Live(s: Slab, lg: Log): (r: set<nat>)
    requires Sound(s, lg)
    ensures forall j :: j in r ==> Reserved(lg) <= j < Count(lg)
  {
    set j: nat | j < Count(lg) && Reserved(lg) <= j && j !in Chain(s, lg)
  }

  ghost function Elements(c: seq<nat>): set<nat> {
    set x | x in c
  }

  lemma {:induction false} DistinctElements(c: seq<nat>)
    requires forall i, j :: 0 <= i < j < |c| ==> c[i] != c[j]
    ensures |Elements(c)| == |c|
  {
    if c != [] {
      DistinctElements(c[1..]);
      assert Elements(c) == {c[0]} + Elements(c[1..]);
      assert c[0] !in Elements(c[1..]);
    }
  }

  ghost function Span(a: nat, b: nat): (r: set<nat>)
    ensures forall x: nat :: x in r <==> a <= x < b
    ensures |r| == if a <= b then b - a else 0
  {
    if a >= b then {} else Span(a, b - 1) + {b - 1}
  }

  /** Every object of a page is free, live, or reserved. */
  lemma Accounting(s: Slab, lg: Log)
    requires Sound(s, lg)
    ensures |Live(s, lg)| + s.nfree + Reserved(lg) == Count(lg)
  {
    SoundIsThreaded(s, lg);
    Geometry(lg);
    hide Count, At, Visit, Sound, Reserved, Words, Span, Link, Holds;
    var c := Chain(s, lg);
    DistinctElements(c);
    FreeAndLive(s, lg);
  }

  lemma FreeAndLive(s: Slab, lg: Log)
    requires Sound(s, lg)
    ensures Live(s, lg) !! Elements(Chain(s, lg))
    ensures Live(s, lg) + Elements(Chain(s, lg)) == Span(Reserved(lg), Count(lg))
  {
    SoundIsThreaded(s, lg);
    hide Count, At, Visit, Sound, Reserved, Words, Link, Holds, Chain;
    forall x: nat ensures x in Live(s, lg) + Elements(Chain(s, lg)) <==> Reserved(lg) <= x < Count(lg) {
    }
  }

  // ---- The three ways a page changes ----

  /** An object is taken off the free list. */
  function Popped(s: Slab, lg: Log): (t: Slab)
    requires Sound(s, lg) && s.nfree > 0
    ensures |t.words| == PAGE_WORDS && s.free < Count(lg)
  {
    Visited(s, lg); ObjectInPage(s.free, lg); Geometry(lg);
    Slab(s.words[At(s.free, lg) := 0], s.words[At(s.free, lg)], s.nfree - 1)
  }

  lemma Visited(s: Slab, lg: Log)
    requires Sound(s, lg) && s.nfree > 0
    ensures Reserved(lg) <= s.free < Count(lg)
  {
    assert Visit(s, lg, 0) == s.free;
  }

  /** Object `j` is put back. */
  function Pushed(s: Slab, lg: Log, j: nat): Slab
    requires |s.words| == PAGE_WORDS && j < Count(lg)
  {
    ObjectInPage(j, lg); Geometry(lg);
    Slab(s.words[At(j, lg) := s.free], j, s.nfree + 1)
  }

  /** The owner of object `j` writes its word `k`. */
  function Stored(s: Slab, lg: Log, j: nat, k: nat, v: int): Slab
    requires |s.words| == PAGE_WORDS && j < Count(lg) && k < Words(lg)
  {
    ObjectInPage(j, lg);
    s.(words := s.words[At(j, lg) + k := v])
  }

  lemma OtherObject(i: nat, j: nat, lg: Log)
    requires i != j
    ensures At(i, lg) + Words(lg) <= At(j, lg) || At(j, lg) + Words(lg) <= At(i, lg)
  {
    ObjectsApart(if i < j then i else j, if i < j then j else i, lg);
  }

  /** A change of words inside objects off the free list leaves the list alone. */
  lemma StillHolds(s: Slab, lg: Log, chain: seq<nat>, j: nat, k: nat, v: int)
    requires Threaded(s, lg, chain) && j < Count(lg) && k < Words(lg) && j !in chain
    requires At(j, lg) + k < |s.words|
    ensures forall i :: 0 <= i < |chain| ==>
              Holds(s.words[At(j, lg) + k := v], At(chain[i], lg), Link(chain, i + 1, Count(lg)))
  {
    hide Count, At, Words, Reserved;
    forall i | 0 <= i < |chain|
      ensures Holds(s.words[At(j, lg) + k := v], At(chain[i], lg), Link(chain, i + 1, Count(lg)))
    {
      assert Holds(s.words, At(chain[i], lg), Link(chain, i + 1, Count(lg)));
      OtherObject(chain[i], j, lg);
    }
  }

  lemma PoppedThreads(s: Slab, lg: Log, c: seq<nat>)
    requires Sound(s, lg) && s.nfree > 0 && Threaded(s, lg, c) && c != [] && s.free == c[0]
    ensures Threaded(Popped(s, lg), lg, c[1..])
  {
    hide Count, At, Words, Reserved, Visit, Sound;
    Visited(s, lg);
    Geometry(lg);
    ObjectInPage(s.free, lg);
    var d := c[1..];
    assert Holds(s.words, At(c[0], lg), Link(c, 0 + 1, Count(lg)));
    assert Link(d, 0, Count(lg)) == Link(c, 1, Count(lg));
    var t := Popped(s, lg);
    forall i | 0 <= i < |d| ensures Holds(t.words, At(d[i], lg), Link(d, i + 1, Count(lg))) {
      assert Holds(s.words, At(c[i + 1], lg), Link(c, i + 1 + 1, Count(lg)));
      OtherObject(c[i + 1], c[0], lg);
    }
  }

  lemma FewerFree(s: Slab, t: Slab, lg: Log, j: nat)
    requires Sound(s, lg) && Sound(t, lg) && Chain(s, lg) == [j] + Chain(t, lg)
    requires Reserved(lg) <= j < Count(lg) && j !in Chain(t, lg)
    ensures Live(t, lg) == Live(s, lg) + {j} && j !in Live(s, lg)
  {
    hide Sound, Chain, Count, Reserved;
  }

  /** Allocation takes the head of the list. */
  lemma PopThreaded(s: Slab, lg: Log)
    requires Sound(s, lg) && s.nfree > 0
    ensures Sound(Popped(s, lg), lg)
    ensures s.free == Chain(s, lg)[0] && Chain(Popped(s, lg), lg) == Chain(s, lg)[1..]
    ensures Live(Popped(s, lg), lg) == Live(s, lg) + {s.free as nat} && s.free !in Live(s, lg)
  {
    SoundIsThreaded(s, lg);
    Visited(s, lg);
    var c := Chain(s, lg);
    hide Count, At, Words, Reserved, Visit, Popped, Chain;
    PoppedThreads(s, lg, c);
    ThreadedIsSound(Popped(s, lg), lg, c[1..]);
    assert c == [c[0]] + c[1..];
    FewerFree(s, Popped(s, lg), lg, s.free);
  }

  /** Freeing a live object puts it at the head of the list. */
  lemma PushThreaded(s: Slab, lg: Log, j: nat)
    requires Sound(s, lg) && j in Live(s, lg)
    ensures Sound(Pushed(s, lg, j), lg) && s.nfree < Count(lg)
    ensures Chain(Pushed(s, lg, j), lg) == [j] + Chain(s, lg)
    ensures Live(Pushed(s, lg, j), lg) == Live(s, lg) - {j}
  {
    Accounting(s, lg);
    hide Count, At, Words, Reserved, Visit;
    SoundIsThreaded(s, lg);
    Geometry(lg);
    ObjectInPage(j, lg);
    PushedThreads(s, lg, j, Chain(s, lg));
    ThreadedIsSound(Pushed(s, lg, j), lg, [j] + Chain(s, lg));
  }

  lemma PushedThreads(s: Slab, lg: Log, j: nat, c: seq<nat>)
    requires Threaded(s, lg, c) && Reserved(lg) <= j < Count(lg) && j !in c
    ensures Threaded(Pushed(s, lg, j), lg, [j] + c)
  {
    hide Count, At, Words, Reserved;
    Geometry(lg);
    ObjectInPage(j, lg);
    var d := [j] + c;
    var t := Pushed(s, lg, j);
    StillHolds(s, lg, c, j, 0, s.free);
    forall i | 0 <= i < |d| ensures Holds(t.words, At(d[i], lg), Link(d, i + 1, Count(lg))) {
      if i > 0 {
        assert Holds(t.words, At(c[i - 1], lg), Link(c, i - 1 + 1, Count(lg)));
      }
    }
  }

  /** Owners may write what they like in live objects. */
  lemma StoreThreaded(s: Slab, lg: Log, j: nat, k: nat, v: int)
    requires Sound(s, lg) && j in Live(s, lg) && k < Words(lg)
    ensures Sound(Stored(s, lg, j, k, v), lg)
    ensures Chain(Stored(s, lg, j, k, v), lg) == Chain(s, lg) && Live(Stored(s, lg, j, k, v), lg) == Live(s, lg)
  {
    hide Count, At, Words, Reserved, Visit;
    SoundIsThreaded(s, lg);
    ObjectInPage(j, lg);
    StillHolds(s, lg, Chain(s, lg), j, k, v);
    ThreadedIsSound(Stored(s, lg, j, k, v), lg, Chain(s, lg));
  }

  /** Freeing what was just allocated restores the page and the header bit for bit. */
  lemma PushUndoesPop(s: Slab, lg: Log)
    requires Sound(s, lg) && s.nfree > 0
    ensures 0 <= s.free < Count(lg) && |Popped(s, lg).words| == PAGE_WORDS
    ensures Pushed(Popped(s, lg), lg, s.free) == s
  {
    hide Count, At, Visit;
    Visited(s, lg);
    Geometry(lg);
    ObjectInPage(s.free, lg);
    var a := At(s.free, lg);
    assert s.words[a := 0][a := s.words[a]] == s.words;
  }

  /** Allocating after a free hands the same object out again, its first word zeroed. */
  lemma PopUndoesPush(s: Slab, lg: Log, j: nat)
    requires Sound(s, lg) && j in Live(s, lg)
    ensures Sound(Pushed(s, lg, j), lg) && Pushed(s, lg, j).free == j
    ensures At(j, lg) < PAGE_WORDS && Popped(Pushed(s, lg, j), lg) == s.(words := s.words[At(j, lg) := 0])
  {
    PushThreaded(s, lg, j);
    hide Count, At, Visit, Sound;
    Geometry(lg);
    ObjectInPage(j, lg);
  }

  // ---- Set-up ----

  /** The links written by the set-up loop, from the first object that is not reserved. */
  ghost predicate SetUp(s: Slab, lg: Log) {
    && |s.words| == PAGE_WORDS && s.free == Reserved(lg) && s.nfree == Count(lg) - Reserved(lg)
    && forall i: nat :: Reserved(lg) <= i < Count(lg) ==> Holds(s.words, At(i, lg), i + 1)
  }

  lemma SetUpIsSound(s: Slab, lg: Log)
    requires SetUp(s, lg)
    ensures Sound(s, lg) && Live(s, lg) == {}
  {
    hide Count, At, Visit;
    Geometry(lg);
    var r := Reserved(lg);
    var c := seq(Count(lg) - r, i requires 0 <= i < Count(lg) - r => (r + i) as nat);
    forall i | 0 <= i < |c| ensures Holds(s.words, At(c[i], lg), Link(c, i + 1, Count(lg))) {
      assert Holds(s.words, At(r + i, lg), r + i + 1);
    }
    ThreadedIsSound(s, lg, c);
    forall j: nat | r <= j < Count(lg) ensures j in c {
      assert c[j - r] == j;
    }
  }
}
