/** One cache of equal objects: its slabs, and the three lists they move between.
    The steps of allocation, release and use, and what holds over all their runs. */
module SlubSpec {
  import opened Sequences
  import opened Shift
  import opened SlabSpec

  /** The lists of a cache: slabs with no, some, or only free objects. */
  datatype Home = Busy | Part | Free

  datatype Cache<Id(==)> = Cache(busy: seq<Id>, part: seq<Id>, free: seq<Id>, slabs: map<Id, Slab>) {
    function On(h: Home): seq<Id> {
      match h case Busy => busy case Part => part case Free => free
    }
  }

  function HomeOf(s: Slab, lg: Log): Home {
    if s.nfree == 0 then Busy else if s.nfree == Count(lg) then Free else Part
  }

  ghost predicate ListsOk<Id>(c: Cache<Id>, lg: Log) {
    && (forall h: Home :: Distinct(c.On(h)))
    && (forall h: Home, i :: i in c.On(h) ==> i in c.slabs)
    && (forall h: Home, i :: i in c.slabs ==> (i in c.On(h) <==> HomeOf(c.slabs[i], lg) == h))
  }

  ghost predicate Inv<Id>(c: Cache<Id>, lg: Log) {
    ListsOk(c, lg) && forall i :: i in c.slabs ==> Sound(c.slabs[i], lg)
  }

  lemma SlabOk<Id>(c: Cache<Id>, lg: Log, i: Id)
    requires Inv(c, lg) && i in c.slabs
    ensures Sound(c.slabs[i], lg) && 0 <= c.slabs[i].nfree <= Count(lg)
  {
    Accounting(c.slabs[i], lg);
  }

  // ---- Lists ----

  function RemoveFirst<T(==)>(l: seq<T>, x: T): seq<T> {
    if l == [] then [] else if l[0] == x then l[1..] else [l[0]] + RemoveFirst(l[1..], x)
  }

  lemma {:induction false} RemoveFirstIn<T>(l: seq<T>, x: T)
    requires Distinct(l)
    ensures Distinct(RemoveFirst(l, x))
    ensures forall y :: y in RemoveFirst(l, x) <==> y in l && y != x
    ensures x !in l ==> RemoveFirst(l, x) == l
  {
    if l != [] {
      var t := l[1..];
      RemoveFirstIn(t, x);
      assert l == [l[0]] + t;
      assert l[0] !in t;
      hide RemoveFirst;
    }
  }

  lemma FrontDistinct<T>(x: T, l: seq<T>)
    requires Distinct(l) && x !in l
    ensures Distinct([x] + l) && Distinct(l + [x])
  {
  }

  /** `list_del`: off the list it is on. */
  function Unlinked<Id(==)>(c: Cache<Id>, i: Id): Cache<Id> {
    c.(busy := RemoveFirst(c.busy, i), part := RemoveFirst(c.part, i), free := RemoveFirst(c.free, i))
  }

  /** `list_add`: to the front of a list. */
  function Linked<Id(==)>(c: Cache<Id>, i: Id, h: Home): Cache<Id> {
    match h
    case Busy => c.(busy := [i] + c.busy)
    case Part => c.(part := [i] + c.part)
    case Free => c.(free := [i] + c.free)
  }

  /** Slab `i` becomes `s`, and moves to the front of its new list if that is another one. */
  function Settled<Id(==)>(c: Cache<Id>, lg: Log, i: Id, s: Slab): (e: Cache<Id>)
    requires i in c.slabs
    ensures e.slabs == c.slabs[i := s]
  {
    var d := c.(slabs := c.slabs[i := s]);
    if HomeOf(c.slabs[i], lg) == HomeOf(s, lg) then d else Linked(Unlinked(d, i), i, HomeOf(s, lg))
  }

  lemma SettledOk<Id>(c: Cache<Id>, lg: Log, i: Id, s: Slab)
    requires Inv(c, lg) && i in c.slabs && Sound(s, lg)
    ensures Inv(Settled(c, lg, i, s), lg)
  {
    hide RemoveFirst, Distinct, Sound, HomeOf;
    var e := Settled(c, lg, i, s);
    forall h: Home ensures Distinct(e.On(h)) {
      RemoveFirstIn(c.On(h), i);
      FrontDistinct(i, RemoveFirst(c.On(h), i));
    }
    forall h: Home, y ensures y in e.On(h) <==> y in e.slabs && HomeOf(e.slabs[y], lg) == h {
      RemoveFirstIn(c.On(h), i);
      assert y in c.On(h) ==> y in c.slabs;
      assert y in c.slabs ==> (y in c.On(h) <==> HomeOf(c.slabs[y], lg) == h);
      assert i in c.On(h) <==> HomeOf(c.slabs[i], lg) == h;
    }
    assert ListsOk(e, lg);
  }

  /** A slab that changes lists goes to the front of the new one; no other slab moves. */
  lemma MovesToFront<Id>(c: Cache<Id>, lg: Log, i: Id, s: Slab, h: Home)
    requires Inv(c, lg) && i in c.slabs
    ensures var e := Settled(c, lg, i, s);
            e.On(h) == if HomeOf(c.slabs[i], lg) == HomeOf(s, lg) then c.On(h)
                       else if h == HomeOf(s, lg) then [i] + c.On(h) else RemoveFirst(c.On(h), i)
  {
    hide Sound, Count, RemoveFirst, Distinct;
    forall g: Home ensures i !in c.On(g) ==> RemoveFirst(c.On(g), i) == c.On(g) {
      RemoveFirstIn(c.On(g), i);
    }
    assert i in c.On(HomeOf(s, lg)) <==> HomeOf(c.slabs[i], lg) == HomeOf(s, lg);
  }

  // ---- Steps ----

  /** Where allocation looks: partly used slabs first. */
  function Candidates<Id>(c: Cache<Id>): seq<Id> {
    if c.part == [] then c.free else c.part
  }

  lemma CandidateHasFree<Id>(c: Cache<Id>, lg: Log)
    requires Inv(c, lg) && Candidates(c) != []
    ensures var i := Candidates(c)[0]; i in c.slabs && c.slabs[i].nfree > 0 && Sound(c.slabs[i], lg)
  {
    Geometry(lg);
    var i := Candidates(c)[0];
    assert i in c.On(if c.part == [] then Free else Part);
  }

  /** Allocation fails to find a free object only if there is none. */
  lemma NoCandidateNoFree<Id>(c: Cache<Id>, lg: Log)
    requires Inv(c, lg)
    ensures Candidates(c) == [] <==> forall i :: i in c.slabs ==> c.slabs[i].nfree == 0
  {
    if Candidates(c) != [] {
      CandidateHasFree(c, lg);
    } else {
      forall i | i in c.slabs ensures c.slabs[i].nfree == 0 {
        assert i !in c.On(Free) && i !in c.On(Part);
      }
    }
  }

  function Allocated<Id(==)>(c: Cache<Id>, lg: Log): Cache<Id>
    requires Inv(c, lg) && Candidates(c) != []
  {
    CandidateHasFree(c, lg);
    var i := Candidates(c)[0];
    Settled(c, lg, i, Popped(c.slabs[i], lg))
  }

  function Freed<Id(==)>(c: Cache<Id>, lg: Log, i: Id, j: nat): Cache<Id>
    requires Inv(c, lg) && i in c.slabs && j in Live(c.slabs[i], lg)
  {
    Settled(c, lg, i, Pushed(c.slabs[i], lg, j))
  }

  /** A new slab goes to the tail of its list. */
  function Grown<Id(==)>(c: Cache<Id>, lg: Log, i: Id, s: Slab): Cache<Id> {
    var d := c.(slabs := c.slabs[i := s]);
    if lg == 4 then d.(part := c.part + [i]) else d.(free := c.free + [i])
  }

  /** What the world does to a cache.  A call of `kmalloc` brings a new slab along, which is used only if
      no old one has a free object. */
  datatype Step<Id> = Kmalloc(id: Id, page: Slab) | Kfree(id: Id, obj: nat) | Store(id: Id, obj: nat, k: nat, v: int)

  /** The cache, and the objects handed out and not yet given back. */
  datatype State<Id(==)> = State(c: Cache<Id>, live: set<(Id, nat)>)

  ghost predicate StateInv<Id>(st: State<Id>, lg: Log) {
    && Inv(st.c, lg)
    && (forall o :: o in st.live ==> o.0 in st.c.slabs)
    && (forall i, j: nat :: i in st.c.slabs ==> ((i, j) in st.live <==> j in Live(st.c.slabs[i], lg)))
  }

  ghost predicate Enabled<Id>(st: State<Id>, lg: Log, a: Step<Id>) {
    Inv(st.c, lg) &&
    match a
    // The set-up of a 16-byte slab needs a 16-byte object: the code refuses to grow that cache here.
    case Kmalloc(id, page) => Candidates(st.c) == [] ==> lg != 4 && id !in st.c.slabs && SetUp(page, lg)
    case Kfree(id, j) => (id, j) in st.live && id in st.c.slabs && j in Live(st.c.slabs[id], lg)
    case Store(id, j, k, _) => (id, j) in st.live && id in st.c.slabs && j < Count(lg) && k < Words(lg)
  }

  ghost function Ready<Id>(c: Cache<Id>, lg: Log, a: Step<Id>): (d: Cache<Id>)
    requires a.Kmalloc? && Inv(c, lg)
    requires Candidates(c) == [] ==> lg != 4 && a.id !in c.slabs && SetUp(a.page, lg)
    ensures Inv(d, lg) && Candidates(d) != []
  {
    if Candidates(c) == [] then GrownOk(c, lg, a.id, a.page); Grown(c, lg, a.id, a.page) else c
  }

  /** The object a call of `kmalloc` returns. */
  ghost function Result<Id>(c: Cache<Id>, lg: Log, a: Step<Id>): (Id, nat)
    requires a.Kmalloc? && Inv(c, lg)
    requires Candidates(c) == [] ==> lg != 4 && a.id !in c.slabs && SetUp(a.page, lg)
  {
    var d := Ready(c, lg, a);
    CandidateHasFree(d, lg);
    Visited(d.slabs[Candidates(d)[0]], lg);
    (Candidates(d)[0], d.slabs[Candidates(d)[0]].free as nat)
  }

  ghost function Next<Id>(st: State<Id>, lg: Log, a: Step<Id>): State<Id>
    requires Enabled(st, lg, a)
  {
    match a
    case Kmalloc(_, _) => State(Allocated(Ready(st.c, lg, a), lg), st.live + {Result(st.c, lg, a)})
    case Kfree(i, j) => State(Freed(st.c, lg, i, j), st.live - {(i, j)})
    case Store(i, j, k, v) => st.(c := st.c.(slabs := st.c.slabs[i := Stored(st.c.slabs[i], lg, j, k, v)]))
  }

  // ---- Every step keeps the invariant ----

  lemma GrownOk<Id>(c: Cache<Id>, lg: Log, i: Id, s: Slab)
    requires Inv(c, lg) && i !in c.slabs && SetUp(s, lg)
    ensures Inv(Grown(c, lg, i, s), lg) && Candidates(Grown(c, lg, i, s)) != []
    ensures Sound(s, lg) && Live(s, lg) == {}
  {
    SetUpIsSound(s, lg);
    Geometry(lg);
    hide Sound, Distinct, Count;
    assert HomeOf(s, lg) == if lg == 4 then Part else Free;
    var d := Grown(c, lg, i, s);
    forall h: Home, y ensures y in d.On(h) <==> y in d.slabs && HomeOf(d.slabs[y], lg) == h {
      assert y in c.On(h) ==> y in c.slabs;
      assert y in c.slabs ==> (y in c.On(h) <==> HomeOf(c.slabs[y], lg) == h);
    }
    forall h: Home ensures i !in c.On(h) {
    }
    forall h: Home ensures Distinct(Grown(c, lg, i, s).On(h)) {
      FrontDistinct(i, c.On(h));
    }
  }

  lemma AllocatedOk<Id>(c: Cache<Id>, lg: Log, live: set<(Id, nat)>)
    requires StateInv(State(c, live), lg) && Candidates(c) != []
    ensures var i := Candidates(c)[0];
            && i in c.slabs && 0 <= c.slabs[i].free
            && (i, c.slabs[i].free as nat) !in live
            && StateInv(State(Allocated(c, lg), live + {(i, c.slabs[i].free as nat)}), lg)
  {
    CandidateHasFree(c, lg);
    var i := Candidates(c)[0];
    PopThreaded(c.slabs[i], lg);
    Visited(c.slabs[i], lg);
    SettledOk(c, lg, i, Popped(c.slabs[i], lg));
    hide Inv, Sound, Popped, Live, HomeOf, RemoveFirst;
  }

  lemma FreedOk<Id>(c: Cache<Id>, lg: Log, live: set<(Id, nat)>, i: Id, j: nat)
    requires StateInv(State(c, live), lg) && (i, j) in live
    ensures i in c.slabs && StateInv(State(Freed(c, lg, i, j), live - {(i, j)}), lg)
  {
    PushThreaded(c.slabs[i], lg, j);
    SettledOk(c, lg, i, Pushed(c.slabs[i], lg, j));
    hide Inv, Sound, Pushed, Live, HomeOf, RemoveFirst;
  }

  lemma StoreOk<Id>(st: State<Id>, lg: Log, a: Step<Id>)
    requires StateInv(st, lg) && Enabled(st, lg, a) && a.Store?
    ensures StateInv(Next(st, lg, a), lg)
  {
    var s := st.c.slabs[a.id];
    StoreThreaded(s, lg, a.obj, a.k, a.v);
    SettledOk(st.c, lg, a.id, Stored(s, lg, a.obj, a.k, a.v));
    hide Inv, Sound, Live, RemoveFirst;
  }

  lemma NextInv<Id>(st: State<Id>, lg: Log, a: Step<Id>)
    requires StateInv(st, lg) && Enabled(st, lg, a)
    ensures StateInv(Next(st, lg, a), lg)
    ensures a.Kmalloc? ==> Result(st.c, lg, a) !in st.live
  {
    match a {
      case Kmalloc(id, page) =>
        var d := Ready(st.c, lg, a);
        if Candidates(st.c) == [] {
          GrownOk(st.c, lg, id, page);
        }
        hide Inv, Live, Sound;
        assert StateInv(State(d, st.live), lg);
        AllocatedOk(d, lg, st.live);
      case Kfree(i, j) => FreedOk(st.c, lg, st.live, i, j);
      case Store(_, _, _, _) => StoreOk(st, lg, a);
    }
  }

  // ---- Runs ----

  ghost predicate Possible<Id>(st: State<Id>, lg: Log, steps: seq<Step<Id>>)
    decreases |steps|
  {
    steps == [] || (Enabled(st, lg, steps[0]) && Possible(Next(st, lg, steps[0]), lg, steps[1..]))
  }

  ghost function Run<Id>(st: State<Id>, lg: Log, steps: seq<Step<Id>>): State<Id>
    requires Possible(st, lg, steps)
    decreases |steps|
  {
    if steps == [] then st else Run(Next(st, lg, steps[0]), lg, steps[1..])
  }

  lemma {:induction false} RunInv<Id>(st: State<Id>, lg: Log, steps: seq<Step<Id>>)
    requires StateInv(st, lg) && Possible(st, lg, steps)
    ensures StateInv(Run(st, lg, steps), lg)
    decreases |steps|
  {
    hide StateInv, Next, Enabled;
    if steps != [] {
      NextInv(st, lg, steps[0]);
      RunInv(Next(st, lg, steps[0]), lg, steps[1..]);
    }
  }

  /** Set-up gives a cache one slab. */
  function Initial<Id(==)>(lg: Log, i: Id, s: Slab): State<Id> {
    State(Grown(Cache([], [], [], map[]), lg, i, s), {})
  }

  lemma ReachableInv<Id>(lg: Log, i0: Id, s0: Slab, steps: seq<Step<Id>>)
    requires SetUp(s0, lg) && Possible(Initial(lg, i0, s0), lg, steps)
    ensures StateInv(Run(Initial(lg, i0, s0), lg, steps), lg)
  {
    hide Run, Possible;
    GrownOk(Cache([], [], [], map[]), lg, i0, s0);
    assert StateInv(Initial(lg, i0, s0), lg);
    RunInv(Initial(lg, i0, s0), lg, steps);
  }

  /** Over every run of allocations, releases and writes by owners: each free list visits exactly
      `nfree` distinct free objects and ends; free, live and reserved objects add up; each slab is on
      the list its count names and on no other; and the objects not on a free list are the live ones. */
  lemma SlabSafety<Id>(lg: Log, i0: Id, s0: Slab, steps: seq<Step<Id>>)
    requires SetUp(s0, lg) && Possible(Initial(lg, i0, s0), lg, steps)
    ensures var st := Run(Initial(lg, i0, s0), lg, steps);
            && (forall h: Home :: Distinct(st.c.On(h)))
            && forall i :: i in st.c.slabs ==>
                 var s := st.c.slabs[i];
                 && Sound(s, lg)
                 && |Live(s, lg)| + s.nfree + Reserved(lg) == Count(lg)
                 && (forall h: Home :: i in st.c.On(h) <==> h == HomeOf(s, lg))
                 && (forall j: nat :: (i, j) in st.live <==> j in Live(s, lg))
  {
    ReachableInv(lg, i0, s0, steps);
    hide Initial;
    var st := Run(Initial(lg, i0, s0), lg, steps);
    forall i | i in st.c.slabs ensures |Live(st.c.slabs[i], lg)| + st.c.slabs[i].nfree + Reserved(lg) == Count(lg) {
      Accounting(st.c.slabs[i], lg);
    }
    hide Sound, Live, Count, Reserved;
  }

  /** An allocation, in any state a run can reach, returns an object nobody has. */
  lemma KmallocReturnsNoLiveObject<Id>(lg: Log, i0: Id, s0: Slab, steps: seq<Step<Id>>, a: Step<Id>)
    requires SetUp(s0, lg) && Possible(Initial(lg, i0, s0), lg, steps)
    requires a.Kmalloc? && Enabled(Run(Initial(lg, i0, s0), lg, steps), lg, a)
    ensures Result(Run(Initial(lg, i0, s0), lg, steps).c, lg, a) !in Run(Initial(lg, i0, s0), lg, steps).live
  {
    ReachableInv(lg, i0, s0, steps);
    hide Initial, StateInv;
    NextInv(Run(Initial(lg, i0, s0), lg, steps), lg, a);
  }

  /** An allocation uses a wholly free slab only if none is partly used, and a new one only if no slab has a free
      object. */
  lemma PartlyUsedFirst<Id>(c: Cache<Id>, lg: Log, a: Step<Id>)
    requires a.Kmalloc? && Inv(c, lg)
    requires Candidates(c) == [] ==> lg != 4 && a.id !in c.slabs && SetUp(a.page, lg)
    ensures var i := Result(c, lg, a).0;
            && (i !in c.slabs <==> forall x :: x in c.slabs ==> c.slabs[x].nfree == 0)
            && (i in c.slabs ==> c.slabs[i].nfree > 0)
            && (i in c.slabs && c.slabs[i].nfree == Count(lg) ==>
                  forall x :: x in c.slabs ==> c.slabs[x].nfree == 0 || c.slabs[x].nfree == Count(lg))
  {
    NoCandidateNoFree(c, lg);
    if Candidates(c) != [] {
      CandidateHasFree(c, lg);
      var i := Candidates(c)[0];
      assert i in c.On(if c.part == [] then Free else Part);
      forall x | x in c.slabs && c.part == [] ensures c.slabs[x].nfree == 0 || c.slabs[x].nfree == Count(lg) {
        assert x !in c.On(Part);
      }
    } else {
      GrownOk(c, lg, a.id, a.page);
      OnlyTheNew(c, lg, a.id, a.page);
    }
    hide Count, Sound, Distinct;
  }

  lemma OnlyTheNew<Id>(c: Cache<Id>, lg: Log, i: Id, s: Slab)
    requires Candidates(c) == [] && lg != 4
    ensures Candidates(Grown(c, lg, i, s)) == [i]
  {
  }

  /** Over every run: of a 16-byte slab, objects 0 to 8 are never handed out; of any other, each object that is
      handed out is one of the page's. */
  lemma HeadersAreKept<Id>(lg: Log, i0: Id, s0: Slab, steps: seq<Step<Id>>)
    requires SetUp(s0, lg) && Possible(Initial(lg, i0, s0), lg, steps)
    ensures var st := Run(Initial(lg, i0, s0), lg, steps);
            forall i, j: nat :: (i, j) in st.live ==> (if lg == 4 then 9 else 0) <= j < PAGE_SIZE / Pow2(lg)
  {
    hide StateInv, Run, Possible, Initial, SetUp, Count, Pow2;
    ReachableInv(lg, i0, s0, steps);
    LiveInRange(Run(Initial(lg, i0, s0), lg, steps), lg);
  }

  lemma LiveInRange<Id>(st: State<Id>, lg: Log)
    requires StateInv(st, lg)
    ensures forall i, j: nat :: (i, j) in st.live ==> (if lg == 4 then 9 else 0) <= j < PAGE_SIZE / Pow2(lg)
  {
    Objects(lg);
    hide Count, Pow2, ListsOk, Chain;
    forall i, j: nat | (i, j) in st.live ensures (if lg == 4 then 9 else 0) <= j < PAGE_SIZE / Pow2(lg) {
      assert (i, j).0 in st.c.slabs;
      assert j in Live(st.c.slabs[i], lg);
    }
  }

  /** The words of an object. */
  ghost function ObjectWords(s: Slab, lg: Log, j: nat): seq<int>
    requires |s.words| == PAGE_WORDS && j < Count(lg)
  {
    ObjectInPage(j, lg);
    s.words[At(j, lg)..At(j, lg) + Words(lg)]
  }

  lemma UpdateElsewhere(s: Slab, lg: Log, j: nat, m: nat, k: nat, v: int)
    requires |s.words| == PAGE_WORDS && j < Count(lg) && m < Count(lg) && m != j && k < Words(lg)
    requires At(m, lg) + k < PAGE_WORDS
    ensures ObjectWords(s.(words := s.words[At(m, lg) + k := v]), lg, j) == ObjectWords(s, lg, j)
  {
    hide Words, Count, At;
    OtherObject(j, m, lg);
    ObjectInPage(j, lg);
  }

  lemma PageKeeps<Id>(st: State<Id>, lg: Log, i: Id, j: nat, m: nat, k: nat, v: int)
    requires StateInv(st, lg) && (i, j) in st.live && m < Count(lg) && m != j && k < Words(lg)
    ensures |st.c.slabs[i].words| == PAGE_WORDS && j < Count(lg) && At(m, lg) + k < PAGE_WORDS
    ensures var s := st.c.slabs[i];
            ObjectWords(s.(words := s.words[At(m, lg) + k := v]), lg, j) == ObjectWords(s, lg, j)
  {
    hide Words, Count, At, ObjectWords, Chain, ListsOk;
    ObjectInPage(m, lg);
    UpdateElsewhere(st.c.slabs[i], lg, j, m, k, v);
  }

  lemma ObjectWordsOf(s: Slab, t: Slab, lg: Log, j: nat)
    requires |s.words| == PAGE_WORDS && j < Count(lg) && s.words == t.words
    ensures ObjectWords(s, lg, j) == ObjectWords(t, lg, j)
  {
  }

  lemma ReadyKeeps<Id>(st: State<Id>, lg: Log, a: Step<Id>, i: Id, j: nat)
    requires StateInv(st, lg) && Enabled(st, lg, a) && a.Kmalloc? && (i, j) in st.live
    ensures StateInv(State(Ready(st.c, lg, a), st.live), lg)
    ensures i in st.c.slabs && i in Ready(st.c, lg, a).slabs && Ready(st.c, lg, a).slabs[i] == st.c.slabs[i]
  {
    if Candidates(st.c) == [] {
      GrownOk(st.c, lg, a.id, a.page);
    }
    hide Inv, Live, Sound;
  }

  lemma SettledKeeps<Id>(st: State<Id>, lg: Log, i: Id, j: nat, x: Id, m: nat, k: nat, v: int, t: Slab)
    requires StateInv(st, lg) && (i, j) in st.live && x in st.c.slabs
    requires m < Count(lg) && k < Words(lg) && (x, m) != (i, j)
    requires At(m, lg) + k < |st.c.slabs[x].words| && t.words == st.c.slabs[x].words[At(m, lg) + k := v]
    ensures i in st.c.slabs && j < Count(lg) && |st.c.slabs[i].words| == PAGE_WORDS
    ensures x == i ==> |t.words| == PAGE_WORDS && ObjectWords(t, lg, j) == ObjectWords(st.c.slabs[i], lg, j)
  {
    if x == i {
      PageKeeps(st, lg, i, j, m, k, v);
      var s := st.c.slabs[i];
      hide Words, Count, At, ObjectWords, StateInv;
      ObjectWordsOf(t, s.(words := s.words[At(m, lg) + k := v]), lg, j);
    }
  }

  /** No step but a store to it changes the words of an object that stays live. */
  lemma LiveObjectsKeepTheirWords<Id>(st: State<Id>, lg: Log, a: Step<Id>, i: Id, j: nat)
    requires StateInv(st, lg) && Enabled(st, lg, a)
    requires (i, j) in st.live && (i, j) in Next(st, lg, a).live
    requires a.Store? ==> (i, j) != (a.id, a.obj)
    ensures var d := Next(st, lg, a).c;
            && i in st.c.slabs && i in d.slabs && j < Count(lg)
            && |st.c.slabs[i].words| == PAGE_WORDS && |d.slabs[i].words| == PAGE_WORDS
            && ObjectWords(d.slabs[i], lg, j) == ObjectWords(st.c.slabs[i], lg, j)
  {
    Geometry(lg);
    match a {
      case Kmalloc(_, _) => AllocationKeeps(st, lg, a, i, j);
      case Kfree(x, f) =>
        var t := Pushed(st.c.slabs[x], lg, f);
        hide Count, At, Words, Live, Sound, Settled, ObjectWords, ListsOk;
        ObjectInPage(f, lg);
        SettledKeeps(st, lg, i, j, x, f, 0, st.c.slabs[x].free, t);
      case Store(x, f, k, v) =>
        var t := Stored(st.c.slabs[x], lg, f, k, v);
        hide Count, At, Words, Live, Sound, Settled, ObjectWords, ListsOk;
        ObjectInPage(f, lg);
        SettledKeeps(st, lg, i, j, x, f, k, v, t);
    }
  }

  lemma AllocationKeeps<Id>(st: State<Id>, lg: Log, a: Step<Id>, i: Id, j: nat)
    requires StateInv(st, lg) && Enabled(st, lg, a) && a.Kmalloc? && (i, j) in st.live
    ensures var d := Next(st, lg, a).c;
            && i in st.c.slabs && i in d.slabs && j < Count(lg)
            && |st.c.slabs[i].words| == PAGE_WORDS && |d.slabs[i].words| == PAGE_WORDS
            && ObjectWords(d.slabs[i], lg, j) == ObjectWords(st.c.slabs[i], lg, j)
  {
    ReadyKeeps(st, lg, a, i, j);
    NextInv(st, lg, a);
    Geometry(lg);
    var r := Ready(st.c, lg, a);
    var (x, f) := Result(st.c, lg, a);
    CandidateHasFree(r, lg);
    var t := Popped(r.slabs[x], lg);
    hide Count, At, Words, Live, Sound, Settled, ObjectWords, StateInv, ListsOk;
    Visited(r.slabs[x], lg);
    ObjectInPage(f, lg);
    SettledKeeps(State(r, st.live), lg, i, j, x, f, 0, 0, t);
  }
}
