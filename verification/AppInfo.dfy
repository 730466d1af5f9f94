/** The per-thread info stacks and memory records of jni/openssl/crypto/mem_dbg.c: reference
    counted nodes shared between stacks and records. The heap of nodes is an explicit map, so
    that a freed node is one that is no longer there. */
module AppInfo {

  import opened Basics

  type Thread = nat
  type Ref = nat    // address of an APP_INFO
  type Addr = nat   // address of a user allocation

  /** APP_INFO; text stands for file, line and info. */
  datatype Node = Node(thread: Thread, text: string, next: Option<Ref>, references: int)

  /** MEM; the recorded thread and time are left out. */
  datatype Record = Record(num: int, order: nat, appInfo: Option<Ref>)

  type Heap = map<Ref, Node>

  // ----- references -----

  function Tops(tops: map<Thread, Ref>, a: Ref): set<Thread> {
    set t | t in tops && tops[t] == a
  }

  function Users(mem: map<Addr, Record>, a: Ref): set<Addr> {
    set p | p in mem && mem[p].appInfo == Some(a)
  }

  function Preds(heap: Heap, a: Ref): set<Ref> {
    set b | b in heap && heap[b].next == Some(a)
  }

  /** How many pointers there are to a node. */
  function Pointers(heap: Heap, tops: map<Thread, Ref>, mem: map<Addr, Record>, a: Ref): nat {
    |Tops(tops, a)| + |Users(mem, a)| + |Preds(heap, a)|
  }

  /** No pointer leads outside the heap. */
  ghost predicate Closed(heap: Heap, tops: map<Thread, Ref>, mem: map<Addr, Record>) {
    && (forall t :: t in tops ==> tops[t] in heap)
    && (forall p :: p in mem && mem[p].appInfo.Some? ==> mem[p].appInfo.value in heap)
    && (forall b :: b in heap && heap[b].next.Some? ==> heap[b].next.value in heap)
  }

  /** Every count is exact, except that `extra` still counts one pointer that is gone. */
  ghost predicate Exact(heap: Heap, tops: map<Thread, Ref>, mem: map<Addr, Record>, extra: Option<Ref>) {
    Closed(heap, tops, mem) &&
    forall a :: a in heap ==>
      heap[a].references == Pointers(heap, tops, mem, a) + if extra == Some(a) then 1 else 0
  }

  /** A stack's nodes belong to its thread, and links lead to nodes of lower rank. */
  ghost predicate Stacked(heap: Heap, tops: map<Thread, Ref>, rank: map<Ref, nat>) {
    && (forall t :: t in tops && tops[t] in heap ==> heap[tops[t]].thread == t)
    && (forall b :: b in heap ==> b in rank)
    && (forall b :: b in heap && heap[b].next.Some? && heap[b].next.value in heap ==>
          heap[heap[b].next.value].thread == heap[b].thread && rank[heap[b].next.value] < rank[b])
  }

  /** No node is left with a count of zero. */
  ghost predicate Tidy(heap: Heap) {
    forall a :: a in heap ==> heap[a].references >= 1
  }

  lemma TopsAtMostOne(heap: Heap, tops: map<Thread, Ref>, rank: map<Ref, nat>, a: Ref)
    requires Stacked(heap, tops, rank) && a in heap
    ensures |Tops(tops, a)| <= 1
  {
    if t :| t in Tops(tops, a) {
      assert Tops(tops, a) == {t};
    }
  }

  // ----- what a chain of nodes says -----

  /** The texts from a node down its links. */
  ghost function Chain(heap: Heap, rank: map<Ref, nat>, r: Option<Ref>): seq<string>
    decreases if r.Some? && r.value in rank then rank[r.value] + 1 else 0
  {
    if r.None? || r.value !in heap || r.value !in rank then []
    else
      var next := heap[r.value].next;
      [heap[r.value].text] +
      (if next.Some? && next.value in rank && rank[next.value] < rank[r.value] then Chain(heap, rank, next) else [])
  }

  /** Nodes may go and counts may change: what remains reachable reads the same. */
  lemma {:induction false} ChainFrame(heap: Heap, heap': Heap, rank: map<Ref, nat>, rank': map<Ref, nat>,
                                      r: Option<Ref>)
    requires r.Some? ==> r.value in heap'
    requires forall a :: a in heap' ==>
      a in heap && a in rank && a in rank' && rank'[a] == rank[a] && heap'[a].next == heap[a].next &&
        heap'[a].text == heap[a].text
    requires forall a :: a in heap' && heap'[a].next.Some? ==> heap'[a].next.value in heap'
    ensures Chain(heap', rank', r) == Chain(heap, rank, r)
    decreases if r.Some? && r.value in rank then rank[r.value] + 1 else 0
  {
    if r.Some? {
      var next := heap[r.value].next;
      if next.Some? && rank[next.value] < rank[r.value] { ChainFrame(heap, heap', rank, rank', next); }
    }
  }

  // ----- how single changes move the counts -----

  function SetRefs(heap: Heap, a: Ref, n: int): Heap
    requires a in heap
  {
    heap[a := heap[a].(references := n)]
  }

  /** Changing a count changes no pointer. */
  lemma SetRefsPointers(heap: Heap, a: Ref, n: int, b: Ref)
    requires a in heap
    ensures Preds(SetRefs(heap, a, n), b) == Preds(heap, b)
  {}

  lemma DropExtra(heap: Heap, tops: map<Thread, Ref>, mem: map<Addr, Record>, a: Ref)
    requires a in heap && Exact(heap, tops, mem, Some(a))
    ensures Exact(SetRefs(heap, a, heap[a].references - 1), tops, mem, None)
  {
    forall b { SetRefsPointers(heap, a, heap[a].references - 1, b); }
  }

  lemma PredsWithout(heap: Heap, a: Ref, b: Ref)
    requires a in heap
    ensures |Preds(heap - {a}, b)| == |Preds(heap, b)| - if heap[a].next == Some(b) then 1 else 0
  {
    assert Preds(heap - {a}, b) == Preds(heap, b) - {a};
  }

  /** A node with count zero is unreachable, and removing it leaves its successor one count over. */
  lemma RemoveUnused(heap: Heap, tops: map<Thread, Ref>, mem: map<Addr, Record>, a: Ref)
    requires a in heap && Exact(heap, tops, mem, None) && heap[a].references == 0
    ensures Exact(heap - {a}, tops, mem, heap[a].next)
    ensures heap[a].next.Some? ==> heap[a].next.value in heap - {a}
  {
    assert Tops(tops, a) == {} && Users(mem, a) == {} && Preds(heap, a) == {};
    forall t | t in tops ensures tops[t] in heap - {a} { assert t !in Tops(tops, a); }
    forall p | p in mem && mem[p].appInfo.Some? ensures mem[p].appInfo.value in heap - {a} {
      assert p !in Users(mem, a);
    }
    forall b | b in heap && heap[b].next.Some? ensures heap[b].next.value in heap - {a} { assert b !in Preds(heap, a); }
    forall b | b in heap - {a} { PredsWithout(heap, a, b); }
  }

  lemma StackedRefs(heap: Heap, tops: map<Thread, Ref>, rank: map<Ref, nat>, a: Ref, n: int)
    requires a in heap && Stacked(heap, tops, rank)
    ensures Stacked(SetRefs(heap, a, n), tops, rank)
  {}

  lemma StackedWithout(heap: Heap, tops: map<Thread, Ref>, rank: map<Ref, nat>, a: Ref)
    requires a in heap && Stacked(heap, tops, rank)
    ensures Stacked(heap - {a}, tops, rank)
    ensures a in rank
    ensures heap[a].next.Some? && heap[a].next.value in heap ==>
              heap[a].next.value in rank && rank[heap[a].next.value] < rank[a]
  {}

  function One(b: bool): nat {
    if b then 1 else 0
  }

  lemma TopsPut(tops: map<Thread, Ref>, t: Thread, n: Ref, a: Ref)
    ensures |Tops(tops[t := n], a)| + One(t in tops && tops[t] == a) == |Tops(tops, a)| + One(n == a)
  {
    var others := Tops(tops, a) - {t};
    assert Tops(tops[t := n], a) == if n == a then others + {t} else others;
    assert Tops(tops, a) == if t in tops && tops[t] == a then others + {t} else others;
  }

  lemma TopsDrop(tops: map<Thread, Ref>, t: Thread, a: Ref)
    requires t in tops
    ensures |Tops(tops - {t}, a)| + One(tops[t] == a) == |Tops(tops, a)|
  {
    assert Tops(tops - {t}, a) == Tops(tops, a) - {t};
  }

  lemma UsersPut(mem: map<Addr, Record>, p: Addr, r: Record, a: Ref)
    requires p !in mem
    ensures |Users(mem[p := r], a)| == |Users(mem, a)| + One(r.appInfo == Some(a))
  {
    if r.appInfo == Some(a) { assert Users(mem[p := r], a) == Users(mem, a) + {p}; }
    else { assert Users(mem[p := r], a) == Users(mem, a); }
  }

  lemma UsersDrop(mem: map<Addr, Record>, p: Addr, a: Ref)
    requires p in mem
    ensures |Users(mem - {p}, a)| + One(mem[p].appInfo == Some(a)) == |Users(mem, a)|
  {
    assert Users(mem - {p}, a) == Users(mem, a) - {p};
  }

  lemma PredsPut(heap: Heap, n: Ref, node: Node, a: Ref)
    requires n !in heap
    ensures |Preds(heap[n := node], a)| == |Preds(heap, a)| + One(node.next == Some(a))
  {
    if node.next == Some(a) { assert Preds(heap[n := node], a) == Preds(heap, a) + {n}; }
    else { assert Preds(heap[n := node], a) == Preds(heap, a); }
  }

  /** Nothing points to an address outside a closed heap. */
  lemma Unreferenced(heap: Heap, tops: map<Thread, Ref>, mem: map<Addr, Record>, n: Ref)
    requires Closed(heap, tops, mem) && n !in heap
    ensures Pointers(heap, tops, mem, n) == 0
  {
    assert Tops(tops, n) == {} && Users(mem, n) == {} && Preds(heap, n) == {};
  }

  lemma PushCount(heap: Heap, tops: map<Thread, Ref>, mem: map<Addr, Record>, t: Thread, n: Ref, node: Node, a: Ref)
    requires Exact(heap, tops, mem, None) && n !in heap && (a in heap || a == n)
    requires node.references == 1 && node.next == if t in tops then Some(tops[t]) else None
    ensures heap[n := node][a].references == Pointers(heap[n := node], tops[t := n], mem, a)
  {
    Unreferenced(heap, tops, mem, n);
    hide Tops, Users, Preds;
    TopsPut(tops, t, n, a);
    PredsPut(heap, n, node, a);
  }

  /** A new top node takes over the pointer that its thread's entry had to the old top. */
  lemma PushExact(heap: Heap, tops: map<Thread, Ref>, mem: map<Addr, Record>, t: Thread, n: Ref, node: Node)
    requires Exact(heap, tops, mem, None) && n !in heap
    requires node.references == 1 && node.next == if t in tops then Some(tops[t]) else None
    ensures Exact(heap[n := node], tops[t := n], mem, None)
  {
    var heap', tops' := heap[n := node], tops[t := n];
    assert Closed(heap', tops', mem);
    hide Pointers;
    forall a | a in heap' ensures heap'[a].references == Pointers(heap', tops', mem, a) {
      PushCount(heap, tops, mem, t, n, node, a);
    }
  }

  /** Dropping a thread's entry leaves the old top one count over. */
  lemma PopLast(heap: Heap, tops: map<Thread, Ref>, mem: map<Addr, Record>, t: Thread)
    requires Exact(heap, tops, mem, None) && t in tops
    ensures Exact(heap, tops - {t}, mem, Some(tops[t]))
  {
    hide Tops, Users, Preds;
    forall a | a in heap { TopsDrop(tops, t, a); }
  }

  /** Moving a thread's entry to the next node, whose count goes up. */
  lemma PopToNext(heap: Heap, tops: map<Thread, Ref>, mem: map<Addr, Record>, t: Thread, n: Ref)
    requires Exact(heap, tops, mem, None) && t in tops && n in heap && n != tops[t]
    ensures Exact(SetRefs(heap, n, heap[n].references + 1), tops[t := n], mem, Some(tops[t]))
  {
    hide Tops, Users, Preds;
    forall a | a in heap { TopsPut(tops, t, n, a); }
    forall a | a in heap { SetRefsPointers(heap, n, heap[n].references + 1, a); }
  }

  /** Dropping a record leaves its node one count over. */
  lemma DropRecord(heap: Heap, tops: map<Thread, Ref>, mem: map<Addr, Record>, p: Addr)
    requires Exact(heap, tops, mem, None) && p in mem
    ensures Exact(heap, tops, mem - {p}, mem[p].appInfo)
  {
    hide Tops, Users, Preds;
    forall a | a in heap { UsersDrop(mem, p, a); }
  }

  lemma AddPlainRecord(heap: Heap, tops: map<Thread, Ref>, mem: map<Addr, Record>, p: Addr, r: Record)
    requires Exact(heap, tops, mem, None) && p !in mem && r.appInfo.None?
    ensures Exact(heap, tops, mem[p := r], None)
  {
    hide Tops, Users, Preds;
    forall a | a in heap { UsersPut(mem, p, r, a); }
  }

  /** A new record adds a pointer to its node, whose count goes up. */
  lemma AddRecord(heap: Heap, tops: map<Thread, Ref>, mem: map<Addr, Record>, p: Addr, r: Record)
    requires Exact(heap, tops, mem, None) && p !in mem && r.appInfo.Some? && r.appInfo.value in heap
    ensures Exact(SetRefs(heap, r.appInfo.value, heap[r.appInfo.value].references + 1), tops, mem[p := r], None)
  {
    hide Tops, Users, Preds;
    var n := r.appInfo.value;
    forall a | a in heap { UsersPut(mem, p, r, a); }
    forall a | a in heap { SetRefsPointers(heap, n, heap[n].references + 1, a); }
  }

  /** The node that a record moved from p to q takes away from another record at q. */
  function Orphaned(mem: map<Addr, Record>, p: Addr, q: Addr): Option<Ref> {
    if q != p && q in mem then mem[q].appInfo else None
  }

  lemma MoveRecord(heap: Heap, tops: map<Thread, Ref>, mem: map<Addr, Record>, p: Addr, q: Addr, r: Record)
    requires Exact(heap, tops, mem, None) && p in mem && r.appInfo == mem[p].appInfo
    ensures Exact(heap, tops, (mem - {p})[q := r], Orphaned(mem, p, q))
  {
    hide Tops, Users, Preds;
    var rest := mem - {p} - {q};
    assert (mem - {p})[q := r] == rest[q := r];
    forall a | a in heap ensures |Users(rest[q := r], a)| + One(Orphaned(mem, p, q) == Some(a)) == |Users(mem, a)| {
      UsersDrop(mem, p, a);
      if q in mem - {p} { UsersDrop(mem - {p}, q, a); } else { assert rest == mem - {p}; }
      UsersPut(rest, q, r, a);
    }
  }

  /** Counts cannot be exact both with and without an extra reference. */
  lemma ExtraMatters(heap: Heap, tops: map<Thread, Ref>, mem: map<Addr, Record>, a: Ref)
    requires Exact(heap, tops, mem, Some(a)) && a in heap
    ensures !Exact(heap, tops, mem, None)
  {}

  // ----- what the threads and the records see -----

  ghost predicate Sound(heap: Heap, tops: map<Thread, Ref>, mem: map<Addr, Record>, rank: map<Ref, nat>) {
    Exact(heap, tops, mem, None) && Stacked(heap, tops, rank)
  }

  ghost function StackOf(heap: Heap, tops: map<Thread, Ref>, rank: map<Ref, nat>, t: Thread): seq<string> {
    Chain(heap, rank, if t in tops then Some(tops[t]) else None)
  }

  /** The same nodes or fewer, with other counts. */
  ghost predicate Shrunk(heap: Heap, heap': Heap) {
    heap'.Keys <= heap.Keys && forall a :: a in heap' ==> heap'[a] == heap[a].(references := heap'[a].references)
  }

  lemma ShrunkChain(heap: Heap, heap': Heap, tops: map<Thread, Ref>, mem: map<Addr, Record>, rank: map<Ref, nat>,
                    r: Option<Ref>)
    requires Shrunk(heap, heap') && Sound(heap', tops, mem, rank) && (r.Some? ==> r.value in heap')
    ensures Chain(heap', rank, r) == Chain(heap, rank, r)
  {
    ChainFrame(heap, heap', rank, rank, r);
  }

  /** What is still there reads as before. */
  lemma ShrunkViews(heap: Heap, heap': Heap, tops: map<Thread, Ref>, mem: map<Addr, Record>, rank: map<Ref, nat>)
    requires Shrunk(heap, heap') && Sound(heap', tops, mem, rank)
    ensures forall t: Thread :: StackOf(heap', tops, rank, t) == StackOf(heap, tops, rank, t)
    ensures forall p :: p in mem ==> Chain(heap', rank, mem[p].appInfo) == Chain(heap, rank, mem[p].appInfo)
  {
    forall t: Thread ensures StackOf(heap', tops, rank, t) == StackOf(heap, tops, rank, t) {
      ShrunkChain(heap, heap', tops, mem, rank, if t in tops then Some(tops[t]) else None);
    }
    forall p | p in mem ensures Chain(heap', rank, mem[p].appInfo) == Chain(heap, rank, mem[p].appInfo) {
      ShrunkChain(heap, heap', tops, mem, rank, mem[p].appInfo);
    }
  }

  lemma PushStacked(heap: Heap, tops: map<Thread, Ref>, rank: map<Ref, nat>, t: Thread, n: Ref, node: Node)
    requires Stacked(heap, tops, rank) && n !in heap && (t in tops ==> tops[t] in heap)
    requires forall u :: u in tops ==> tops[u] != n
    requires forall b :: b in heap ==> heap[b].next != Some(n)
    requires node.thread == t && node.next == if t in tops then Some(tops[t]) else None
    ensures t in tops ==> tops[t] in rank
    ensures Stacked(heap[n := node], tops[t := n], rank[n := if t in tops then rank[tops[t]] + 1 else 0])
  {
    assert t in tops ==> tops[t] in rank;
  }

  /** A pushed node keeps the store sound. */
  lemma PushSound(heap: Heap, tops: map<Thread, Ref>, mem: map<Addr, Record>, rank: map<Ref, nat>, t: Thread, n: Ref,
                  node: Node)
    requires Sound(heap, tops, mem, rank) && n !in heap
    requires node.thread == t && node.references == 1 && node.next == if t in tops then Some(tops[t]) else None
    ensures t in tops ==> tops[t] in rank
    ensures Sound(heap[n := node], tops[t := n], mem, rank[n := if t in tops then rank[tops[t]] + 1 else 0])
  {
    hide Pointers, Stacked;
    PushExact(heap, tops, mem, t, n, node);
    PushStacked(heap, tops, rank, t, n, node);
  }

  lemma PushViews(heap: Heap, tops: map<Thread, Ref>, mem: map<Addr, Record>, rank: map<Ref, nat>, t: Thread, n: Ref,
                  node: Node, rank': map<Ref, nat>)
    requires Sound(heap, tops, mem, rank) && n !in heap
    requires node.next == if t in tops then Some(tops[t]) else None
    requires t in tops ==> tops[t] in rank
    requires rank' == rank[n := if t in tops then rank[tops[t]] + 1 else 0]
    ensures StackOf(heap[n := node], tops[t := n], rank', t) == [node.text] + StackOf(heap, tops, rank, t)
    ensures forall u: Thread :: u != t ==>
              StackOf(heap[n := node], tops[t := n], rank', u) == StackOf(heap, tops, rank, u)
    ensures forall p :: p in mem ==> Chain(heap[n := node], rank', mem[p].appInfo) == Chain(heap, rank, mem[p].appInfo)
  {
    var heap', tops' := heap[n := node], tops[t := n];
    ChainFrame(heap', heap, rank', rank, node.next);
    forall u: Thread | u != t ensures StackOf(heap', tops', rank', u) == StackOf(heap, tops, rank, u) {
      ChainFrame(heap', heap, rank', rank, if u in tops then Some(tops[u]) else None);
    }
    forall p | p in mem ensures Chain(heap', rank', mem[p].appInfo) == Chain(heap, rank, mem[p].appInfo) {
      ChainFrame(heap', heap, rank', rank, mem[p].appInfo);
    }
  }

  /** The table entry of a thread moved from its top node to the next. */
  function PoppedEntry(heap: Heap, tops: map<Thread, Ref>, t: Thread): (Heap, map<Thread, Ref>)
    requires t in tops && tops[t] in heap
    requires heap[tops[t]].next.Some? ==> heap[tops[t]].next.value in heap
  {
    var next := heap[tops[t]].next;
    if next.None? then (heap, tops - {t})
    else (SetRefs(heap, next.value, heap[next.value].references + 1), tops[t := next.value])
  }

  /** The node below the top is another node of the same thread. */
  lemma NextBelow(heap: Heap, tops: map<Thread, Ref>, mem: map<Addr, Record>, rank: map<Ref, nat>, t: Thread)
    requires Sound(heap, tops, mem, rank) && t in tops
    ensures tops[t] in heap
    ensures heap[tops[t]].next.Some? ==> heap[tops[t]].next.value in heap && heap[tops[t]].next.value != tops[t] &&
                                         heap[heap[tops[t]].next.value].thread == t
  {
    hide Pointers;
  }

  /** After pop_info moved the entry, the old top counts one pointer too many and no other does. */
  lemma PopSound(heap: Heap, tops: map<Thread, Ref>, mem: map<Addr, Record>, rank: map<Ref, nat>, t: Thread)
    requires Sound(heap, tops, mem, rank) && t in tops
    requires tops[t] in heap
    requires heap[tops[t]].next.Some? ==> heap[tops[t]].next.value in heap && heap[tops[t]].next.value != tops[t]
    ensures var (h, ts) := PoppedEntry(heap, tops, t);
            Exact(h, ts, mem, Some(tops[t])) && Shrunk(heap, h)
  {
    hide Exact;
    var next := heap[tops[t]].next;
    if next.None? { PopLast(heap, tops, mem, t); } else { PopToNext(heap, tops, mem, t, next.value); }
  }

  lemma PopStacked(heap: Heap, tops: map<Thread, Ref>, mem: map<Addr, Record>, rank: map<Ref, nat>, t: Thread)
    requires Stacked(heap, tops, rank) && t in tops
    requires tops[t] in heap && (heap[tops[t]].next.Some? ==> heap[tops[t]].next.value in heap)
    ensures var (h, ts) := PoppedEntry(heap, tops, t); Stacked(h, ts, rank)
  {
    var next := heap[tops[t]].next;
    if next.None? {} else {}
  }

  lemma PopViews(heap: Heap, tops: map<Thread, Ref>, mem: map<Addr, Record>, rank: map<Ref, nat>, t: Thread)
    requires Sound(heap, tops, mem, rank) && t in tops
    requires tops[t] in heap && (heap[tops[t]].next.Some? ==> heap[tops[t]].next.value in heap)
    ensures var tops' := PoppedEntry(heap, tops, t).1;
            StackOf(heap, tops, rank, t) == [heap[tops[t]].text] + StackOf(heap, tops', rank, t) &&
            forall u: Thread :: u != t ==> StackOf(heap, tops', rank, u) == StackOf(heap, tops, rank, u)
  {
    hide Exact;
  }

  // ----- the store -----

  /** The tables amih and mh, the APP_INFO nodes, and the request counter. */
  class Store {
    var heap: Heap
    var tops: map<Thread, Ref>
    var mem: map<Addr, Record>
    var order: nat
    ghost var rank: map<Ref, nat>

    ghost predicate Valid()
      reads this
    {
      Sound(heap, tops, mem, rank)
    }

    /** The info stack of a thread, top first. */
    ghost function Stack(t: Thread): seq<string>
      reads this
    {
      StackOf(heap, tops, rank, t)
    }

    /** The info a record keeps. */
    ghost function Info(p: Addr): seq<string>
      reads this
      requires p in mem
    {
      Chain(heap, rank, mem[p].appInfo)
    }

    constructor ()
      ensures Valid() && Tidy(heap) && heap == map[] && tops == map[] && mem == map[]
    {
      heap, tops, mem, order, rank := map[], map[], map[], 0, map[];
    }

    /** app_info_free; `dying` are the callers' nodes, whose counts are zero and which nothing refers to. */
    method AppInfoFree(a: Ref, ghost dying: set<Ref>)
      requires a in heap && a in rank && a !in dying && dying <= heap.Keys
      requires Exact(heap - dying, tops, mem, Some(a)) && Stacked(heap - dying, tops, rank)
      modifies this`heap
      ensures heap.Keys <= old(heap.Keys) && dying <= heap.Keys
      ensures forall b :: b in heap ==> heap[b] == old(heap)[b].(references := heap[b].references)
      ensures Exact(heap - dying, tops, mem, None) && Stacked(heap - dying, tops, rank)
      ensures old(Tidy(heap - dying)) ==> Tidy(heap - dying)
      decreases rank[a]
    {
      hide Exact, Stacked;
      ghost var live := heap - dying;
      DropExtra(live, tops, mem, a);
      StackedRefs(live, tops, rank, a, heap[a].references - 1);
      heap := SetRefs(heap, a, heap[a].references - 1);
      assert heap - dying == SetRefs(live, a, heap[a].references);
      if heap[a].references <= 0 {
        live := heap - dying;
        ZeroCount(live, tops, mem, a);
        RemoveUnused(live, tops, mem, a);
        StackedWithout(live, tops, rank, a);
        assert heap - (dying + {a}) == live - {a};
        if heap[a].next.Some? {
          AppInfoFree(heap[a].next.value, dying + {a});
        }
        assert (heap - {a}) - dying == heap - (dying + {a});
        heap := heap - {a};
      }
    }

    /** CRYPTO_push_info_; `node` is what OPENSSL_malloc returned and `tableOk` whether lh_new
        succeeded if it had to be called. The code never sets its result to anything but 0. */
    method PushInfo(on: bool, t: Thread, text: string, node: Option<Ref>, tableOk: bool) returns (ret: int)
      requires Valid() && (node.Some? ==> node.value !in heap)
      modifies this`heap, this`tops, this`rank
      ensures Valid() && ret == 0
      ensures old(Tidy(heap)) ==> Tidy(heap)
      ensures Stack(t) == if on && node.Some? && tableOk then [text] + old(Stack(t)) else old(Stack(t))
      ensures forall u :: u != t ==> Stack(u) == old(Stack(u))
      ensures forall p :: p in mem ==> Info(p) == old(Info(p))
    {
      hide Sound, StackOf, Chain;
      ret := 0;
      if on {
        if node.None? || !tableOk {
          return;
        }
        var n := node.value;
        var ami := Node(t, text, if t in tops then Some(tops[t]) else None, 1);
        PushSound(heap, tops, mem, rank, t, n, ami);
        ghost var rank' := rank[n := if t in tops then rank[tops[t]] + 1 else 0];
        PushViews(heap, tops, mem, rank, t, n, ami, rank');
        heap, tops, rank := heap[n := ami], tops[t := n], rank';
      }
    }

    /** pop_info: the thread's top node leaves its stack, and goes if nothing else refers to it. */
    method PopInfo(t: Thread) returns (found: bool)
      requires Valid()
      modifies this`heap, this`tops
      ensures Valid() && found == (old(Stack(t)) != [])
      ensures old(Tidy(heap)) ==> Tidy(heap)
      ensures Stack(t) == if found then old(Stack(t))[1..] else []
      ensures forall u :: u != t ==> Stack(u) == old(Stack(u))
      ensures forall p :: p in mem ==> Info(p) == old(Info(p))
    {
      hide Sound, StackOf, Chain, Exact, Stacked, Shrunk;
      StackEmpty(heap, tops, mem, rank, t);
      found := t in tops;
      if found {
        var r := tops[t];
        NextBelow(heap, tops, mem, rank, t);
        PopSound(heap, tops, mem, rank, t);
        assert Stacked(heap, tops, rank) by { SoundStacked(heap, tops, mem, rank); }
        PopStacked(heap, tops, mem, rank, t);
        PopViews(heap, tops, mem, rank, t);
        ghost var before := heap;
        var next := heap[r].next;
        if next.Some? {
          var n := next.value;
          heap := SetRefs(heap, n, heap[n].references + 1);
          tops := (tops - {t})[heap[n].thread := n];
          assert tops == old(tops)[t := n];
        } else {
          tops := tops - {t};
        }
        ReleaseTop(r, t, before);
        ShrunkViews(before, heap, tops, mem, rank);
      }
    }

    /** The end of pop_info: the count of the popped node drops, and at zero the node goes. */
    method ReleaseTop(r: Ref, t: Thread, ghost before: Heap)
      requires r in heap && Exact(heap, tops, mem, Some(r)) && Stacked(heap, tops, rank) && Shrunk(before, heap)
      requires heap[r].next.Some? ==> t in tops && tops[t] == heap[r].next.value
      modifies this`heap
      ensures Valid() && Shrunk(before, heap)
      ensures old(Tidy(heap)) ==> Tidy(heap)
    {
      hide Exact, Stacked;
      DropExtra(heap, tops, mem, r);
      StackedRefs(heap, tops, rank, r, heap[r].references - 1);
      heap := SetRefs(heap, r, heap[r].references - 1);
      ZeroCount(heap, tops, mem, r);
      if heap[r].references <= 0 {
        RemoveUnused(heap, tops, mem, r);
        StackedWithout(heap, tops, rank, r);
        var next := heap[r].next;
        heap := heap - {r};
        if next.Some? {
          var n := next.value;
          DropExtra(heap, tops, mem, n);
          StackedRefs(heap, tops, rank, n, heap[n].references - 1);
          heap := SetRefs(heap, n, heap[n].references - 1);
          TopCounted(heap, tops, mem, t);
        }
      }
    }

    /** CRYPTO_pop_info */
    method CryptoPopInfo(on: bool, t: Thread) returns (ret: bool)
      requires Valid()
      modifies this`heap, this`tops
      ensures Valid() && ret == (on && old(Stack(t)) != [])
      ensures old(Tidy(heap)) ==> Tidy(heap)
      ensures Stack(t) == if ret then old(Stack(t))[1..] else old(Stack(t))
      ensures forall u :: u != t ==> Stack(u) == old(Stack(u))
      ensures forall p :: p in mem ==> Info(p) == old(Info(p))
    {
      ret := false;
      if on {
        ret := PopInfo(t);
      }
    }

    /** CRYPTO_remove_all_info: pops until the stack is empty and counts. */
    method RemoveAllInfo(on: bool, t: Thread) returns (ret: nat)
      requires Valid()
      modifies this`heap, this`tops
      ensures Valid() && ret == if on then |old(Stack(t))| else 0
      ensures old(Tidy(heap)) ==> Tidy(heap)
      ensures Stack(t) == if on then [] else old(Stack(t))
      ensures forall u :: u != t ==> Stack(u) == old(Stack(u))
      ensures forall p :: p in mem ==> Info(p) == old(Info(p))
    {
      hide Sound, StackOf, Chain;
      ret := 0;
      if on {
        var more := PopInfo(t);
        while more
          invariant Valid() && more == (ret < |old(Stack(t))|)
          invariant old(Tidy(heap)) ==> Tidy(heap)
          invariant ret <= |old(Stack(t))| && Stack(t) == old(Stack(t))[if more then ret + 1 else ret..]
          invariant forall u :: u != t ==> Stack(u) == old(Stack(u))
          invariant forall p :: p in mem ==> Info(p) == old(Info(p))
          decreases |old(Stack(t))| - ret
        {
          ret := ret + 1;
          more := PopInfo(t);
        }
      }
    }

    /** The record at this address is all that keeps its node, and the new record will not: replacing it leaks the
        node. */
    predicate LastUser(t: Thread, addr: Addr)
      reads this`heap, this`mem, this`tops
    {
      addr in mem && mem[addr].appInfo.Some? && mem[addr].appInfo.value in heap &&
      heap[mem[addr].appInfo.value].references == 1 && !(t in tops && Some(tops[t]) == mem[addr].appInfo)
    }

    /** CRYPTO_dbg_malloc; `recordOk` and `tableOk` say whether OPENSSL_malloc of the record and
        lh_new of the table succeeded. A live address is possible only if its free was not seen. */
    method DbgMalloc(on: bool, t: Thread, addr: Addr, num: int, beforeP: int, recordOk: bool, tableOk: bool)
      requires Valid()
      modifies this`heap, this`mem, this`order
      ensures Valid()
      ensures old(Tidy(heap)) ==>
                (Tidy(heap) <==> !(Recorded(on, addr, beforeP, recordOk && tableOk) && old(LastUser(t, addr))))
      ensures forall u: Thread :: Stack(u) == old(Stack(u))
      ensures mem.Keys == old(mem).Keys +
                if on && addr != 0 && beforeP % 128 == 1 && recordOk && tableOk then {addr} else {}
      ensures Recorded(on, addr, beforeP, recordOk && tableOk) ==>
                mem[addr].num == num && mem[addr].order == old(order) && order == old(order) + 1 &&
                  Info(addr) == Stack(t)
      ensures forall p :: p in old(mem) && (p != addr || !Recorded(on, addr, beforeP, recordOk && tableOk)) ==>
                p in mem && mem[p] == old(mem)[p] && Info(p) == old(Info(p))
    {
      hide Sound, StackOf, Chain, Exact, Stacked, Tidy;
      if beforeP % 128 == 1 && addr != 0 && on {
        if !recordOk || !tableOk {
          return;
        }
        var m := Record(num, order, if t in tops then Some(tops[t]) else None);
        order := order + 1;
        SoundParts(heap, tops, mem, rank, t);
        PutRecord(t, addr, m);
      }
    }

    /** The end of CRYPTO_dbg_malloc: the counts of the new and of a replaced record's node change. */
    method PutRecord(t: Thread, addr: Addr, m: Record)
      requires Exact(heap, tops, mem, None) && Stacked(heap, tops, rank) && (t in tops ==> tops[t] in heap)
      requires m.appInfo == if t in tops then Some(tops[t]) else None
      modifies this`heap, this`mem
      ensures Valid() && mem == old(mem)[addr := m] && Info(addr) == Stack(t)
      ensures old(Tidy(heap)) ==> (Tidy(heap) <==> !old(LastUser(t, addr)))
      ensures forall u: Thread :: Stack(u) == old(Stack(u))
      ensures forall p :: p in old(mem) && p != addr ==> Info(p) == old(Info(p))
    {
      hide Sound, StackOf, Chain, Exact, Stacked, Shrunk, Tidy;
      if addr in mem && mem[addr].appInfo.Some? {
        RecordNode(heap, tops, mem, rank, addr);
      }
      Recording(heap, tops, mem, rank, addr, m);
      RecordingViews(heap, mem, addr, m);
      if t in tops {
        heap := SetRefs(heap, tops[t], heap[tops[t]].references + 1);
      }
      var mm := if addr in mem then Some(mem[addr]) else None;
      if old(Tidy(heap)) {
        TidyRecord(old(heap), if t in tops then Some(tops[t]) else None, if mm.Some? then mm.value.appInfo else None);
      }
      mem := mem[addr := m];
      if mm.Some? && mm.value.appInfo.Some? {
        var a := mm.value.appInfo.value;
        heap := SetRefs(heap, a, heap[a].references - 1);
      }
      ShrunkViews(old(heap), heap, tops, mem, rank);
      StackOfTop(heap, tops, rank, t);
    }

    /** CRYPTO_dbg_free */
    method DbgFree(on: bool, addr: Addr, beforeP: int)
      requires Valid()
      modifies this`heap, this`mem
      ensures Valid()
      ensures old(Tidy(heap)) ==> Tidy(heap)
      ensures mem == if on && addr != 0 && beforeP == 0 then old(mem) - {addr} else old(mem)
      ensures forall u: Thread :: Stack(u) == old(Stack(u))
      ensures forall p :: p in mem ==> Info(p) == old(Info(p))
    {
      hide Sound, StackOf, Chain, Exact, Stacked;
      if beforeP == 0 && addr != 0 && on && addr in mem {
        var mp := mem[addr];
        SoundParts(heap, tops, mem, rank, 0);
        DropRecord(heap, tops, mem, addr);
        ghost var before := heap;
        mem := mem - {addr};
        assert heap - {} == heap;
        if mp.appInfo.Some? {
          RecordNode(heap, tops, old(mem), rank, addr);
          AppInfoFree(mp.appInfo.value, {});
        }
        assert heap - {} == heap;
        SoundFrom(heap, tops, mem, rank);
        ShrunkViews(before, heap, tops, mem, rank);
      }
    }

    /** CRYPTO_dbg_realloc. The record moves; if another record has the new address, that record goes without its
        reference being given back, so the counts stay exact exactly if it had none. */
    method DbgRealloc(on: bool, t: Thread, addr1: Addr, addr2: Addr, num: int, beforeP: int, recordOk: bool,
                      tableOk: bool)
      requires Valid()
      modifies this`heap, this`mem, this`order
      ensures Valid() <==> !(Relocated(on, addr1, addr2, beforeP, old(mem)) && Orphaned(old(mem), addr1, addr2).Some?)
      ensures old(Tidy(heap)) && !(addr1 == 0 && old(LastUser(t, addr2))) ==> Tidy(heap)
      ensures forall u: Thread :: Stack(u) == old(Stack(u))
      ensures beforeP == 1 && on && addr1 != 0 && addr2 != 0 && addr1 in old(mem) ==>
                mem == (old(mem) - {addr1})[addr2 := old(mem)[addr1].(num := num)] && Info(addr2) == old(Info(addr1))
      ensures beforeP == 1 && on && addr1 == 0 && addr2 != 0 && recordOk && tableOk ==>
                mem.Keys == old(mem).Keys + {addr2} && Info(addr2) == Stack(t)
      ensures beforeP != 1 || addr2 == 0 || !on || (addr1 != 0 && addr1 !in old(mem)) ==>
                mem == old(mem) && forall p :: p in mem ==> Info(p) == old(Info(p))
      ensures forall p :: p in old(mem) && p != addr1 && p != addr2 ==>
                p in mem && mem[p] == old(mem)[p] && Info(p) == old(Info(p))
    {
      hide Sound, StackOf, Chain, Exact, Stacked;
      if beforeP == 1 && addr2 != 0 {
        if addr1 == 0 {
          DbgMalloc(on, t, addr2, num, 128 + beforeP, recordOk, tableOk);
        } else if on && addr1 in mem {
          SoundParts(heap, tops, mem, rank, t);
          MoveRecord(heap, tops, mem, addr1, addr2, mem[addr1].(num := num));
          ghost var lost := Orphaned(mem, addr1, addr2);
          if lost.Some? {
            RecordNode(heap, tops, mem, rank, addr2);
          }
          mem := (mem - {addr1})[addr2 := mem[addr1].(num := num)];
          if lost.Some? {
            ExtraMatters(heap, tops, mem, lost.value);
            NotSound(heap, tops, mem, rank);
          } else {
            SoundFrom(heap, tops, mem, rank);
          }
        }
      }
    }
  }

  /** One more reference for the new record's node, one less for the replaced record's. */
  lemma TidyRecord(heap: Heap, added: Option<Ref>, dropped: Option<Ref>)
    requires (added.Some? ==> added.value in heap) && (dropped.Some? ==> dropped.value in heap) && Tidy(heap)
    ensures var more := if added.Some? then SetRefs(heap, added.value, heap[added.value].references + 1) else heap;
            var less := if dropped.None? then more
                        else SetRefs(more, dropped.value, more[dropped.value].references - 1);
            Tidy(less) <==> !(dropped.Some? && heap[dropped.value].references == 1 && added != dropped)
  {
    var more := if added.Some? then SetRefs(heap, added.value, heap[added.value].references + 1) else heap;
    var less := if dropped.Some? then SetRefs(more, dropped.value, more[dropped.value].references - 1) else more;
    if dropped.Some? && heap[dropped.value].references == 1 && added != dropped {
      assert less[dropped.value].references == 0;
    }
  }

  /** Whether CRYPTO_dbg_realloc gives a record a new address. */
  predicate Relocated(on: bool, addr1: Addr, addr2: Addr, beforeP: int, mem: map<Addr, Record>) {
    beforeP == 1 && addr1 != 0 && addr2 != 0 && on && addr1 in mem
  }

  lemma NotSound(heap: Heap, tops: map<Thread, Ref>, mem: map<Addr, Record>, rank: map<Ref, nat>)
    requires !Exact(heap, tops, mem, None)
    ensures !Sound(heap, tops, mem, rank)
  {}

  /** Whether CRYPTO_dbg_malloc adds a record: memory checking is on and this is the call after the allocation. */
  predicate Recorded(on: bool, addr: Addr, beforeP: int, ok: bool) {
    on && addr != 0 && beforeP % 128 == 1 && ok
  }

  lemma SoundStacked(heap: Heap, tops: map<Thread, Ref>, mem: map<Addr, Record>, rank: map<Ref, nat>)
    requires Sound(heap, tops, mem, rank)
    ensures Stacked(heap, tops, rank)
  {
    hide Stacked, Exact;
  }

  lemma SoundParts(heap: Heap, tops: map<Thread, Ref>, mem: map<Addr, Record>, rank: map<Ref, nat>, t: Thread)
    requires Sound(heap, tops, mem, rank)
    ensures Exact(heap, tops, mem, None) && Stacked(heap, tops, rank)
    ensures t in tops ==> tops[t] in heap
  {}

  lemma SoundFrom(heap: Heap, tops: map<Thread, Ref>, mem: map<Addr, Record>, rank: map<Ref, nat>)
    requires Exact(heap, tops, mem, None) && Stacked(heap, tops, rank)
    ensures Sound(heap, tops, mem, rank)
  {
    hide Stacked, Exact;
  }

  lemma RecordNode(heap: Heap, tops: map<Thread, Ref>, mem: map<Addr, Record>, rank: map<Ref, nat>, p: Addr)
    requires Exact(heap, tops, mem, None) && Stacked(heap, tops, rank) && p in mem && mem[p].appInfo.Some?
    ensures mem[p].appInfo.value in heap && mem[p].appInfo.value in rank
  {
    hide Pointers;
  }

  lemma TopCounted(heap: Heap, tops: map<Thread, Ref>, mem: map<Addr, Record>, t: Thread)
    requires Exact(heap, tops, mem, None) && t in tops
    ensures tops[t] in heap && heap[tops[t]].references >= 1
  {
    assert t in Tops(tops, tops[t]);
  }

  lemma StackOfTop(heap: Heap, tops: map<Thread, Ref>, rank: map<Ref, nat>, t: Thread)
    ensures Chain(heap, rank, if t in tops then Some(tops[t]) else None) == StackOf(heap, tops, rank, t)
  {
    hide Chain;
  }

  /** The counts after a record took the place of another, if there was one. */
  function WithRecord(heap: Heap, mem: map<Addr, Record>, addr: Addr, m: Record): Heap
    requires m.appInfo.Some? ==> m.appInfo.value in heap
    requires addr in mem && mem[addr].appInfo.Some? ==> mem[addr].appInfo.value in heap
  {
    var h := if m.appInfo.Some? then SetRefs(heap, m.appInfo.value, heap[m.appInfo.value].references + 1) else heap;
    if addr in mem && mem[addr].appInfo.Some? then
      SetRefs(h, mem[addr].appInfo.value, h[mem[addr].appInfo.value].references - 1)
    else h
  }

  /** The old record gone, with its count. */
  function Dropped(heap: Heap, mem: map<Addr, Record>, addr: Addr): Heap
    requires addr in mem && mem[addr].appInfo.Some? ==> mem[addr].appInfo.value in heap
  {
    if addr in mem && mem[addr].appInfo.Some? then
      SetRefs(heap, mem[addr].appInfo.value, heap[mem[addr].appInfo.value].references - 1)
    else heap
  }

  lemma DroppedSound(heap: Heap, tops: map<Thread, Ref>, mem: map<Addr, Record>, rank: map<Ref, nat>, addr: Addr)
    requires Exact(heap, tops, mem, None) && Stacked(heap, tops, rank)
    requires addr in mem && mem[addr].appInfo.Some? ==> mem[addr].appInfo.value in heap
    ensures Exact(Dropped(heap, mem, addr), tops, mem - {addr}, None) && Stacked(Dropped(heap, mem, addr), tops, rank)
  {
    hide Exact, Stacked;
    if addr in mem {
      DropRecord(heap, tops, mem, addr);
      if mem[addr].appInfo.Some? {
        var a := mem[addr].appInfo.value;
        DropExtra(heap, tops, mem - {addr}, a);
        StackedRefs(heap, tops, rank, a, heap[a].references - 1);
      }
    } else {
      assert mem - {addr} == mem;
    }
  }

  lemma AddedSound(heap: Heap, tops: map<Thread, Ref>, mem: map<Addr, Record>, rank: map<Ref, nat>, addr: Addr,
                   m: Record)
    requires Exact(heap, tops, mem, None) && Stacked(heap, tops, rank) && addr !in mem
    requires m.appInfo.Some? ==> m.appInfo.value in heap
    ensures var h := WithRecord(heap, mem, addr, m); Exact(h, tops, mem[addr := m], None) && Stacked(h, tops, rank)
  {
    hide Exact, Stacked;
    if m.appInfo.Some? {
      AddRecord(heap, tops, mem, addr, m);
      StackedRefs(heap, tops, rank, m.appInfo.value, heap[m.appInfo.value].references + 1);
    } else {
      AddPlainRecord(heap, tops, mem, addr, m);
    }
  }

  /** Counting the new pointer first, as the code does, gives the same counts. */
  lemma WithRecordOrder(heap: Heap, mem: map<Addr, Record>, addr: Addr, m: Record)
    requires m.appInfo.Some? ==> m.appInfo.value in heap
    requires addr in mem && mem[addr].appInfo.Some? ==> mem[addr].appInfo.value in heap
    ensures WithRecord(heap, mem, addr, m) == WithRecord(Dropped(heap, mem, addr), mem - {addr}, addr, m)
  {}

  lemma RecordingViews(heap: Heap, mem: map<Addr, Record>, addr: Addr, m: Record)
    requires m.appInfo.Some? ==> m.appInfo.value in heap
    requires addr in mem && mem[addr].appInfo.Some? ==> mem[addr].appInfo.value in heap
    ensures Shrunk(heap, WithRecord(heap, mem, addr, m))
    ensures Tidy(heap) && addr !in mem ==> Tidy(WithRecord(heap, mem, addr, m))
  {}

  lemma Recording(heap: Heap, tops: map<Thread, Ref>, mem: map<Addr, Record>, rank: map<Ref, nat>, addr: Addr,
                  m: Record)
    requires Exact(heap, tops, mem, None) && Stacked(heap, tops, rank)
    requires m.appInfo.Some? ==> m.appInfo.value in heap
    requires addr in mem && mem[addr].appInfo.Some? ==> mem[addr].appInfo.value in heap
    ensures Sound(WithRecord(heap, mem, addr, m), tops, mem[addr := m], rank)
  {
    hide Exact, Stacked, WithRecord;
    DroppedSound(heap, tops, mem, rank, addr);
    AddedSound(Dropped(heap, mem, addr), tops, mem - {addr}, rank, addr, m);
    WithRecordOrder(heap, mem, addr, m);
    assert (mem - {addr})[addr := m] == mem[addr := m];
  }

  // ----- nothing leaks -----

  /** The path leads from the top of a stack, or from a record's node, down the links to `a`. */
  ghost predicate Reached(heap: Heap, tops: map<Thread, Ref>, mem: map<Addr, Record>, path: seq<Ref>, a: Ref) {
    if path == [] then Tops(tops, a) != {} || Users(mem, a) != {}
    else
      var b := path[|path| - 1];
      b in Preds(heap, a) && Reached(heap, tops, mem, path[..|path| - 1], b)
  }

  function Above(heap: Heap, rank: map<Ref, nat>, n: nat): set<Ref> {
    set b | b in heap && b in rank && rank[b] > n
  }

  /** When no count is zero, every node is reachable: nothing leaks. */
  lemma {:induction false} NoLeak(heap: Heap, tops: map<Thread, Ref>, mem: map<Addr, Record>, rank: map<Ref, nat>,
                                  a: Ref) returns (path: seq<Ref>)
    requires Sound(heap, tops, mem, rank) && Tidy(heap) && a in heap && a in rank
    ensures Reached(heap, tops, mem, path, a)
    decreases |Above(heap, rank, rank[a])|
  {
    path := [];
    if Tops(tops, a) == {} && Users(mem, a) == {} {
      var b := Referrer(heap, tops, mem, rank, a);
      Smaller(Above(heap, rank, rank[b]), Above(heap, rank, rank[a]), b);
      hide Sound, Tidy;
      var up := NoLeak(heap, tops, mem, rank, b);
      path := up + [b];
      assert path[..|path| - 1] == up;
    }
  }

  lemma Referrer(heap: Heap, tops: map<Thread, Ref>, mem: map<Addr, Record>, rank: map<Ref, nat>, a: Ref)
    returns (b: Ref)
    requires Sound(heap, tops, mem, rank) && Tidy(heap) && a in heap && a in rank
    requires Tops(tops, a) == {} && Users(mem, a) == {}
    ensures b in Preds(heap, a) && b in rank && rank[a] < rank[b]
  {
    assert Pointers(heap, tops, mem, a) >= 1;
    b :| b in Preds(heap, a);
  }

  lemma Smaller(s: set<Ref>, t: set<Ref>, b: Ref)
    requires s <= t && b in t && b !in s
    ensures |s| < |t|
  {
    SubsetSize(s, t - {b});
  }

  lemma SubsetSize(s: set<Ref>, t: set<Ref>)
    requires s <= t
    ensures |s| <= |t|
  {
    assert s + (t - s) == t;
  }

  /** The count of a node, and the nodes that nothing counts. */
  lemma CountOfNode(heap: Heap, tops: map<Thread, Ref>, mem: map<Addr, Record>, rank: map<Ref, nat>, a: Ref)
    requires Sound(heap, tops, mem, rank) && a in heap
    ensures heap[a].references ==
            One(heap[a].thread in tops && tops[heap[a].thread] == a) + |Users(mem, a)| + |Preds(heap, a)|
  {
    TopsAtMostOne(heap, tops, rank, a);
    if t :| t in Tops(tops, a) {
      assert Tops(tops, a) == {t};
    } else {
      assert Tops(tops, a) == {} && heap[a].thread !in Tops(tops, a);
    }
  }

  lemma StackEmpty(heap: Heap, tops: map<Thread, Ref>, mem: map<Addr, Record>, rank: map<Ref, nat>, t: Thread)
    requires Sound(heap, tops, mem, rank)
    ensures StackOf(heap, tops, rank, t) == [] <==> t !in tops
  {}

  lemma ZeroCount(heap: Heap, tops: map<Thread, Ref>, mem: map<Addr, Record>, a: Ref)
    requires a in heap && Exact(heap, tops, mem, None)
    ensures heap[a].references >= 0
  {}

  // ----- the two ways to lose a node -----

  /** Whatever can be reached is not above the one node that anything outside refers to. */
  lemma {:induction false} BelowRoot(heap: Heap, tops: map<Thread, Ref>, mem: map<Addr, Record>, rank: map<Ref, nat>,
                                     path: seq<Ref>, b: Ref, a: Ref)
    requires Sound(heap, tops, mem, rank) && Reached(heap, tops, mem, path, b) && b in heap
    requires forall x :: x in heap && x != a ==> Tops(tops, x) == {} && Users(mem, x) == {}
    ensures a in rank && b in rank && rank[b] <= rank[a]
  {
    hide Exact;
    assert path == [] ==> b == a;
    if path != [] {
      var c := path[|path| - 1];
      BelowRoot(heap, tops, mem, rank, path[..|path| - 1], c, a);
    }
  }

  /** A tidy heap to which a single record refers: the count of its node is 1. */
  lemma LoneRecord(heap: Heap, tops: map<Thread, Ref>, mem: map<Addr, Record>, rank: map<Ref, nat>, p: Addr, a: Ref)
    requires Sound(heap, tops, mem, rank) && Tidy(heap) && tops == map[]
    requires mem.Keys == {p} && mem[p].appInfo == Some(a)
    ensures a in heap && heap[a].references == 1
  {
    assert Users(mem, a) == {p};
    if b :| b in Preds(heap, a) {
      var path := NoLeak(heap, tops, mem, rank, b);
      BelowRoot(heap, tops, mem, rank, path, b, a);
    }
    assert Preds(heap, a) == {} && Tops(tops, a) == {};
  }

  lemma NoInfo(heap: Heap, rank: map<Ref, nat>, r: Option<Ref>)
    requires Chain(heap, rank, r) != []
    ensures r.Some?
  {}

  /** A record that is replaced as the last user of its node leaks the node. */
  method LeakOnReplace(t: Thread) returns (s: Store)
    ensures fresh(s) && s.Valid() && !Tidy(s.heap)
  {
    hide Sound, StackOf, Chain, Exact, Stacked, Tidy;
    s := new Store();
    EmptyStacks(s.heap, s.tops, s.mem, s.rank);
    assert forall u: Thread :: s.Stack(u) == [];
    var ret := s.PushInfo(true, t, "info", Some(1), true);
    s.DbgMalloc(true, t, 10, 1, 1, true, true);
    var found := s.PopInfo(t);
    NoInfo(s.heap, s.rank, s.mem[10].appInfo);
    forall u: Thread ensures StackOf(s.heap, s.tops, s.rank, u) == [] { assert s.Stack(u) == []; }
    NoStacks(s.heap, s.tops, s.mem, s.rank);
    LoneRecord(s.heap, s.tops, s.mem, s.rank, 10, s.mem[10].appInfo.value);
    s.DbgMalloc(true, t, 10, 1, 1, true, true);
  }

  lemma NoStacks(heap: Heap, tops: map<Thread, Ref>, mem: map<Addr, Record>, rank: map<Ref, nat>)
    requires Sound(heap, tops, mem, rank) && forall t: Thread :: StackOf(heap, tops, rank, t) == []
    ensures tops == map[]
  {
    hide Sound, StackOf;
    forall t: Thread ensures t !in tops { StackEmpty(heap, tops, mem, rank, t); }
  }

  lemma EmptyStacks(heap: Heap, tops: map<Thread, Ref>, mem: map<Addr, Record>, rank: map<Ref, nat>)
    requires Sound(heap, tops, mem, rank) && tops == map[]
    ensures forall t: Thread :: StackOf(heap, tops, rank, t) == []
  {
    hide Sound, StackOf;
    forall t: Thread ensures StackOf(heap, tops, rank, t) == [] { StackEmpty(heap, tops, mem, rank, t); }
  }

  /** A reallocation that lands on another record with info: a count stays one too high for good. */
  method OrphanOnRealloc(t: Thread) returns (s: Store)
    ensures fresh(s) && !s.Valid()
  {
    hide Sound, StackOf, Chain, Exact, Stacked, Tidy;
    s := new Store();
    var ret := s.PushInfo(true, t, "info", Some(1), true);
    s.DbgMalloc(true, t, 10, 1, 1, true, true);
    s.DbgMalloc(true, t, 20, 1, 1, true, true);
    NoInfo(s.heap, s.rank, s.mem[20].appInfo);
    s.DbgRealloc(true, t, 10, 20, 2, 1, true, true);
  }
}
