/**
 The list of JIT entries as the inspected process keeps it.

 The process changes the list one memory word at a time, under a lock of its
 own.  An entry is valid while its seqlock is even.  A new entry is filled in
 while its seqlock is odd, becomes valid, and is then published at the head.
 A deleted entry is first unlinked and then becomes invalid.  Memory of invalid
 entries may be overwritten at any time.
 */
module JitList {

  type Addr = nat

  /** An (address, seqlock) pair names one incarnation of an entry. */
  datatype Uid = Uid(address: Addr, seqlock: nat)

  datatype Symfile = Symfile(addr: Addr, size: nat)

  datatype Node = Node(next: Addr, sym: Symfile, seqlock: nat)

  /** The writer's operation in progress, if any. */
  datatype Pending = Idle | Publishing(a: Addr) | Retiring(a: Addr)

  /**
   `head` and `mem` are the memory a reader can see.  The other fields are
   bookkeeping: the addresses linked from `head`, the birth stamp of every
   incarnation that was ever published, and the symfile of every incarnation
   that was ever valid.  List order is descending birth.
   */
  datatype World = World(head: Addr, mem: map<Addr, Node>,
                         list: set<Addr>, pending: Pending,
                         born: map<Uid, nat>, syms: map<Uid, Symfile>, clock: nat)

  /** One write of the inspected process.  `Unlink(p, a)` redirects the field of `p` (the head if 0) past `a`. */
  datatype Write =
    | Scribble(a: Addr, n: Node)
    | Activate(a: Addr)
    | Publish
    | Unlink(p: Addr, a: Addr)
    | Invalidate

  predicate Even(n: nat) { n % 2 == 0 }

  predicate Valid(w: World, u: Uid) {
    u.address in w.mem && w.mem[u.address].seqlock == u.seqlock && Even(u.seqlock)
  }

  predicate Linked(w: World, u: Uid) {
    Valid(w, u) && u.address in w.list
  }

  function UidAt(w: World, a: Addr): Uid
    requires a in w.mem
  {
    Uid(a, w.mem[a].seqlock)
  }

  predicate Enabled(w: World, act: Write) {
    match act
    case Scribble(a, n) =>
      a != 0 && !Even(n.seqlock) &&
      (a in w.mem ==> !Even(w.mem[a].seqlock) && w.mem[a].seqlock <= n.seqlock)
    case Activate(a) =>
      w.pending.Idle? && a in w.mem && !Even(w.mem[a].seqlock) && w.mem[a].next == w.head
    case Publish =>
      w.pending.Publishing? && w.pending.a in w.mem
    case Unlink(p, a) =>
      w.pending.Idle? && a in w.list && a in w.mem &&
      (if p == 0 then w.head == a else p in w.list && p in w.mem && w.mem[p].next == a)
    case Invalidate =>
      w.pending.Retiring? && w.pending.a in w.mem
  }

  function Apply(w: World, act: Write): World
    requires Enabled(w, act)
  {
    match act
    case Scribble(a, n) => w.(mem := w.mem[a := n])
    case Activate(a) =>
      var n := w.mem[a];
      w.(mem := w.mem[a := n.(seqlock := n.seqlock + 1)],
      pending := Publishing(a),
      syms := w.syms[Uid(a, n.seqlock + 1) := n.sym])
    case Publish =>
      var a := w.pending.a;
      w.(head := a, list := w.list + {a}, pending := Idle,
      born := w.born[UidAt(w, a) := w.clock], clock := w.clock + 1)
    case Unlink(p, a) =>
      var w' := w.(list := w.list - {a}, pending := Retiring(a));
      if p == 0 then w'.(head := w.mem[a].next)
      else w'.(mem := w.mem[p := w.mem[p].(next := w.mem[a].next)])
    case Invalidate =>
      var n := w.mem[w.pending.a];
      w.(mem := w.mem[w.pending.a := n.(seqlock := n.seqlock + 1)], pending := Idle)
  }

  // ----- what every write keeps

  /** The birth stamp of the incarnation now at `a`. */
  function Birth(w: World, a: Addr): nat {
    if a in w.mem && UidAt(w, a) in w.born then w.born[UidAt(w, a)] else 0
  }

  /** `n` is the youngest linked entry older than birth stamp `b`, or 0 if there is none. */
  ghost predicate YoungestBelow(w: World, b: nat, n: Addr) {
    && (n != 0 ==> n in w.list && Birth(w, n) < b)
    && (forall x :: x in w.list && Birth(w, x) < b ==> n != 0 && Birth(w, x) <= Birth(w, n))
  }

  /** The next field of `a` leads to the youngest older entry. */
  ghost predicate Follows(w: World, a: Addr) {
    a in w.mem && YoungestBelow(w, Birth(w, a), w.mem[a].next)
  }

  ghost predicate Chained(w: World) {
    && YoungestBelow(w, w.clock, w.head)
    && (forall a {:trigger Follows(w, a)} :: a in w.list ==> Follows(w, a))
  }

  ghost predicate SameBirth(w: World, u: Uid, v: Uid) {
    u in w.born && v in w.born && w.born[u] == w.born[v]
  }

  ghost predicate Ordered(w: World) {
    && (forall u :: u in w.born ==> w.born[u] < w.clock)
    && (forall u, v {:trigger SameBirth(w, u, v)} :: SameBirth(w, u, v) ==> u == v)
    && (forall a :: a in w.list ==> a in w.mem && Even(w.mem[a].seqlock) && UidAt(w, a) in w.born)
  }

  ghost predicate Recorded(w: World) {
    && 0 !in w.mem
    && (forall u :: u in w.born ==> u.address in w.mem && u.seqlock <= w.mem[u.address].seqlock)
    && (forall u :: u in w.syms ==> u.address in w.mem && u.seqlock <= w.mem[u.address].seqlock)
    && (forall u :: Valid(w, u) ==> u in w.syms && w.syms[u] == w.mem[u.address].sym)
    && (forall u :: Valid(w, u) ==>
                      u.address in w.list || w.pending == Publishing(u.address) || w.pending == Retiring(u.address))
  }

  ghost predicate PendingOk(w: World) {
    match w.pending
    case Idle => true
    case Publishing(a) =>
      a in w.mem && a !in w.list && Even(w.mem[a].seqlock) && w.mem[a].next == w.head && UidAt(w, a) !in w.born
    case Retiring(a) =>
      a in w.mem && a !in w.list && Even(w.mem[a].seqlock) && Follows(w, a)
  }

  ghost predicate Inv(w: World) {
    Chained(w) && Ordered(w) && Recorded(w) && PendingOk(w)
  }

  /** What may happen between two moments: seqlocks only grow, and nothing born before is linked again. */
  ghost predicate Evolves(w: World, w': World) {
    && w.clock <= w'.clock
    && (forall a :: a in w.mem ==> a in w'.mem && w.mem[a].seqlock <= w'.mem[a].seqlock)
    && (forall u :: u in w.born ==> u in w'.born && w'.born[u] == w.born[u])
    && (forall u :: u in w.syms ==> u in w'.syms && w'.syms[u] == w.syms[u])
    && (forall u :: u in w'.born && u !in w.born ==> w.clock <= w'.born[u])
    && (forall u :: Linked(w', u) && u in w.born ==> Linked(w, u))
  }

  lemma EvolvesTransitive(w0: World, w1: World, w2: World)
    requires Evolves(w0, w1) && Evolves(w1, w2)
    ensures Evolves(w0, w2)
  {
    forall u | u in w2.born && u !in w0.born
      ensures w0.clock <= w2.born[u]
    {
      if u in w1.born { assert w2.born[u] == w1.born[u]; }
    }
  }

  /** An incarnation that is valid at two moments is valid in between. */
  lemma ValidBetween(w0: World, w1: World, w2: World, u: Uid)
    requires Evolves(w0, w1) && Evolves(w1, w2)
    requires Valid(w0, u) && Valid(w2, u)
    ensures Valid(w1, u)
  {
    assert u.address in w1.mem;
  }

  /** The next field of a valid published entry leads to the youngest linked entry that is older. */
  lemma NextIsYoungestBelow(w: World, u: Uid)
    requires Inv(w) && Valid(w, u) && u in w.born
    ensures YoungestBelow(w, w.born[u], w.mem[u.address].next)
  {
    assert u == UidAt(w, u.address);
    assert Follows(w, u.address);
  }

  lemma OrderedKept(w: World, act: Write)
    requires Ordered(w) && PendingOk(w) && Recorded(w) && Enabled(w, act)
    ensures Ordered(Apply(w, act))
  {
    var w' := Apply(w, act);
    forall u, v | SameBirth(w', u, v)
      ensures u == v
    {
      if u in w.born && v in w.born { assert SameBirth(w, u, v); }
    }
  }

  lemma RecordedKept(w: World, act: Write)
    requires Recorded(w) && PendingOk(w) && Enabled(w, act) && !act.Unlink?
    ensures Recorded(Apply(w, act))
  {
    var w' := Apply(w, act);
    forall u | Valid(w', u)
      ensures u in w'.syms && w'.syms[u] == w'.mem[u.address].sym
      ensures u.address in w'.list || w'.pending == Publishing(u.address) || w'.pending == Retiring(u.address)
    {
      if Valid(w, u) {}
    }
  }

  lemma RecordedKeptByUnlink(w: World, act: Write)
    requires Recorded(w) && Enabled(w, act) && act.Unlink?
    ensures Recorded(Apply(w, act))
  {
    var w' := Apply(w, act);
    assert w'.mem.Keys == w.mem.Keys;
    assert forall u :: Valid(w', u) <==> Valid(w, u);
  }

  lemma TimeMovesOn(w: World, act: Write)
    requires Ordered(w) && PendingOk(w) && Recorded(w) && Enabled(w, act)
    ensures Evolves(w, Apply(w, act))
  {
    var w' := Apply(w, act);
    forall u | Linked(w', u) && u in w.born
      ensures Linked(w, u)
    {
      assert u.address in w.mem;
    }
  }

  /** The chain stands as long as linked entries keep their births and next fields. */
  lemma SameOrder(w: World, w': World)
    requires Chained(w) && w'.list == w.list && w'.head == w.head && w'.clock == w.clock
    requires forall x :: x in w.list ==> Birth(w', x) == Birth(w, x)
    requires forall x :: x in w.list ==> x in w.mem && x in w'.mem && w'.mem[x].next == w.mem[x].next
    ensures Chained(w')
    ensures forall b, n :: YoungestBelow(w, b, n) ==> YoungestBelow(w', b, n)
  {
    forall a | a in w.list
      ensures Follows(w', a)
    {
      assert Follows(w, a);
    }
  }

  lemma ChainedKept(w: World, act: Write)
    requires Inv(w) && Enabled(w, act) && !act.Publish? && !act.Unlink?
    ensures Chained(Apply(w, act)) && PendingOk(Apply(w, act))
  {
    var w' := Apply(w, act);
    assert forall x :: x in w.list ==> Birth(w', x) == Birth(w, x);
    SameOrder(w, w');
    hide Chained, YoungestBelow;
    if w.pending.Retiring? && act.Scribble? {
      assert Birth(w', w.pending.a) == Birth(w, w.pending.a);
      assert Follows(w, w.pending.a) && Follows(w', w.pending.a);
    }
  }

  lemma ChainedKeptByPublish(w: World, act: Write)
    requires Inv(w) && Enabled(w, act) && act.Publish?
    ensures Chained(Apply(w, act)) && PendingOk(Apply(w, act))
  {
    var w' := Apply(w, act);
    assert Birth(w', w'.head) == w.clock;
    assert forall x :: x in w.list ==> Birth(w', x) == Birth(w, x) < w.clock;
    forall a | a in w'.list
      ensures Follows(w', a)
    {
      if a in w.list { assert Follows(w, a); }
    }
  }

  lemma ChainedKeptByUnlink(w: World, act: Write)
    requires Inv(w) && Enabled(w, act) && act.Unlink?
    ensures Chained(Apply(w, act)) && PendingOk(Apply(w, act))
  {
    var w' := Apply(w, act);
    var a := act.a;
    assert w'.mem.Keys == w.mem.Keys;
    assert forall x :: Birth(w', x) == Birth(w, x);
    SkipUnlinked(w, w', w.clock, w.head, a);
    forall q | q in w.list
      ensures Follows(w', q)
    {
      assert Follows(w, q);
      SkipUnlinked(w, w', Birth(w, q), w.mem[q].next, a);
      if w.mem[q].next == a { OnePredecessor(w, q, act.p, a); }
    }
    assert Follows(w', a);
  }

  /** Only one field leads to a linked entry. */
  lemma OnePredecessor(w: World, q: Addr, p: Addr, a: Addr)
    requires Inv(w) && q in w.list && a in w.list && w.mem[q].next == a
    requires if p == 0 then w.head == a else p in w.list && w.mem[p].next == a
    ensures q == p
  {
    assert Follows(w, q) && UidAt(w, q) in w.born;
    if p != 0 {
      assert Follows(w, p) && UidAt(w, p) in w.born;
      assert SameBirth(w, UidAt(w, p), UidAt(w, q));
    }
  }

  /** Removing the youngest entry below `b` makes its successor the youngest below `b`. */
  lemma SkipUnlinked(w: World, w': World, b: nat, n: Addr, a: Addr)
    requires Inv(w) && a in w.list && w'.list == w.list - {a}
    requires forall x :: Birth(w', x) == Birth(w, x)
    requires YoungestBelow(w, b, n)
    ensures YoungestBelow(w', b, if n == a then w.mem[a].next else n)
  {
    assert Follows(w, a);
    forall x | x in w'.list && Birth(w', x) < b && n == a
      ensures Birth(w, x) < Birth(w, a)
    {
      assert UidAt(w, x) in w.born && UidAt(w, a) in w.born;
      assert !SameBirth(w, UidAt(w, x), UidAt(w, a));
    }
  }

  /** A process that has not listed anything. */
  const NothingListed := World(0, map[], {}, Idle, map[], map[], 0)

  lemma StartsWell()
    ensures Inv(NothingListed)
  {
  }

  /** Every write keeps the list well formed and only moves it forward in time. */
  lemma WriteKeeps(w: World, act: Write)
    requires Inv(w) && Enabled(w, act)
    ensures Inv(Apply(w, act)) && Evolves(w, Apply(w, act))
  {
    OrderedKept(w, act);
    TimeMovesOn(w, act);
    if act.Unlink? {
      RecordedKeptByUnlink(w, act);
      ChainedKeptByUnlink(w, act);
    } else {
      RecordedKept(w, act);
      if act.Publish? { ChainedKeptByPublish(w, act); } else { ChainedKept(w, act); }
    }
  }
}
