/**
 Why the head decides whether a snapshot is complete: whenever the head has no
 symfile and something else has one, the process can go on so that a reader
 misses it.
 */
module JitSnapshot {
  import opened JitList
  import opened JitReader
  import opened OrderedKeys

  function Now(h: seq<World>): World
    requires |h| > 0
  {
    h[|h| - 1]
  }

  /** The address with the least birth. */
  lemma Least(w: World, s: set<Addr>) returns (m: Addr)
    requires s != {}
    ensures m in s && forall x :: x in s ==> Birth(w, m) <= Birth(w, x)
    decreases |s|
  {
    hide Birth;
    var x :| x in s;
    var rest := s - {x};
    m := x;
    if rest != {} {
      var n := Least(w, rest);
      if Birth(w, n) < Birth(w, x) { m := n; }
    }
    forall y | y in s
      ensures Birth(w, m) <= Birth(w, y)
    {
      if y != x { assert y in rest; }
    }
  }

  /** The head or a next field leads to every linked entry. */
  lemma Predecessor(w: World, a: Addr) returns (p: Addr)
    requires Inv(w) && a in w.list
    ensures Enabled(w.(pending := Idle), Unlink(p, a))
  {
    assert UidAt(w, a) in w.born;
    var younger := set x | x in w.list && Birth(w, x) > Birth(w, a);
    if younger == {} {
      p := 0;
      assert w.head in w.list && Birth(w, a) <= Birth(w, w.head);
      assert w.head !in younger;
      OneBirth(w, w.head, a);
    } else {
      p := Least(w, younger);
      assert Follows(w, p);
      var n := w.mem[p].next;
      assert n in w.list && Birth(w, a) <= Birth(w, n) < Birth(w, p);
      assert Birth(w, n) > Birth(w, a) ==> n in younger;
      OneBirth(w, n, a);
    }
  }

  lemma OneBirth(w: World, x: Addr, y: Addr)
    requires Inv(w) && x in w.list && y in w.list && Birth(w, x) == Birth(w, y)
    ensures x == y
  {
    assert SameBirth(w, UidAt(w, x), UidAt(w, y));
  }

  /** Nothing happens to the entry at `x`: it stays linked, with its incarnation, symfile and birth. */
  predicate Spared(w: World, w': World, x: Addr) {
    && x in w'.list && x in w.mem && x in w'.mem
    && w'.mem[x].seqlock == w.mem[x].seqlock && w'.mem[x].sym == w.mem[x].sym && Birth(w', x) == Birth(w, x)
  }

  /** The process finishes what it has begun. */
  lemma Settle(h: seq<World>) returns (h': seq<World>)
    requires History(h)
    ensures History(h') && h <= h' && Now(h').pending.Idle?
    ensures forall x :: x in Now(h).list ==> Spared(Now(h), Now(h'), x)
    ensures forall x :: x in Now(h').list && x !in Now(h).list ==> Birth(Now(h'), x) >= Now(h).clock
  {
    var w := Now(h);
    assert Inv(w);
    match w.pending
    case Idle => h' := h;
    case Publishing(_) =>
      HistoryExtends(h, Publish);
      h' := h + [Apply(w, Publish)];
    case Retiring(_) =>
      HistoryExtends(h, Invalidate);
      h' := h + [Apply(w, Invalidate)];
  }

  /** The process deletes an entry. */
  lemma Retire(h: seq<World>, a: Addr) returns (h': seq<World>)
    requires History(h) && Now(h).pending.Idle? && a in Now(h).list
    ensures History(h') && h <= h' && Now(h').pending.Idle? && Now(h').list == Now(h).list - {a}
    ensures forall x :: x in Now(h).list && x != a ==> Spared(Now(h), Now(h'), x)
  {
    var w := Now(h);
    assert Inv(w);
    var p := Predecessor(w, a);
    HistoryExtends(h, Unlink(p, a));
    var w1 := Apply(w, Unlink(p, a));
    HistoryExtends(h + [w1], Invalidate);
    h' := h + [w1] + [Apply(w1, Invalidate)];
  }

  /** The linked entries with a symfile that are not younger than `b`. */
  function Victims(w: World, b: nat): set<Addr> {
    set x | x in w.list && x in w.mem && w.mem[x].sym.addr != 0 && Birth(w, x) <= b
  }

  /** The process deletes every entry with a symfile that is not younger than `b`. */
  lemma {:induction false} Strip(h: seq<World>, b: nat) returns (h': seq<World>)
    requires History(h) && Now(h).pending.Idle?
    ensures History(h') && h <= h' && Victims(Now(h'), b) == {}
    ensures forall x :: x in Now(h).list && x !in Victims(Now(h), b) ==> Spared(Now(h), Now(h'), x)
    decreases |Victims(Now(h), b)|
  {
    h' := h;
    assert Inv(Now(h));
    if Victims(Now(h), b) != {} {
      var a :| a in Victims(Now(h), b);
      var h1 := Retire(h, a);
      OneLess(h, Now(h), Now(h1), a, b);
      hide Spared, History, Victims;
      h' := Strip(h1, b);
      forall x | x in Now(h).list && x !in Victims(Now(h), b)
        ensures Spared(Now(h), Now(h'), x)
      {
        assert Spared(Now(h), Now(h1), x);
        SparedAgain(Now(h), Now(h1), Now(h'), x);
      }
    }
  }

  lemma OneLess(h: seq<World>, w: World, w1: World, a: Addr, b: nat)
    requires History(h) && w == Now(h) && a in Victims(w, b) && w1.list == w.list - {a}
    requires forall x :: x in w.list && x != a ==> Spared(w, w1, x)
    ensures Victims(w1, b) == Victims(w, b) - {a} && |Victims(w1, b)| < |Victims(w, b)|
    ensures forall x :: x in w.list && x !in Victims(w, b) ==> x in w1.list && x !in Victims(w1, b)
  {
    assert Inv(w);
    forall x
      ensures x in Victims(w1, b) <==> x in Victims(w, b) - {a}
    {
      if x in w1.list { assert Spared(w, w1, x); }
    }
  }

  lemma SparedAgain(w: World, w1: World, w2: World, x: Addr)
    requires Spared(w, w1, x) && Spared(w1, w2, x)
    ensures Spared(w, w2, x)
  {
  }

  /** A walk over entries without symfiles adds nothing. */
  lemma {:induction false} WalkAddsNothing(w: World, a: Addr, b: nat, es: map<Uid, Symfile>)
    requires Inv(w) && (a != 0 ==> a in w.list && Birth(w, a) <= b) && Victims(w, b) == {}
    ensures WalkIn(w, a, es) == es
    decreases if a != 0 then Birth(w, a) + 1 else 0
  {
    if a != 0 {
      assert a !in Victims(w, b);
      assert Follows(w, a);
      WalkAddsNothing(w, w.mem[a].next, b, es);
    }
  }

  /** A cache as a reader has it between two passes in which nothing failed; `seen` is what it has met. */
  ghost predicate Reading(w: World, es: map<Uid, Symfile>, seen: set<Uid>) {
    Fits(w, es) && Closed(w, es, seen) && Loaded(w, es, seen) && es.Keys <= seen
  }

  /**
   After the head was read at `w`, the walk from it adds nothing at the end of the
   history, and the cache is not whole.
   */
  ghost predicate Misses(w: World, es: map<Uid, Symfile>, h: seq<World>) {
    && History(h) && h[0] == w && Inv(Now(h)) && Linked(Now(h), HeadUid(w))
    && WalkIn(Now(h), w.head, es) == es && !Whole(w, es)
  }

  ghost predicate CanMiss(w: World, es: map<Uid, Symfile>) {
    exists h :: Misses(w, es, h)
  }

  /**
   If the head has no symfile and something that is listed has one and is not
   cached, the process can go on so that the walk from this head adds nothing:
   the cache is not whole, although every read and load succeeds.
   */
  lemma HeadWithoutSymfileMisses(w: World, es: map<Uid, Symfile>) returns (h: seq<World>)
    requires Inv(w) && !HeadHasSymfile(w) && !Whole(w, es)
    ensures Misses(w, es, h)
  {
    assert Now([w]) == w && History([w]);
    var h1 := Settle([w]);
    var b := Birth(w, w.head);
    assert w.head in w.list;
    assert Valid(w, HeadUid(w));
    assert HeadUid(w) == UidAt(w, w.head) && w.syms[HeadUid(w)] == w.mem[w.head].sym;
    var w1 := Now(h1);
    assert Spared(w, w1, w.head);
    h := Strip(h1, b);
    var w2 := Now(h);
    assert w.head !in Victims(w1, b);
    assert Spared(w1, w2, w.head);
    assert Inv(w2);
    WalkAddsNothing(w2, w.head, b, es);
  }

  lemma {:induction false} WalkKeeps(w: World, a: Addr, es: map<Uid, Symfile>, u: Uid)
    requires Inv(w) && (a != 0 ==> a in w.list) && u in es
    ensures u in WalkIn(w, a, es)
    decreases if a != 0 then Birth(w, a) + 1 else 0
  {
    if a != 0 && UidAt(w, a) !in es {
      assert Follows(w, a);
      WalkKeeps(w, w.mem[a].next, if w.mem[a].sym.addr != 0 then es[UidAt(w, a) := w.mem[a].sym] else es, u);
    }
  }

  /**
   Whatever a reader has cached, the process can make it miss something if and
   only if the head has no symfile and something listed has one that is not cached.
   */
  lemma HeadDecides(w: World, es: map<Uid, Symfile>, seen: set<Uid>)
    requires Inv(w) && Reading(w, es, seen)
    ensures CanMiss(w, es) <==> !HeadHasSymfile(w) && !Whole(w, es)
  {
    hide Reading;
    if !HeadHasSymfile(w) && !Whole(w, es) {
      var h := HeadWithoutSymfileMisses(w, es);
      assert Misses(w, es, h);
    }
    if CanMiss(w, es) {
      var h :| Misses(w, es, h);
      if HeadHasSymfile(w) {
        HeadIsCached(w, es, h);
        CachedHeadIsWhole(w, es, seen);
      }
    }
  }

  lemma HeadIsCached(w: World, es: map<Uid, Symfile>, h: seq<World>)
    requires Inv(w) && Misses(w, es, h) && HeadHasSymfile(w)
    ensures HeadUid(w) in es
  {
    var w', u := Now(h), HeadUid(w);
    assert Evolves(h[0], w') && Inv(w');
    assert u == UidAt(w', w.head) && w'.syms[u] == w'.mem[w.head].sym;
    assert Valid(w, u) by { assert w.head in w.list; }
    if u !in es {
      assert Follows(w', w.head);
      WalkKeeps(w', w'.mem[w.head].next, es[u := w'.mem[w.head].sym], u);
    }
  }

  lemma CachedHeadIsWhole(w: World, es: map<Uid, Symfile>, seen: set<Uid>)
    requires Inv(w) && Reading(w, es, seen) && HeadUid(w) in es
    ensures Whole(w, es)
  {
    assert History([w]);
    if w.head != 0 {
      assert w.head in w.list && Valid(w, HeadUid(w));
    }
    HeadWasCached([w], 0, 0, es, seen, HeadUid(w));
  }

  // ----- an example

  /** The process lists an entry: it fills it in, makes it valid and puts it at the head. */
  lemma List(h: seq<World>, a: Addr, sym: Symfile) returns (h': seq<World>)
    requires History(h) && Now(h).pending.Idle? && a != 0 && a !in Now(h).mem
    ensures History(h') && h <= h' && Now(h').pending.Idle? && Now(h').mem.Keys == Now(h).mem.Keys + {a}
    ensures Now(h').head == a && Linked(Now(h'), Uid(a, 2)) && Uid(a, 2) in Now(h').syms
            && Now(h').syms[Uid(a, 2)] == sym
    ensures forall u :: Linked(Now(h), u) && u in Now(h).syms ==>
                          Linked(Now(h'), u) && u in Now(h').syms && Now(h').syms[u] == Now(h).syms[u]
  {
    var w := Now(h);
    HistoryExtends(h, Scribble(a, Node(w.head, sym, 1)));
    var w1 := Apply(w, Scribble(a, Node(w.head, sym, 1)));
    HistoryExtends(h + [w1], Activate(a));
    var w2 := Apply(w1, Activate(a));
    HistoryExtends(h + [w1] + [w2], Publish);
    h' := h + [w1] + [w2] + [Apply(w2, Publish)];
    assert Inv(w);
  }

  /**
   From a process that has listed nothing: it lists an entry with a symfile and
   then one without, and a reader with an empty cache can miss the first one.
   */
  lemma MissingExample() returns (h: seq<World>, h': seq<World>)
    ensures History(h) && h[0] == NothingListed && Reading(Now(h), map[], {})
    ensures !HeadHasSymfile(Now(h)) && !Whole(Now(h), map[]) && Misses(Now(h), map[], h')
  {
    StartsWell();
    var h0 := [NothingListed];
    var h1 := List(h0, 8, Symfile(64, 4));
    h := List(h1, 16, Symfile(0, 0));
    assert Inv(Now(h));
    assert Linked(Now(h), Uid(8, 2)) && HasSymfile(Now(h), Uid(8, 2));
    assert HeadUid(Now(h)) == Uid(16, 2);
    var nothing: map<Uid, Symfile> := map[];
    assert Uid(8, 2) !in nothing && nothing.Keys == {};
    h' := HeadWithoutSymfileMisses(Now(h), nothing);
  }
}
