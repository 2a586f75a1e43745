/** Ring pointers of the GPI engine, counted in elements from the ring's base. */
module GpiRing {
  /** k elements past i, wrapping once as the driver's pointer steps do. */
  ghost function Advance(n: nat, i: nat, k: nat): (r: nat)
    requires i < n && k < n
    ensures r < n
  {
    if i + k >= n then i + k - n else i + k
  }

  /** How far b lies ahead of a. */
  ghost function Ahead(n: nat, a: nat, b: nat): (d: nat)
    requires a < n && b < n
    ensures d < n && Advance(n, a, d) == b
  {
    if b >= a then b - a else b - a + n
  }

  /** gpi_ring_num_elements_avail. */
  function Available(n: nat, rp: nat, wp: nat): (k: nat)
    requires rp < n && wp < n
    ensures k == n - 1 - Ahead(n, rp, wp)
  {
    if wp < rp then rp - wp - 1 else rp + (n - wp) - 1
  }

  /** The element before i. */
  ghost function Previous(n: nat, i: nat): (r: nat)
    requires i < n
    ensures r < n && Advance(n, r, if n > 1 then 1 else 0) == i
  {
    if i == 0 then n - 1 else i - 1
  }

  lemma AdvanceTwice(n: nat, i: nat, j: nat, k: nat)
    requires i < n && j + k < n
    ensures Advance(n, Advance(n, i, j), k) == Advance(n, i, j + k)
  {}

  lemma AheadOfAdvance(n: nat, i: nat, k: nat)
    requires i < n && k < n
    ensures Ahead(n, i, Advance(n, i, k)) == k
  {}

  // ----- descriptors laid out on a ring

  /** The doorbell value is the element after a descriptor's last one, or
      UNSET while the descriptor has never been queued. */
  datatype Layout = Layout(size: nat, db: int)

  const UNSET: int := -1

  /** Where the next descriptor after those would start. */
  ghost function End(start: nat, ds: seq<Layout>): int {
    if ds == [] then start else ds[|ds| - 1].db
  }

  /** The descriptors lie one behind the other from start on. */
  ghost predicate Chained(n: nat, start: nat, ds: seq<Layout>)
    requires start < n
  {
    ds == [] ||
    var rest, last := ds[..|ds| - 1], ds[|ds| - 1];
    && Chained(n, start, rest)
    && 0 <= End(start, rest) < n && 0 < last.size < n
    && last.db == Advance(n, End(start, rest), last.size)
  }

  ghost function Total(ds: seq<Layout>): nat {
    if ds == [] then 0 else Total(ds[..|ds| - 1]) + ds[|ds| - 1].size
  }

  lemma {:induction false} EndOfChain(n: nat, start: nat, ds: seq<Layout>)
    requires start < n && Chained(n, start, ds) && Total(ds) < n
    ensures End(start, ds) == Advance(n, start, Total(ds))
  {
    if ds != [] {
      var rest := ds[..|ds| - 1];
      EndOfChain(n, start, rest);
      AdvanceTwice(n, start, Total(rest), ds[|ds| - 1].size);
    }
  }

  /** Queueing one more descriptor extends the chain exactly when all of its
      elements are queued. */
  lemma Extend(n: nat, start: nat, ds: seq<Layout>, size: nat, added: nat)
    requires start < n && Chained(n, start, ds) && 0 <= End(start, ds) < n
    requires 0 < size < n && added <= size
    ensures Chained(n, start, ds + [Layout(size, Advance(n, End(start, ds), added))]) <==> added == size
    ensures Total(ds + [Layout(size, Advance(n, End(start, ds), added))]) == Total(ds) + size
  {}

  lemma {:induction false} ChainIsSet(n: nat, start: nat, ds: seq<Layout>)
    requires start < n && Chained(n, start, ds)
    ensures forall i | 0 <= i < |ds| :: 0 <= ds[i].db < n
  {
    if ds != [] {
      ChainIsSet(n, start, ds[..|ds| - 1]);
    }
  }

  lemma {:induction false} TotalCons(x: Layout, tail: seq<Layout>)
    ensures Total([x] + tail) == x.size + Total(tail)
  {
    var ds := [x] + tail;
    if tail == [] {
      assert ds == [x] && ds[..0] == [];
    } else {
      assert ds[..|ds| - 1] == [x] + tail[..|tail| - 1] && ds[|ds| - 1] == tail[|tail| - 1];
      TotalCons(x, tail[..|tail| - 1]);
    }
  }

  /** Only where the first descriptor ends matters to those behind it. */
  lemma {:induction false} ChainCons(n: nat, a: nat, x: Layout, tail: seq<Layout>)
    requires a < n && 0 < x.size < n && x.db == Advance(n, a, x.size)
    ensures Chained(n, a, [x] + tail) <==> Chained(n, x.db, tail)
    ensures End(a, [x] + tail) == End(x.db, tail)
  {
    var ds := [x] + tail;
    if tail == [] {
      assert ds == [x] && ds[..0] == [];
    } else {
      assert ds[..|ds| - 1] == [x] + tail[..|tail| - 1] && ds[|ds| - 1] == tail[|tail| - 1];
      ChainCons(n, a, x, tail[..|tail| - 1]);
    }
  }

  /** The first descriptor of a chain ends where the others start. */
  lemma {:induction false} Unchain(n: nat, start: nat, ds: seq<Layout>)
    requires start < n && ds != [] && Chained(n, start, ds)
    ensures 0 < ds[0].size < n && ds[0].db == Advance(n, start, ds[0].size)
    ensures Chained(n, ds[0].db, ds[1..]) && End(start, ds) == End(ds[0].db, ds[1..])
    ensures Total(ds) == ds[0].size + Total(ds[1..])
  {
    FirstOfChain(n, start, ds);
    ChainCons(n, start, ds[0], ds[1..]);
    TotalCons(ds[0], ds[1..]);
    assert [ds[0]] + ds[1..] == ds;
  }

  lemma {:induction false} FirstOfChain(n: nat, start: nat, ds: seq<Layout>)
    requires start < n && ds != [] && Chained(n, start, ds)
    ensures 0 < ds[0].size < n && ds[0].db == Advance(n, start, ds[0].size)
  {
    if |ds| > 1 {
      FirstOfChain(n, start, ds[..|ds| - 1]);
    }
  }

  // ----- occupancy

  /** The descriptors with the first done elements taken off the first one. */
  ghost function Rest(ds: seq<Layout>, done: nat): seq<Layout>
    requires ds != [] ==> done <= ds[0].size
  {
    if ds == [] then [] else [Layout(ds[0].size - done, ds[0].db)] + ds[1..]
  }

  /** The unfinished descriptors ds start at start, the first of them is done
      up to the read pointer, and the rest fills the ring up to the write pointer. */
  ghost predicate Occupied(n: nat, start: nat, ds: seq<Layout>, rp: nat, wp: nat) {
    && start < n && rp < n && wp < n
    && var done := Ahead(n, start, rp);
       && (ds == [] ==> done == 0)
       && (ds != [] ==> done < ds[0].size < n && ds[0].db == Advance(n, start, ds[0].size))
       && Chained(n, rp, Rest(ds, done)) && Total(Rest(ds, done)) < n && wp == End(rp, Rest(ds, done))
  }

  /** Elements the unfinished descriptors still hold. */
  ghost function Held(n: nat, start: nat, ds: seq<Layout>, rp: nat, wp: nat): nat
    requires Occupied(n, start, ds, rp, wp)
  {
    Total(Rest(ds, Ahead(n, start, rp)))
  }

  /** What is free is what no unfinished descriptor still holds, less the slot
      that tells a full ring from an empty one. */
  lemma Accounting(n: nat, start: nat, ds: seq<Layout>, rp: nat, wp: nat)
    requires Occupied(n, start, ds, rp, wp)
    ensures Available(n, rp, wp) == n - 1 - Held(n, start, ds, rp, wp)
  {
    EndOfChain(n, rp, Rest(ds, Ahead(n, start, rp)));
    AheadOfAdvance(n, rp, Held(n, start, ds, rp, wp));
  }

  lemma RestOfAll(ds: seq<Layout>)
    ensures Rest(ds, 0) == ds
  {}

  /** Nothing done yet: the ring holds exactly the chain from the read pointer on. */
  lemma OccupiedFromStart(n: nat, start: nat, ds: seq<Layout>, wp: nat)
    requires start < n && wp < n && (ds != [] ==> ds[0].size < n)
    requires Chained(n, start, ds) && Total(ds) < n && wp == End(start, ds)
    ensures Occupied(n, start, ds, start, wp)
  {
    RestOfAll(ds);
    if ds != [] {
      Unchain(n, start, ds);
    }
  }

  /** Retiring the first descriptor frees exactly its elements. */
  lemma Retire(n: nat, start: nat, ds: seq<Layout>, rp: nat, wp: nat)
    requires ds != [] && Occupied(n, start, ds, rp, wp) && (|ds| > 1 ==> ds[1].size < n)
    ensures 0 <= ds[0].db < n
    ensures Occupied(n, ds[0].db, ds[1..], ds[0].db, wp)
    ensures Available(n, ds[0].db, wp) == n - 1 - Total(ds[1..])
  {
    var rest := Rest(ds, Ahead(n, start, rp));
    Unchain(n, rp, rest);
    assert rest[1..] == ds[1..];
    OccupiedFromStart(n, ds[0].db, ds[1..], wp);
    RestOfAll(ds[1..]);
    Accounting(n, ds[0].db, ds[1..], ds[0].db, wp);
  }

  /** Moving the read pointer leaves the first descriptor unfinished and all
      unfinished elements within the ring. */
  ghost predicate Fits(n: nat, start: nat, ds: seq<Layout>, rp: nat)
    requires start < n && rp < n
  {
    var done := Ahead(n, start, rp);
    if ds == [] then done == 0 else done < ds[0].size && Total(ds) - done < n
  }

  /** A new read pointer, ahead or back, keeps the account exactly when it fits. */
  lemma Repoint(n: nat, start: nat, ds: seq<Layout>, rp: nat, wp: nat, rp': nat)
    requires Occupied(n, start, ds, rp, wp) && rp' < n
    ensures Occupied(n, start, ds, rp', wp) <==> Fits(n, start, ds, rp')
  {
    var done, done' := Ahead(n, start, rp), Ahead(n, start, rp');
    if ds != [] && done' < ds[0].size {
      var tail, x, y := ds[1..], Layout(ds[0].size - done, ds[0].db), Layout(ds[0].size - done', ds[0].db);
      assert [ds[0]] + tail == ds;
      assert Rest(ds, done) == [x] + tail && Rest(ds, done') == [y] + tail;
      AdvanceTwice(n, start, done, x.size);
      AdvanceTwice(n, start, done', y.size);
      TotalCons(y, tail);
      TotalCons(ds[0], tail);
      ChainCons(n, rp, x, tail);
      ChainCons(n, rp', y, tail);
    }
  }

  lemma RestAppend(ds: seq<Layout>, d: Layout, done: nat)
    requires if ds == [] then done == 0 else done <= ds[0].size
    ensures Rest(ds + [d], done) == Rest(ds, done) + [d]
  {}

  /** Queueing one more descriptor keeps the account exactly when there was
      room for all of it. */
  lemma QueueOne(n: nat, start: nat, ds: seq<Layout>, rp: nat, wp: nat, size: nat, added: nat, wp': nat)
    requires Occupied(n, start, ds, rp, wp) && 0 < size < n
    requires added == if size <= Available(n, rp, wp) then size else Available(n, rp, wp)
    requires wp' == Advance(n, wp, added)
    ensures Occupied(n, start, ds + [Layout(size, wp')], rp, wp') <==> size <= Available(n, rp, wp)
  {
    var done := Ahead(n, start, rp);
    var rest, d := Rest(ds, done), Layout(size, wp');
    Accounting(n, start, ds, rp, wp);
    Extend(n, rp, rest, size, added);
    RestAppend(ds, d, done);
    QueuedShape(n, start, ds, rp, wp', d, rest + [d]);
  }

  /** What remains to be seen of a ring with one more descriptor. */
  lemma QueuedShape(n: nat, start: nat, ds: seq<Layout>, rp: nat, wp': nat, d: Layout, rest: seq<Layout>)
    requires start < n && rp < n && wp' < n && d.db == wp' && 0 < d.size < n
    requires var done := Ahead(n, start, rp);
             && (ds == [] ==> done == 0 && start == rp)
             && (ds != [] ==> done < ds[0].size < n && ds[0].db == Advance(n, start, ds[0].size))
             && Rest(ds + [d], done) == rest && rest != [] && rest[|rest| - 1] == d
             && (ds == [] ==> rest == [d])
    ensures Occupied(n, start, ds + [d], rp, wp') <==> Chained(n, rp, rest) && Total(rest) < n
  {}

  /** Queueing the last descriptor once more breaks the account unless the
      ring was full. */
  lemma QueueAgain(n: nat, start: nat, ds: seq<Layout>, rp: nat, wp: nat, added: nat)
    requires ds != [] && Occupied(n, start, ds, rp, wp) && added <= Available(n, rp, wp)
    ensures var last, wp' := |ds| - 1, Advance(n, wp, added);
            Occupied(n, start, ds[last := ds[last].(db := wp')], rp, wp') <==> added == 0
  {
    var last, wp', done := |ds| - 1, Advance(n, wp, added), Ahead(n, start, rp);
    var again := ds[last := ds[last].(db := wp')];
    var rest, rest' := Rest(ds, done), Rest(again, done);
    assert rest[..last] == rest'[..last] && rest[last].size == rest'[last].size;
    assert wp == Advance(n, End(rp, rest[..last]), rest[last].size);
    if added == 0 {
      assert again == ds;
    } else {
      assert rest'[last].db == wp' != wp;
      assert !Chained(n, rp, rest');
    }
  }

  /** Every accounted descriptor has been queued. */
  lemma OccupiedIsSet(n: nat, start: nat, ds: seq<Layout>, rp: nat, wp: nat)
    requires Occupied(n, start, ds, rp, wp)
    ensures forall i | 0 <= i < |ds| :: 0 <= ds[i].db < n
  {
    var rest := Rest(ds, Ahead(n, start, rp));
    ChainIsSet(n, rp, rest);
    assert forall i | 0 <= i < |ds| :: rest[i].db == ds[i].db;
  }

  /** An accounted ring with something unfinished never looks empty. */
  lemma OccupiedLooksOccupied(n: nat, start: nat, ds: seq<Layout>, rp: nat, wp: nat)
    requires ds != [] && Occupied(n, start, ds, rp, wp)
    ensures rp != wp
  {
    Accounting(n, start, ds, rp, wp);
    TotalCons(Layout(ds[0].size - Ahead(n, start, rp), ds[0].db), ds[1..]);
  }

  /** A transfer end one element past the descriptor before is never the first
      descriptor's own, when that one has at least two elements; one at the
      descriptor before never is. */
  lemma LateEndIsNotTerminal(n: nat, start: nat, ds: seq<Layout>, rp: nat, wp: nat)
    requires ds != [] && Occupied(n, start, ds, rp, wp)
    ensures 0 <= ds[0].db < n && Previous(n, ds[0].db) != Previous(n, start)
    ensures Previous(n, ds[0].db) == start <==> ds[0].size == 1
  {}

  // ----- event ring

  /** The event ring: the driver hands an element back for every one it takes. */
  class EventRing {
    const elements: nat
    var rp: nat
    var wp: nat

    /** The write pointer stays one element behind the read pointer. */
    ghost predicate Valid()
      reads this
    {
      rp < elements && wp == Previous(elements, rp)
    }

    /** gpi_alloc_ring and the pointer set-up of gpi_alloc_ev_chan. */
    constructor (elements: nat)
      requires elements > 0
      ensures Valid() && this.elements == elements && rp == 0
    {
      this.elements := elements;
      rp, wp := 0, elements - 1;
    }

    /** gpi_ring_recycle_ev_element. */
    method Recycle()
      requires Valid()
      modifies this
      ensures Valid() && rp == Advance(elements, old(rp), if elements > 1 then 1 else 0)
    {
      wp := wp + 1;
      if wp >= elements {
        wp := 0;
      }
      rp := rp + 1;
      if rp >= elements {
        rp := 0;
      }
    }
  }
}
