/** The bounded contact list: keep the strongest contacts seen so far. */
module ContactStore {
  import opened Numbers
  import opened Candidates

  datatype Contact = Contact(shape: Candidate, x: int, y: int, sensorX: int, sensorY: int)

  ghost function Keys(cs: seq<Contact>): (ks: seq<int>)
    ensures |ks| == |cs| && forall i | 0 <= i < |cs| :: ks[i] == cs[i].shape.strength
  {
    seq(|cs|, i requires 0 <= i < |cs| => cs[i].shape.strength)
  }

  /** kept holds the cap largest keys of all, with multiplicity. */
  ghost predicate Largest(cap: nat, all: multiset<int>, kept: multiset<int>) {
    && kept <= all
    && |kept| == Min(cap, |all|)
    && forall x, y | x in kept && y in all - kept :: x >= y
  }

  lemma NothingLeft(a: multiset<int>, b: multiset<int>)
    requires forall z: int :: b[z] <= a[z]
    ensures b - a == multiset{}
  {
    assert forall z: int :: (b - a)[z] == 0;
  }

  lemma Surplus(a: multiset<int>, b: multiset<int>, x: int) returns (y: int)
    requires |a| == |b| && a[x] > b[x]
    ensures b[y] > a[y]
  {
    if forall z: int :: b[z] <= a[z] {
      NothingLeft(a, b);
    }
    assert x in a - b;
    assert a == (a - b) + (a * b) && b == (b - a) + (b * a) && a * b == b * a;
    assert |b - a| > 0;
    y :| b[y] > a[y];
  }

  lemma Dominates(cap: nat, all: multiset<int>, a: multiset<int>, b: multiset<int>, x: int, y: int)
    requires Largest(cap, all, a) && b <= all
    requires a[x] > b[x] && b[y] > a[y]
    ensures x >= y
  {
    assert y in all - a;
  }

  /** There is only one such multiset. */
  lemma LargestIsUnique(cap: nat, all: multiset<int>, a: multiset<int>, b: multiset<int>)
    requires Largest(cap, all, a) && Largest(cap, all, b)
    ensures a == b
  {
    forall x: int
      ensures a[x] == b[x]
    {
      if a[x] > b[x] {
        var y := Surplus(a, b, x);
        Dominates(cap, all, a, b, x, y);
        Dominates(cap, all, b, a, y, x);
      } else if b[x] > a[x] {
        var y := Surplus(b, a, x);
        Dominates(cap, all, b, a, x, y);
        Dominates(cap, all, a, b, y, x);
      }
    }
  }

  /** Sorting and taking the first cap keys gives it too. */
  lemma SortedPrefixIsLargest(cap: nat, s: seq<int>)
    requires forall i, j | 0 <= i < j < |s| :: s[i] >= s[j]
    ensures Largest(cap, multiset(s), multiset(s[..Min(cap, |s|)]))
  {
    var k := Min(cap, |s|);
    var front, rest := s[..k], s[k..];
    assert s == front + rest;
    assert multiset(s) - multiset(front) == multiset(rest);
    forall x, y | x in multiset(front) && y in multiset(rest)
      ensures x >= y
    {
      var i :| 0 <= i < |front| && front[i] == x;
      var j :| 0 <= j < |rest| && rest[j] == y;
      assert s[i] == x && s[k + j] == y;
    }
  }

  /** A new key that replaces the least kept key. */
  lemma Replace(cap: nat, all: multiset<int>, kept: multiset<int>, least: int, key: int)
    requires Largest(cap, all, kept) && |kept| == cap
    requires least in kept && forall x | x in kept :: least <= x
    ensures key > least ==> Largest(cap, all + multiset{key}, kept - multiset{least} + multiset{key})
    ensures key <= least ==> Largest(cap, all + multiset{key}, kept)
  {
    var all', rest := all + multiset{key}, all - kept;
    if key > least {
      var kept' := kept - multiset{least} + multiset{key};
      assert all' - kept' == rest + multiset{least};
    } else {
      assert all' - kept == rest + multiset{key};
    }
  }

  lemma Append(cap: nat, all: multiset<int>, kept: multiset<int>, key: int)
    requires Largest(cap, all, kept) && |kept| < cap
    ensures Largest(cap, all + multiset{key}, kept + multiset{key})
  {
    assert |kept| == |all|;
    assert |all - kept| == 0;
  }

  /** What g6ts_store_contact does to the list. */
  ghost predicate Stored(cap: nat, before: seq<Contact>, c: Contact, after: seq<Contact>) {
    if |before| < cap then after == before + [c]
    else exists w :: WeakestAt(before, w) &&
                     after == if c.shape.strength > before[w].shape.strength then before[w := c] else before
  }

  /** w is the first position of least strength. */
  ghost predicate WeakestAt(cs: seq<Contact>, w: int) {
    && 0 <= w < |cs|
    && (forall i | 0 <= i < |cs| :: cs[w].shape.strength <= cs[i].shape.strength)
    && forall i | 0 <= i < w :: cs[w].shape.strength < cs[i].shape.strength
  }

  lemma FullStoreKeepsLargest(cap: nat, all: multiset<int>, before: seq<Contact>, c: Contact, w: int)
    requires |before| == cap && Largest(cap, all, multiset(Keys(before))) && WeakestAt(before, w)
    ensures var after := if c.shape.strength > before[w].shape.strength then before[w := c] else before;
            Largest(cap, all + multiset{c.shape.strength}, multiset(Keys(after)))
  {
    var key, ks := c.shape.strength, Keys(before);
    forall x | x in multiset(ks)
      ensures ks[w] <= x
    {
      var i :| 0 <= i < |ks| && ks[i] == x;
    }
    assert ks[w] in multiset(ks);
    Replace(cap, all, multiset(ks), ks[w], key);
    UpdatedMultiset(ks, w, key);
    assert Keys(before[w := c]) == ks[w := key];
  }

  /** Streaming replacement refines sort-and-take. */
  lemma StoredKeepsLargest(cap: nat, all: multiset<int>, before: seq<Contact>, c: Contact, after: seq<Contact>)
    requires cap > 0 && |before| <= cap && Largest(cap, all, multiset(Keys(before)))
    requires Stored(cap, before, c, after)
    ensures |after| <= cap && Largest(cap, all + multiset{c.shape.strength}, multiset(Keys(after)))
  {
    if |before| < cap {
      assert Keys(after) == Keys(before) + [c.shape.strength];
      Append(cap, all, multiset(Keys(before)), c.shape.strength);
    } else {
      var w :| WeakestAt(before, w) && after == if c.shape.strength > before[w].shape.strength then before[w := c] else before;
      FullStoreKeepsLargest(cap, all, before, c, w);
    }
  }

  lemma UpdatedMultiset(s: seq<int>, w: int, key: int)
    requires 0 <= w < |s|
    ensures multiset(s[w := key]) == multiset(s) - multiset{s[w]} + multiset{key}
  {}

  class Store {
    const contacts: array<Contact>
    var count: nat

    ghost predicate Valid()
      reads this
    {
      contacts.Length > 0 && count <= contacts.Length
    }

    ghost function Kept(): seq<Contact>
      requires Valid()
      reads this, contacts
    {
      contacts[..count]
    }

    constructor (capacity: nat, blank: Contact)
      requires capacity > 0
      ensures Valid() && contacts.Length == capacity && count == 0 && fresh(contacts)
    {
      contacts := new Contact[capacity](_ => blank);
      count := 0;
    }

    /** g6ts_store_contact. */
    method Put(c: Contact)
      requires Valid()
      modifies this`count, contacts
      ensures Valid() && Stored(contacts.Length, old(Kept()), c, Kept())
    {
      if count < contacts.Length {
        contacts[count] := c;
        count := count + 1;
        return;
      }
      var weakest := 0;
      for i := 1 to contacts.Length
        invariant 0 <= weakest < i
        invariant forall k | 0 <= k < i :: contacts[weakest].shape.strength <= contacts[k].shape.strength
        invariant forall k | 0 <= k < weakest :: contacts[weakest].shape.strength < contacts[k].shape.strength
      {
        if contacts[i].shape.strength < contacts[weakest].shape.strength {
          weakest := i;
        }
      }
      assert WeakestAt(contacts[..count], weakest);
      if c.shape.strength > contacts[weakest].shape.strength {
        ghost var before := contacts[..count];
        contacts[weakest] := c;
        assert contacts[..count] == before[weakest := c];
      }
    }
  }
}
