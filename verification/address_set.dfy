/** The set of live mappings (dsb_addr_set), ordered by address, and the fault handler's
    search in it. The owner of a mapping is whatever the framework stores with it. */
module AddressSet {

  datatype Mapping<T> = Mapping(address: nat, allocation: nat, owner: T)

  predicate Apart<T>(m: Mapping<T>, address: nat, allocation: nat) {
    m.address + m.allocation <= address || address + allocation <= m.address
  }

  /** Live mappings are non-empty regions that do not overlap. */
  ghost predicate Disjoint<T>(maps: set<Mapping<T>>) {
    && (forall m :: m in maps ==> m.address > 0 && m.allocation > 0)
    && (forall m, n :: m in maps && n in maps && m != n ==> Apart(m, n.address, n.allocation))
  }

  /** A greatest element of the ordered set: --end(). */
  lemma {:induction false} LastExists<T>(maps: set<Mapping<T>>) returns (last: Mapping<T>)
    requires maps != {}
    ensures last in maps && forall m :: m in maps ==> m.address <= last.address
    decreases |maps|
  {
    var m :| m in maps;
    if maps == {m} {
      last := m;
    } else {
      var rest := LastExists(maps - {m});
      last := if rest.address < m.address then m else rest;
    }
  }

  /** A least element of the ordered set: begin(). */
  lemma {:induction false} FirstExists<T>(maps: set<Mapping<T>>) returns (first: Mapping<T>)
    requires maps != {}
    ensures first in maps && forall m :: m in maps ==> first.address <= m.address
    decreases |maps|
  {
    var m :| m in maps;
    if maps == {m} {
      first := m;
    } else {
      var rest := FirstExists(maps - {m});
      first := if m.address < rest.address then m else rest;
    }
  }

  method Last<T(==)>(maps: set<Mapping<T>>) returns (last: Mapping<T>)
    requires maps != {}
    ensures last in maps && forall m :: m in maps ==> m.address <= last.address
  {
    ghost var someLast := LastExists(maps);
    last :| last in maps && forall m :: m in maps ==> m.address <= last.address;
  }

  method First<T(==)>(maps: set<Mapping<T>>) returns (first: Mapping<T>)
    requires maps != {}
    ensures first in maps && forall m :: m in maps ==> first.address <= m.address
  {
    ghost var someFirst := FirstExists(maps);
    first :| first in maps && forall m :: m in maps ==> first.address <= m.address;
  }

  /** The mapping that starts last at or below an address. */
  predicate StartsLastBelow<T(==)>(maps: set<Mapping<T>>, address: nat, m: Mapping<T>) {
    && m in maps && m.address <= address
    && forall n :: n in maps && n.address <= address ==> n.address <= m.address
  }

  /** An address inside a live mapping belongs to that mapping and no other. */
  lemma InsideIsUnique<T>(maps: set<Mapping<T>>, m: Mapping<T>, address: nat)
    requires Disjoint(maps) && m in maps
    requires m.address <= address < m.address + m.allocation
    ensures forall n :: StartsLastBelow(maps, address, n) <==> n == m
  {
  }

  predicate Free<T(==)>(maps: set<Mapping<T>>, address: nat, allocation: nat) {
    address > 0 && forall m :: m in maps ==> Apart(m, address, allocation)
  }

  /** Some region is free: mmap can always be given an address. */
  lemma RoomExists<T>(maps: set<Mapping<T>>, allocation: nat)
    requires Disjoint(maps)
    ensures exists address: nat :: Free(maps, address, allocation)
  {
    if maps == {} {
      assert Free(maps, 1, allocation);
    } else {
      var last := LastExists(maps);
      var free := last.address + last.allocation;
      forall m | m in maps
        ensures Apart(m, free, allocation)
      {
        assert m == last || Apart(m, last.address, last.allocation);
      }
      assert Free(maps, free, allocation);
    }
  }
}
