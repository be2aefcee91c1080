/** The framework around the datasets: the address-ordered set of live mappings, the
    page-fault handler that resolves an address to its dataset, CPU accesses, resizing
    of a whole storage type, registration, and kernel launches. */
module Framework {
  import opened Coherence
  import opened CoherenceRuns
  import opened DataSets
  import opened AddressSet

  lemma OffsetInside(at: nat, size: nat, bytes: nat)
    requires at < size && bytes > 0
    ensures 0 <= at * bytes < size * bytes
  {
    assert (at + 1) * bytes <= size * bytes;
  }

  lemma OffsetInsideOrEmpty(size: nat, bytes: nat)
    requires bytes > 0
    ensures size > 0 ==> size * bytes > 0
  {
    if size > 0 {
      OffsetInside(0, size, bytes);
    }
  }

  lemma MultipleOfPage(page: nat, pages: nat)
    requires page > 0
    ensures page * pages % page == 0
  {
    var c := page * pages;
    var d := pages - c / page;
    assert d * page == c % page;
    assert d >= 1 ==> d * page >= page;
    assert d < 0 ==> d * page < 0;
  }

  lemma RoundUp(bytes: nat, page: nat)
    requires page > 0
    ensures var pages := bytes / page + (if bytes % page != 0 then 1 else 0);
            bytes <= page * pages < bytes + page && page * pages % page == 0
  {
    assert bytes == page * (bytes / page) + bytes % page;
    var pages := bytes / page + (if bytes % page != 0 then 1 else 0);
    assert page * pages == page * (bytes / page) + page * (if bytes % page != 0 then 1 else 0);
    MultipleOfPage(page, pages);
  }

  class Silo {
    const pageSize: nat
    var inConstOperator: bool
    var addrSet: set<Mapping<DataSet>>
    ghost var datasets: set<DataSet>

    /** A dataset has a mapping exactly when it has elements, and it fits. */
    ghost predicate Placed(d: DataSet)
      reads d
    {
      && d.elementBytes > 0
      && (d.address == 0 <==> |d.host| == 0)
      && (d.registered ==> d.byteSize == d.size * d.elementBytes)
      && (d.address != 0 ==> d.byteSize <= d.allocation)
    }

    /** addrSet is exactly the set of live mappings, each with its own dataset. */
    ghost predicate AddressesExact()
      reads this, datasets
    {
      && Disjoint(addrSet)
      && (forall m :: m in addrSet ==> m.owner in datasets && m == MappingOf(m.owner))
      && (forall d :: d in datasets && d.address != 0 ==> MappingOf(d) in addrSet)
    }

    ghost function MappingOf(d: DataSet): Mapping<DataSet>
      reads d
    {
      Mapping(d.address, d.allocation, d)
    }

    ghost predicate Valid()
      reads this, datasets
    {
      && pageSize > 0
      && (forall d :: d in datasets ==> d.Valid() && Placed(d))
      && AddressesExact()
    }

    constructor (page: nat)
      requires page > 0
      ensures Valid() && datasets == {} && !inConstOperator
    {
      pageSize := page;
      inConstOperator := false;
      addrSet := {};
      datasets := {};
    }

    // ----- new entries -----

    /** create_entry: a registered entry gets its buffer at once, if it has elements; an
        unresolved one, retrieved before it is registered, gets none. It starts a run. */
    method CreateEntry(numEntries: nat, bytes: nat, unresolved: bool) returns (d: DataSet)
      requires Valid() && bytes > 0
      modifies this`addrSet, this`datasets
      ensures Valid() && fresh(d) && datasets == old(datasets) + {d}
      ensures d.registered == !unresolved && d.size == numEntries
      ensures Initial(System(d.State(), inConstOperator, d.logical, d.copies))
      ensures d.logical == if unresolved then [] else Resized([], numEntries)
    {
      d := new DataSet(numEntries, bytes, unresolved);
      GiveBuffer(d);
      datasets := datasets + {d};
      Added(d);
    }

    method GiveBuffer(d: DataSet)
      requires Valid() && d !in datasets && d.elementBytes > 0
               && (d.registered ==> d.byteSize == d.size * d.elementBytes)
      requires d.address == d.allocation == 0 && d.host == d.dev == d.logical == [] && !d.instance && d.prot.FullAccess?
      modifies this`addrSet, d`address, d`allocation, d`host, d`logical
      ensures d.Valid() && Placed(d) && d.logical == d.host == if d.registered then Resized([], d.size) else []
      ensures addrSet == old(addrSet) + (if d.address != 0 then {MappingOf(d)} else {})
      ensures d.address != 0 ==> d.allocation > 0 && Free(old(addrSet), d.address, d.allocation)
    {
      if d.registered && d.size > 0 {
        OffsetInside(0, d.size, d.elementBytes);
        d.address, d.allocation := MapPages(d.byteSize);
        addrSet := addrSet + {Mapping(d.address, d.allocation, d)};
        d.host := Resized([], d.size);
        d.logical := d.host;
      }
    }

    /** Valid() after a new entry. */
    twostate lemma Added(new d: DataSet)
      requires old(Valid()) && fresh(d) && datasets == old(datasets) + {d}
      requires forall e :: e in old(datasets) ==> unchanged(e)
      requires d.Valid() && Placed(d)
      requires addrSet == old(addrSet) + (if d.address != 0 then {MappingOf(d)} else {})
      requires d.address != 0 ==> d.allocation > 0 && Free(old(addrSet), d.address, d.allocation)
      ensures Valid()
    {
      forall m | m in addrSet
        ensures m.owner in datasets && m == MappingOf(m.owner)
      {
        if m != MappingOf(d) {
          assert m in old(addrSet);
        }
      }
      forall e | e in datasets && e.address != 0
        ensures MappingOf(e) in addrSet
      {
        if e != d {
          assert MappingOf(e) == old(MappingOf(e));
        }
      }
    }

    // ----- page faults -----

    /** The handler's search: step back from the first mapping above the address, or look
        at the last one when there is none above; then compare with its last byte. The
        source steps back from begin() when the address is below every mapping. */
    method Locate(address: nat) returns (found: bool, m: Mapping<DataSet>)
      requires Valid() && exists n :: n in addrSet && n.address <= address
      ensures StartsLastBelow(addrSet, address, m)
      ensures found <==> address <= m.address + m.owner.byteSize
    {
      ghost var low :| low in addrSet && low.address <= address;
      var above := set n | n in addrSet && n.address > address;
      if above == {} {
        m := Last(addrSet);
        assert m !in above;
      } else {
        var it := First(above);
        var below := set n | n in addrSet && n.address < it.address;
        assert low in below;
        m := Last(below);
        assert m !in above;
        assert forall n :: n in addrSet && n.address <= address ==> n in below;
      }
      found := address <= m.address + m.owner.byteSize;
    }

    /** The SIGSEGV handler. It answers whether the fault was one of the framework's: the
        address must lie in a dataset's bytes, or just past them, and only that dataset
        is touched. `owner` names it. */
    method PageFault(address: nat, owner: DataSet) returns (handled: bool)
      requires Valid() && owner in datasets && StartsLastBelow(addrSet, address, MappingOf(owner))
      modifies this`inConstOperator, owner
      ensures Valid() && owner.Valid() && Placed(owner)
      ensures handled <==> address <= old(owner.address + owner.byteSize)
      ensures owner.State() == (if handled then Fault(old(owner.State()), old(inConstOperator)) else old(owner.State()))
      ensures owner.copies == old(owner.copies)
              + (if handled then FaultCopies(old(owner.State()), old(inConstOperator)) else 0)
      ensures MappingOf(owner) == old(MappingOf(owner)) && owner.logical == old(owner.logical)
      ensures inConstOperator == (old(inConstOperator) && !handled)
    {
      var found, m := Locate(address);
      assert m == MappingOf(owner) by {
        assert m == MappingOf(owner) || Apart(m, owner.address, owner.allocation);
      }
      if found {
        m.owner.TransferToCpu(if inConstOperator then ReadOnly else Move);
        inConstOperator := false;
        KeepsValid(owner);
        return true;
      }
      return false;
    }

    function FaultCopies(e: Entry, flag: bool): nat {
      ToCpuCopies(e, if flag then ReadOnly else Move)
    }

    /** Every address inside a dataset's bytes is resolved to that dataset and no other. */
    lemma AddressResolvesToItsDataset(d: DataSet, address: nat)
      requires Valid() && d in datasets && d.address != 0
      requires d.address <= address < d.address + d.byteSize
      ensures forall m :: StartsLastBelow(addrSet, address, m) <==> m == MappingOf(d)
    {
      InsideIsUnique(addrSet, MappingOf(d), address);
    }

    /** Valid() survives a change of one dataset that does not touch its mapping. */
    twostate lemma KeepsValid(changed: DataSet)
      requires old(Valid()) && changed in datasets && datasets == old(datasets) && addrSet == old(addrSet)
      requires forall d :: d in datasets && d != changed ==> unchanged(d)
      requires changed.Valid() && Placed(changed)
      requires changed.address == old(changed.address) && changed.allocation == old(changed.allocation)
      ensures Valid()
    {
    }

    // ----- CPU accesses -----

    /** A load or store at an element: retried, one handler run per fault, until the page
        protection permits it. It ends after at most two faults, with coherent data. */
    method ServeAccess(d: DataSet, at: nat, write: bool) returns (faults: nat)
      requires Valid() && d in datasets && at < |d.host|
      modifies this`inConstOperator, d
      ensures Valid() && d.Valid() && Placed(d)
      ensures d.address == old(d.address) && d.allocation == old(d.allocation)
      ensures var r := Serve(old(d.State()), old(inConstOperator), write);
              && d.State() == r.entry && inConstOperator == r.flag && faults == r.faults
              && d.copies == old(d.copies) + r.copies
      ensures d.logical == old(d.logical)
    {
      faults := 0;
      ghost var goal := Serve(d.State(), inConstOperator, write);
      while !Permits(d.prot, write)
        invariant Valid() && d.Valid() && Placed(d)
        invariant d.address == old(d.address) && d.allocation == old(d.allocation)
        invariant d.logical == old(d.logical) && |d.host| == old(|d.host|)
        invariant var r := Serve(d.State(), inConstOperator, write);
                  && goal.entry == r.entry && goal.flag == r.flag && goal.faults == faults + r.faults
                  && old(d.copies) + goal.copies == d.copies + r.copies
        decreases Serve(d.State(), inConstOperator, write).faults
      {
        FaultAt(d, at);
        faults := faults + 1;
      }
    }

    /** One fault at an element of a dataset: the handler finds that dataset. */
    method FaultAt(d: DataSet, at: nat)
      requires Valid() && d in datasets && at < |d.host|
      modifies this`inConstOperator, d
      ensures Valid() && d.Valid() && Placed(d) && !inConstOperator
      ensures d.State() == Fault(old(d.State()), old(inConstOperator))
      ensures d.copies == old(d.copies) + FaultCopies(old(d.State()), old(inConstOperator))
      ensures d.address == old(d.address) && d.allocation == old(d.allocation) && d.logical == old(d.logical)
    {
      var address := d.address + at * d.elementBytes;
      ElementAddress(d, at);
      AddressResolvesToItsDataset(d, address);
      var handled := PageFault(address, d);
      assert handled;
    }

    /** An element of a live dataset lies inside its own byte range. */
    lemma ElementAddress(d: DataSet, at: nat)
      requires Valid() && d in datasets && at < |d.host|
      ensures d.address != 0
      ensures d.address <= d.address + at * d.elementBytes < d.address + d.byteSize
    {
      OffsetInside(at, d.size, d.elementBytes);
    }

    /** Reading through the const operator[]. */
    method ReadConst(d: DataSet, at: nat) returns (value: real, faults: nat)
      requires Valid() && d in datasets && at < |d.host|
      modifies this`inConstOperator, d
      ensures Valid() && d.logical == old(d.logical)
      ensures faults <= 1
      ensures !(old(d.instance) && old(d.cpu).TempWrite?) ==> value == d.logical[at]
      ensures d.State() == Serve(old(d.State()), true, false).entry
      ensures d.copies == old(d.copies) + Serve(old(d.State()), true, false).copies
    {
      inConstOperator := true;
      ServeKeepsCoherence(d.State(), true, false, d.logical);
      faults := ServeAccess(d, at, false);
      value := d.host[at];
    }

    /** Writing through the non-const operator[]: the owner's value changes, scratch does not. */
    method WriteThrough(d: DataSet, at: nat, value: real) returns (faults: nat)
      requires Valid() && d in datasets && at < |d.host|
      modifies this`inConstOperator, d
      ensures Valid()
      ensures faults <= 1 && Stored(d, false, at, value)
      ensures d.logical == if old(d.instance) && old(d.cpu).TempWrite? then old(d.logical)
              else old(d.logical)[at := value]
      ensures !(old(d.instance) && old(d.cpu).TempWrite?) ==> d.host == d.logical
    {
      inConstOperator := false;
      faults := StoreServed(d, at, value);
    }

    /** Writing through a raw pointer: the flag is whatever the last operator left. */
    method WriteRaw(d: DataSet, at: nat, value: real) returns (faults: nat)
      requires Valid() && d in datasets && at < |d.host|
      modifies this`inConstOperator, d
      ensures Valid()
      ensures faults <= 2 && (faults == 2 ==> old(inConstOperator))
      ensures Stored(d, old(inConstOperator), at, value)
      ensures d.logical == if old(d.instance) && old(d.cpu).TempWrite? then old(d.logical)
              else old(d.logical)[at := value]
      ensures !(old(d.instance) && old(d.cpu).TempWrite?) ==> d.host == d.logical
    {
      faults := StoreServed(d, at, value);
    }

    /** The access is served, then the element replaced in the buffer. */
    twostate predicate Stored(d: DataSet, flag: bool, at: nat, value: real)
      reads this, d
    {
      WellFormed(old(d.State())) &&
      var r := Serve(old(d.State()), flag, true);
      && d.State() == r.entry.(host := Poke(r.entry.host, at, value))
      && inConstOperator == r.flag && d.copies == old(d.copies) + r.copies
    }

    method StoreServed(d: DataSet, at: nat, value: real) returns (faults: nat)
      requires Valid() && d in datasets && at < |d.host|
      modifies this`inConstOperator, d
      ensures Valid() && d.Valid()
      ensures faults == Serve(old(d.State()), old(inConstOperator), true).faults
      ensures Stored(d, old(inConstOperator), at, value)
      ensures d.logical == if old(d.instance) && old(d.cpu).TempWrite? then old(d.logical)
              else old(d.logical)[at := value]
      ensures !(old(d.instance) && old(d.cpu).TempWrite?) ==> d.host == d.logical
    {
      ServeKeepsCoherence(d.State(), inConstOperator, true, d.logical);
      faults := ServeAccess(d, at, true);
      d.host := d.host[at := value];
      if !(d.instance && d.cpu.TempWrite?) {
        d.logical := d.logical[at := value];
      }
      KeepsValid(d);
    }

    // ----- mappings -----

    /** Page-aligned size of an allocation. */
    function AllocationSize(bytes: nat): (r: nat)
      requires pageSize > 0
      ensures bytes <= r < bytes + pageSize && r % pageSize == 0
    {
      var pages := bytes / pageSize + (if bytes % pageSize != 0 then 1 else 0);
      RoundUp(bytes, pageSize);
      pageSize * pages
    }

    /** mmap: some region that no live mapping overlaps. */
    method MapPages(bytes: nat) returns (address: nat, allocation: nat)
      requires Valid() && bytes > 0
      ensures Free(addrSet, address, allocation) && allocation == AllocationSize(bytes)
    {
      allocation := AllocationSize(bytes);
      RoomExists(addrSet, allocation);
      address :| Free(addrSet, address, allocation);
    }

    /** Valid() after one dataset has moved to a region that was free, or has none now. */
    twostate lemma Remapped(d: DataSet)
      requires old(Valid()) && d in datasets && datasets == old(datasets)
      requires forall e :: e in datasets && e != d ==> unchanged(e)
      requires d.Valid() && Placed(d)
      requires addrSet == old(addrSet) - {old(MappingOf(d))} + (if d.address != 0 then {MappingOf(d)} else {})
      requires d.address != 0 ==> d.allocation > 0 && Free(old(addrSet), d.address, d.allocation)
      ensures Valid()
    {
      forall m | m in addrSet
        ensures m.owner in datasets && m == MappingOf(m.owner)
      {
        if m != MappingOf(d) {
          assert m in old(addrSet) && m.owner != d;
        }
      }
      forall e | e in datasets && e.address != 0
        ensures MappingOf(e) in addrSet
      {
        if e != d {
          assert MappingOf(e) == old(MappingOf(e));
        }
      }
    }

    // ----- resizing -----

    /** The host buffer alone: copied through the old pointer, faulting if it must, into a
        new zeroed mapping that takes the old one's place in the set. */
    method MoveToNewPages(d: DataSet, n: nat)
      requires Valid() && d in datasets && d.registered && n > 0
      modifies this`inConstOperator, this`addrSet, d
      ensures var r := if old(d.size) == 0 then Served(old(d.State()), old(inConstOperator), 0, 0)
                       else Serve(old(d.State()), old(inConstOperator), false);
              && d.State() == r.entry.(host := Resized(r.entry.host, n), prot := FullAccess)
              && inConstOperator == r.flag && d.copies == old(d.copies) + r.copies
      ensures d.logical == old(d.logical)
      ensures addrSet == old(addrSet) - {old(MappingOf(d))} + {MappingOf(d)}
      ensures n * d.elementBytes <= d.allocation && Free(old(addrSet), d.address, d.allocation)
    {
      OffsetInside(0, n, d.elementBytes);
      var address, allocation := MapPages(n * d.elementBytes);
      if d.address != 0 {
        var faults := ServeAccess(d, 0, false);
      }
      addrSet := addrSet - {Mapping(d.address, d.allocation, d)} + {Mapping(address, allocation, d)};
      d.address, d.allocation := address, allocation;
      d.host, d.prot := Resized(d.host, n), FullAccess;
    }

    method ReleasePages(d: DataSet)
      requires Valid() && d in datasets
      modifies this`addrSet, d
      ensures d.State() == old(d.State()).(host := [], prot := FullAccess)
      ensures d.address == 0 && d.logical == old(d.logical) && d.copies == old(d.copies)
      ensures addrSet == old(addrSet) - {old(MappingOf(d))}
    {
      if d.address != 0 {
        addrSet := addrSet - {Mapping(d.address, d.allocation, d)};
        d.address, d.allocation := 0, 0;
      }
      d.host, d.prot := [], FullAccess;
    }

    /** The pages of the new size, and the size itself. */
    method ReplacePages(d: DataSet, n: nat)
      requires Valid() && d in datasets && ResizeAllowed(d.State(), n)
      modifies this`inConstOperator, this`addrSet, d
      ensures var r := Repaged(old(d.State()), old(inConstOperator), n);
              && d.State() == r.entry && inConstOperator == r.flag && d.copies == old(d.copies) + r.copies
      ensures d.logical == old(d.logical) && Placed(d)
      ensures addrSet == old(addrSet) - {old(MappingOf(d))} + (if d.address != 0 then {MappingOf(d)} else {})
      ensures d.address != 0 ==> d.allocation > 0 && Free(old(addrSet), d.address, d.allocation)
    {
      OffsetInsideOrEmpty(n, d.elementBytes);
      if n == 0 {
        ReleasePages(d);
      } else if d.registered {
        MoveToNewPages(d, n);
      }
      d.size, d.byteSize := n, n * d.elementBytes;
    }

    /** resize_internal: the host buffer moves to a new zeroed mapping that keeps the common
        prefix, fetched from the device first when only the device is current. */
    method ResizeInternal(d: DataSet, n: nat)
      requires Valid() && d in datasets && ResizeAllowed(d.State(), n)
      modifies this`inConstOperator, this`addrSet, d
      ensures Valid() && d.registered == old(d.registered) && d.size == n
      ensures var r := ResizeEntry(old(d.State()), old(inConstOperator), n);
              && d.State() == r.entry && inConstOperator == r.flag && d.copies == old(d.copies) + r.copies
      ensures d.logical == if d.registered then Resized(old(d.logical), n) else []
    {
      hide Coherent, Resized;
      ResizeKeepsCoherence(d.State(), inConstOperator, n, d.logical);
      ghost var target := ResizeEntry(d.State(), inConstOperator, n);
      ghost var logical := if d.registered then Resized(d.logical, n) else [];
      ReplacePages(d, n);
      d.SetStatusToResized();
      d.logical := logical;
      assert d.State() == target.entry;
      Remapped(d);
    }

    ghost predicate Distinct(entries: seq<DataSet>) {
      forall k, l :: 0 <= k < l < |entries| ==> entries[k] != entries[l]
    }

    /** One of the two loops of silo::resize. */
    method ResizeEach(entries: seq<DataSet>, n: nat)
      requires Valid() && Distinct(entries)
      requires forall k :: 0 <= k < |entries| ==> entries[k] in datasets && ResizeAllowed(entries[k].State(), n)
      modifies this`inConstOperator, this`addrSet, entries
      ensures Valid()
      ensures forall k :: 0 <= k < |entries| ==> ResizedTo(entries[k], n)
    {
      for i := 0 to |entries|
        invariant Valid()
        invariant forall k :: 0 <= k < i ==> ResizedTo(entries[k], n)
        invariant forall k :: i <= k < |entries| ==> unchanged(entries[k])
      {
        ResizeInternal(entries[i], n);
      }
    }

    /** The dataset has the new length and the common prefix of its logical value, zeros
        behind it, wherever the up-to-date copy was. */
    twostate predicate ResizedTo(d: DataSet, n: nat)
      reads d
    {
      && d.size == n && d.registered == old(d.registered)
      && d.logical == if d.registered then Resized(old(d.logical), n) else []
    }

    /** silo::resize for one storage type: every registered and every unresolved entry. */
    method ResizeAll(resolved: seq<DataSet>, unresolved: seq<DataSet>, n: nat)
      requires Valid() && Distinct(resolved + unresolved)
      requires forall d :: d in resolved + unresolved ==> d in datasets && ResizeAllowed(d.State(), n)
      modifies this`inConstOperator, this`addrSet, resolved, unresolved
      ensures Valid()
      ensures forall d :: d in resolved + unresolved ==> ResizedTo(d, n)
    {
      hide Valid, ResizeAllowed, Resized;
      var all := resolved + unresolved;
      assert forall k :: 0 <= k < |resolved| ==> all[k] == resolved[k];
      assert forall k :: 0 <= k < |unresolved| ==> all[|resolved| + k] == unresolved[k];
      assert forall d :: d in resolved ==> d in all;
      ResizeEach(resolved, n);
      ResizeEach(unresolved, n);
    }

    method ZeroedPages(d: DataSet)
      requires Valid() && d in datasets && !d.registered
      modifies this`addrSet, d`address, d`allocation, d`host
      ensures d.host == seq(d.size, i => 0.0)
      ensures d.size * d.elementBytes <= d.allocation && (d.address == 0 <==> d.size == 0)
      ensures addrSet == old(addrSet) - {old(MappingOf(d))} + (if d.address != 0 then {MappingOf(d)} else {})
      ensures d.address != 0 ==> d.allocation > 0 && Free(old(addrSet), d.address, d.allocation)
    {
      OffsetInsideOrEmpty(d.size, d.elementBytes);
      if d.size != 0 {
        d.address, d.allocation := MapPages(d.size * d.elementBytes);
        addrSet := addrSet + {Mapping(d.address, d.allocation, d)};
      }
      d.host := seq(d.size, i => 0.0);
    }

    /** register_entry for a dataset that was retrieved before it existed. */
    method RegisterRetrieved(d: DataSet)
      requires Valid() && d in datasets && !d.registered
      modifies this`addrSet, d
      ensures Valid() && d.registered
      ensures d.State() == Promote(old(d.State()), inConstOperator).entry && d.copies == old(d.copies)
      ensures d.logical == seq(d.size, i => 0.0) && d.size == old(d.size)
    {
      PromoteKeepsCoherence(d.State(), inConstOperator);
      ZeroedPages(d);
      d.prot := FullAccess;
      d.registered, d.byteSize := true, d.size * d.elementBytes;
      d.SetStatusToResized();
      d.logical := seq(d.size, i => 0.0);
      Remapped(d);
    }

    // ----- kernel launches -----

    method SetUpArgument(d: DataSet)
      requires Valid() && d in datasets
      modifies d`instance, d`cpu, d`gpu, d`dev
      ensures Valid() && d.instance && SetUpFrom(old(d.State()), d.State()) && d.copies == old(d.copies)
    {
      var raw: seq<real> :| |raw| == |d.host|;
      d.SetUpDevice(raw);
      KeepsValid(d);
    }

    /** e was set up to now; a new device buffer has whatever contents. */
    ghost predicate SetUpFrom(e: Entry, now: Entry) {
      WellFormed(e) && if e.instance then now == e else |now.dev| == |e.host| && now == SetUp(e, now.dev)
    }

    /** Some contents of a new device buffer of that length; which ones makes no difference to a
        launch (CoherenceRuns.LaunchIgnoresRaw). */
    function Blank(n: nat): (r: seq<real>)
      ensures |r| == n
    {
      seq(n, _ => 0.0)
    }

    /** An argument after the transfer pass. */
    ghost predicate Ready(d: DataSet, isConst: bool)
      reads d
    {
      KernelReady(d.State()) && (!isConst ==> KernelMayWrite(d.State()))
    }

    method TransferArgument(d: DataSet, isConst: bool)
      requires Valid() && d in datasets && d.instance
      modifies d
      ensures Valid() && d.instance && d.logical == old(d.logical) && |d.host| == old(|d.host|)
      ensures d.State() == UseInKernel(old(d.State()), isConst, Blank(|old(d.State()).host|))
      ensures d.copies == old(d.copies) + UseCopies(old(d.State()), isConst)
    {
      var raw: seq<real> :| |raw| == |d.host|;
      UseKeepsCoherence(d.State(), isConst, raw, d.logical);
      UseIgnoresRaw(d.State(), isConst, raw, Blank(|d.host|));
      d.TransferForKernel(isConst, raw);
      KeepsValid(d);
    }

    method WriteArgument(d: DataSet, out: seq<real>)
      requires Valid() && d in datasets && d.instance && |out| == |d.host|
      requires KernelReady(d.State()) && KernelMayWrite(d.State())
      modifies d`dev, d`logical
      ensures Valid() && d.dev == out
      ensures d.logical == if d.gpu.TempWrite? then old(d.logical) else out
    {
      d.WriteOnDevice(out);
      KeepsValid(d);
    }

    method SetUpArguments(args: seq<DataSet>)
      requires Valid()
      requires forall k :: 0 <= k < |args| ==> args[k] in datasets
      modifies args`instance, args`cpu, args`gpu, args`dev
      ensures Valid()
      ensures forall k :: 0 <= k < |args| ==> args[k].instance && SetUpFrom(old(args[k].State()), args[k].State())
    {
      hide Valid;
      for i := 0 to |args|
        invariant Valid()
        invariant forall k :: 0 <= k < i ==> args[k].instance && SetUpFrom(old(args[k].State()), args[k].State())
        invariant forall k :: 0 <= k < |args| ==> args[k] in args[..i] || args[k].State() == old(args[k].State())
        invariant forall k :: 0 <= k < |args| ==> args[k].copies == old(args[k].copies)
      {
        SetUpArgument(args[i]);
      }
    }

    /** Which of the first n occurrences of the dataset are const, in order. */
    function UsesOf(args: seq<DataSet>, isConst: seq<bool>, d: DataSet, n: nat): (r: seq<bool>)
      requires |args| == |isConst| && n <= |args|
      ensures false in r <==> exists k :: 0 <= k < n && args[k] == d && !isConst[k]
      ensures r == [] <==> d !in args[..n]
    {
      if n == 0 then [] else UsesOf(args, isConst, d, n - 1) + if args[n - 1] == d then [isConst[n - 1]] else []
    }

    /** What those occurrences make of a dataset, and the copies they cost. */
    ghost predicate Used(e: Entry, uses: seq<bool>, now: Entry, copies: int) {
      && WellFormed(e) && e.instance
      && now == UseAll(e, uses, Blank(|e.host|)) && copies == LaunchCopies(e, uses, Blank(|e.host|))
    }

    lemma UsedNone(e: Entry)
      requires WellFormed(e) && e.instance
      ensures Used(e, [], e, 0)
    {
    }

    lemma UsedOnce(e: Entry, uses: seq<bool>, isConst: bool, before: Entry, copies: int, now: Entry)
      requires Used(e, uses, before, copies)
      requires WellFormed(before) && before.instance && now == UseInKernel(before, isConst, Blank(|before.host|))
      ensures Used(e, uses + [isConst], now, copies + UseCopies(before, isConst))
    {
      UseAllSnoc(e, uses, isConst, Blank(|e.host|));
      LaunchCopiesSnoc(e, uses, isConst, Blank(|e.host|));
    }

    /** The transfer pass over a launch's arguments, datasets possibly repeated: every dataset
        goes through its own occurrences in order, and ends ready for the kernel. */
    method TransferArguments(args: seq<DataSet>, isConst: seq<bool>)
      requires Valid() && |args| == |isConst|
      requires forall k :: 0 <= k < |args| ==> args[k] in datasets && args[k].instance
      modifies args
      ensures Valid() && forall k :: 0 <= k < |args| ==> args[k].instance
      ensures forall k :: 0 <= k < |args| ==>
              args[k].logical == old(args[k].logical) && |args[k].host| == old(|args[k].host|)
      ensures forall k :: 0 <= k < |args| ==> Ready(args[k], isConst[k])
      ensures forall k :: 0 <= k < |args| ==>
                Used(old(args[k].State()), UsesOf(args, isConst, args[k], |args|), args[k].State(),
                     args[k].copies - old(args[k].copies))
    {
      hide Valid, Ready, Used, UseInKernel, UsesOf, DataSet.State, WellFormed, Coherent, Transferred;
      AllCoherent(args);
      NoneUsed(args, isConst);
      forall k | 0 <= k < |args|
        ensures Transferred(args[k], args[k].State(), args[k].logical, |args[k].host|, args[k].copies,
                            UsesOf(args, isConst, args[k], 0))
      {
        IsTransferred(args[k], args[k].State(), args[k].copies, UsesOf(args, isConst, args[k], 0));
      }
      for i := 0 to |args|
        invariant Valid()
        invariant forall k :: 0 <= k < |args| ==>
                    Transferred(args[k], old(args[k].State()), old(args[k].logical), old(|args[k].host|),
                                old(args[k].copies), UsesOf(args, isConst, args[k], i))
      {
        var d := args[i];
        ghost var uses, before, copies := UsesOf(args, isConst, d, i), d.State(), d.copies - old(d.copies);
        TransferredMeans(d, old(d.State()), old(d.logical), old(|d.host|), old(d.copies), uses);
        DatasetWellFormed(d);
        TransferArgument(d, isConst[i]);
        UsedOnce(old(d.State()), uses, isConst[i], before, copies, d.State());
        IsTransferred(d, old(d.State()), old(d.copies), uses + [isConst[i]]);
        OtherUses(args, isConst, i);
      }
      forall k | 0 <= k < |args|
        ensures args[k].instance && Ready(args[k], isConst[k])
                && args[k].logical == old(args[k].logical) && |args[k].host| == old(|args[k].host|)
                && Used(old(args[k].State()), UsesOf(args, isConst, args[k], |args|), args[k].State(),
                        args[k].copies - old(args[k].copies))
      {
        TransferredMeans(args[k], old(args[k].State()), old(args[k].logical), old(|args[k].host|), old(args[k].copies),
                         UsesOf(args, isConst, args[k], |args|));
        UsedIsReady(args, isConst, k, old(args[k].State()), old(args[k].logical), args[k].copies - old(args[k].copies));
      }
    }

    /** From that entry, array and count of copies on, d has gone through these occurrences. */
    ghost predicate Transferred(d: DataSet, e: Entry, logical: seq<real>, size: nat, copies: int, uses: seq<bool>)
      reads d
    {
      d.instance && d.logical == logical && |d.host| == size && Used(e, uses, d.State(), d.copies - copies)
    }

    lemma TransferredMeans(d: DataSet, e: Entry, logical: seq<real>, size: nat, copies: int, uses: seq<bool>)
      requires Transferred(d, e, logical, size, copies, uses)
      ensures d.instance && d.logical == logical && |d.host| == size
      ensures Used(e, uses, d.State(), d.copies - copies)
    {
    }

    lemma IsTransferred(d: DataSet, e: Entry, copies: int, uses: seq<bool>)
      requires d.instance && Used(e, uses, d.State(), d.copies - copies)
      ensures Transferred(d, e, d.logical, |d.host|, copies, uses)
    {
    }

    lemma UsedIsReady(args: seq<DataSet>, isConst: seq<bool>, k: nat, e: Entry, logical: seq<real>, copies: int)
      requires |args| == |isConst| && k < |args| && Coherent(e, logical)
      requires Used(e, UsesOf(args, isConst, args[k], |args|), args[k].State(), copies)
      ensures Ready(args[k], isConst[k])
    {
      assert args[k] in args[..|args|];
      UseAllReady(e, UsesOf(args, isConst, args[k], |args|), Blank(|e.host|), logical);
    }

    lemma DatasetWellFormed(d: DataSet)
      requires Valid() && d in datasets
      ensures WellFormed(d.State()) && d.State().instance == d.instance
    {
    }

    lemma NoneUsed(args: seq<DataSet>, isConst: seq<bool>)
      requires |args| == |isConst| && forall k :: 0 <= k < |args| ==> WellFormed(args[k].State()) && args[k].instance
      ensures forall k :: 0 <= k < |args| ==>
              Used(args[k].State(), UsesOf(args, isConst, args[k], 0), args[k].State(), 0)
    {
    }

    lemma OtherUses(args: seq<DataSet>, isConst: seq<bool>, i: nat)
      requires |args| == |isConst| && i < |args|
      ensures UsesOf(args, isConst, args[i], i + 1) == UsesOf(args, isConst, args[i], i) + [isConst[i]]
      ensures forall k :: 0 <= k < |args| && args[k] != args[i] ==>
              UsesOf(args, isConst, args[k], i + 1) == UsesOf(args, isConst, args[k], i)
    {
    }

    lemma AllCoherent(args: seq<DataSet>)
      requires Valid() && forall k :: 0 <= k < |args| ==> args[k] in datasets
      ensures forall k :: 0 <= k < |args| ==> Coherent(args[k].State(), args[k].logical) && WellFormed(args[k].State())
    {
    }

    /** Every occurrence of the dataset in the argument list is const. */
    ghost predicate OnlyConst(args: seq<DataSet>, isConst: seq<bool>, d: DataSet)
      requires |args| == |isConst|
    {
      forall k :: 0 <= k < |args| && args[k] == d ==> isConst[k]
    }

    /** No later argument writes the same dataset. */
    ghost predicate LastWriter(args: seq<DataSet>, isConst: seq<bool>, k: nat)
      requires |args| == |isConst| && k < |args|
    {
      !isConst[k] && forall l :: k < l < |args| && args[l] == args[k] ==> isConst[l]
    }

    lemma WritersUpTo(args: seq<DataSet>, isConst: seq<bool>, i: nat)
      requires |args| == |isConst| && i < |args|
      ensures isConst[i] ==> !LastWriter(args, isConst, i)
      ensures !isConst[i] ==>
                forall k :: 0 <= k < |args| && args[k] == args[i] ==>
                  !OnlyConst(args, isConst, args[k]) && (k < i ==> !LastWriter(args, isConst, k))
    {
    }

    /** A kernel changes the device buffer, and not that of an argument that is const. */
    ghost predicate Computed(e: Entry, onlyConst: bool, now: Entry) {
      now == e.(dev := now.dev) && (onlyConst ==> now == e)
    }

    /** Extraction check and kernel: what it leaves in its non-const arguments. */
    method RunKernel(args: seq<DataSet>, isConst: seq<bool>, out: seq<seq<real>>)
      requires Valid() && |args| == |isConst| == |out|
      requires forall k :: 0 <= k < |args| ==> args[k] in datasets && args[k].instance && |out[k]| == |args[k].host|
      requires forall k :: 0 <= k < |args| ==> Ready(args[k], isConst[k])
      modifies args`dev, args`logical
      ensures Valid()
      ensures forall k :: 0 <= k < |args| ==> KernelReady(args[k].State())
      ensures forall k :: 0 <= k < |args| ==>
              Computed(old(args[k].State()), OnlyConst(args, isConst, args[k]), args[k].State())
      ensures forall k :: 0 <= k < |args| && (args[k].gpu.TempWrite? || OnlyConst(args, isConst, args[k])) ==>
                args[k].logical == old(args[k].logical)
      ensures forall k :: 0 <= k < |args| && LastWriter(args, isConst, k) ==>
                args[k].dev == out[k] && (!args[k].gpu.TempWrite? ==> args[k].logical == out[k])
    {
      hide Valid, OnlyConst, LastWriter;
      for i := 0 to |args|
        invariant Valid()
        invariant forall k :: 0 <= k < |args| ==> |args[k].dev| == |args[k].host|
        invariant forall k :: 0 <= k < |args| && OnlyConst(args, isConst, args[k]) ==> args[k].dev == old(args[k].dev)
        invariant forall k :: 0 <= k < |args| && (args[k].gpu.TempWrite? || OnlyConst(args, isConst, args[k])) ==>
                    args[k].logical == old(args[k].logical)
        invariant forall k :: 0 <= k < i && LastWriter(args, isConst, k) ==>
                    args[k].dev == out[k] && (!args[k].gpu.TempWrite? ==> args[k].logical == out[k])
      {
        // The check of extract_gpu_data_for_kernel.
        assert args[i].gpu != OutOfDate && args[i].gpu != ResizedOnCpu;
        WritersUpTo(args, isConst, i);
        if !isConst[i] {
          WriteArgument(args[i], out[i]);
        }
      }
    }

    /** What set-up and the occurrences make of a dataset, and the copies they cost. */
    ghost predicate Readied(e: Entry, uses: seq<bool>, now: Entry, copies: int) {
      && WellFormed(e)
      && var raw := Blank(|e.host|);
         now == UseAll(SetUp(e, raw), uses, raw) && copies == LaunchCopies(SetUp(e, raw), uses, raw)
    }

    lemma ReadiedBy(e: Entry, uses: seq<bool>, ready: Entry, now: Entry, copies: int)
      requires uses != [] && SetUpFrom(e, ready) && Used(ready, uses, now, copies)
      ensures Readied(e, uses, now, copies)
    {
      if !e.instance {
        LaunchIgnoresRaw(e, uses, ready.dev, Blank(|e.host|));
        UseAllIgnoresRaw(ready, uses, ready.dev, Blank(|e.host|));
        LaunchCopiesIgnoreRaw(ready, uses, ready.dev, Blank(|e.host|));
      }
    }

    method ReadyArguments(args: seq<DataSet>, isConst: seq<bool>)
      requires Valid() && |args| == |isConst|
      requires forall k :: 0 <= k < |args| ==> args[k] in datasets
      modifies args
      ensures Valid() && forall k :: 0 <= k < |args| ==> args[k].instance && Ready(args[k], isConst[k])
      ensures forall k :: 0 <= k < |args| ==>
              args[k].logical == old(args[k].logical) && |args[k].host| == old(|args[k].host|)
      ensures forall k :: 0 <= k < |args| ==>
                Readied(old(args[k].State()), UsesOf(args, isConst, args[k], |args|), args[k].State(),
                        args[k].copies - old(args[k].copies))
    {
      hide Valid, Ready, SetUpFrom, Used, Readied, OnlyConst, UsesOf, DataSet.State;
      SetUpArguments(args);
      label ready:
      TransferArguments(args, isConst);
      forall k | 0 <= k < |args|
        ensures Readied(old(args[k].State()), UsesOf(args, isConst, args[k], |args|), args[k].State(),
                        args[k].copies - old(args[k].copies))
      {
        OnlyConstUses(args, isConst, k);
        ReadiedBy(old(args[k].State()), UsesOf(args, isConst, args[k], |args|), old@ready(args[k].State()),
                  args[k].State(), args[k].copies - old(args[k].copies));
      }
    }

    /** What a launch makes of a dataset with these occurrences: set-up, the occurrences in
        order, and the kernel's values in the device buffer if one of them is not const. */
    ghost predicate Launched(e: Entry, uses: seq<bool>, now: Entry, copies: int) {
      && WellFormed(e)
      && var raw := Blank(|e.host|);
         && now == KernelWrites(UseAll(SetUp(e, raw), uses, raw), uses, now.dev)
         && copies == LaunchCopies(SetUp(e, raw), uses, raw)
    }

    lemma LaunchedBy(e: Entry, uses: seq<bool>, transferred: Entry, now: Entry, copies: int)
      requires Readied(e, uses, transferred, copies) && Computed(transferred, false !in uses, now)
      ensures Launched(e, uses, now, copies)
    {
    }

    /** A launch: set-up and transfer pass, extraction check, then the kernel, which leaves
        `out` in the device buffers of its non-const arguments and nothing else. The last
        value written to a dataset becomes its logical value, unless it was scratch. */
    method LaunchKernel(args: seq<DataSet>, isConst: seq<bool>, out: seq<seq<real>>)
      requires Valid() && |args| == |isConst| == |out|
      requires forall k :: 0 <= k < |args| ==> args[k] in datasets && |out[k]| == |args[k].host|
      modifies args
      ensures Valid()
      ensures forall k :: 0 <= k < |args| ==> KernelReady(args[k].State())
      ensures forall k :: 0 <= k < |args| ==>
                Launched(old(args[k].State()), UsesOf(args, isConst, args[k], |args|), args[k].State(),
                         args[k].copies - old(args[k].copies))
      ensures forall k :: 0 <= k < |args| && (args[k].gpu.TempWrite? || OnlyConst(args, isConst, args[k])) ==>
                args[k].logical == old(args[k].logical)
      ensures forall k :: 0 <= k < |args| && LastWriter(args, isConst, k) ==>
                args[k].dev == out[k] && (!args[k].gpu.TempWrite? ==> args[k].logical == out[k])
    {
      hide Valid, Ready, Readied, Computed, Launched, OnlyConst, LastWriter, UsesOf, DataSet.State, KernelReady;
      ReadyArguments(args, isConst);
      label ready:
      RunKernel(args, isConst, out);
      forall k | 0 <= k < |args|
        ensures Launched(old(args[k].State()), UsesOf(args, isConst, args[k], |args|), args[k].State(),
                         args[k].copies - old(args[k].copies))
      {
        OnlyConstUses(args, isConst, k);
        LaunchedBy(old(args[k].State()), UsesOf(args, isConst, args[k], |args|), old@ready(args[k].State()),
                   args[k].State(), args[k].copies - old(args[k].copies));
      }
    }

    lemma OnlyConstUses(args: seq<DataSet>, isConst: seq<bool>, k: nat)
      requires |args| == |isConst| && k < |args|
      ensures UsesOf(args, isConst, args[k], |args|) != []
      ensures false !in UsesOf(args, isConst, args[k], |args|) <==> OnlyConst(args, isConst, args[k])
    {
      assert args[k] in args[..|args|];
    }

    // ----- dataset-level device copy -----

    method ReadySource(src: DataSet)
      requires Valid() && src in datasets && src.registered
      modifies src`instance, src`cpu, src`gpu, src`dev, src`prot, src`host, src`logical, src`copies
      ensures Valid() && src.instance && Current(src.gpu)
      ensures src.logical == old(src.logical) == src.dev && |src.dev| == |src.host| == old(|src.host|) == src.size
      ensures Lent(old(src.State()), src.State(), src.copies - old(src.copies))
    {
      var raw: seq<real> :| |raw| == |src.host|;
      LendIgnoresRaw(src.State(), raw, Blank(|src.host|));
      if !src.instance {
        src.SetUpDevice(raw);
        src.TransferToGpu(Move, raw);
      } else if src.gpu != UpToDateRead && src.gpu != UpToDateWrite {
        src.TransferToGpu(ReadOnly, raw);
      }
      KeepsValid(src);
    }

    /** What a copy makes of its source, and what it costs. */
    ghost predicate Lent(e: Entry, now: Entry, copies: int) {
      WellFormed(e) && now == LendEntry(e, Blank(|e.host|)) && copies == LendCopies(e, Blank(|e.host|))
    }

    /** What it makes of its destination. */
    ghost predicate Taken(e: Entry, now: Entry) {
      WellFormed(e) && now == TakeEntry(e, Blank(|e.host|), now.dev)
    }

    method ReadyDestination(dest: DataSet)
      requires Valid() && dest in datasets && dest.registered
      modifies dest`instance, dest`cpu, dest`gpu, dest`dev, dest`prot, dest`host, dest`logical, dest`copies
      ensures Valid() && dest.instance && dest.gpu.UpToDateWrite?
      ensures |dest.host| == old(|dest.host|) == dest.size && dest.copies == old(dest.copies)
      ensures Taken(old(dest.State()), dest.State())
      ensures old(dest.instance) && old(Current(dest.gpu)) ==> dest.dev == old(dest.dev)
    {
      var raw: seq<real> :| |raw| == |dest.host|;
      ghost var e := dest.State();
      dest.SetUpDevice(raw);
      dest.TransferToGpu(NotInitialize, raw);
      TakeIgnoresRaw(e, raw, Blank(|e.host|), dest.dev);
      KeepsValid(dest);
    }

    method CopyBuffer(dest: DataSet, src: DataSet)
      requires Valid() && dest in datasets && src in datasets && dest.instance && dest.gpu.UpToDateWrite?
      requires |src.dev| == |dest.host|
      modifies dest`dev, dest`logical
      ensures Valid() && dest.dev == dest.logical == old(src.dev)
      ensures dest.State() == old(dest.State()).(dev := dest.dev)
    {
      dest.dev := src.dev;
      dest.logical := dest.dev;
      KeepsValid(dest);
    }

    /** memcpy_gpu_var between datasets: the destination takes over the source's logical
        value on the device, whichever sides were current before. A step of either run;
        copying a dataset onto itself makes both steps. */
    method CopyDataset(dest: DataSet, src: DataSet)
      requires Valid() && dest in datasets && src in datasets && dest.registered && src.registered
      requires dest.size == src.size > 0
      modifies dest, src
      ensures Valid()
      ensures dest.logical == dest.dev == old(src.logical) && dest.gpu.UpToDateWrite?
      ensures src.logical == old(src.logical)
      ensures dest != src ==>
                && Lent(old(src.State()), src.State(), src.copies - old(src.copies))
                && Taken(old(dest.State()), dest.State()) && dest.copies == old(dest.copies)
      ensures dest == src ==>
              exists lent :: Lent(old(src.State()), lent, src.copies - old(src.copies)) && Taken(lent, src.State())
    {
      hide Lent, Taken, Valid, DataSet.State;
      ReadySource(src);
      ghost var lent := src.State();
      ReadyDestination(dest);
      ghost var taken := dest.State();
      CopyBuffer(dest, src);
      TakenAny(if dest == src then lent else old(dest.State()), taken, dest.State());
    }

    lemma TakenAny(e: Entry, taken: Entry, now: Entry)
      requires Taken(e, taken) && now == taken.(dev := now.dev)
      ensures Taken(e, now)
    {
    }
  }
}
