/** Where the bytes of a memory region live: one or two allocations joined end to end.
    Models the address fields and getOffsetAddr_ of src/utils/lib_mem_region. */
module MemLayout {
  import opened Arithmetic
  import opened Words

  datatype Layout = Layout(addr1: nat, size1: nat, addr2: nat, size2: nat) {

    function Size(): nat { size1 + size2 }

    /** The allocations are not null, lie in the address space and do not overlap. */
    ghost predicate Valid() {
      && (size1 > 0 ==> 0 < addr1 && addr1 + size1 <= TWO64)
      && (size2 > 0 ==> 0 < addr2 && addr2 + size2 <= TWO64)
      && (size1 > 0 && size2 > 0 ==> addr1 + size1 <= addr2 || addr2 + size2 <= addr1)
    }

    /** getOffsetAddr_; the precondition is the assertion it makes. */
    function AddrOf(o: nat): nat
      requires (size1 > 0 && o < size1) || size2 > 0
    {
      if size1 > 0 && o < size1 then addr1 + o else addr2 + (o - size1)
    }

    predicate Mapped(a: nat) {
      addr1 <= a < addr1 + size1 || addr2 <= a < addr2 + size2
    }

    /** The offset whose byte is at address a. */
    function OffsetOf(a: nat): nat
      requires Mapped(a)
    {
      if addr1 <= a < addr1 + size1 then a - addr1 else size1 + (a - addr2)
    }

    /** An object of w bytes at offset o lies inside one allocation. */
    predicate Fits(o: nat, w: nat) {
      o + w <= size1 || (size1 <= o && o + w <= size1 + size2)
    }

    /** Address a holds an eight-byte word. */
    predicate WordAt(a: nat) {
      Mapped(a) && Fits(OffsetOf(a), WORD)
    }
  }

  /** Below the size of the region the assertion of getOffsetAddr_ holds, the address is a
      mapped one, and it determines the offset. */
  lemma AddrRoundTrip(l: Layout, o: nat)
    requires l.Valid() && o < l.Size()
    ensures (l.size1 > 0 && o < l.size1) || l.size2 > 0
    ensures l.Mapped(l.AddrOf(o)) && 0 < l.AddrOf(o) < TWO64
    ensures l.OffsetOf(l.AddrOf(o)) == o
  {}

  /** Objects placed in the region never alias: their address ranges overlap exactly when
      their offset ranges do. */
  lemma ObjectsDisjoint(l: Layout, o: nat, w: nat, p: nat, v: nat)
    requires l.Valid() && w > 0 && v > 0 && l.Fits(o, w) && l.Fits(p, v)
    ensures o + w <= p || p + v <= o <==>
            l.AddrOf(o) + w <= l.AddrOf(p) || l.AddrOf(p) + v <= l.AddrOf(o)
    ensures o != p ==> l.AddrOf(o) != l.AddrOf(p)
  {}

  /** The address that allocNative_ and allocRemote_ take inside a padded allocation. */
  function AlignedAddr(raw: nat, osPage: nat): nat
    requires osPage > 0
  {
    raw + osPage - raw % osPage
  }

  /** It is a page boundary above the raw pointer, it is the first one, and the requested
      size still fits in the allocation of size + osPage bytes. */
  lemma AlignedAddrFits(raw: nat, osPage: nat, size: nat)
    requires osPage > 0
    ensures AlignedAddr(raw, osPage) % osPage == 0
    ensures raw < AlignedAddr(raw, osPage)
    ensures AlignedAddr(raw, osPage) + size <= raw + (size + osPage)
    ensures forall a :: raw < a < AlignedAddr(raw, osPage) ==> a % osPage != 0
  {
    var q := raw / osPage;
    assert raw == q * osPage + raw % osPage;
    assert AlignedAddr(raw, osPage) == (q + 1) * osPage;
    MultipleMod(q + 1, osPage);
    forall a | raw < a < AlignedAddr(raw, osPage) ensures a % osPage != 0 {
      if a % osPage == 0 {
        BetweenMultiples(a / osPage, q, osPage);
      }
    }
  }

  lemma BetweenMultiples(x: nat, q: nat, n: nat)
    requires n > 0
    ensures x * n <= q * n || x * n >= (q + 1) * n
  {
    if x <= q {
      assert (q - x) * n >= 0;
    } else {
      assert (x - q - 1) * n >= 0;
    }
  }
}
