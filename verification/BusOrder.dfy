/** The bus answers by what is mapped, not by the order in which it was registered. */
module BusOrder {
  import opened Words
  import opened Platform

  /** No two slots that cover the address have the same range size. */
  ghost predicate DistinctRanges(slots: seq<Slot>, addr: Word) {
    forall i, j :: 0 <= i < |slots| && 0 <= j < |slots| ==>
      (Covers(slots[i], addr) && Covers(slots[j], addr) && Range(slots[i]) == Range(slots[j]) ==> slots[i] == slots[j])
  }

  /** The same registrations in another order find the same slot when the covering ranges have distinct sizes. */
  lemma OrderDoesNotMatter(slots: seq<Slot>, slots': seq<Slot>, addr: Word)
    requires multiset(slots) == multiset(slots') && DistinctRanges(slots, addr)
    ensures Lookup(slots, addr).Some? == Lookup(slots', addr).Some?
    ensures Lookup(slots, addr).Some? ==> slots[Lookup(slots, addr).value] == slots'[Lookup(slots', addr).value]
  {
    hide Lookup;
    LookupIsSelection(slots, addr);
    LookupIsSelection(slots', addr);
    assert forall s :: s in slots <==> s in multiset(slots);
    assert forall s :: s in slots' <==> s in multiset(slots');
    if Lookup(slots, addr).Some? {
      var k := Lookup(slots, addr).value;
      assert slots[k] in slots';
      var k' := Lookup(slots', addr).value;
      assert slots'[k'] in slots;
    }
    if Lookup(slots', addr).Some? {
      assert slots'[Lookup(slots', addr).value] in slots;
    }
  }

  /** With two covering ranges of equal size the order does matter: the slot registered first wins. */
  lemma TiesGoToTheFirst(a: Slot, b: Slot, addr: Word)
    requires Covers(a, addr) && Covers(b, addr)
    ensures Lookup([a, b], addr) == Some(if Range(a) <= Range(b) then 0 else 1)
  {
    LookupIsSelection([a, b], addr);
    assert [a, b][0] == a && [a, b][1] == b;
    assert Selects([a, b], addr, if Range(a) <= Range(b) then 0 else 1);
  }
}
