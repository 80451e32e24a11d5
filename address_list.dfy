/**
 * The per-interface list of addresses already reported (struct addresses_seen).
 * In the C code it is a singly linked list whose last node is always an empty sentinel;
 * its head lives inline in the per-interface array. Here `slots` holds the nodes before
 * the sentinel, in list order, and the sentinel is implicit. A removed address leaves a
 * hole (address NULL, prefix 0) that is never reused.
 */
module AddressList {
  import opened Bytes

  /** One node before the sentinel: a reported (address, prefix) pair, or a hole. */
  datatype Slot = Hole | Entry(address: string, prefix: byte)

  type Chain = seq<Slot>

  /** The pair is recorded in some live node of the chain. */
  predicate Listed(c: Chain, address: string, prefix: byte) {
    exists i :: 0 <= i < |c| && c[i] == Entry(address, prefix)
  }

  /** No pair is recorded in two live nodes. */
  predicate Unique(c: Chain) {
    forall i, j :: 0 <= i < j < |c| && c[i].Entry? ==> c[i] != c[j]
  }

  /** The chain with every live node holding the pair turned into a hole. */
  function Blanked(c: Chain, address: string, prefix: byte): (r: Chain)
    ensures |r| == |c|
  {
    seq(|c|, i requires 0 <= i < |c| => if c[i] == Entry(address, prefix) then Hole else c[i])
  }

  /**
   * Blanking removes the pair, keeps every other pair exactly as listed, and changes
   * nothing when the pair is absent.
   */
  lemma BlankedRemovesOnly(c: Chain, address: string, prefix: byte)
    ensures !Listed(Blanked(c, address, prefix), address, prefix)
    ensures forall a, p :: (a, p) != (address, prefix) ==>
      (Listed(Blanked(c, address, prefix), a, p) <==> Listed(c, a, p))
    ensures !Listed(c, address, prefix) ==> Blanked(c, address, prefix) == c
  {
    var r := Blanked(c, address, prefix);
    forall a, p | (a, p) != (address, prefix)
      ensures Listed(r, a, p) <==> Listed(c, a, p)
    {
      if Listed(c, a, p) {
        var i :| 0 <= i < |c| && c[i] == Entry(a, p);
        assert r[i] == Entry(a, p);
      }
    }
  }

  /** Appending a pair that is not yet listed keeps the chain free of duplicates. */
  lemma AppendKeepsUnique(c: Chain, address: string, prefix: byte)
    requires Unique(c) && !Listed(c, address, prefix)
    ensures Unique(c + [Entry(address, prefix)])
  {
  }

  /** Blanking keeps the chain free of duplicates. */
  lemma BlankKeepsUnique(c: Chain, address: string, prefix: byte)
    requires Unique(c)
    ensures Unique(Blanked(c, address, prefix))
  {
  }

  /** The head node and the nodes chained behind it. */
  class AddressChain {
    var slots: Chain

    /** init_address: the head is the sentinel itself (address NULL, prefix 0, next NULL). */
    constructor ()
      ensures slots == []
    {
      slots := [];
    }

    /**
     * add_address: the sentinel receives the pair and a fresh sentinel is appended.
     * Earlier nodes, holes included, keep their place; holes are not reused.
     */
    method Add(address: string, prefix: byte)
      modifies this
      ensures slots == old(slots) + [Entry(address, prefix)]
      ensures Listed(slots, address, prefix)
    {
      slots := slots + [Entry(address, prefix)];
      assert slots[|slots| - 1] == Entry(address, prefix);
    }

    /**
     * remove_address: every live node equal to the pair becomes a hole; the number of
     * nodes does not change.
     */
    method Remove(address: string, prefix: byte)
      modifies this
      ensures slots == Blanked(old(slots), address, prefix)
      ensures !Listed(slots, address, prefix)
    {
      var i := 0;
      while i < |slots|
        invariant 0 <= i <= |slots| == |old(slots)|
        invariant forall k :: 0 <= k < i ==>
          slots[k] == (if old(slots)[k] == Entry(address, prefix) then Hole else old(slots)[k])
        invariant forall k :: i <= k < |slots| ==> slots[k] == old(slots)[k]
      {
        if slots[i] == Entry(address, prefix) {
          slots := slots[i := Hole];
        }
        i := i + 1;
      }
      BlankedRemovesOnly(old(slots), address, prefix);
    }

    /**
     * match_address: 1 when some live node before the sentinel holds the pair, else 0.
     * Holes and the sentinel never match.
     */
    method Match(address: string, prefix: byte) returns (r: int)
      ensures r == 1 <==> Listed(slots, address, prefix)
      ensures r == 0 <==> !Listed(slots, address, prefix)
    {
      var i := 0;
      while i < |slots|
        invariant 0 <= i <= |slots|
        invariant forall k :: 0 <= k < i ==> slots[k] != Entry(address, prefix)
      {
        if slots[i] != Hole && slots[i] == Entry(address, prefix) {
          return 1;
        }
        i := i + 1;
      }
      return 0;
    }

    /**
     * free_chain: every node behind the head is released and the head is put back in
     * the init_address state, so no pair is listed any more.
     */
    method Free()
      modifies this
      ensures slots == []
      ensures forall a, p :: !Listed(slots, a, p)
    {
      slots := [];
    }
  }
}
