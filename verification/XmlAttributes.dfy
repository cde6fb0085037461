/**
  The attributes of elements and the items of the pool they live in.
*/
module XmlAttributes {
  import opened MemPools
  import opened XmlDom

  ghost function Lists(nodes: set<XMLNode>): (lists: map<XMLNode, seq<Attribute>>)
    reads nodes`attributes
    ensures lists.Keys == nodes && forall n :: n in nodes ==> lists[n] == n.attributes
  {
    map n | n in nodes :: n.attributes
  }

  /** Attributes of one element have different names and lie in different items, which are its own. */
  ghost predicate OwnList(attributes: seq<Attribute>, owner: map<Item, XMLNode>, n: XMLNode) {
    && (forall a :: a in attributes ==> a.slot in owner && owner[a.slot] == n)
    && (forall j, k :: 0 <= j < k < |attributes| ==>
          attributes[j].slot != attributes[k].slot && attributes[j].name != attributes[k].name)
  }

  ghost predicate Holds(attributes: seq<Attribute>, slot: Item) {
    exists a :: a in attributes && a.slot == slot
  }

  /** Every item with an owner is exactly one attribute of that element. */
  ghost predicate Listed(lists: map<XMLNode, seq<Attribute>>, owner: map<Item, XMLNode>) {
    && (forall n :: n in lists ==> OwnList(lists[n], owner, n))
    && (forall slot :: slot in owner ==> owner[slot] in lists && Holds(lists[owner[slot]], slot))
  }

  lemma ListedAdded(lists: map<XMLNode, seq<Attribute>>, owner: map<Item, XMLNode>, n: XMLNode, a: Attribute)
    requires Listed(lists, owner) && n in lists && a.slot !in owner && forall b :: b in lists[n] ==> b.name != a.name
    ensures Listed(lists[n := lists[n] + [a]], owner[a.slot := n])
  {
    var after, grown := lists[n := lists[n] + [a]], owner[a.slot := n];
    forall m | m in after
      ensures OwnList(after[m], grown, m)
    {
      assert OwnList(lists[m], owner, m);
    }
    forall slot | slot in grown
      ensures grown[slot] in after && Holds(after[grown[slot]], slot)
    {
      if slot != a.slot {
        var b :| b in lists[owner[slot]] && b.slot == slot;
        assert b in after[owner[slot]];
      } else {
        assert a in after[n];
      }
    }
  }

  ghost function DropAt(attributes: seq<Attribute>, k: nat): seq<Attribute>
    requires k < |attributes|
  {
    attributes[..k] + attributes[k + 1..]
  }

  /** Without the one attribute of that name, the others remain. */
  lemma DroppedByName(attributes: seq<Attribute>, owner: map<Item, XMLNode>, n: XMLNode, k: nat, name: string)
    requires OwnList(attributes, owner, n) && k < |attributes| && attributes[k].name == name
    ensures forall a :: a in DropAt(attributes, k) <==> a in attributes && a.name != name
    ensures forall j :: 0 <= j < |attributes| && attributes[j].name == name ==> j == k
  {
  }

  lemma OwnListDropped(attributes: seq<Attribute>, owner: map<Item, XMLNode>, n: XMLNode, k: nat)
    requires OwnList(attributes, owner, n) && k < |attributes|
    ensures OwnList(DropAt(attributes, k), owner - {attributes[k].slot}, n)
  {
  }

  lemma HoldsDropped(attributes: seq<Attribute>, k: nat, slot: Item)
    requires k < |attributes| && Holds(attributes, slot) && slot != attributes[k].slot
    ensures Holds(DropAt(attributes, k), slot)
  {
  }

  lemma OwnedApart(attributes: seq<Attribute>, owner: map<Item, XMLNode>, n: XMLNode, slot: Item)
    requires OwnList(attributes, owner, n) && slot in owner && owner[slot] != n
    ensures OwnList(attributes, owner - {slot}, n)
  {
  }

  lemma ListedDropped(lists: map<XMLNode, seq<Attribute>>, owner: map<Item, XMLNode>, n: XMLNode, k: nat)
    requires Listed(lists, owner) && n in lists && k < |lists[n]|
    ensures lists[n][k].slot in owner
    ensures Listed(lists[n := DropAt(lists[n], k)], owner - {lists[n][k].slot})
  {
    assert OwnList(lists[n], owner, n) && lists[n][k] in lists[n];
    var gone := lists[n][k].slot;
    var after, left := lists[n := DropAt(lists[n], k)], owner - {gone};
    forall m | m in after
      ensures OwnList(after[m], left, m)
    {
      if m == n {
        OwnListDropped(lists[n], owner, n, k);
      } else {
        OwnedApart(lists[m], owner, m, gone);
      }
    }
    hide OwnList, Holds;
    forall slot | slot in left
      ensures left[slot] in after && Holds(after[left[slot]], slot)
    {
      if owner[slot] == n {
        HoldsDropped(lists[n], k, slot);
      }
    }
  }

  lemma ListedWith(lists: map<XMLNode, seq<Attribute>>, owner: map<Item, XMLNode>, n: XMLNode)
    requires Listed(lists, owner) && n !in lists
    ensures Listed(lists[n := []], owner)
  {
  }

  lemma ListedWithout(lists: map<XMLNode, seq<Attribute>>, owner: map<Item, XMLNode>, n: XMLNode)
    requires Listed(lists, owner) && n in lists && lists[n] == []
    ensures Listed(lists - {n}, owner)
  {
  }

  /** Where the attributes stand: the element, and the position among its attributes. */
  ghost function Places(lists: map<XMLNode, seq<Attribute>>): set<(XMLNode, nat)> {
    set n, k: nat | n in lists && 0 <= k < |lists[n]| :: (n, k)
  }

  ghost function SlotAt(lists: map<XMLNode, seq<Attribute>>, at: (XMLNode, nat)): Item {
    if at.0 in lists && at.1 < |lists[at.0]| then lists[at.0][at.1].slot else Item(0, 0)
  }

  ghost function SlotsAt(lists: map<XMLNode, seq<Attribute>>, places: set<(XMLNode, nat)>): set<Item> {
    set at | at in places :: SlotAt(lists, at)
  }

  lemma SlotsApart(lists: map<XMLNode, seq<Attribute>>, owner: map<Item, XMLNode>, at: (XMLNode, nat),
                   near: (XMLNode, nat))
    requires Listed(lists, owner) && at in Places(lists) && near in Places(lists) && at != near
    ensures SlotAt(lists, at) != SlotAt(lists, near)
  {
  }

  lemma {:induction false} SlotsCount(lists: map<XMLNode, seq<Attribute>>, owner: map<Item, XMLNode>,
                                      places: set<(XMLNode, nat)>)
    requires Listed(lists, owner) && places <= Places(lists)
    ensures |SlotsAt(lists, places)| == |places|
  {
    hide Listed, Places, SlotAt;
    if places == {} {
      assert SlotsAt(lists, places) == {};
    } else {
      var at :| at in places;
      var rest := places - {at};
      SlotsCount(lists, owner, rest);
      forall near | near in rest
        ensures SlotAt(lists, near) != SlotAt(lists, at)
      {
        SlotsApart(lists, owner, at, near);
      }
      assert SlotsAt(lists, places) == SlotsAt(lists, rest) + {SlotAt(lists, at)};
    }
  }

  /** As many items are owned as there are attributes. */
  lemma OwnedCount(lists: map<XMLNode, seq<Attribute>>, owner: map<Item, XMLNode>)
    requires Listed(lists, owner)
    ensures |owner.Keys| == |Places(lists)|
  {
    SlotsCount(lists, owner, Places(lists));
    forall slot | slot in owner
      ensures slot in SlotsAt(lists, Places(lists))
    {
      var a :| a in lists[owner[slot]] && a.slot == slot;
      var k :| 0 <= k < |lists[owner[slot]]| && lists[owner[slot]][k] == a;
      assert (owner[slot], k) in Places(lists) && SlotAt(lists, (owner[slot], k)) == slot;
    }
    forall at | at in Places(lists)
      ensures SlotAt(lists, at) in owner
    {
      assert OwnList(lists[at.0], owner, at.0) && lists[at.0][at.1] in lists[at.0];
    }
    assert SlotsAt(lists, Places(lists)) == owner.Keys;
  }
}
