/** The catalog `Item` record that the binary search tree is instantiated with. Its
    comparison operators look at the ID only, so a tree of items is ordered by ID and treats
    two items with the same ID as the same value.

    The price is a C++ `float` that is only ever stored and copied; it is modelled as a
    `real`. */
module Items {

  class Item {
    var itemID: int
    var itemName: string
    var itemPrice: real

    /** Item(): ID -1, empty name, price -1.00. */
    constructor Default()
      ensures itemID == -1 && itemName == "" && itemPrice == -1.0
    {
      itemID := -1;
      itemName := "";
      itemPrice := -1.0;
    }

    /** Item(id, name, price): stores the three fields as given. */
    constructor (id: int, name: string, price: real)
      ensures itemID == id && itemName == name && itemPrice == price
    {
      itemID := id;
      itemName := name;
      itemPrice := price;
    }

    /** Item(otherItem): copies the three fields of another item. */
    constructor Copy(otherItem: Item)
      ensures itemID == otherItem.itemID && itemName == otherItem.itemName
      ensures itemPrice == otherItem.itemPrice
    {
      itemID := otherItem.itemID;
      itemName := otherItem.itemName;
      itemPrice := otherItem.itemPrice;
    }

    /** operator=(op): overwrites the three fields with those of `op`; assigning an item to
        itself changes nothing. */
    method Assign(op: Item)
      modifies this
      ensures itemID == old(op.itemID) && itemName == old(op.itemName)
      ensures itemPrice == old(op.itemPrice)
    {
      itemID := op.itemID;
      itemName := op.itemName;
      itemPrice := op.itemPrice;
    }
  }

  /** operator== */
  predicate Same(a: Item, b: Item)
    reads a, b
  {
    a.itemID == b.itemID
  }

  /** operator< */
  predicate Less(a: Item, b: Item)
    reads a, b
  {
    a.itemID < b.itemID
  }

  /** operator> */
  predicate Greater(a: Item, b: Item)
    reads a, b
  {
    a.itemID > b.itemID
  }

  /** The three operators are the comparisons of the IDs; name and price play no part. */
  lemma ComparisonsUseIdOnly(a: Item, b: Item)
    ensures Same(a, b) <==> a.itemID == b.itemID
    ensures Less(a, b) <==> a.itemID < b.itemID
    ensures Greater(a, b) <==> a.itemID > b.itemID
    ensures a.itemName != b.itemName && a.itemID == b.itemID ==> Same(a, b)
  {
  }

  /** For any two items exactly one of `<`, `==` and `>` holds, `>` is `<` with the operands
      swapped, and `<` is transitive: the operators order items totally by ID. */
  lemma ItemOrderIsTotal(a: Item, b: Item, c: Item)
    ensures Less(a, b) || Same(a, b) || Greater(a, b)
    ensures !(Less(a, b) && Same(a, b)) && !(Less(a, b) && Greater(a, b)) && !(Same(a, b) && Greater(a, b))
    ensures Greater(a, b) <==> Less(b, a)
    ensures Less(a, b) && Less(b, c) ==> Less(a, c)
    ensures Same(a, b) && Same(b, c) ==> Same(a, c)
  {
  }
}
