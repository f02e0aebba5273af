/** The C++ `Linked_List`: `head` points at the first `ListItem` of a chain linked by `next`,
    and null ends the chain. The chain is modelled by the sequence of its elements, the head
    first. The recursive lambdas inside Insert, Delete and Search become recursive functions
    on that sequence; a call that returns `false` leaves the chain as it was. */
module CppLinkedList {
  import opened Outcomes
  import opened KeyedLists

  /** The lambda inside Insert, corrected: from `item` on, any element with key `key` makes the
      call fail, the last one included; otherwise a new element is linked after the last. */
  function InsertRecursion<D>(item: seq<Element<D>>, key: int, f: D): (r: Option<seq<Element<D>>>)
    requires item != []
    ensures r.None? <==> key in Keys(item)
    ensures r.Some? ==> r.value == item + [Element(key, f)]
  {
    if item[0].key == key then None
    else if |item| == 1 then Some(item + [Element(key, f)])
    else
      match InsertRecursion(item[1..], key, f)
      case Some(rest) =>
        assert [item[0]] + (item[1..] + [Element(key, f)]) == item + [Element(key, f)];
        Some([item[0]] + rest)
      case None => None
  }

  /** The lambda inside Insert as written: it tests `!item->next` before the key, so the
      element at the end of the chain is never compared with `key`. */
  function InsertRecursionAsWritten<D>(item: seq<Element<D>>, key: int, f: D): (r: Option<seq<Element<D>>>)
    requires item != []
    ensures r.None? <==> key in Keys(item[..|item| - 1])
    ensures r.Some? ==> r.value == item + [Element(key, f)]
  {
    if |item| == 1 then Some(item + [Element(key, f)])
    else if item[0].key == key then None
    else
      assert item[..|item| - 1] == [item[0]] + item[1..][..|item| - 2];
      match InsertRecursionAsWritten(item[1..], key, f)
      case Some(rest) =>
        assert [item[0]] + (item[1..] + [Element(key, f)]) == item + [Element(key, f)];
        Some([item[0]] + rest)
      case None => None
  }

  /** As written, inserting the key of the last element appends a second element with that
      key, so the keys are no longer distinct. */
  lemma InsertAsWrittenDuplicatesTheTailKey<D>(item: seq<Element<D>>, f: D)
    requires item != [] && UniqueKeys(item)
    ensures var key := item[|item| - 1].key;
            && InsertRecursionAsWritten(item, key, f).Some?
            && !UniqueKeys(InsertRecursionAsWritten(item, key, f).value)
            && InsertRecursion(item, key, f).None?
  {
    var key := item[|item| - 1].key;
    KeysAt(item);
    KeysAt(item[..|item| - 1]);
    var r := InsertRecursionAsWritten(item, key, f).value;
    assert r[|item| - 1].key == r[|item|].key;
  }

  /** The lambda inside Delete: looks at the element after `item` and unlinks the first one
      with key `keyToDelete`; the element `item` itself is not compared. */
  function DeleteRecursion<D>(item: seq<Element<D>>, keyToDelete: int): (r: Option<seq<Element<D>>>)
    requires item != []
    ensures r.Some? <==> keyToDelete in Keys(item[1..])
    ensures r.Some? ==>
              var i := 1 + KeyIndex(item[1..], keyToDelete);
              r.value == item[..i] + item[i + 1..]
  {
    if |item| == 1 then None
    else if item[1].key == keyToDelete then Some([item[0]] + item[2..])
    else
      match DeleteRecursion(item[1..], keyToDelete)
      case Some(rest) =>
        ghost var i := 1 + KeyIndex(item[2..], keyToDelete);
        assert item[1..][1..] == item[2..];
        assert [item[0]] + (item[1..][..i] + item[1..][i + 1..]) == item[..i + 1] + item[i + 2..];
        Some([item[0]] + rest)
      case None => None
  }

  /** The lambda inside Search: the data of the first element with key `key`. */
  function SearchRecursion<D>(item: seq<Element<D>>, key: int): (r: Option<D>)
    ensures r.Some? <==> key in Keys(item)
    ensures r.Some? ==> r.value == item[KeyIndex(item, key)].data
  {
    if |item| == 0 then None
    else if item[0].key == key then Some(item[0].data)
    else SearchRecursion(item[1..], key)
  }

  class LinkedList<D> {
    var head: seq<Element<D>>

    /** With Insert corrected, no key is stored twice. */
    ghost predicate Valid()
      reads this
    {
      UniqueKeys(head)
    }

    /** Linked_List(): `head` is null. */
    constructor ()
      ensures Valid() && head == []
    {
      head := [];
    }

    /** ClearList(), corrected: every node is released and `head` becomes null, whatever the
        length of the list (see ClearListAsWritten). */
    method ClearList()
      modifies this
      ensures Valid() && head == []
    {
      head := [];
    }

    /** Insert(key, f), corrected: an empty list gets a one-element chain; otherwise the new
        element is appended unless some element, the last one included, has key `key`. */
    method Insert(key: int, f: D) returns (ok: bool)
      requires Valid()
      modifies this
      ensures Valid()
      ensures ok <==> key !in old(Keys(head))
      ensures !ok ==> head == old(head)
      ensures ok ==> head == old(head) + [Element(key, f)] && Keys(head) == old(Keys(head)) + {key}
    {
      if IsEmpty() {
        head := [Element(key, f)];
        return true;
      }
      match InsertRecursion(head, key, f)
      case Some(chain) =>
        AppendKeepsUniqueKeys(head, Element(key, f));
        head := chain;
        ok := true;
      case None =>
        ok := false;
    }

    /** Delete(keyToDelete): false on an empty list or an absent key; otherwise unlinks the
        first element with that key, the head included, keeping the order of the rest. */
    method Delete(keyToDelete: int) returns (ok: bool)
      requires Valid()
      modifies this
      ensures Valid()
      ensures ok <==> keyToDelete in old(Keys(head))
      ensures !ok ==> head == old(head)
      ensures ok ==>
                var i := KeyIndex(old(head), keyToDelete);
                && head == old(head)[..i] + old(head)[i + 1..]
                && Keys(head) == old(Keys(head)) - {keyToDelete}
    {
      if IsEmpty() {
        return false;
      } else if head[0].key == keyToDelete {
        RemoveKeepsUniqueKeys(head, 0);
        head := head[1..];
        return true;
      }
      match DeleteRecursion(head, keyToDelete)
      case Some(chain) =>
        RemoveKeepsUniqueKeys(head, KeyIndex(head, keyToDelete));
        head := chain;
        ok := true;
      case None =>
        ok := false;
    }

    /** Search(key, retVal): true with the data of the element with key `key` written to
        `*retVal`; false with `*retVal` left as it was. */
    method Search(key: int, retVal: D) returns (found: bool, value: D)
      ensures found <==> key in Keys(head)
      ensures found ==> value == head[KeyIndex(head, key)].data
      ensures !found ==> value == retVal
    {
      match SearchRecursion(head, key)
      case Some(d) =>
        found, value := true, d;
      case None =>
        found, value := false, retVal;
    }

    /** ListLength(): 0 for an empty list, otherwise one plus the number of `next` links
        followed from `head` until the last node. */
    method ListLength() returns (count: int)
      ensures count == |head|
    {
      if IsEmpty() {
        return 0;
      }
      var tmpItem := 0;
      count := 1;
      while tmpItem + 1 < |head|
        invariant 0 <= tmpItem < |head| && count == tmpItem + 1
        decreases |head| - tmpItem
      {
        count := count + 1;
        tmpItem := tmpItem + 1;
      }
    }

    /** isEmpty(): `head` is null. */
    function IsEmpty(): (empty: bool)
      reads this
      ensures empty <==> head == []
    {
      |head| == 0
    }
  }

  /** With distinct keys, Search finds the one element with key `key`. */
  lemma SearchFindsTheStoredPayload<D>(item: seq<Element<D>>, key: int, i: int)
    requires UniqueKeys(item) && 0 <= i < |item| && item[i].key == key
    ensures SearchRecursion(item, key) == Some(item[i].data)
  {
    KeyIndexIsTheOnlyOne(item, key, i);
  }

  /** Unlinking a key just appended gives back the chain as it was. */
  lemma InsertThenDeleteRestores<D>(item: seq<Element<D>>, key: int, f: D)
    requires item != [] && key !in Keys(item)
    ensures InsertRecursion(item, key, f).Some?
    ensures DeleteRecursion(InsertRecursion(item, key, f).value, key) == Some(item)
  {
    var e := Element(key, f);
    var appended := item + [e];
    KeysAt(item);
    assert appended[1..] == item[1..] + [e];
    assert key !in Keys(item[1..]) by {
      KeysAt(item[1..]);
    }
    AppendedKeyIsLast(item[1..], e);
    var r := DeleteRecursion(appended, key);
    assert r.value == appended[..|item|] + appended[|item| + 1..];
    assert appended[..|item|] == item;
    assert appended[|item| + 1..] == [];
    assert r.Some?;
    assert r.value == item;
  }

  /** ClearList() as written, on the chain `link`: it frees the head, keeps `next` as the
      chain after the node just freed and tests `next->next` before any check of `next`, so a
      one-element list dereferences null. On a longer list the loop stops while `next` is the
      last node, which is never freed: `released` counts the nodes freed. */
  method ClearListAsWritten<D>(link: seq<Element<D>>) returns (r: Run<seq<Element<D>>>, released: nat)
    ensures r == NullDereference <==> |link| == 1
    ensures r.Returns? ==> r.value == [] && released == if |link| == 0 then 0 else |link| - 1
  {
    if |link| == 0 {
      return Returns([]), 0;
    }
    var next := link[1..];
    released := 1;
    if next == [] {
      return NullDereference, released;
    }
    while |next| > 1
      invariant 1 <= |next| && next == link[|link| - |next|..]
      invariant released == |link| - |next|
      decreases |next|
    {
      next := next[1..];
      released := released + 1;
    }
    r := Returns([]);
  }
}
