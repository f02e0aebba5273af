/** What the Rust `LinkedList` and the C++ `Linked_List` have in common: a singly linked
    list of elements, each a key and a payload, appended at the end and looked up by key.

    A chain of nodes is modelled by the sequence of its elements in link order, the head
    first. The payload (an `f64` in Rust, a `float` in C++) is only stored and returned, so it
    is a type parameter. */
module KeyedLists {

  datatype Element<D> = Element(key: int, data: D)

  /** The keys stored in a list. */
  ghost function Keys<D>(s: seq<Element<D>>): set<int>
  {
    if s == [] then {} else {s[0].key} + Keys(s[1..])
  }

  /** No key is stored twice. */
  ghost predicate UniqueKeys<D>(s: seq<Element<D>>)
  {
    forall i, j :: 0 <= i < j < |s| ==> s[i].key != s[j].key
  }

  /** The position of the first element with key `k`. */
  ghost function KeyIndex<D>(s: seq<Element<D>>, k: int): (i: nat)
    requires k in Keys(s)
    ensures i < |s| && s[i].key == k
    ensures forall j :: 0 <= j < i ==> s[j].key != k
  {
    if s[0].key == k then 0 else 1 + KeyIndex(s[1..], k)
  }

  /** A key is stored exactly when some position holds it. */
  lemma {:induction false} KeysAt<D>(s: seq<Element<D>>)
    ensures forall i :: 0 <= i < |s| ==> s[i].key in Keys(s)
    ensures forall k :: k in Keys(s) ==> exists i :: 0 <= i < |s| && s[i].key == k
  {
    if s != [] {
      KeysAt(s[1..]);
      forall k | k in Keys(s) ensures exists i :: 0 <= i < |s| && s[i].key == k {
        if k != s[0].key {
          var i :| 0 <= i < |s[1..]| && s[1..][i].key == k;
          assert s[i + 1].key == k;
        }
      }
    }
  }

  lemma {:induction false} KeysOfAppend<D>(s: seq<Element<D>>, e: Element<D>)
    ensures Keys(s + [e]) == Keys(s) + {e.key}
  {
    if s != [] {
      assert (s + [e])[1..] == s[1..] + [e];
      KeysOfAppend(s[1..], e);
    }
  }

  /** Appending an element with a new key keeps the keys distinct. */
  lemma AppendKeepsUniqueKeys<D>(s: seq<Element<D>>, e: Element<D>)
    requires UniqueKeys(s) && e.key !in Keys(s)
    ensures UniqueKeys(s + [e]) && Keys(s + [e]) == Keys(s) + {e.key}
  {
    KeysAt(s);
    KeysOfAppend(s, e);
  }

  /** Removing the element at position `i` of a list with distinct keys removes its key and
      keeps the others distinct. */
  lemma RemoveKeepsUniqueKeys<D>(s: seq<Element<D>>, i: nat)
    requires UniqueKeys(s) && i < |s|
    ensures UniqueKeys(s[..i] + s[i + 1..])
    ensures Keys(s[..i] + s[i + 1..]) == Keys(s) - {s[i].key}
  {
    var s' := s[..i] + s[i + 1..];
    forall a, b | 0 <= a < b < |s'| ensures s'[a].key != s'[b].key {
      RemovedAt(s, i, a);
      RemovedAt(s, i, b);
    }
    RemovedKeysAreLost(s, i);
    OtherKeysAreKept(s, i);
  }

  lemma RemovedKeysAreLost<D>(s: seq<Element<D>>, i: nat)
    requires UniqueKeys(s) && i < |s|
    ensures Keys(s[..i] + s[i + 1..]) <= Keys(s) - {s[i].key}
  {
    var s' := s[..i] + s[i + 1..];
    KeysAt(s);
    KeysAt(s');
    forall k | k in Keys(s') ensures k in Keys(s) - {s[i].key} {
      var j :| 0 <= j < |s'| && s'[j].key == k;
      RemovedAt(s, i, j);
    }
  }

  lemma OtherKeysAreKept<D>(s: seq<Element<D>>, i: nat)
    requires i < |s|
    ensures Keys(s) - {s[i].key} <= Keys(s[..i] + s[i + 1..])
  {
    var s' := s[..i] + s[i + 1..];
    KeysAt(s);
    KeysAt(s');
    forall k | k in Keys(s) - {s[i].key} ensures k in Keys(s') {
      var j :| 0 <= j < |s| && s[j].key == k;
      if j < i {
        RemovedAt(s, i, j);
      } else {
        RemovedAt(s, i, j - 1);
      }
    }
  }

  /** Where the elements of `s` land once position `i` is removed. */
  lemma RemovedAt<D>(s: seq<Element<D>>, i: nat, j: int)
    requires i < |s| && 0 <= j < |s| - 1
    ensures (s[..i] + s[i + 1..])[j] == if j < i then s[j] else s[j + 1]
  {
  }

  /** With distinct keys, the element with key `k` is the one at KeyIndex(s, k). */
  lemma KeyIndexIsTheOnlyOne<D>(s: seq<Element<D>>, k: int, j: int)
    requires UniqueKeys(s) && 0 <= j < |s| && s[j].key == k
    ensures k in Keys(s) && KeyIndex(s, k) == j
  {
    KeysAt(s);
  }

  /** A key appended to a list that did not hold it is found at the end. */
  lemma AppendedKeyIsLast<D>(s: seq<Element<D>>, e: Element<D>)
    requires e.key !in Keys(s)
    ensures e.key in Keys(s + [e]) && KeyIndex(s + [e], e.key) == |s|
  {
    KeysAt(s);
    KeysOfAppend(s, e);
  }
}
