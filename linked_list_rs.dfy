/** The Rust `LinkedList`: a `Link` is `Empty` or `More(Box<ListElement>)`, modelled by the
    sequence of the elements it leads to. The public operations recurse over the links and
    return `std::io::Result` errors of kind AlreadyExists and NotFound. */
module RustLinkedList {
  import opened Outcomes
  import opened KeyedLists

  /** The io::ErrorKind values the list reports. */
  datatype ListError = AlreadyExists | NotFound

  /** length_recursion(link): one per element until the empty link. */
  function LengthRecursion<D>(link: seq<Element<D>>): (n: int)
    ensures n == |link|
  {
    if |link| == 0 then 0 else 1 + LengthRecursion(link[1..])
  }

  /** insert_recursion(link, k, f): walks to the empty link at the end and replaces it by a
      new element, unless an element on the way already has key `k`. */
  function InsertRecursion<D>(link: seq<Element<D>>, k: int, f: D): (r: Result<seq<Element<D>>, ListError>)
    ensures r.Err? <==> k in Keys(link)
    ensures r.Err? ==> r.error == AlreadyExists
    ensures r.Ok? ==> r.value == link + [Element(k, f)]
  {
    if |link| == 0 then Ok([Element(k, f)])
    else if link[0].key == k then Err(AlreadyExists)
    else
      match InsertRecursion(link[1..], k, f)
      case Ok(rest) =>
        assert [link[0]] + (link[1..] + [Element(k, f)]) == link + [Element(k, f)];
        Ok([link[0]] + rest)
      case Err(e) => Err(e)
  }

  /** delete_recursion(link, k): replaces the first link whose element has key `k` by that
      element's `next` link; reaching the empty link is NotFound. */
  function DeleteRecursion<D>(link: seq<Element<D>>, k: int): (r: Result<seq<Element<D>>, ListError>)
    ensures r.Ok? <==> k in Keys(link)
    ensures r.Err? ==> r.error == NotFound
    ensures r.Ok? ==> var i := KeyIndex(link, k); r.value == link[..i] + link[i + 1..]
  {
    if |link| == 0 then Err(NotFound)
    else if link[0].key == k then Ok(link[1..])
    else
      match DeleteRecursion(link[1..], k)
      case Ok(rest) =>
        ghost var i := KeyIndex(link[1..], k);
        assert [link[0]] + (link[1..][..i] + link[1..][i + 1..]) == link[..i + 1] + link[i + 2..];
        Ok([link[0]] + rest)
      case Err(e) => Err(e)
  }

  /** search_recursion(link, k): the payload of the first element with key `k`. */
  function SearchRecursion<D>(link: seq<Element<D>>, k: int): (r: Option<D>)
    ensures r.Some? <==> k in Keys(link)
    ensures r.Some? ==> r.value == link[KeyIndex(link, k)].data
  {
    if |link| == 0 then None
    else if link[0].key == k then Some(link[0].data)
    else SearchRecursion(link[1..], k)
  }

  class LinkedList<D> {
    var head: seq<Element<D>>

    /** Insert rejects a key that is present, so keys are pairwise distinct. */
    ghost predicate Valid()
      reads this
    {
      UniqueKeys(head)
    }

    /** new(): the empty list. */
    constructor ()
      ensures Valid() && head == [] && ListLength() == 0
    {
      head := [];
    }

    /** list_length(): the number of elements. */
    function ListLength(): (n: int)
      reads this
      ensures n == |head|
    {
      LengthRecursion(head)
    }

    /** insert(k, f): appends (k, f) at the end, or fails with AlreadyExists and leaves the
        list as it was when `k` is present. */
    method Insert(k: int, f: D) returns (r: Outcome<ListError>)
      requires Valid()
      modifies this
      ensures Valid()
      ensures r.Fail? <==> k in old(Keys(head))
      ensures r.Fail? ==> r.error == AlreadyExists && head == old(head)
      ensures r.Pass? ==> head == old(head) + [Element(k, f)] && Keys(head) == old(Keys(head)) + {k}
    {
      match InsertRecursion(head, k, f)
      case Ok(link) =>
        AppendKeepsUniqueKeys(head, Element(k, f));
        head := link;
        r := Pass;
      case Err(e) =>
        r := Fail(e);
    }

    /** delete(k): removes the element with key `k`, keeping the order of the others; fails
        with NotFound on an empty list or an absent key. */
    method Delete(k: int) returns (r: Outcome<ListError>)
      requires Valid()
      modifies this
      ensures Valid()
      ensures r.Pass? <==> k in old(Keys(head))
      ensures r.Fail? ==> r.error == NotFound && head == old(head)
      ensures r.Pass? ==>
                var i := KeyIndex(old(head), k);
                && head == old(head)[..i] + old(head)[i + 1..]
                && Keys(head) == old(Keys(head)) - {k}
    {
      if IsEmpty() {
        return Fail(NotFound);
      }
      match DeleteRecursion(head, k)
      case Ok(link) =>
        RemoveKeepsUniqueKeys(head, KeyIndex(head, k));
        head := link;
        r := Pass;
      case Err(e) =>
        r := Fail(e);
    }

    /** search(k): `Some` payload of the first element with key `k`, or `None`. */
    function Search(k: int): (r: Option<D>)
      reads this
      ensures r.Some? <==> k in Keys(head)
      ensures r.Some? ==> r.value == head[KeyIndex(head, k)].data
    {
      SearchRecursion(head, k)
    }

    /** is_empty(): the head link is Empty. */
    function IsEmpty(): (empty: bool)
      reads this
      ensures empty <==> ListLength() == 0
    {
      |head| == 0
    }

    /** clear_list(): the head link becomes Empty. */
    method ClearList()
      modifies this
      ensures Valid() && head == [] && ListLength() == 0
    {
      head := [];
    }
  }

  /** Keys being distinct, search(k) returns the payload of the one element with key `k`. */
  lemma SearchFindsTheStoredPayload<D>(l: LinkedList<D>, k: int, i: int)
    requires l.Valid() && 0 <= i < |l.head| && l.head[i].key == k
    ensures l.Search(k) == Some(l.head[i].data)
  {
    KeyIndexIsTheOnlyOne(l.head, k, i);
  }

  /** Deleting a key just inserted gives back the list as it was. */
  lemma InsertThenDeleteRestores<D>(link: seq<Element<D>>, k: int, f: D)
    requires k !in Keys(link)
    ensures InsertRecursion(link, k, f).Ok?
    ensures DeleteRecursion(InsertRecursion(link, k, f).value, k) == Ok(link)
  {
    var appended := link + [Element(k, f)];
    AppendedKeyIsLast(link, Element(k, f));
    var r := DeleteRecursion(appended, k);
    assert r.value == appended[..|link|] + appended[|link| + 1..];
    assert appended[..|link|] == link;
    assert appended[|link| + 1..] == [];
    assert r.Ok?;
    assert r.value == link;
  }

  /** Searching for a key just inserted finds the payload it was inserted with. */
  lemma InsertThenSearchFinds<D>(link: seq<Element<D>>, k: int, f: D)
    requires k !in Keys(link)
    ensures InsertRecursion(link, k, f).Ok?
    ensures SearchRecursion(InsertRecursion(link, k, f).value, k) == Some(f)
  {
  }
}
