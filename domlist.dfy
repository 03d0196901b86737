/**
 * The rendered `<ul>` as the handlers of src/main.js see it: a sequence of list
 * items, each keyed by the `data-id` of the book it shows. A lookup by
 * `[data-id=...]` finds the first item in document order.
 */
module DomList {
  import opened Render

  /** The position of the first item with the given id, or |items| if none has it. */
  function FirstIndex(items: seq<Book>, id: string): (r: nat)
    ensures r <= |items|
    ensures r < |items| ==> items[r].id == id
    ensures forall j :: 0 <= j < r ==> items[j].id != id
  {
    if items == [] then 0
    else if items[0].id == id then 0
    else FirstIndex(items[1..], id) + 1
  }

  predicate HasItem(items: seq<Book>, id: string)
  {
    exists j :: 0 <= j < |items| && items[j].id == id
  }

  /** A lookup fails exactly when no item has the id. */
  lemma FirstIndexFound(items: seq<Book>, id: string)
    ensures FirstIndex(items, id) < |items| <==> HasItem(items, id)
  {
  }

  /** `document.querySelector('[data-id=...]')` over the list items. */
  method FindNode(items: seq<Book>, id: string) returns (i: nat)
    ensures i == FirstIndex(items, id)
  {
    i := 0;
    while i < |items| && items[i].id != id
      invariant i <= |items|
      invariant forall j :: 0 <= j < i ==> items[j].id != id
    {
      i := i + 1;
    }
  }

  /** The list after the first item with the id is replaced by `b`, in place. */
  function ReplaceFirst(items: seq<Book>, id: string, b: Book): (r: seq<Book>)
    requires HasItem(items, id)
    ensures |r| == |items|
    ensures r[FirstIndex(items, id)] == b
    ensures forall j :: 0 <= j < |items| && j != FirstIndex(items, id) ==> r[j] == items[j]
  {
    items[FirstIndex(items, id) := b]
  }

  /** The list after the first item with the id is removed; the others keep
      their order. */
  function RemoveFirst(items: seq<Book>, id: string): (r: seq<Book>)
    requires HasItem(items, id)
    ensures |r| == |items| - 1
    ensures forall j :: 0 <= j < FirstIndex(items, id) ==> r[j] == items[j]
    ensures forall j :: FirstIndex(items, id) <= j < |r| ==> r[j] == items[j + 1]
  {
    var i := FirstIndex(items, id);
    items[..i] + items[i + 1..]
  }

  /** Removal takes out exactly one item, one that has the id. */
  lemma RemoveFirstTakesOne(items: seq<Book>, id: string)
    requires HasItem(items, id)
    ensures multiset(RemoveFirst(items, id)) + multiset{items[FirstIndex(items, id)]} == multiset(items)
    ensures items[FirstIndex(items, id)].id == id
  {
    var i := FirstIndex(items, id);
    DropAt(items, i);
  }

  /** Dropping the element at i takes exactly that element out of the multiset. */
  lemma DropAt<T>(s: seq<T>, i: nat)
    requires i < |s|
    ensures multiset(s[..i] + s[i + 1..]) + multiset{s[i]} == multiset(s)
  {
    assert s == s[..i] + [s[i]] + s[i + 1..];
  }

  /** A replacement carrying the same id is found at the same place again. */
  lemma ReplaceFirstKeepsPosition(items: seq<Book>, id: string, b: Book)
    requires HasItem(items, id) && b.id == id
    ensures HasItem(ReplaceFirst(items, id, b), id)
    ensures FirstIndex(ReplaceFirst(items, id, b), id) == FirstIndex(items, id)
  {
    var r := ReplaceFirst(items, id, b);
    var i := FirstIndex(items, id);
    assert r[i].id == id;
    var k := FirstIndex(r, id);
    assert k == i;
  }

  /** Creating a book and then deleting its id restores the list: the new item
      is the first one with that id. */
  lemma CreateThenDeleteRestores(items: seq<Book>, b: Book)
    ensures HasItem([b] + items, b.id)
    ensures RemoveFirst([b] + items, b.id) == items
  {
    assert ([b] + items)[0].id == b.id;
    assert FirstIndex([b] + items, b.id) == 0;
  }
}
