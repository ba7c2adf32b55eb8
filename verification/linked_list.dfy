/**
 * The singly linked list of developer records: prepend-insert, lookup by id
 * and the guarded insert that refuses invalid records and duplicate ids.
 *
 * A node is never changed after it is linked in (only the list's `head` and
 * `size` are rewritten), so node fields are constants and each node carries,
 * as a ghost constant, the sequence of records from itself to the end.
 */
module DeveloperLists {
  import opened Wrappers
  import opened DeveloperRecords

  /** The first record in `s` whose id is `id`, if any. */
  function FindById(s: seq<Developer>, id: int): (found: Option<Developer>)
    ensures found.Some? ==> found.value in s && found.value.id == id
    ensures found.None? <==> forall i :: 0 <= i < |s| ==> s[i].id != id
  {
    if s == [] then None
    else if s[0].id == id then Some(s[0])
    else FindById(s[1..], id)
  }

  /** The record found is the one nearest the head: no earlier record has that id. */
  lemma {:induction false} FindByIdIsFirstMatch(s: seq<Developer>, id: int, i: int)
    requires 0 <= i < |s| && s[i].id == id
    requires forall j :: 0 <= j < i ==> s[j].id != id
    ensures FindById(s, id) == Some(s[i])
  {
    if i > 0 {
      FindByIdIsFirstMatch(s[1..], id, i - 1);
    }
  }

  ghost predicate UniqueIds(s: seq<Developer>)
  {
    forall i, j :: 0 <= i < j < |s| ==> s[i].id != s[j].id
  }

  ghost predicate AllValid(s: seq<Developer>)
  {
    forall i :: 0 <= i < |s| ==> ValidateDeveloper(s[i])
  }

  /** The list's contents after safeDeveloperInsert. */
  function SafeInsert(s: seq<Developer>, dev: Developer): seq<Developer>
  {
    if ValidateDeveloper(dev) && FindById(s, dev.id).None? then [dev] + s else s
  }

  /** The list's contents after safeDeveloperInsert of each record of `devs` in turn. */
  function SafeInsertAll(s: seq<Developer>, devs: seq<Developer>): seq<Developer>
    decreases devs
  {
    if devs == [] then s else SafeInsertAll(SafeInsert(s, devs[0]), devs[1..])
  }

  /** A list built only by safeDeveloperInsert holds valid records with distinct ids. */
  lemma {:induction false} SafeInsertAllKeepsIdsUnique(s: seq<Developer>, devs: seq<Developer>)
    requires UniqueIds(s) && AllValid(s)
    ensures UniqueIds(SafeInsertAll(s, devs)) && AllValid(SafeInsertAll(s, devs))
    decreases devs
  {
    if devs != [] {
      var s' := SafeInsert(s, devs[0]);
      if s' != s {
        forall i, j | 0 <= i < j < |s'| ensures s'[i].id != s'[j].id {
          if i == 0 {
            assert s'[j] == s[j - 1];
          }
        }
      }
      SafeInsertAllKeepsIdsUnique(s', devs[1..]);
    }
  }

  class Node {
    const data: Developer
    const next: Node?
    ghost const content: seq<Developer>

    ghost predicate Valid()
      decreases |content|
    {
      && |content| > 0
      && content[0] == data
      && (next == null ==> |content| == 1)
      && (next != null ==> next.content == content[1..] && next.Valid())
    }

    constructor (data: Developer, next: Node?)
      requires next != null ==> next.Valid()
      ensures Valid()
      ensures this.data == data && this.next == next
      ensures content == [data] + (if next == null then [] else next.content)
    {
      this.data := data;
      this.next := next;
      content := [data] + (if next == null then [] else next.content);
    }
  }

  class LinkedList {
    var head: Node?
    var size: int
    ghost var Contents: seq<Developer>

    /** `size` is the number of nodes, and the nodes from `head` hold `Contents`. */
    ghost predicate Valid()
      reads this
    {
      && size == |Contents|
      && (head == null ==> Contents == [])
      && (head != null ==> head.Valid() && head.content == Contents)
    }

    /** createLinkedList */
    constructor ()
      ensures Valid() && Contents == [] && size == 0
    {
      head := null;
      size := 0;
      Contents := [];
    }

    /** insertDeveloper: the new record becomes the head. */
    method InsertDeveloper(dev: Developer)
      requires Valid()
      modifies this
      ensures Valid()
      ensures Contents == [dev] + old(Contents)
      ensures size == old(size) + 1
    {
      var newNode := new Node(dev, head);
      head := newNode;
      size := size + 1;
      Contents := [dev] + Contents;
    }

    /** findDeveloperById: walks the nodes from the head. */
    method FindDeveloperById(id: int) returns (found: Option<Developer>)
      requires Valid()
      ensures found == FindById(Contents, id)
    {
      var current := head;
      ghost var i := 0;
      while current != null
        invariant 0 <= i <= |Contents|
        invariant current == null ==> i == |Contents|
        invariant current != null ==> current.Valid() && current.content == Contents[i..]
        invariant FindById(Contents, id) == FindById(Contents[i..], id)
        decreases |Contents| - i
      {
        if current.data.id == id {
          return Some(current.data);
        }
        assert Contents[i..][1..] == Contents[i + 1..];
        current := current.next;
        i := i + 1;
      }
      return None;
    }

    /**
     * safeDeveloperInsert: -1 and no change for an invalid record or an id
     * already present, otherwise 0 and the record is prepended.
     */
    method SafeDeveloperInsert(dev: Developer) returns (status: int)
      requires Valid()
      modifies this
      ensures Valid()
      ensures status == 0 || status == -1
      ensures status == 0 <==> ValidateDeveloper(dev) && FindById(old(Contents), dev.id).None?
      ensures Contents == SafeInsert(old(Contents), dev)
      ensures status == -1 ==> head == old(head) && size == old(size)
    {
      if !ValidateDeveloper(dev) {
        return -1;
      }
      var existing := FindDeveloperById(dev.id);
      if existing.Some? {
        return -1;
      }
      InsertDeveloper(dev);
      return 0;
    }
  }
}
