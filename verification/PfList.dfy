// The list of files that a listing is turned into: ls_pflist_add of src/lsparser.c.
module PfList {

  datatype Kind = File | Directory | Nothing | Error

  datatype Entry = Entry(kind: Kind, name: string, mode: nat, size: int)

  class Node {
    const entry: Entry
    var next: Node?

    constructor (entry: Entry, next: Node?)
      ensures this.entry == entry && this.next == next
    {
      this.entry := entry;
      this.next := next;
    }
  }

  // Files, the newest first, and after them directories as they came
  function Files(added: seq<Entry>): seq<Entry> {
    if added == [] then []
    else
      var last := added[|added| - 1];
      (if last.kind == File then [last] else []) + Files(added[..|added| - 1])
  }

  function Directories(added: seq<Entry>): seq<Entry> {
    if added == [] then []
    else
      var last := added[|added| - 1];
      Directories(added[..|added| - 1]) + if last.kind == Directory then [last] else []
  }

  lemma {:induction false} CountsByKind(added: seq<Entry>, e: Entry)
    ensures multiset(Files(added))[e] == if e.kind == File then multiset(added)[e] else 0
    ensures multiset(Directories(added))[e] == if e.kind == Directory then multiset(added)[e] else 0
  {
    if added != [] {
      var n := |added| - 1;
      CountsByKind(added[..n], e);
      assert added == added[..n] + [added[n]];
    }
  }

  // Nothing is lost and nothing else is in the list
  lemma ListedOnce(added: seq<Entry>, e: Entry)
    requires e.kind == File || e.kind == Directory
    ensures multiset(Files(added) + Directories(added))[e] == multiset(added)[e]
  {
    CountsByKind(added, e);
  }

  function Entries(nodes: seq<Node>): seq<Entry> {
    seq(|nodes|, i requires 0 <= i < |nodes| => nodes[i].entry)
  }

  lemma OneMore(added: seq<Entry>, e: Entry)
    ensures Files(added + [e]) + Directories(added + [e])
            == match e.kind
               case File => [e] + (Files(added) + Directories(added))
               case Directory => (Files(added) + Directories(added)) + [e]
               case _ => Files(added) + Directories(added)
  {
    assert (added + [e])[..|added|] == added;
  }

  class List {
    var list: Node?
    var tail: Node?
    ghost var Spine: seq<Node>
    // What was added so far
    ghost var Added: seq<Entry>

    // The list is the spine, linked in order, and the tail is its last node
    ghost predicate Linked()
      reads this`list, this`tail, this`Spine, Spine
    {
      && (forall i, j :: 0 <= i < j < |Spine| ==> Spine[i] != Spine[j])
      && (forall i, j {:trigger Spine[i].next, Spine[j]} :: 0 <= i < |Spine| && j == i + 1 && j < |Spine| ==>
            Spine[i].next == Spine[j])
      && (|Spine| > 0 ==> Spine[|Spine| - 1].next == null)
      && list == (if |Spine| == 0 then null else Spine[0])
      && tail == (if |Spine| == 0 then null else Spine[|Spine| - 1])
    }

    ghost function Contents(): seq<Entry>
      reads this`Spine
    {
      Entries(Spine)
    }

    ghost predicate Valid()
      reads this, Spine
    {
      Linked() && Contents() == Files(Added) + Directories(Added)
    }

    constructor ()
      ensures Valid() && Added == [] && fresh(Spine)
    {
      list, tail := null, null;
      Spine, Added := [], [];
    }

    method PutFirst(e: Entry)
      requires Linked()
      modifies this`list, this`tail, this`Spine
      ensures Linked() && Contents() == [e] + old(Contents()) && forall n :: n in Spine && n !in old(Spine) ==> fresh(n)
    {
      var pf := new Node(e, list);
      list := pf;
      if tail == null {
        tail := pf;
      }
      Spine := [pf] + Spine;
      forall i, j | 0 <= i < |Spine| && j == i + 1 && j < |Spine|
        ensures Spine[i].next == Spine[j]
      {
        assert Spine[j] == old(Spine)[i];
        if i > 0 {
          assert Spine[i] == old(Spine)[i - 1] && old(Spine[i - 1].next) == Spine[i].next;
        }
      }
    }

    method PutLast(e: Entry)
      requires Linked()
      modifies this`list, this`tail, this`Spine, Spine
      ensures Linked() && Contents() == old(Contents()) + [e] && forall n :: n in Spine && n !in old(Spine) ==> fresh(n)
    {
      var pf := new Node(e, null);
      if tail == null {
        list := pf;
      } else {
        tail.next := pf;
      }
      tail := pf;
      Spine := Spine + [pf];
    }

    // ls_pflist_add
    method Add(e: Entry)
      requires Valid()
      modifies this, Spine
      ensures Valid() && Added == old(Added) + [e] && forall n :: n in Spine && n !in old(Spine) ==> fresh(n)
    {
      match e.kind {
        case File =>
          PutFirst(e);
        case Directory =>
          PutLast(e);
        case _ =>
      }
      Added := Added + [e];
      OneMore(old(Added), e);
    }
  }
}
