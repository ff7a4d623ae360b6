// The sorted list of bound text domains (intl/bindtextdom.c).
module Bindings {
  import opened Words
  import opened CStrings

  datatype Binding = Binding(domainname: string, dirname: string, codeset: Option<string>, codesetCntr: nat)

  // Strictly ascending in the order of strcmp
  ghost predicate Ascending(bs: seq<Binding>) {
    forall i, j :: 0 <= i < j < |bs| ==> Strcmp(bs[i].domainname, bs[j].domainname) < 0
  }

  // The binding of a domain, wherever in the list
  function Bound(bs: seq<Binding>, name: string): (r: Option<Binding>)
    ensures r.Some? ==> r.value in bs && r.value.domainname == name
    ensures r.None? ==> forall b :: b in bs ==> b.domainname != name
  {
    if bs == [] then None
    else if bs[0].domainname == name then Some(bs[0])
    else Bound(bs[1..], name)
  }

  // The same bindings by name, without their order
  function Table(bs: seq<Binding>): map<string, Binding> {
    if bs == [] then map[] else Table(bs[1..])[bs[0].domainname := bs[0]]
  }

  function BindingOf(bound: map<string, Binding>, name: string): Option<Binding> {
    if name in bound then Some(bound[name]) else None
  }

  lemma {:induction false} TableIsBound(bs: seq<Binding>, name: string)
    ensures BindingOf(Table(bs), name) == Bound(bs, name)
  {
    if bs != [] {
      TableIsBound(bs[1..], name);
    }
  }

  lemma TableWith(bs: seq<Binding>, bs': seq<Binding>, b: Binding)
    requires forall name :: Bound(bs', name) == if name == b.domainname then Some(b) else Bound(bs, name)
    ensures Table(bs') == Table(bs)[b.domainname := b]
  {
    forall name: string
      ensures BindingOf(Table(bs'), name) == BindingOf(Table(bs)[b.domainname := b], name)
    {
      TableIsBound(bs, name);
      TableIsBound(bs', name);
    }
    var t, t' := Table(bs)[b.domainname := b], Table(bs');
    forall name
      ensures name in t <==> name in t'
      ensures name in t ==> t[name] == t'[name]
    {
      assert BindingOf(t', name) == BindingOf(t, name);
    }
  }

  lemma {:induction false} BoundAt(bs: seq<Binding>, i: nat)
    requires Ascending(bs) && i < |bs|
    ensures Bound(bs, bs[i].domainname) == Some(bs[i])
  {
    if i > 0 {
      assert Strcmp(bs[0].domainname, bs[i].domainname) < 0;
      BoundAt(bs[1..], i - 1);
    }
  }

  lemma {:induction false} BoundMiddle(xs: seq<Binding>, b: Binding, ys: seq<Binding>, name: string)
    ensures Bound(xs + [b] + ys, name)
            == if Bound(xs, name).Some? then Bound(xs, name)
               else if name == b.domainname then Some(b)
               else Bound(ys, name)
  {
    var all := xs + [b] + ys;
    if xs == [] {
      assert all[1..] == ys;
    } else {
      assert all[1..] == xs[1..] + [b] + ys;
      BoundMiddle(xs[1..], b, ys, name);
    }
  }

  lemma {:induction false} BoundApart(xs: seq<Binding>, ys: seq<Binding>, name: string)
    ensures Bound(xs + ys, name) == if Bound(xs, name).Some? then Bound(xs, name) else Bound(ys, name)
  {
    if xs == [] {
      assert xs + ys == ys;
    } else {
      assert (xs + ys)[1..] == xs[1..] + ys;
      BoundApart(xs[1..], ys, name);
    }
  }

  lemma NotAfter(bs: seq<Binding>, i: nat, name: string)
    requires Ascending(bs) && i < |bs| && Strcmp(name, bs[i].domainname) < 0
    ensures forall j :: i <= j < |bs| ==> Strcmp(name, bs[j].domainname) < 0
  {
    forall j | i < j < |bs|
      ensures Strcmp(name, bs[j].domainname) < 0
    {
      StrcmpIsTransitive(name, bs[i].domainname, bs[j].domainname);
    }
  }

  // The search loop, which stops early because the list is sorted
  method FindBinding(bs: seq<Binding>, name: string) returns (i: nat)
    requires Ascending(bs)
    ensures i < |bs| ==> Bound(bs, name) == Some(bs[i])
    ensures i >= |bs| ==> Bound(bs, name) == None
  {
    i := 0;
    while i < |bs|
      invariant i <= |bs| && forall j :: 0 <= j < i ==> bs[j].domainname != name
    {
      var compare := Strcmp(name, bs[i].domainname);
      if compare == 0 {
        BoundAt(bs, i);
        return;
      }
      if compare < 0 {
        NotAfter(bs, i, name);
        return |bs|;
      }
      i := i + 1;
    }
  }

  // Putting a new binding where it belongs
  method Enqueue(bs: seq<Binding>, b: Binding) returns (r: seq<Binding>)
    requires Ascending(bs) && Bound(bs, b.domainname) == None
    ensures Ascending(r)
    ensures forall name :: Bound(r, name) == if name == b.domainname then Some(b) else Bound(bs, name)
  {
    var i: nat := 0;
    if bs != [] && Strcmp(b.domainname, bs[0].domainname) >= 0 {
      StrcmpIsAntisymmetric(bs[0].domainname, b.domainname);
      i := 1;
      while i < |bs| && Strcmp(b.domainname, bs[i].domainname) > 0
        invariant 1 <= i <= |bs| && Strcmp(bs[i - 1].domainname, b.domainname) < 0
      {
        StrcmpIsAntisymmetric(bs[i].domainname, b.domainname);
        i := i + 1;
      }
    }
    r := bs[..i] + [b] + bs[i..];
    InsertedAscends(bs, i, b);
    forall name: string
      ensures Bound(r, name) == if name == b.domainname then Some(b) else Bound(bs, name)
    {
      InsertedKeeps(bs, i, b, name);
    }
  }

  lemma InsertedAscends(bs: seq<Binding>, i: nat, b: Binding)
    requires Ascending(bs) && i <= |bs|
    requires i > 0 ==> Strcmp(bs[i - 1].domainname, b.domainname) < 0
    requires i < |bs| ==> Strcmp(b.domainname, bs[i].domainname) < 0
    ensures Ascending(bs[..i] + [b] + bs[i..])
  {
    forall j | 0 <= j < i
      ensures Strcmp(bs[j].domainname, b.domainname) < 0
    {
      if j < i - 1 {
        StrcmpIsTransitive(bs[j].domainname, bs[i - 1].domainname, b.domainname);
      }
    }
    if i < |bs| {
      NotAfter(bs, i, b.domainname);
    }
  }

  lemma BoundInserted(xs: seq<Binding>, b: Binding, ys: seq<Binding>, name: string)
    requires Bound(xs + ys, b.domainname) == None
    ensures Bound(xs + [b] + ys, name) == if name == b.domainname then Some(b) else Bound(xs + ys, name)
  {
    BoundMiddle(xs, b, ys, name);
    BoundApart(xs, ys, name);
    BoundApart(xs, ys, b.domainname);
  }

  lemma InsertedKeeps(bs: seq<Binding>, i: nat, b: Binding, name: string)
    requires Bound(bs, b.domainname) == None && i <= |bs|
    ensures Bound(bs[..i] + [b] + bs[i..], name) == if name == b.domainname then Some(b) else Bound(bs, name)
  {
    assert bs == bs[..i] + bs[i..];
    BoundInserted(bs[..i], b, bs[i..], name);
  }

  lemma BoundReplaced(xs: seq<Binding>, b: Binding, b': Binding, ys: seq<Binding>, name: string)
    requires b'.domainname == b.domainname && Bound(xs, b.domainname) == None
    ensures Bound(xs + [b'] + ys, name) == if name == b.domainname then Some(b') else Bound(xs + [b] + ys, name)
  {
    BoundMiddle(xs, b, ys, name);
    BoundMiddle(xs, b', ys, name);
  }

  lemma NotBefore(bs: seq<Binding>, i: nat)
    requires Ascending(bs) && i < |bs|
    ensures Bound(bs[..i], bs[i].domainname) == None
  {
  }

  lemma ReplacedKeeps(bs: seq<Binding>, i: nat, b: Binding, name: string)
    requires Ascending(bs) && i < |bs| && b.domainname == bs[i].domainname
    ensures Bound(bs[i := b], name) == if name == b.domainname then Some(b) else Bound(bs, name)
  {
    NotBefore(bs, i);
    assert bs == bs[..i] + [bs[i]] + bs[i + 1..];
    assert bs[i := b] == bs[..i] + [b] + bs[i + 1..];
    BoundReplaced(bs[..i], bs[i], b, bs[i + 1..], name);
  }

  // A change of one binding in place
  method Replace(bs: seq<Binding>, i: nat, b: Binding) returns (r: seq<Binding>)
    requires Ascending(bs) && i < |bs| && b.domainname == bs[i].domainname
    ensures Ascending(r)
    ensures forall name :: Bound(r, name) == if name == b.domainname then Some(b) else Bound(bs, name)
  {
    r := bs[i := b];
    forall name: string
      ensures Bound(r, name) == if name == b.domainname then Some(b) else Bound(bs, name)
    {
      ReplacedKeeps(bs, i, b, name);
    }
  }
}
