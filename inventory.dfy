/** Operations on the arrays embedded in a user or an album that several
 *  handlers share: the first-match lookup of `figurasUsuario.find`, the
 *  `$pull` of an id or of every entry for a figure, `$addToSet`, and the
 *  zero-count entries built for a newly adopted album. */
module Inventory {
  import opened Schema

  /** Index of the first entry for figure `f` (`figurasUsuario.find`). */
  function FindEntry(inv: seq<Entry>, f: Id): (r: Option<nat>)
    ensures r.Some? ==> r.value < |inv| && inv[r.value].figura == f
    ensures r.Some? ==> forall j :: 0 <= j < r.value ==> inv[j].figura != f
    ensures r.None? <==> forall j :: 0 <= j < |inv| ==> inv[j].figura != f
  {
    if inv == [] then None
    else if inv[0].figura == f then Some(0)
    else match FindEntry(inv[1..], f)
      case None => None
      case Some(k) => Some(k + 1)
  }

  /** Two inventories list the same figures at the same positions. */
  predicate SameFiguras(a: seq<Entry>, b: seq<Entry>) {
    |a| == |b| && forall j :: 0 <= j < |a| ==> a[j].figura == b[j].figura
  }

  /** The lookup only looks at the figure ids, so changing counts does not
   *  move the first match. */
  lemma FindEntrySameFiguras(a: seq<Entry>, b: seq<Entry>, f: Id)
    requires SameFiguras(a, b)
    ensures FindEntry(a, f) == FindEntry(b, f)
  {
  }

  /** `inv` with entry `k` set to count `c`, everything else as it was. */
  function SetCount(inv: seq<Entry>, k: nat, c: int): (r: seq<Entry>)
    requires k < |inv|
    ensures SameFiguras(inv, r)
    ensures r[k].count == c && r[k].tipo == inv[k].tipo
    ensures forall j :: 0 <= j < |inv| && j != k ==> r[j] == inv[j]
  {
    inv[k := inv[k].(count := c)]
  }

  /** `$pull: { figurasUsuario: { figura: f } }`: every entry for `f` goes,
   *  the others stay in their order. */
  function RemoveFigure(inv: seq<Entry>, f: Id): (r: seq<Entry>)
    ensures forall e :: e in r <==> e in inv && e.figura != f
    ensures |r| <= |inv|
    ensures (forall e :: e in inv ==> e.figura != f) ==> r == inv
  {
    if inv == [] then []
    else if inv[0].figura == f then RemoveFigure(inv[1..], f)
    else [inv[0]] + RemoveFigure(inv[1..], f)
  }

  /** `$pull: { figuras: x }`: every occurrence of `x` goes, the other ids
   *  stay in their order. */
  function RemoveId(ids: seq<Id>, x: Id): (r: seq<Id>)
    ensures forall y :: y in r <==> y in ids && y != x
    ensures |r| <= |ids|
    ensures x !in ids ==> r == ids
  {
    if ids == [] then []
    else if ids[0] == x then RemoveId(ids[1..], x)
    else [ids[0]] + RemoveId(ids[1..], x)
  }

  /** `$pull` works entry by entry: pulling from two pieces and joining
   *  the results is pulling from the joined inventory, so the entries kept
   *  keep their order and their multiplicity. */
  lemma {:induction false} RemoveFigureAppend(a: seq<Entry>, b: seq<Entry>, f: Id)
    ensures RemoveFigure(a + b, f) == RemoveFigure(a, f) + RemoveFigure(b, f)
  {
    if a != [] {
      assert (a + b)[1..] == a[1..] + b;
      RemoveFigureAppend(a[1..], b, f);
    } else {
      assert a + b == b;
    }
  }

  /** A single entry is kept exactly when it is for another figure. */
  lemma RemoveFigureSingle(e: Entry, f: Id)
    ensures RemoveFigure([e], f) == if e.figura == f then [] else [e]
  {
    assert [e][1..] == [];
  }

  /** After the `$pull` the pulled figure is not found any more. */
  lemma RemoveFigureNotFound(inv: seq<Entry>, f: Id)
    ensures FindEntry(RemoveFigure(inv, f), f).None?
  {
    var r := RemoveFigure(inv, f);
    assert forall j :: 0 <= j < |r| ==> r[j] in r;
  }

  /** After the `$pull`, looking up any other figure finds the same entry
   *  as before: the first one for it. */
  lemma {:induction false} RemoveFigureKeepsLookups(inv: seq<Entry>, f: Id, g: Id)
    requires g != f
    ensures FindEntry(RemoveFigure(inv, f), g).Some? <==> FindEntry(inv, g).Some?
    ensures FindEntry(inv, g).Some? ==>
              RemoveFigure(inv, f)[FindEntry(RemoveFigure(inv, f), g).value] == inv[FindEntry(inv, g).value]
  {
    if inv != [] {
      var r' := RemoveFigure(inv[1..], f);
      if inv[0].figura == g {
        assert RemoveFigure(inv, f) == [inv[0]] + r';
        assert FindEntry(RemoveFigure(inv, f), g) == Some(0);
      } else {
        RemoveFigureKeepsLookups(inv[1..], f, g);
        assert FindEntry(inv, g) == match FindEntry(inv[1..], g) case None => None case Some(k) => Some(k + 1);
        if inv[0].figura == f {
          assert RemoveFigure(inv, f) == r';
        } else {
          var r := [inv[0]] + r';
          assert RemoveFigure(inv, f) == r && r[1..] == r';
          assert FindEntry(r, g) == match FindEntry(r', g) case None => None case Some(k) => Some(k + 1);
        }
      }
    }
  }

  /** The same for a list of ids. */
  lemma {:induction false} RemoveIdAppend(a: seq<Id>, b: seq<Id>, x: Id)
    ensures RemoveId(a + b, x) == RemoveId(a, x) + RemoveId(b, x)
  {
    if a != [] {
      assert (a + b)[1..] == a[1..] + b;
      RemoveIdAppend(a[1..], b, x);
    } else {
      assert a + b == b;
    }
  }

  lemma RemoveIdSingle(y: Id, x: Id)
    ensures RemoveId([y], x) == if y == x then [] else [y]
  {
    assert [y][1..] == [];
  }

  /** `$addToSet`: the old list stays as a prefix, `x` is in the result,
   *  and the list grows, by one, exactly when `x` was missing. */
  function AddToSet(ids: seq<Id>, x: Id): (r: seq<Id>)
    ensures forall y :: y in r <==> y in ids || y == x
    ensures ids <= r && |r| <= |ids| + 1
    ensures |r| == |ids| <==> x in ids
  {
    if x in ids then ids else ids + [x]
  }

  /** `album.figuras.map(figId => ({ figura: figId, count: 0 }))`: one
   *  entry per album figure, in album order, each untagged at count 0. */
  function ZeroEntries(ids: seq<Id>): (r: seq<Entry>)
    ensures |r| == |ids|
    ensures forall i :: 0 <= i < |ids| ==> r[i].figura == ids[i]
    ensures forall e :: e in r ==> e.count == 0 && e.tipo.None? && EntryValid(e)
  {
    seq(|ids|, i requires 0 <= i < |ids| => NewEntry(ids[i]))
  }
}
