/** How a product update reconciles the stored variants with the list the
    request sends (ProductService.UpdateAsync): the product's variants the
    list does not name are removed, an entry with an id overwrites that
    variant, an entry without one becomes a new variant, and an id that is
    not one of the product's variants fails the whole update. */
module ProductVariants {
  import opened Common
  import opened Store

  /** The ids the request names: `Where(x => x.Id != null).Select(x => x.Id.Value).ToHashSet()`. */
  function IncomingIds(es: seq<VariantUpdate>): set<int> {
    set i | 0 <= i < |es| && es[i].id.Some? :: es[i].id.value
  }

  /** The ids of the variants stored for product `pid`: the loaded `product.Variants`. */
  function OwnedIds(variants: map<int, ProductVariant>, pid: int): set<int> {
    set k | k in variants && variants[k].productId == pid
  }

  /** The `RemoveRange` of the product's variants whose id is not in `keep`. */
  function RemoveUnlisted(variants: map<int, ProductVariant>, pid: int, keep: set<int>): map<int, ProductVariant> {
    map k | k in variants && (variants[k].productId != pid || k in keep) :: variants[k]
  }

  /** Appending one entry adds at most its id to the named ids. */
  lemma IncomingIdsSnoc(es: seq<VariantUpdate>)
    requires es != []
    ensures var e := es[|es| - 1];
      IncomingIds(es) == IncomingIds(es[..|es| - 1]) + (if e.id.Some? then {e.id.value} else {})
  {
    var p, e := es[..|es| - 1], es[|es| - 1];
    forall k | k in IncomingIds(es)
      ensures k in IncomingIds(p) || e.id == Some(k)
    {
      var i :| 0 <= i < |es| && es[i].id.Some? && es[i].id.value == k;
      if i < |p| {
        assert p[i] == es[i];
      }
    }
    forall k | k in IncomingIds(p)
      ensures k in IncomingIds(es)
    {
      var i :| 0 <= i < |p| && p[i].id.Some? && p[i].id.value == k;
      assert es[i] == p[i];
    }
  }

  /** The fields of the entries without an id, in request order: the
      variants the update inserts. */
  function NewFields(es: seq<VariantUpdate>): (fs: seq<VariantFields>)
    ensures |fs| <= |es|
    ensures forall f :: f in fs <==> exists i :: 0 <= i < |es| && es[i].id.None? && es[i].fields == f
  {
    if es == [] then []
    else
      var e := es[|es| - 1];
      NewFields(es[..|es| - 1]) + (if e.id.None? then [e.fields] else [])
  }

  /** The fields of the last entry naming `k`: the one whose write survives. */
  function LastFields(es: seq<VariantUpdate>, k: int): VariantFields
    requires k in IncomingIds(es)
  {
    IncomingIdsSnoc(es);
    var e := es[|es| - 1];
    if e.id == Some(k) then e.fields else LastFields(es[..|es| - 1], k)
  }

  /** The variants table and its identity counter after some entries. */
  datatype Applied = Applied(variants: map<int, ProductVariant>, next: int)

  /** The `foreach` over the entries, applied to the variants `m` left after
      the removal, `owned` being the product's variants as loaded: `None`
      when an entry's id is not among them (`First` throws). */
  function ApplyEntries(m: map<int, ProductVariant>, owned: set<int>, pid: int, es: seq<VariantUpdate>, next: int)
    : Option<Applied>
  {
    if es == [] then Some(Applied(m, next))
    else
      match ApplyEntries(m, owned, pid, es[..|es| - 1], next)
      case None => None
      case Some(a) =>
        var e := es[|es| - 1];
        match e.id
        case None => Some(Applied(a.variants[a.next := ProductVariant(a.next, pid, e.fields)], a.next + 1))
        case Some(k) =>
          if k in owned then Some(Applied(a.variants[k := ProductVariant(k, pid, e.fields)], a.next)) else None
  }

  /** The whole reconciliation of product `pid`'s variants with the entries. */
  function Reconcile(variants: map<int, ProductVariant>, pid: int, es: seq<VariantUpdate>, next: int): Option<Applied> {
    ApplyEntries(RemoveUnlisted(variants, pid, IncomingIds(es)), OwnedIds(variants, pid), pid, es, next)
  }

  /** The entries fail exactly when one of them names an id outside `owned`. */
  lemma {:induction false} ApplyEntriesFailsIff(m: map<int, ProductVariant>, owned: set<int>, pid: int,
                                                es: seq<VariantUpdate>, next: int)
    ensures ApplyEntries(m, owned, pid, es, next).None? <==> !(IncomingIds(es) <= owned)
  {
    if es == [] {
      assert IncomingIds(es) == {};
    } else {
      var p := es[..|es| - 1];
      IncomingIdsSnoc(es);
      ApplyEntriesFailsIff(m, owned, pid, p, next);
    }
  }

  /** What the entries leave behind when every id they name is owned: the
      counter advanced by the number of new entries, every other row as it
      was, each named variant carrying the fields of its last entry, and one
      fresh variant per new entry in request order. */
  lemma {:induction false} ApplyEntriesShape(m: map<int, ProductVariant>, owned: set<int>, pid: int,
                                             es: seq<VariantUpdate>, next: int)
    requires forall k :: k in m ==> k < next
    requires IncomingIds(es) <= owned && IncomingIds(es) <= m.Keys
    ensures ApplyEntries(m, owned, pid, es, next).Some?
    ensures var a := ApplyEntries(m, owned, pid, es, next).value;
      && a.next == next + |NewFields(es)|
      && (forall k :: k in a.variants <==> k in m || next <= k < a.next)
      && (forall k :: k in m && k !in IncomingIds(es) ==> a.variants[k] == m[k])
      && (forall k :: k in IncomingIds(es) ==> a.variants[k] == ProductVariant(k, pid, LastFields(es, k)))
      && (forall k :: next <= k < a.next ==> a.variants[k] == ProductVariant(k, pid, NewFields(es)[k - next]))
  {
    if es == [] {
      assert IncomingIds(es) == {};
    } else {
      var p, e := es[..|es| - 1], es[|es| - 1];
      IncomingIdsSnoc(es);
      ApplyEntriesShape(m, owned, pid, p, next);
      var a := ApplyEntries(m, owned, pid, p, next).value;
      var a' := ApplyEntries(m, owned, pid, es, next).value;
      match e.id
      case None =>
        assert NewFields(es) == NewFields(p) + [e.fields];
        assert a'.variants == a.variants[a.next := ProductVariant(a.next, pid, e.fields)];
        forall k | k in IncomingIds(es)
          ensures a'.variants[k] == ProductVariant(k, pid, LastFields(es, k))
        {
          assert k in m && k < a.next;
        }
        forall k | next <= k < a'.next
          ensures a'.variants[k] == ProductVariant(k, pid, NewFields(es)[k - next])
        {
          if k < a.next {
            assert NewFields(es)[k - next] == NewFields(p)[k - next];
          }
        }
      case Some(j) =>
        assert NewFields(es) == NewFields(p);
        assert a'.variants == a.variants[j := ProductVariant(j, pid, e.fields)];
        assert j in m && j < next;
        forall k | k in IncomingIds(es)
          ensures a'.variants[k] == ProductVariant(k, pid, LastFields(es, k))
        {
          if k != j {
            assert k in IncomingIds(p);
          }
        }
    }
  }

  /** Reconciliation fails exactly when the request names an id that is not
      one of the product's variants. */
  lemma ReconcileFailsIff(variants: map<int, ProductVariant>, pid: int, es: seq<VariantUpdate>, next: int)
    ensures Reconcile(variants, pid, es, next).None? <==> !(IncomingIds(es) <= OwnedIds(variants, pid))
  {
    ApplyEntriesFailsIff(RemoveUnlisted(variants, pid, IncomingIds(es)), OwnedIds(variants, pid), pid, es, next);
  }

  /** After a successful reconciliation the product's variants are exactly
      the ones the request names, with the fields of their last entry, plus
      one new variant per entry without an id; other products' variants are
      untouched. */
  lemma ReconcileShape(variants: map<int, ProductVariant>, pid: int, es: seq<VariantUpdate>, next: int)
    requires forall k :: k in variants ==> k < next
    requires IncomingIds(es) <= OwnedIds(variants, pid)
    ensures Reconcile(variants, pid, es, next).Some?
    ensures var a := Reconcile(variants, pid, es, next).value;
      && a.next == next + |NewFields(es)|
      && (forall k :: k in a.variants <==>
            (k in variants && (variants[k].productId != pid || k in IncomingIds(es))) || next <= k < a.next)
      && (forall k :: k in variants && variants[k].productId != pid ==> a.variants[k] == variants[k])
      && (forall k :: k in a.variants && a.variants[k].productId == pid <==> k in IncomingIds(es) || next <= k < a.next)
      && (forall k :: k in IncomingIds(es) ==> a.variants[k] == ProductVariant(k, pid, LastFields(es, k)))
      && (forall k :: next <= k < a.next ==> a.variants[k] == ProductVariant(k, pid, NewFields(es)[k - next]))
  {
    var incoming, owned := IncomingIds(es), OwnedIds(variants, pid);
    var base := RemoveUnlisted(variants, pid, incoming);
    ApplyEntriesShape(base, owned, pid, es, next);
  }
}
