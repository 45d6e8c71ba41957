/** The listing queries: the rows of a table that satisfy a filter, in the
    order an `OrderBy` on a name or an `OrderByDescending` on the id gives. */
module Listing {
  import opened Ordering

  /** Ordered by `key` under ordinal string comparison. */
  predicate SortedBy<T>(rows: seq<T>, key: T -> string) {
    forall i, j :: 0 <= i < j < |rows| ==> OrdinalLe(key(rows[i]), key(rows[j]))
  }

  /** Strictly decreasing. */
  predicate Descending(ids: seq<int>) {
    forall i, j :: 0 <= i < j < |ids| ==> ids[i] > ids[j]
  }

  /** The rows `ids` selects, each found under its id in `table`, each kept
      by the filter, and every kept row of the table present. */
  predicate Selects<T(==)>(table: map<int, T>, keep: T -> bool, ids: seq<int>, rows: seq<T>) {
    && |ids| == |rows|
    && (forall i :: 0 <= i < |ids| ==> ids[i] in table && keep(table[ids[i]]) && rows[i] == table[ids[i]])
    && (forall k :: k in table && keep(table[k]) ==> k in ids)
  }

  /** Where `x` goes in `rows` so that `rows` stays sorted: after every row
      whose key is not greater (so equal keys keep their order). */
  method InsertPosition<T>(rows: seq<T>, x: T, key: T -> string) returns (p: nat)
    requires SortedBy(rows, key)
    ensures p <= |rows|
    ensures forall i :: 0 <= i < p ==> OrdinalLe(key(rows[i]), key(x))
    ensures forall i :: p <= i < |rows| ==> OrdinalLe(key(x), key(rows[i]))
  {
    p := 0;
    while p < |rows| && OrdinalLe(key(rows[p]), key(x))
      invariant p <= |rows|
      invariant forall i :: 0 <= i < p ==> OrdinalLe(key(rows[i]), key(x))
    {
      p := p + 1;
    }
    if p < |rows| {
      OrdinalTotal(key(rows[p]), key(x));
      forall i | p <= i < |rows|
        ensures OrdinalLe(key(x), key(rows[i]))
      {
        if i > p {
          OrdinalTransitive(key(x), key(rows[p]), key(rows[i]));
        }
      }
    }
  }

  /** Inserting row `x` (under id `k`) into `rows` where `InsertPosition`
      puts it keeps `rows` sorted. */
  method InsertSorted<T>(ids: seq<int>, rows: seq<T>, k: int, x: T, key: T -> string)
    returns (ids': seq<int>, rows': seq<T>, p: nat)
    requires |ids| == |rows| && SortedBy(rows, key)
    ensures p <= |ids|
    ensures ids' == ids[..p] + [k] + ids[p..] && rows' == rows[..p] + [x] + rows[p..]
    ensures SortedBy(rows', key)
  {
    p := InsertPosition(rows, x, key);
    ids' := ids[..p] + [k] + ids[p..];
    rows' := rows[..p] + [x] + rows[p..];
    assert forall i :: 0 <= i < p ==> rows'[i] == rows[i];
    assert rows'[p] == x;
    assert forall i :: p < i < |rows'| ==> rows'[i] == rows[i - 1];
    forall i, j | 0 <= i < j < |rows'|
      ensures OrdinalLe(key(rows'[i]), key(rows'[j]))
    {
      if i < p && j > p {
        OrdinalTransitive(key(rows'[i]), key(x), key(rows'[j]));
      }
    }
  }

  /** Some member of a non-empty set of ids. */
  method Pick(s: set<int>) returns (x: int)
    requires s != {}
    ensures x in s
  {
    if forall e :: e !in s {
      assert false;
    }
    x :| x in s;
  }

  predicate Distinct(ids: seq<int>) {
    forall i, j :: 0 <= i < j < |ids| ==> ids[i] != ids[j]
  }

  /** The loop state of a listing: `ids` holds exactly the kept rows among
      the keys `done` already looked at. */
  predicate Partial<T(==)>(table: map<int, T>, keep: T -> bool, done: set<int>, ids: seq<int>, rows: seq<T>) {
    && |ids| == |rows|
    && (forall i :: 0 <= i < |ids| ==> ids[i] in done && ids[i] in table && keep(table[ids[i]]) && rows[i] == table[ids[i]])
    && (forall q :: q in done && q in table && keep(table[q]) ==> q in ids)
  }

  /** Looking at a key whose row is filtered out changes nothing. */
  lemma PartialSkip<T>(table: map<int, T>, keep: T -> bool, done: set<int>, ids: seq<int>, rows: seq<T>, k: int)
    requires Partial(table, keep, done, ids, rows)
    requires k in table && !keep(table[k])
    ensures Partial(table, keep, done + {k}, ids, rows)
  {
  }

  /** Where everything sits after `y` is spliced into `xs` at `p`. */
  lemma SpliceAt<U>(xs: seq<U>, p: nat, y: U)
    requires p <= |xs|
    ensures var ys := xs[..p] + [y] + xs[p..];
      && |ys| == |xs| + 1 && ys[p] == y
      && (forall i :: 0 <= i < p ==> ys[i] == xs[i])
      && (forall i :: p < i < |ys| ==> ys[i] == xs[i - 1])
  {
  }

  /** Splicing a newly looked-at kept row in anywhere keeps the loop state. */
  lemma PartialSplice<T>(table: map<int, T>, keep: T -> bool, done: set<int>, ids: seq<int>, rows: seq<T>, k: int, p: nat)
    requires Partial(table, keep, done, ids, rows) && Distinct(ids)
    requires k in table && k !in done && keep(table[k]) && p <= |ids|
    ensures Partial(table, keep, done + {k}, ids[..p] + [k] + ids[p..], rows[..p] + [table[k]] + rows[p..])
    ensures Distinct(ids[..p] + [k] + ids[p..])
  {
    var ids', rows' := ids[..p] + [k] + ids[p..], rows[..p] + [table[k]] + rows[p..];
    SpliceAt(ids, p, k);
    SpliceAt(rows, p, table[k]);
    forall i | 0 <= i < |ids'|
      ensures ids'[i] in done + {k} && ids'[i] in table && keep(table[ids'[i]]) && rows'[i] == table[ids'[i]]
    {
      if i < p {
      } else if i > p {
        assert ids'[i] == ids[i - 1];
      }
    }
    forall q | q in done + {k} && q in table && keep(table[q])
      ensures q in ids'
    {
      if q != k {
        var i :| 0 <= i < |ids| && ids[i] == q;
        if i < p { assert ids'[i] == q; } else { assert ids'[i + 1] == q; }
      }
    }
    forall i, j | 0 <= i < j < |ids'|
      ensures ids'[i] != ids'[j]
    {
      if j < p {
      } else if i > p {
      } else if i == p {
        assert ids'[j] == ids[j - 1];
      } else if j == p {
      } else {
        assert ids'[i] == ids[i] && ids'[j] == ids[j - 1];
      }
    }
  }

  /** `table.Where(keep).OrderBy(key).ToList()`: every kept row exactly
      once, ordered by `key`. */
  method ListWhere<T(==)>(table: map<int, T>, keep: T -> bool, key: T -> string) returns (ids: seq<int>, rows: seq<T>)
    ensures Selects(table, keep, ids, rows)
    ensures Distinct(ids)
    ensures SortedBy(rows, key)
  {
    var pending := table.Keys;
    ghost var done: set<int> := {};
    ids, rows := [], [];
    while pending != {}
      invariant pending <= table.Keys && done == table.Keys - pending
      invariant Partial(table, keep, done, ids, rows)
      invariant Distinct(ids)
      invariant SortedBy(rows, key)
      decreases pending
    {
      var k := Pick(pending);
      if keep(table[k]) {
        var p;
        ghost var oldIds, oldRows := ids, rows;
        ids, rows, p := InsertSorted(ids, rows, k, table[k], key);
        PartialSplice(table, keep, done, oldIds, oldRows, k, p);
      } else {
        PartialSkip(table, keep, done, ids, rows, k);
      }
      pending := pending - {k};
      done := done + {k};
    }
  }

  /** Inserting id `k` (with row `x`) before the first smaller id keeps
      the ids strictly decreasing. */
  method InsertDescending<T>(ids: seq<int>, rows: seq<T>, k: int, x: T)
    returns (ids': seq<int>, rows': seq<T>, p: nat)
    requires |ids| == |rows| && Descending(ids) && k !in ids
    ensures p <= |ids|
    ensures ids' == ids[..p] + [k] + ids[p..] && rows' == rows[..p] + [x] + rows[p..]
    ensures Descending(ids')
  {
    p := 0;
    while p < |ids| && ids[p] > k
      invariant p <= |ids|
      invariant forall i :: 0 <= i < p ==> ids[i] > k
    {
      p := p + 1;
    }
    assert forall i :: p <= i < |ids| ==> ids[i] < k;
    ids' := ids[..p] + [k] + ids[p..];
    rows' := rows[..p] + [x] + rows[p..];
    SpliceAt(ids, p, k);
  }

  /** `table.Where(keep).OrderByDescending(id).ToList()`: every kept row
      exactly once, newest id first. */
  method ListWhereNewestFirst<T(==)>(table: map<int, T>, keep: T -> bool) returns (ids: seq<int>, rows: seq<T>)
    ensures Selects(table, keep, ids, rows)
    ensures Descending(ids)
  {
    var pending := table.Keys;
    ghost var done: set<int> := {};
    ids, rows := [], [];
    while pending != {}
      invariant pending <= table.Keys && done == table.Keys - pending
      invariant Partial(table, keep, done, ids, rows)
      invariant Descending(ids)
      decreases pending
    {
      var k := Pick(pending);
      if keep(table[k]) {
        var p;
        ghost var oldIds, oldRows := ids, rows;
        ids, rows, p := InsertDescending(ids, rows, k, table[k]);
        PartialSplice(table, keep, done, oldIds, oldRows, k, p);
      } else {
        PartialSkip(table, keep, done, ids, rows, k);
      }
      pending := pending - {k};
      done := done + {k};
    }
  }
}
