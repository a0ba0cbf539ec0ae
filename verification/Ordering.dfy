/** The order of categories and subcategories: ListCategories, ReorderCategories and their subcategory twins
    of internal/store/sqlite/category.go, seen through ORDER BY display_order, id. */
module Ordering {
  import opened Tables

  /** display_order by row id. */
  type Orders = map<Id, int>

  predicate Before(o: Orders, a: Id, b: Id)
    requires a in o && b in o
  {
    o[a] < o[b] || (o[a] == o[b] && a < b)
  }

  predicate IsFirst(o: Orders, m: Id) {
    m in o && forall x <- o :: x != m ==> Before(o, m, x)
  }

  lemma {:induction false} FirstExists(o: Orders)
    requires o != map[]
    ensures exists m :: IsFirst(o, m)
  {
    var x :| x in o;
    var rest := o - {x};
    if rest == map[] {
      forall y | y in o ensures y == x {
        assert y == x || y in rest;
      }
      assert IsFirst(o, x);
    } else {
      assert |rest.Keys| < |o.Keys| by { assert rest.Keys == o.Keys - {x}; }
      FirstExists(rest);
      var m :| IsFirst(rest, m);
      var top := if Before(o, m, x) then m else x;
      forall y | y in o && y != top ensures Before(o, top, y) {
        assert y == x || y in rest;
      }
      assert IsFirst(o, top);
    }
  }

  predicate Distinct(rows: seq<Id>) {
    forall i, j :: 0 <= i < j < |rows| ==> rows[i] != rows[j]
  }

  /** All rows, in order. */
  ghost predicate Lists(o: Orders, rows: seq<Id>) {
    && (forall id :: id in rows <==> id in o)
    && (forall i, j :: 0 <= i < j < |rows| ==> Before(o, rows[i], rows[j]))
  }

  /** What the query returns. */
  function Listing(o: Orders): seq<Id>
    decreases |o|
  {
    if o == map[] then []
    else
      FirstExists(o);
      var m :| IsFirst(o, m);
      FewerRows(o, m);
      [m] + Listing(o - {m})
  }

  lemma {:induction false} ListingLists(o: Orders)
    ensures Lists(o, Listing(o))
    decreases |o|
  {
    if o != map[] {
      FirstExists(o);
      var m :| IsFirst(o, m);
      FewerRows(o, m);
      ListingLists(o - {m});
      FirstInFront(o, m, Listing(o - {m}));
    }
  }

  /** Every row is listed once, a smaller display_order before a larger one, and of two rows with the same the
      older before the newer. */
  lemma {:induction false} ListedInOrder(o: Orders, i: nat, j: nat)
    requires i < j < |Listing(o)|
    ensures forall id :: id in Listing(o) <==> id in o
    ensures var a, b := Listing(o)[i], Listing(o)[j];
            a in o && b in o && (o[a] < o[b] || (o[a] == o[b] && a < b))
  {
    ListingLists(o);
    assert Listing(o)[i] in Listing(o) && Listing(o)[j] in Listing(o);
    assert Before(o, Listing(o)[i], Listing(o)[j]);
  }

  lemma FewerRows(o: Orders, m: Id)
    requires m in o
    ensures |o - {m}| == |o| - 1
  {
    var rest := o - {m};
    assert rest.Keys == o.Keys - {m};
    assert |rest.Keys| == |rest| && |o.Keys| == |o|;
  }

  lemma FirstInFront(o: Orders, m: Id, tail: seq<Id>)
    requires IsFirst(o, m) && Lists(o - {m}, tail)
    ensures Lists(o, [m] + tail)
  {
    var rows := [m] + tail;
    forall id ensures id in rows <==> id in o {
      assert id in rows <==> id == m || id in tail;
    }
    forall i, j | 0 <= i < j < |rows| ensures Before(o, rows[i], rows[j]) {
      assert rows[j] in tail && rows[j] in o - {m};
      if i > 0 {
        assert rows[i] in tail && Before(o - {m}, tail[i - 1], tail[j - 1]);
      }
    }
  }

  /** There is no other order. */
  lemma {:induction false} ListingIsUnique(o: Orders, a: seq<Id>, b: seq<Id>)
    requires Lists(o, a) && Lists(o, b)
    ensures a == b
    decreases |a|
  {
    if a == [] || b == [] {
      Emptiness(o, a);
      Emptiness(o, b);
    } else {
      FirstListed(o, a);
      FirstListed(o, b);
      OneFirst(o, a[0], b[0]);
      TailListed(o, a);
      TailListed(o, b);
      ListingIsUnique(o - {a[0]}, a[1..], b[1..]);
      SameRows(a, b);
    }
  }

  lemma OneFirst(o: Orders, x: Id, y: Id)
    requires IsFirst(o, x) && IsFirst(o, y)
    ensures x == y
  {
  }

  lemma SameRows(a: seq<Id>, b: seq<Id>)
    requires a != [] && b != [] && a[0] == b[0] && a[1..] == b[1..]
    ensures a == b
  {
    assert a == [a[0]] + a[1..] && b == [b[0]] + b[1..];
  }

  lemma Emptiness(o: Orders, a: seq<Id>)
    requires Lists(o, a)
    ensures a == [] <==> o == map[]
  {
    if a != [] {
      assert a[0] in a;
    }
    if o != map[] {
      var x :| x in o;
      assert x in a;
    }
  }

  lemma FirstListed(o: Orders, a: seq<Id>)
    requires Lists(o, a) && a != []
    ensures IsFirst(o, a[0])
  {
    assert a[0] in a;
    forall x | x in o && x != a[0] ensures Before(o, a[0], x) {
      assert x in a;
      var i :| 0 <= i < |a| && a[i] == x;
    }
  }

  lemma TailListed(o: Orders, a: seq<Id>)
    requires Lists(o, a) && a != []
    ensures Lists(o - {a[0]}, a[1..])
  {
    var rest := o - {a[0]};
    forall id ensures id in a[1..] <==> id in rest {
      if id in rest {
        assert id in a;
        var i :| 0 <= i < |a| && a[i] == id;
        assert a[1..][i - 1] == id;
      }
      if id in a[1..] {
        var i :| 0 <= i < |a[1..]| && a[1..][i] == id;
        assert a[i + 1] == id && Before(o, a[0], a[i + 1]);
        assert id in a;
      }
    }
  }

  // ----- Writing an order -----

  /** One UPDATE for each id: its place becomes its display_order. */
  function Reordered(o: Orders, ids: seq<Id>): Orders {
    if ids == [] then o
    else
      var n := |ids| - 1;
      var front := Reordered(o, ids[..n]);
      if ids[n] in front then front[ids[n] := n] else front
  }

  lemma {:induction false} ReorderedRows(o: Orders, ids: seq<Id>)
    ensures Reordered(o, ids).Keys == o.Keys
    ensures forall id <- o :: id !in ids ==> Reordered(o, ids)[id] == o[id]
  {
    if ids != [] {
      var n := |ids| - 1;
      ReorderedRows(o, ids[..n]);
      forall id | id in o && id !in ids ensures Reordered(o, ids)[id] == o[id] {
        assert id !in ids[..n] && id != ids[n];
      }
    }
  }

  lemma {:induction false} ReorderedAt(o: Orders, ids: seq<Id>)
    requires Distinct(ids)
    ensures Reordered(o, ids).Keys == o.Keys
    ensures forall i :: 0 <= i < |ids| && ids[i] in o ==> Reordered(o, ids)[ids[i]] == i
  {
    ReorderedRows(o, ids);
    if ids != [] {
      var n := |ids| - 1;
      ReorderedAt(o, ids[..n]);
      ReorderedRows(o, ids[..n]);
      forall i | 0 <= i < n && ids[i] in o ensures Reordered(o, ids)[ids[i]] == i {
        assert ids[..n][i] == ids[i];
      }
    }
  }

  /** Every row is named once. */
  ghost predicate Names(o: Orders, ids: seq<Id>) {
    Distinct(ids) && forall id :: id in ids <==> id in o
  }

  /** Writing an order that names every row once is what the next listing shows, from any tied or gapped
      orders before it; and no other order can be written. */
  lemma ReorderShownIff(o: Orders, ids: seq<Id>)
    ensures Listing(Reordered(o, ids)) == ids <==> Names(o, ids)
  {
    var after := Reordered(o, ids);
    ListingLists(after);
    if Names(o, ids) {
      ReorderedLists(o, ids);
      ListingIsUnique(after, Listing(after), ids);
    } else if Listing(after) == ids {
      ReorderedRows(o, ids);
      ListedIsNamed(after, ids);
      assert forall id :: id in o <==> id in after;
    }
  }

  lemma ReorderedLists(o: Orders, ids: seq<Id>)
    requires Names(o, ids)
    ensures Lists(Reordered(o, ids), ids)
  {
    ReorderedRows(o, ids);
    ReorderedAt(o, ids);
    forall i | 0 <= i < |ids| ensures ids[i] in o {
      assert ids[i] in ids;
    }
  }

  lemma ListedIsNamed(o: Orders, rows: seq<Id>)
    requires Lists(o, rows)
    ensures Names(o, rows)
  {
  }

  lemma ListingNames(o: Orders)
    ensures Names(o, Listing(o))
  {
    ListingLists(o);
    ListedIsNamed(o, Listing(o));
  }

  // ----- Moving a row -----

  function IndexOf(rows: seq<Id>, id: Id): (i: int)
    ensures -1 <= i < |rows|
    ensures i >= 0 ==> rows[i] == id && id !in rows[..i]
    ensures i < 0 <==> id !in rows
  {
    if rows == [] then -1
    else if rows[0] == id then 0
    else
      var rest := IndexOf(rows[1..], id);
      assert rows == [rows[0]] + rows[1..];
      assert rest >= 0 ==> rows[..rest + 1] == [rows[0]] + rows[1..][..rest];
      if rest < 0 then -1 else rest + 1
  }

  function Exchanged(rows: seq<Id>, i: nat): seq<Id>
    requires i + 1 < |rows|
  {
    rows[i := rows[i + 1]][i + 1 := rows[i]]
  }

  datatype Way = Up | Down

  /** The listing with `id` and its neighbour exchanged; unchanged at the ends, and without `id`. */
  function Moved(rows: seq<Id>, id: Id, way: Way): seq<Id> {
    var i := IndexOf(rows, id);
    match way
    case Up => if i <= 0 then rows else Exchanged(rows, i - 1)
    case Down => if i < 0 || i >= |rows| - 1 then rows else Exchanged(rows, i)
  }

  lemma IndexAt(rows: seq<Id>, i: nat)
    requires Distinct(rows) && i < |rows|
    ensures IndexOf(rows, rows[i]) == i
  {
    assert rows[i] in rows;
  }

  lemma ExchangedNames(o: Orders, rows: seq<Id>, i: nat)
    requires Names(o, rows) && i + 1 < |rows|
    ensures Names(o, Exchanged(rows, i))
  {
    var next := Exchanged(rows, i);
    forall id ensures id in next <==> id in rows {
      if id in rows {
        var k :| 0 <= k < |rows| && rows[k] == id;
        assert next[if k == i then i + 1 else if k == i + 1 then i else k] == id;
      }
      if id in next {
        var k :| 0 <= k < |next| && next[k] == id;
        assert rows[if k == i then i + 1 else if k == i + 1 then i else k] == id;
      }
    }
  }

  lemma MovedNames(o: Orders, rows: seq<Id>, id: Id, way: Way)
    requires Names(o, rows)
    ensures Names(o, Moved(rows, id, way))
  {
    if Moved(rows, id, way) != rows {
      var i := MovedPlace(rows, id, way);
      ExchangedNames(o, rows, i);
    }
  }

  lemma MovedPlace(rows: seq<Id>, id: Id, way: Way) returns (i: nat)
    requires Moved(rows, id, way) != rows
    ensures i + 1 < |rows| && Moved(rows, id, way) == Exchanged(rows, i)
  {
    i := if way.Up? then IndexOf(rows, id) - 1 else IndexOf(rows, id);
  }

  /** What a move writes; nothing when it would change nothing. */
  function MoveOrders(o: Orders, id: Id, way: Way): Orders {
    var rows := Listing(o);
    if Moved(rows, id, way) == rows then o else Reordered(o, Moved(rows, id, way))
  }

  lemma MovedIsExchanged(rows: seq<Id>, id: Id, way: Way, i: nat)
    requires Distinct(rows) && i + 1 < |rows| && IndexOf(rows, id) == (if way.Up? then i + 1 else i)
    ensures Moved(rows, id, way) == Exchanged(rows, i) != rows
  {
    assert Exchanged(rows, i)[i] == rows[i + 1] != rows[i];
  }

  lemma MoveWrites(o: Orders, id: Id, way: Way, i: nat)
    requires i + 1 < |Listing(o)| && IndexOf(Listing(o), id) == (if way.Up? then i + 1 else i)
    ensures Moved(Listing(o), id, way) == Exchanged(Listing(o), i) != Listing(o)
    ensures MoveOrders(o, id, way) == Reordered(o, Exchanged(Listing(o), i))
  {
    ListingNames(o);
    MovedIsExchanged(Listing(o), id, way, i);
  }

  /** After a move the next listing is the old one with exactly those neighbours exchanged, whatever the
      stored orders were; no row comes or goes. */
  lemma MoveIsExchange(o: Orders, id: Id, way: Way)
    ensures Listing(MoveOrders(o, id, way)) == Moved(Listing(o), id, way)
    ensures MoveOrders(o, id, way).Keys == o.Keys
  {
    var rows := Listing(o);
    ListingNames(o);
    MovedNames(o, rows, id, way);
    ReorderShownIff(o, Moved(rows, id, way));
    ReorderedRows(o, Moved(rows, id, way));
  }

  lemma ExchangedTwice(rows: seq<Id>, i: nat)
    requires i + 1 < |rows|
    ensures Exchanged(Exchanged(rows, i), i) == rows
  {
  }

  function Opposite(way: Way): Way {
    if way.Up? then Down else Up
  }

  predicate AtEnd(rows: seq<Id>, id: Id, way: Way) {
    rows != [] && id == (if way.Up? then rows[0] else rows[|rows| - 1])
  }

  lemma MovedBack(rows: seq<Id>, id: Id, way: Way)
    requires Distinct(rows) && !AtEnd(rows, id, way)
    ensures Moved(Moved(rows, id, way), id, Opposite(way)) == rows
  {
    var i := IndexOf(rows, id);
    if i >= 0 {
      var k := if way.Up? then i - 1 else i;
      var next := Exchanged(rows, k);
      assert Distinct(next);
      IndexAt(next, if way.Up? then i - 1 else i + 1);
      ExchangedTwice(rows, k);
    }
  }

  lemma StuckAtEnd(rows: seq<Id>, id: Id, way: Way)
    requires Distinct(rows) && AtEnd(rows, id, way) && |rows| > 1
    ensures Moved(rows, id, way) == rows && Moved(rows, id, Opposite(way)) != rows
  {
    var i := if way.Up? then 0 else |rows| - 1;
    IndexAt(rows, i);
  }

  /** A move and the opposite move restore the listing: exactly when the row is not already at the end it
      moves to, or is alone. */
  lemma MoveBackRestoresIff(o: Orders, id: Id, way: Way)
    ensures Listing(MoveOrders(MoveOrders(o, id, way), id, Opposite(way))) == Listing(o)
            <==> (!AtEnd(Listing(o), id, way) || |o| == 1)
  {
    var rows := Listing(o);
    ListingNames(o);
    MoveIsExchange(o, id, way);
    MoveIsExchange(MoveOrders(o, id, way), id, Opposite(way));
    ListingSize(o);
    if !AtEnd(rows, id, way) {
      MovedBack(rows, id, way);
    } else if |rows| > 1 {
      StuckAtEnd(rows, id, way);
    }
  }

  lemma {:induction false} ListingSize(o: Orders)
    ensures |Listing(o)| == |o|
    decreases |o|
  {
    if o != map[] {
      var rows := Listing(o);
      ListingLists(o);
      Emptiness(o, rows);
      TailListed(o, rows);
      assert rows[0] in rows;
      var rest := o - {rows[0]};
      FewerRows(o, rows[0]);
      ListingSize(rest);
      ListingLists(rest);
      ListingIsUnique(rest, Listing(rest), rows[1..]);
    }
  }

  function MovedTimes(o: Orders, id: Id, k: nat): Orders {
    if k == 0 then o else MoveOrders(MovedTimes(o, id, k - 1), id, Up)
  }

  /** The rows with row i carried over the k rows before it, which keep their order. */
  function Carried(rows: seq<Id>, i: nat, k: nat): seq<Id>
    requires k <= i < |rows|
  {
    rows[..i - k] + [rows[i]] + rows[i - k..i] + rows[i + 1..]
  }

  function MovedRows(rows: seq<Id>, id: Id, k: nat): seq<Id> {
    if k == 0 then rows else Moved(MovedRows(rows, id, k - 1), id, Up)
  }

  ghost predicate ListedAs(o: Orders, rows: seq<Id>) {
    Listing(o) == rows
  }

  lemma {:induction false} MovesOneByOne(o: Orders, rows: seq<Id>, id: Id, k: nat)
    requires ListedAs(o, rows)
    ensures ListedAs(MovedTimes(o, id, k), MovedRows(rows, id, k))
  {
    if k > 0 {
      MovesOneByOne(o, rows, id, k - 1);
      MoveListed(MovedTimes(o, id, k - 1), MovedRows(rows, id, k - 1), id, Up);
    }
  }

  lemma MoveListed(o: Orders, rows: seq<Id>, id: Id, way: Way)
    requires ListedAs(o, rows)
    ensures ListedAs(MoveOrders(o, id, way), Moved(rows, id, way))
  {
    MoveIsExchange(o, id, way);
  }

  lemma {:induction false} MovedRowsCarried(rows: seq<Id>, i: nat, k: nat)
    requires k <= i < |rows| && Distinct(rows)
    ensures MovedRows(rows, rows[i], k) == Carried(rows, i, k)
  {
    if k == 0 {
      CarriedNowhere(rows, i);
    } else {
      MovedRowsCarried(rows, i, k - 1);
      OneRowMore(rows, i, k, MovedRows(rows, rows[i], k - 1));
    }
  }

  lemma OneRowMore(rows: seq<Id>, i: nat, k: nat, mid: seq<Id>)
    requires 0 < k <= i < |rows| && Distinct(rows) && mid == Carried(rows, i, k - 1)
    ensures Moved(mid, rows[i], Up) == Carried(rows, i, k)
  {
    CarriedDistinct(rows, i, k - 1);
    CarriedOneMore(rows, i, k);
  }

  lemma CarriedDistinct(rows: seq<Id>, i: nat, k: nat)
    requires k <= i < |rows| && Distinct(rows)
    ensures Distinct(Carried(rows, i, k))
  {
    var next := Carried(rows, i, k);
    forall a, b | 0 <= a < b < |next| ensures next[a] != next[b] {
      assert next[a] == rows[if a < i - k then a else if a == i - k then i else if a <= i then a - 1 else a];
    }
  }

  /** Moving row i up k times carries it over the k rows before it. */
  lemma MoveUpTimes(o: Orders, i: nat, k: nat)
    requires k <= i < |Listing(o)|
    ensures Listing(MovedTimes(o, Listing(o)[i], k)) == Carried(Listing(o), i, k)
  {
    ListingNames(o);
    MovesOneByOne(o, Listing(o), Listing(o)[i], k);
    MovedRowsCarried(Listing(o), i, k);
  }

  lemma CarriedNowhere(rows: seq<Id>, i: nat)
    requires i < |rows|
    ensures Carried(rows, i, 0) == rows
  {
  }

  lemma CarriedBefore(rows: seq<Id>, i: nat, k: nat)
    requires 0 < k <= i < |rows|
    ensures Carried(rows, i, k - 1) == rows[..i - k] + [rows[i - k], rows[i]] + (rows[i - k + 1..i] + rows[i + 1..])
  {
    assert rows[..i - k + 1] == rows[..i - k] + [rows[i - k]];
  }

  lemma CarriedAfter(rows: seq<Id>, i: nat, k: nat)
    requires 0 < k <= i < |rows|
    ensures Carried(rows, i, k) == rows[..i - k] + [rows[i], rows[i - k]] + (rows[i - k + 1..i] + rows[i + 1..])
  {
    assert rows[i - k..i] == [rows[i - k]] + rows[i - k + 1..i];
  }

  lemma MovedInside(a: seq<Id>, x: Id, y: Id, b: seq<Id>)
    requires Distinct(a + [x, y] + b)
    ensures Moved(a + [x, y] + b, y, Up) == a + [y, x] + b
  {
    var rows := a + [x, y] + b;
    assert rows[|a| + 1] == y;
    IndexAt(rows, |a| + 1);
  }

  lemma CarriedOneMore(rows: seq<Id>, i: nat, k: nat)
    requires 0 < k <= i < |rows| && Distinct(Carried(rows, i, k - 1))
    ensures Moved(Carried(rows, i, k - 1), rows[i], Up) == Carried(rows, i, k)
  {
    CarriedBefore(rows, i, k);
    CarriedAfter(rows, i, k);
    MovedInside(rows[..i - k], rows[i - k], rows[i], rows[i - k + 1..i] + rows[i + 1..]);
  }
}

/** The admin's move handlers, over the tables they change: internal/handler/admin.go. */
module OrderingAdmin {
  import opened Tables
  import opened Ordering

  datatype Subcategory = Subcategory(category: Id, displayOrder: int)

  /** The orders of the subcategories of one category. */
  function OrdersIn(subs: map<Id, Subcategory>, category: Id): Orders {
    map id | id in subs && subs[id].category == category :: subs[id].displayOrder
  }

  /** One UPDATE for each id, whatever its category. */
  function ReorderedSubs(subs: map<Id, Subcategory>, ids: seq<Id>): map<Id, Subcategory> {
    if ids == [] then subs
    else
      var n := |ids| - 1;
      var front := ReorderedSubs(subs, ids[..n]);
      if ids[n] in front then front[ids[n] := front[ids[n]].(displayOrder := n)] else front
  }

  /** Seen through the rows of one category, the updates are those of its own ids. */
  lemma {:induction false} ReorderedInside(subs: map<Id, Subcategory>, ids: seq<Id>, category: Id)
    requires forall i :: 0 <= i < |ids| ==> ids[i] in OrdersIn(subs, category)
    ensures OrdersIn(ReorderedSubs(subs, ids), category) == Reordered(OrdersIn(subs, category), ids)
    ensures forall other :: other != category ==> OrdersIn(ReorderedSubs(subs, ids), other) == OrdersIn(subs, other)
    ensures ReorderedSubs(subs, ids).Keys == subs.Keys
    ensures forall id <- subs :: ReorderedSubs(subs, ids)[id].category == subs[id].category
  {
    if ids != [] {
      var n := |ids| - 1;
      ReorderedInside(subs, ids[..n], category);
      ReorderedRows(OrdersIn(subs, category), ids[..n]);
      OneUpdate(ReorderedSubs(subs, ids[..n]), ids[n], n, category);
    }
  }

  lemma OneUpdate(subs: map<Id, Subcategory>, id: Id, place: int, category: Id)
    requires id in subs && subs[id].category == category
    ensures var next := subs[id := subs[id].(displayOrder := place)];
            && OrdersIn(next, category) == OrdersIn(subs, category)[id := place]
            && (forall other :: other != category ==> OrdersIn(next, other) == OrdersIn(subs, other))
  {
  }

  class Admin {
    var categories: map<Id, int>
    var subs: map<Id, Subcategory>

    constructor ()
      ensures categories == map[] && subs == map[]
    {
      categories, subs := map[], map[];
    }

    method ListCategories() returns (cats: array<Id>)
      ensures fresh(cats) && cats[..] == Listing(categories)
    {
      var rows := Listing(categories);
      cats := new Id[|rows|](i requires 0 <= i < |rows| => rows[i]);
    }

    method ListSubcategories(category: Id) returns (rows: array<Id>)
      ensures fresh(rows) && rows[..] == Listing(OrdersIn(subs, category))
    {
      var found := Listing(OrdersIn(subs, category));
      rows := new Id[|found|](i requires 0 <= i < |found| => found[i]);
    }

    method ReorderCategories(ids: seq<Id>)
      modifies this`categories
      ensures categories == Reordered(old(categories), ids)
    {
      for i := 0 to |ids|
        invariant categories == Reordered(old(categories), ids[..i])
      {
        assert ids[..i + 1][..i] == ids[..i];
        if ids[i] in categories {
          categories := categories[ids[i] := i];
        }
      }
      assert ids[..|ids|] == ids;
    }

    method ReorderSubcategories(ids: seq<Id>)
      modifies this`subs
      ensures subs == ReorderedSubs(old(subs), ids)
    {
      for i := 0 to |ids|
        invariant subs == ReorderedSubs(old(subs), ids[..i])
      {
        assert ids[..i + 1][..i] == ids[..i];
        if ids[i] in subs {
          subs := subs[ids[i] := subs[ids[i]].(displayOrder := i)];
        }
      }
      assert ids[..|ids|] == ids;
    }

    method SwapWithNext(rows: array<Id>, i: nat)
      requires i + 1 < rows.Length
      modifies rows
      ensures rows[..] == Exchanged(old(rows[..]), i)
    {
      rows[i], rows[i + 1] := rows[i + 1], rows[i];
    }

    method IndexOfRow(rows: array<Id>, id: Id) returns (index: int)
      ensures index == IndexOf(rows[..], id)
    {
      for i := 0 to rows.Length
        invariant id !in rows[..i]
      {
        if rows[i] == id {
          FirstAt(rows[..], id, i);
          return i;
        }
      }
      assert rows[..rows.Length] == rows[..];
      return -1;
    }

    /** A category id that is not a number leaves everything as it is. */
    method MoveCategoryUp(id: Option<Id>)
      modifies this`categories
      ensures categories == if id.None? then old(categories) else MoveOrders(old(categories), id.value, Up)
    {
      if id.None? {
        return;
      }
      var cats := ListCategories();
      var idx := IndexOfRow(cats, id.value);
      if idx <= 0 {
        return;
      }
      MoveWrites(categories, id.value, Up, idx - 1);
      SwapWithNext(cats, idx - 1);
      ReorderCategories(cats[..]);
    }

    method MoveCategoryDown(id: Option<Id>)
      modifies this`categories
      ensures categories == if id.None? then old(categories) else MoveOrders(old(categories), id.value, Down)
    {
      if id.None? {
        return;
      }
      var cats := ListCategories();
      var idx := IndexOfRow(cats, id.value);
      if idx < 0 || idx >= cats.Length - 1 {
        return;
      }
      MoveWrites(categories, id.value, Down, idx);
      SwapWithNext(cats, idx);
      ReorderCategories(cats[..]);
    }

    /** The category of the form decides which listing is moved in; the others keep their order. */
    method MoveSubcategoryUp(id: Option<Id>, category: Option<Id>)
      modifies this`subs
      ensures id.None? || category.None? ==> subs == old(subs)
      ensures id.Some? && category.Some? ==> SubsMoved(old(subs), subs, category.value, id.value, Up)
    {
      if id.None? || category.None? {
        return;
      }
      var rows := ListSubcategories(category.value);
      var idx := IndexOfRow(rows, id.value);
      if idx <= 0 {
        SubsNotMoved(subs, category.value, id.value, Up);
        return;
      }
      ghost var orders := OrdersIn(subs, category.value);
      MoveWrites(orders, id.value, Up, idx - 1);
      SwapWithNext(rows, idx - 1);
      SubsMovedBy(subs, category.value, id.value, Up, rows[..]);
      ReorderSubcategories(rows[..]);
    }

    method MoveSubcategoryDown(id: Option<Id>, category: Option<Id>)
      modifies this`subs
      ensures id.None? || category.None? ==> subs == old(subs)
      ensures id.Some? && category.Some? ==> SubsMoved(old(subs), subs, category.value, id.value, Down)
    {
      if id.None? || category.None? {
        return;
      }
      var rows := ListSubcategories(category.value);
      var idx := IndexOfRow(rows, id.value);
      if idx < 0 || idx >= rows.Length - 1 {
        SubsNotMoved(subs, category.value, id.value, Down);
        return;
      }
      ghost var orders := OrdersIn(subs, category.value);
      MoveWrites(orders, id.value, Down, idx);
      SwapWithNext(rows, idx);
      SubsMovedBy(subs, category.value, id.value, Down, rows[..]);
      ReorderSubcategories(rows[..]);
    }
  }

  /** The move in one category: its orders are written, every other category's stay. */
  ghost predicate SubsMoved(before: map<Id, Subcategory>, after: map<Id, Subcategory>, category: Id, id: Id, way: Way) {
    && after.Keys == before.Keys
    && (forall s <- before :: after[s].category == before[s].category)
    && OrdersIn(after, category) == MoveOrders(OrdersIn(before, category), id, way)
    && (forall other :: other != category ==> OrdersIn(after, other) == OrdersIn(before, other))
  }

  lemma SubsMovedBy(subs: map<Id, Subcategory>, category: Id, id: Id, way: Way, ids: seq<Id>)
    requires var rows := Listing(OrdersIn(subs, category)); ids == Moved(rows, id, way) && ids != rows
    ensures SubsMoved(subs, ReorderedSubs(subs, ids), category, id, way)
  {
    MovedAreRows(OrdersIn(subs, category), id, way, ids);
    ReorderedInside(subs, ids, category);
  }

  lemma MovedAreRows(orders: Orders, id: Id, way: Way, ids: seq<Id>)
    requires ids == Moved(Listing(orders), id, way)
    ensures forall i :: 0 <= i < |ids| ==> ids[i] in orders
  {
    ListingNames(orders);
    MovedNames(orders, Listing(orders), id, way);
    forall i | 0 <= i < |ids| ensures ids[i] in orders {
      assert ids[i] in ids;
    }
  }

  lemma SubsNotMoved(subs: map<Id, Subcategory>, category: Id, id: Id, way: Way)
    requires var rows := Listing(OrdersIn(subs, category)); rows == Moved(rows, id, way)
    ensures SubsMoved(subs, subs, category, id, way)
  {
  }

  lemma FirstAt(rows: seq<Id>, id: Id, i: nat)
    requires i < |rows| && rows[i] == id && id !in rows[..i]
    ensures IndexOf(rows, id) == i
  {
    assert id in rows;
  }

  /** Through the listings an admin sees: a move in one category is an adjacent exchange in its listing,
      and every other category lists what it did. */
  lemma MoveSeenInListings(before: map<Id, Subcategory>, after: map<Id, Subcategory>, category: Id, id: Id, way: Way,
                           other: Id)
    requires SubsMoved(before, after, category, id, way)
    ensures Listing(OrdersIn(after, other)) ==
            if other == category then Moved(Listing(OrdersIn(before, other)), id, way)
              else Listing(OrdersIn(before, other))
  {
    MoveIsExchange(OrdersIn(before, category), id, way);
  }
}
