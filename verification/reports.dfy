/**
 The integer decisions of the inventory report: which products a stock-level
 filter keeps, the status badge each row shows, and the order rows take when
 the report is sorted by stock.
 */
module Reports {
  import opened DataManager
  import opened Records

  /** The status badge of a report row. */
  datatype Badge = LowStock | MediumStock | GoodStock

  datatype Row = Row(product: Product, badge: Badge)

  /** Whether the stock-level filter `filterStock` keeps a product with `stock`;
      a value other than the three levels keeps everything. */
  predicate Keeps(filterStock: string, stock: int)
  {
    if filterStock == "low" then stock <= 5
    else if filterStock == "medium" then stock > 5 && stock <= 20
    else if filterStock == "high" then stock > 20
    else true
  }

  predicate IsLevel(filterStock: string)
  {
    filterStock == "low" || filterStock == "medium" || filterStock == "high"
  }

  /** The products the filter keeps, in their original order. */
  function FilterByStock(ps: seq<Product>, filterStock: string): (r: seq<Product>)
    ensures forall p :: multiset(r)[p] == if Keeps(filterStock, p.fields.stock) then multiset(ps)[p] else 0
    ensures forall i | 0 <= i < |r| :: Keeps(filterStock, r[i].fields.stock)
    ensures !IsLevel(filterStock) ==> r == ps
  {
    if |ps| == 0 then []
    else
      var rest := FilterByStock(ps[1..], filterStock);
      assert ps == [ps[0]] + ps[1..];
      if Keeps(filterStock, ps[0].fields.stock) then [ps[0]] + rest else rest
  }

  /** The badge for a stock level. */
  function StockBadge(stock: int): (b: Badge)
    ensures b == LowStock <==> Keeps("low", stock)
    ensures b == MediumStock <==> Keeps("medium", stock)
    ensures b == GoodStock <==> Keeps("high", stock)
  {
    if stock <= 5 then LowStock else if stock <= 20 then MediumStock else GoodStock
  }

  ghost predicate SortedByStock(ps: seq<Product>)
  {
    forall i, j | 0 <= i < j < |ps| :: ps[i].fields.stock <= ps[j].fields.stock
  }

  /** A product with no more stock than any of the sorted `ps` may go in front. */
  lemma ConsSorted(p: Product, ps: seq<Product>)
    requires SortedByStock(ps)
    requires forall i | 0 <= i < |ps| :: p.fields.stock <= ps[i].fields.stock
    ensures SortedByStock([p] + ps)
  {
    var r := [p] + ps;
    forall i, j | 0 <= i < j < |r| ensures r[i].fields.stock <= r[j].fields.stock {
      assert r[j] == ps[j - 1];
      if i > 0 { assert r[i] == ps[i - 1]; }
    }
  }

  /** A tail of a sorted sequence is sorted, and its head is a lower bound of
      anything made of the tail and a product with more stock than the head. */
  lemma LowerBound(ps: seq<Product>, p: Product, rest: seq<Product>)
    requires SortedByStock(ps) && |ps| > 0
    requires ps[0].fields.stock < p.fields.stock
    requires multiset(rest) == multiset(ps[1..]) + multiset{p}
    ensures SortedByStock(ps[1..])
    ensures forall i | 0 <= i < |rest| :: ps[0].fields.stock <= rest[i].fields.stock
  {
    var tail := ps[1..];
    forall i, j | 0 <= i < j < |tail| ensures tail[i].fields.stock <= tail[j].fields.stock {
      assert tail[i] == ps[i + 1] && tail[j] == ps[j + 1];
    }
    forall i | 0 <= i < |rest| ensures ps[0].fields.stock <= rest[i].fields.stock {
      assert rest[i] in multiset(rest);
      if rest[i] != p {
        assert rest[i] in multiset(tail);
        var j :| 0 <= j < |tail| && tail[j] == rest[i];
        assert ps[j + 1] == rest[i];
      }
    }
  }

  /** The products of `ps` with exactly `stock` units, in order. */
  function WithStock(ps: seq<Product>, stock: int): seq<Product>
  {
    if |ps| == 0 then []
    else (if ps[0].fields.stock == stock then [ps[0]] else []) + WithStock(ps[1..], stock)
  }

  /** Puts `p` into the sorted `ps` ahead of every product with as much stock or more. */
  function InsertByStock(p: Product, ps: seq<Product>): (r: seq<Product>)
    requires SortedByStock(ps)
    ensures SortedByStock(r)
    ensures multiset(r) == multiset(ps) + multiset{p}
  {
    if |ps| == 0 || p.fields.stock <= ps[0].fields.stock then
      ConsSorted(p, ps);
      [p] + ps
    else
      assert ps == [ps[0]] + ps[1..];
      var rest := InsertByStock(p, ps[1..]);
      LowerBound(ps, p, rest);
      ConsSorted(ps[0], rest);
      [ps[0]] + rest
  }

  /** The report's stable sort under the comparator `a.stock - b.stock`. */
  function SortByStock(ps: seq<Product>): (r: seq<Product>)
    ensures SortedByStock(r)
    ensures multiset(r) == multiset(ps)
  {
    if |ps| == 0 then []
    else
      assert ps == [ps[0]] + ps[1..];
      InsertByStock(ps[0], SortByStock(ps[1..]))
  }

  /** The products shown by `rows`, in row order. */
  function RowProducts(rows: seq<Row>): (ps: seq<Product>)
    ensures |ps| == |rows|
    ensures forall i | 0 <= i < |rows| :: ps[i] == rows[i].product
  {
    if |rows| == 0 then [] else [rows[0].product] + RowProducts(rows[1..])
  }

  /** Each product of `ps` as a report row with its badge. */
  function Badged(ps: seq<Product>): (rows: seq<Row>)
    ensures RowProducts(rows) == ps
    ensures forall i | 0 <= i < |rows| :: rows[i].badge == StockBadge(rows[i].product.fields.stock)
  {
    if |ps| == 0 then []
    else
      var rows := [Row(ps[0], StockBadge(ps[0].fields.stock))] + Badged(ps[1..]);
      assert RowProducts(rows) == ps by {
        assert RowProducts(rows)[0] == ps[0];
        assert forall i | 1 <= i < |ps| :: RowProducts(rows)[i] == rows[i].product == ps[1..][i - 1];
      }
      rows
  }

  /** The rows of the inventory report sorted by stock: the products the filter
      keeps, in stock order (equal stock in filtered order), each with its badge. */
  function StockReport(ps: seq<Product>, filterStock: string): (rows: seq<Row>)
    ensures multiset(RowProducts(rows)) == multiset(FilterByStock(ps, filterStock))
    ensures SortedByStock(RowProducts(rows))
    ensures forall stock :: WithStock(RowProducts(rows), stock) == WithStock(FilterByStock(ps, filterStock), stock)
    ensures forall i | 0 <= i < |rows| :: rows[i].badge == StockBadge(rows[i].product.fields.stock)
    ensures filterStock == "low" ==> forall i | 0 <= i < |rows| :: rows[i].badge == LowStock
    ensures filterStock == "medium" ==> forall i | 0 <= i < |rows| :: rows[i].badge == MediumStock
    ensures filterStock == "high" ==> forall i | 0 <= i < |rows| :: rows[i].badge == GoodStock
  {
    var kept := FilterByStock(ps, filterStock);
    var sorted := SortByStock(kept);
    var rows := Badged(sorted);
    assert forall i | 0 <= i < |rows| :: Keeps(filterStock, rows[i].product.fields.stock) by {
      forall i | 0 <= i < |rows| ensures Keeps(filterStock, rows[i].product.fields.stock) {
        assert rows[i].product == sorted[i];
        assert sorted[i] in multiset(kept);
      }
    }
    forall stock ensures WithStock(RowProducts(rows), stock) == WithStock(kept, stock) {
      SortStable(kept, stock);
    }
    rows
  }

  // ---------------------------------------------------------------------------
  // Lemmas

  /** Filtering keeps the original relative order: filtering a concatenation
      is filtering each part. */
  lemma {:induction false} FilterDistributes(a: seq<Product>, b: seq<Product>, filterStock: string)
    ensures FilterByStock(a + b, filterStock) == FilterByStock(a, filterStock) + FilterByStock(b, filterStock)
  {
    if |a| == 0 {
      assert a + b == b;
    } else {
      assert (a + b)[1..] == a[1..] + b;
      FilterDistributes(a[1..], b, filterStock);
    }
  }

  /** The three stock levels split the products: no product is in two of them
      and together they hold every product. */
  lemma LevelsPartition(ps: seq<Product>)
    ensures multiset(FilterByStock(ps, "low")) * multiset(FilterByStock(ps, "medium")) == multiset{}
    ensures multiset(FilterByStock(ps, "low")) * multiset(FilterByStock(ps, "high")) == multiset{}
    ensures multiset(FilterByStock(ps, "medium")) * multiset(FilterByStock(ps, "high")) == multiset{}
    ensures multiset(FilterByStock(ps, "low")) + multiset(FilterByStock(ps, "medium"))
      + multiset(FilterByStock(ps, "high")) == multiset(ps)
  {
    var lo, me, hi := multiset(FilterByStock(ps, "low")), multiset(FilterByStock(ps, "medium")),
      multiset(FilterByStock(ps, "high"));
    assert lo * me == multiset{} by {
      forall p ensures (lo * me)[p] == 0 { }
    }
    assert lo * hi == multiset{} by {
      forall p ensures (lo * hi)[p] == 0 { }
    }
    assert me * hi == multiset{} by {
      forall p ensures (me * hi)[p] == 0 { }
    }
    assert lo + me + hi == multiset(ps) by {
      forall p ensures (lo + me + hi)[p] == multiset(ps)[p] { }
    }
  }

  lemma {:induction false} InsertWithStock(p: Product, ps: seq<Product>, stock: int)
    requires SortedByStock(ps)
    ensures WithStock(InsertByStock(p, ps), stock)
      == (if p.fields.stock == stock then [p] else []) + WithStock(ps, stock)
  {
    if |ps| == 0 || p.fields.stock <= ps[0].fields.stock {
      assert ([p] + ps)[1..] == ps;
    } else {
      InsertWithStock(p, ps[1..], stock);
      var rest := InsertByStock(p, ps[1..]);
      assert ([ps[0]] + rest)[1..] == rest;
      assert WithStock(ps, stock) == (if ps[0].fields.stock == stock then [ps[0]] else []) + WithStock(ps[1..], stock);
    }
  }

  /** The sort is stable: products with equal stock keep their relative order. */
  lemma {:induction false} SortStable(ps: seq<Product>, stock: int)
    ensures WithStock(SortByStock(ps), stock) == WithStock(ps, stock)
  {
    if |ps| > 0 {
      SortStable(ps[1..], stock);
      InsertWithStock(ps[0], SortByStock(ps[1..]), stock);
    }
  }
}
