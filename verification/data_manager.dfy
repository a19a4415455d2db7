/**
 The store: two independent collections, products and customers, each the
 whole content of its own JSON file. Every operation reads one collection,
 computes, and (for a change) writes that collection back; here the file is
 the `Store` value and every operation is a function from the old store to
 the new store and the operation's answer. Operations are taken one at a
 time: each read-compute-write is one atomic step, which the code, holding
 no lock, guarantees only when requests do not overlap.
 */
module DataManager {
  import opened Wrappers
  import opened Text
  import opened Records

  datatype ProductFields = ProductFields(name: string, price: real, stock: int)
  datatype CustomerFields = CustomerFields(name: string, email: string, phone: string)

  /** A product record `{id, name, price, stock}`. */
  type Product = Entry<ProductFields>
  /** A customer record `{id, name, email, phone}`. */
  type Customer = Entry<CustomerFields>

  /** An update payload: `None` for a key the payload does not carry. */
  datatype ProductUpdate = ProductUpdate(name: Option<string>, price: Option<real>, stock: Option<int>)
  datatype CustomerUpdate = CustomerUpdate(name: Option<string>, email: Option<string>, phone: Option<string>)

  datatype Store = Store(products: seq<Product>, customers: seq<Customer>)

  /** What every store built by these operations from empty files satisfies. */
  ghost predicate Valid(st: Store)
  {
    && DistinctIds(st.products) && PositiveIds(st.products)
    && DistinctIds(st.customers) && PositiveIds(st.customers)
  }

  // ---------------------------------------------------------------------------
  // Payloads

  /** The fields of a product after an update: each key the payload carries
      replaces its field, the name stripped; every other field stays. */
  function PatchProduct(f: ProductFields, u: ProductUpdate): (g: ProductFields)
    ensures u.name.None? ==> g.name == f.name
    ensures u.name.Some? ==> IsStripOf(u.name.value, g.name)
    ensures u.price.None? ==> g.price == f.price
    ensures u.price.Some? ==> g.price == u.price.value
    ensures u.stock.None? ==> g.stock == f.stock
    ensures u.stock.Some? ==> g.stock == u.stock.value
  {
    ProductFields(
      if u.name.Some? then Strip(u.name.value) else f.name,
      if u.price.Some? then u.price.value else f.price,
      if u.stock.Some? then u.stock.value else f.stock)
  }

  /** The fields of a customer after an update: each key the payload carries
      replaces its field, stripped; every other field stays. */
  function PatchCustomer(f: CustomerFields, u: CustomerUpdate): (g: CustomerFields)
    ensures u.name.None? ==> g.name == f.name
    ensures u.name.Some? ==> IsStripOf(u.name.value, g.name)
    ensures u.email.None? ==> g.email == f.email
    ensures u.email.Some? ==> IsStripOf(u.email.value, g.email)
    ensures u.phone.None? ==> g.phone == f.phone
    ensures u.phone.Some? ==> IsStripOf(u.phone.value, g.phone)
  {
    CustomerFields(
      if u.name.Some? then Strip(u.name.value) else f.name,
      if u.email.Some? then Strip(u.email.value) else f.email,
      if u.phone.Some? then Strip(u.phone.value) else f.phone)
  }

  // ---------------------------------------------------------------------------
  // Products

  /** Every stored product, in stored order: each record listed is one get-by-id
      can return, and each record get-by-id returns is listed. */
  function GetAllProducts(st: Store): (r: seq<Product>)
    ensures r == st.products
    ensures forall i | 0 <= i < |r| :: GetProduct(st, r[i].id).Some?
    ensures DistinctIds(st.products) ==> forall i | 0 <= i < |r| :: GetProduct(st, r[i].id) == Some(r[i])
    ensures forall id | GetProduct(st, id).Some? :: GetProduct(st, id).value in r
  {
    st.products
  }

  /** The first product with `id`, or nothing when no product has it. */
  function GetProduct(st: Store, id: int): (r: Option<Product>)
    ensures r.None? <==> forall i | 0 <= i < |st.products| :: st.products[i].id != id
    ensures r.Some? ==> exists k :: IsFirst(st.products, id, k) && st.products[k] == r.value
  {
    Find(st.products, id)
  }

  /** A new product with the stripped name, under the id one above the largest
      current one (1 when there is none), appended at the end. */
  function CreateProduct(st: Store, name: string, price: real, stock: int): (res: (Store, Product))
    ensures res.0.customers == st.customers
    ensures res.0.products == st.products + [res.1]
    ensures IsStripOf(name, res.1.fields.name)
    ensures res.1.fields.price == price && res.1.fields.stock == stock
    ensures res.1.id == NextId(st.products)
    ensures forall i | 0 <= i < |st.products| :: st.products[i].id < res.1.id
    ensures st.products == [] ==> res.1.id == 1
    ensures GetProduct(res.0, res.1.id) == Some(res.1)
    ensures Valid(st) ==> Valid(res.0)
  {
    var (products, p) := Create(st.products, ProductFields(Strip(name), price, stock));
    (st.(products := products), p)
  }

  /** Changes the first product with `id` as the payload says and returns it;
      returns nothing and changes nothing when no product has `id`. */
  function UpdateProduct(st: Store, id: int, u: ProductUpdate): (res: (Store, Option<Product>))
    ensures res.0.customers == st.customers
    ensures res.1.None? <==> GetProduct(st, id).None?
    ensures res.1.None? ==> res.0 == st
    ensures res.1.Some? ==> res.1.value == Entry(id, PatchProduct(GetProduct(st, id).value.fields, u))
    ensures |res.0.products| == |st.products|
    ensures forall i | 0 <= i < |st.products| :: res.0.products[i].id == st.products[i].id
    ensures forall i | 0 <= i < |st.products| && st.products[i].id != id ::
      res.0.products[i] == st.products[i]
    ensures res.1.Some? ==> exists k :: IsFirst(st.products, id, k) && res.0.products == st.products[k := res.1.value]
    ensures GetProduct(res.0, id) == res.1
    ensures Valid(st) ==> Valid(res.0)
  {
    var (products, r) := Update(st.products, id, f => PatchProduct(f, u));
    (st.(products := products), r)
  }

  /** Removes every product with `id`; true exactly when one was there. */
  function DeleteProduct(st: Store, id: int): (res: (Store, bool))
    ensures res.0.customers == st.customers
    ensures res.1 <==> GetProduct(st, id).Some?
    ensures !res.1 ==> res.0 == st
    ensures res.1 ==> |res.0.products| < |st.products|
    ensures forall p | p in res.0.products :: p in st.products && p.id != id
    ensures forall p | p in st.products && p.id != id :: p in res.0.products
    ensures res.0.products == Remove(st.products, id)
    ensures GetProduct(res.0, id).None?
    ensures Valid(st) ==> Valid(res.0)
  {
    var (products, removed) := Delete(st.products, id);
    if removed then (st.(products := products), true) else (st, false)
  }

  // ---------------------------------------------------------------------------
  // Customers

  /** Every stored customer, in stored order: each record listed is one get-by-id
      can return, and each record get-by-id returns is listed. */
  function GetAllCustomers(st: Store): (r: seq<Customer>)
    ensures r == st.customers
    ensures forall i | 0 <= i < |r| :: GetCustomer(st, r[i].id).Some?
    ensures DistinctIds(st.customers) ==> forall i | 0 <= i < |r| :: GetCustomer(st, r[i].id) == Some(r[i])
    ensures forall id | GetCustomer(st, id).Some? :: GetCustomer(st, id).value in r
  {
    st.customers
  }

  /** The first customer with `id`, or nothing when no customer has it. */
  function GetCustomer(st: Store, id: int): (r: Option<Customer>)
    ensures r.None? <==> forall i | 0 <= i < |st.customers| :: st.customers[i].id != id
    ensures r.Some? ==> exists k :: IsFirst(st.customers, id, k) && st.customers[k] == r.value
  {
    Find(st.customers, id)
  }

  /** A new customer with every text field stripped, under the id one above the
      largest current one (1 when there is none), appended at the end. */
  function CreateCustomer(st: Store, name: string, email: string, phone: string): (res: (Store, Customer))
    ensures res.0.products == st.products
    ensures res.0.customers == st.customers + [res.1]
    ensures IsStripOf(name, res.1.fields.name)
    ensures IsStripOf(email, res.1.fields.email)
    ensures IsStripOf(phone, res.1.fields.phone)
    ensures res.1.id == NextId(st.customers)
    ensures forall i | 0 <= i < |st.customers| :: st.customers[i].id < res.1.id
    ensures st.customers == [] ==> res.1.id == 1
    ensures GetCustomer(res.0, res.1.id) == Some(res.1)
    ensures Valid(st) ==> Valid(res.0)
  {
    var (customers, c) := Create(st.customers, CustomerFields(Strip(name), Strip(email), Strip(phone)));
    (st.(customers := customers), c)
  }

  /** Changes the first customer with `id` as the payload says and returns it;
      returns nothing and changes nothing when no customer has `id`. */
  function UpdateCustomer(st: Store, id: int, u: CustomerUpdate): (res: (Store, Option<Customer>))
    ensures res.0.products == st.products
    ensures res.1.None? <==> GetCustomer(st, id).None?
    ensures res.1.None? ==> res.0 == st
    ensures res.1.Some? ==> res.1.value == Entry(id, PatchCustomer(GetCustomer(st, id).value.fields, u))
    ensures |res.0.customers| == |st.customers|
    ensures forall i | 0 <= i < |st.customers| :: res.0.customers[i].id == st.customers[i].id
    ensures forall i | 0 <= i < |st.customers| && st.customers[i].id != id ::
      res.0.customers[i] == st.customers[i]
    ensures res.1.Some? ==> exists k :: IsFirst(st.customers, id, k) && res.0.customers == st.customers[k := res.1.value]
    ensures GetCustomer(res.0, id) == res.1
    ensures Valid(st) ==> Valid(res.0)
  {
    var (customers, r) := Update(st.customers, id, f => PatchCustomer(f, u));
    (st.(customers := customers), r)
  }

  /** Removes every customer with `id`; true exactly when one was there. */
  function DeleteCustomer(st: Store, id: int): (res: (Store, bool))
    ensures res.0.products == st.products
    ensures res.1 <==> GetCustomer(st, id).Some?
    ensures !res.1 ==> res.0 == st
    ensures res.1 ==> |res.0.customers| < |st.customers|
    ensures forall c | c in res.0.customers :: c in st.customers && c.id != id
    ensures forall c | c in st.customers && c.id != id :: c in res.0.customers
    ensures res.0.customers == Remove(st.customers, id)
    ensures GetCustomer(res.0, id).None?
    ensures Valid(st) ==> Valid(res.0)
  {
    var (customers, removed) := Delete(st.customers, id);
    if removed then (st.(customers := customers), true) else (st, false)
  }

  // ---------------------------------------------------------------------------
  // Lemmas

  /** The files the store starts from hold empty collections. */
  lemma EmptyStoreValid()
    ensures Valid(Store([], []))
  {
  }

  lemma PatchProductIdempotent(f: ProductFields, u: ProductUpdate)
    ensures PatchProduct(PatchProduct(f, u), u) == PatchProduct(f, u)
  {
    if u.name.Some? { StripIdempotent(u.name.value); }
  }

  lemma PatchCustomerIdempotent(f: CustomerFields, u: CustomerUpdate)
    ensures PatchCustomer(PatchCustomer(f, u), u) == PatchCustomer(f, u)
  {
    if u.name.Some? { StripIdempotent(u.name.value); }
    if u.email.Some? { StripIdempotent(u.email.value); }
    if u.phone.Some? { StripIdempotent(u.phone.value); }
  }

  /** Sending the same product update twice leaves the store as sending it once. */
  lemma UpdateProductIdempotent(st: Store, id: int, u: ProductUpdate)
    ensures UpdateProduct(UpdateProduct(st, id, u).0, id, u) == UpdateProduct(st, id, u)
  {
    var patch := f => PatchProduct(f, u);
    var r := Update(st.products, id, patch).1;
    if r.Some? {
      var k :| IsFirst(st.products, id, k) && r.value == Entry(id, patch(st.products[k].fields));
      PatchProductIdempotent(st.products[k].fields, u);
    }
    UpdateFixedPoint(st.products, id, patch);
  }

  /** Sending the same customer update twice leaves the store as sending it once. */
  lemma UpdateCustomerIdempotent(st: Store, id: int, u: CustomerUpdate)
    ensures UpdateCustomer(UpdateCustomer(st, id, u).0, id, u) == UpdateCustomer(st, id, u)
  {
    var patch := f => PatchCustomer(f, u);
    var r := Update(st.customers, id, patch).1;
    if r.Some? {
      var k :| IsFirst(st.customers, id, k) && r.value == Entry(id, patch(st.customers[k].fields));
      PatchCustomerIdempotent(st.customers[k].fields, u);
    }
    UpdateFixedPoint(st.customers, id, patch);
  }

  /** Two creates in a row hand out consecutive ids. */
  lemma CreateProductIdsConsecutive(st: Store, n1: string, p1: real, s1: int, n2: string, p2: real, s2: int)
    ensures var (st1, a) := CreateProduct(st, n1, p1, s1);
            CreateProduct(st1, n2, p2, s2).1.id == a.id + 1
  {
    NextIdAfterCreate(st.products, ProductFields(Strip(n1), p1, s1));
  }

  /** Two creates in a row hand out consecutive ids. */
  lemma CreateCustomerIdsConsecutive(st: Store, n1: string, e1: string, ph1: string, n2: string, e2: string, ph2: string)
    ensures var (st1, a) := CreateCustomer(st, n1, e1, ph1);
            CreateCustomer(st1, n2, e2, ph2).1.id == a.id + 1
  {
    NextIdAfterCreate(st.customers, CustomerFields(Strip(n1), Strip(e1), Strip(ph1)));
  }

  /** Ids are fresh only for the collection as it stands: after deleting the
      product with the largest id, the next create hands that id out again. */
  lemma ProductIdReusedAfterDelete(st: Store, n1: string, p1: real, s1: int, n2: string, p2: real, s2: int,
                                   n3: string, p3: real, s3: int)
    requires st.products == []
    ensures var (st1, a) := CreateProduct(st, n1, p1, s1);
            var (st2, b) := CreateProduct(st1, n2, p2, s2);
            var (st3, deleted) := DeleteProduct(st2, b.id);
            var (st4, c) := CreateProduct(st3, n3, p3, s3);
            a.id == 1 && b.id == 2 && deleted && c.id == b.id
  {
    var (st1, a) := CreateProduct(st, n1, p1, s1);
    var (st2, b) := CreateProduct(st1, n2, p2, s2);
    assert st2.products == [a] + [b];
    assert b.id == 2 by {
      NextIdAfterCreate(st.products, a.fields);
    }
    var (st3, deleted) := DeleteProduct(st2, b.id);
    assert st3.products == [a] by {
      RemoveDistributes([a], [b], b.id);
    }
  }

  /** Updating the only product of a store. */
  lemma UpdateOnlyProduct(st: Store, p: Product, u: ProductUpdate)
    requires st.products == [p]
    ensures var q := Entry(p.id, PatchProduct(p.fields, u));
            UpdateProduct(st, p.id, u) == (st.(products := [q]), Some(q))
  {
    assert IsFirst(st.products, p.id, 0);
    FindsFirst(st.products, p.id, 0);
    var q := Entry(p.id, PatchProduct(p.fields, u));
    assert st.products[0 := q] == [q];
  }

  /** Deleting the only product of a store empties it. */
  lemma DeleteOnlyProduct(st: Store, p: Product)
    requires st.products == [p]
    ensures DeleteProduct(st, p.id) == (st.(products := []), true)
  {
    assert Remove(st.products, p.id) == [];
  }

  /** The product life cycle the unit tests walk through, for any names without
      surrounding whitespace: create on an empty store gives id 1 with the
      fields as sent; an update of name and price keeps the stock; an update
      or delete of an unknown id does nothing; delete succeeds and the product
      is gone afterwards. */
  lemma ProductLifeCycle(st: Store, name: string, price: real, stock: int,
                         newName: string, newPrice: real, unknown: int)
    requires st.products == []
    requires name == [] || (!IsSpace(name[0]) && !IsSpace(name[|name| - 1]))
    requires newName == [] || (!IsSpace(newName[0]) && !IsSpace(newName[|newName| - 1]))
    requires unknown != 1
    ensures var created := CreateProduct(st, name, price, stock);
            var u := ProductUpdate(Some(newName), Some(newPrice), None);
            var updated := UpdateProduct(created.0, 1, u);
            var deleted := DeleteProduct(updated.0, 1);
            && created.1 == Entry(1, ProductFields(name, price, stock))
            && updated.1 == Some(Entry(1, ProductFields(newName, newPrice, stock)))
            && UpdateProduct(created.0, unknown, u) == (created.0, None)
            && deleted.1
            && GetProduct(deleted.0, 1) == None
            && DeleteProduct(deleted.0, unknown) == (deleted.0, false)
  {
    StripKeepsTrimmed(name);
    StripKeepsTrimmed(newName);
    var created := CreateProduct(st, name, price, stock);
    var p := created.1;
    assert created.0.products == [p];
    var u := ProductUpdate(Some(newName), Some(newPrice), None);
    UpdateOnlyProduct(created.0, p, u);
    assert GetProduct(created.0, unknown) == None;
    var updated := UpdateProduct(created.0, 1, u);
    DeleteOnlyProduct(updated.0, updated.1.value);
    assert GetProduct(DeleteProduct(updated.0, 1).0, unknown) == None;
  }
}
