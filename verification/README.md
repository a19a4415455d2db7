# Emerald Electronics inventory store, modelled in Dafny

This project models the record-keeping core of a small inventory service. The
service keeps Products `{id, name, price, stock}` and Customers
`{id, name, email, phone}`. Each kind of record lives in its own JSON file.
`DataManager` offers get-all, get-by-id, create, partial update and delete
for each kind. The report page filters products by stock level, sorts them
by stock and shows a status badge per row; that logic is modelled too.

Layout:

- `wrappers.dfy`: module `Wrappers` holds `Option`, which stands for Python's `None`.
- `text.dfy`: module `Text` models `str.strip()`. `IsSpace` is the character
  set of Python's `str.isspace()`. `IsStripOf` is an independent description of
  a stripped string, and `Strip` is proved to meet it.
- `records.dfy`: module `Records` holds one collection as `seq<Entry<F>>`,
  where an entry is an id plus the entity's own fields. It defines, once for
  both kinds: next-id assignment, find-first-by-id, create (append),
  update-first-by-id and delete (filter out by id).
- `data_manager.dfy`: module `DataManager` holds the product and customer
  fields, the update payloads (a key the payload does not carry is `None`),
  `Store` (both collections), and the ten `DataManager` operations. Each
  operation is a pure function from the old store to the new store and the
  operation's answer. Get-all is the collection itself
  (`GetAllProducts`, `GetAllCustomers`).
- `reports.dfy`: module `Reports` holds the stock-level filter, the badge, the
  stable sort by stock and the sorted-by-stock report rows.

Ids are fresh only against the collection as it stands. The code computes the
next id as the largest current id plus one, so deleting the record with the
largest id and then creating a record hands that id out again. The create
contracts pin the new id to exactly that value, and
`ProductIdReusedAfterDelete` shows the reuse.

## Model

| member | source | states |
|---|---|---|
| Records.MaxId | data_manager.py:46 | the result is the id of some record and no record has a larger id |
| Records.NextId | data_manager.py:42-46 | 1 for an empty collection; otherwise one more than an existing id and strictly greater than every id |
| Records.FirstIndex | data_manager.py:56 | the position of the first record with the id, or nothing exactly when no record has it |
| Records.Find | data_manager.py:53-56 | get-by-id returns the record at the first position carrying the id, and nothing exactly when no record carries it |
| Records.FindDistinct | data_manager.py:53-56 | with distinct ids, get-by-id on any record's id returns that record |
| Records.Create | data_manager.py:58-69 | appends exactly one record, at the end, with the given fields and the id `NextId` gives (largest existing id plus one, 1 on empty), which is above every existing id; keeps ids distinct and positive; the new record is then found by its id |
| Records.Update | data_manager.py:71-88 | absent id: nothing returned and nothing changed; present id: only the first record with it changes, to the patched fields under the same id; length, order and every id are kept; distinctness is kept; get-by-id then returns the updated record |
| Records.UpdateFixedPoint | data_manager.py:75-86 | repeating an update whose patch leaves its own result unchanged alters nothing further |
| Records.Remove | data_manager.py:95 | keeps exactly the records whose id differs, gets shorter exactly when some record had the id, and is the identity otherwise |
| Records.RemoveDistributes | data_manager.py:95 | filtering a concatenation is filtering each part, so the kept records stay in their relative order |
| Records.RemoveKeepsDistinct | data_manager.py:95 | filtering keeps ids distinct |
| Records.Delete | data_manager.py:90-101 | true exactly when some record had the id, which is exactly when the collection shrank; false leaves the collection unchanged; afterwards no record has the id; keeps ids distinct and positive |
| Records.NextIdAfterCreate | data_manager.py:42-69 | after a create the next id is the created id plus one |
| Records.NextIdAfterUpdate | data_manager.py:71-88 | an update does not move the next id |
| Records.NextIdAfterDelete | data_manager.py:90-101 | with positive ids a delete never raises the next id |
| Text.Strip | data_manager.py:63 | the result is the input with whitespace removed at both ends: a slice cut only at whitespace whose ends are not whitespace |
| Text.StripOfUnique | data_manager.py:63 | only one string is a strip of a given string |
| Text.StripIdempotent | data_manager.py:79 | stripping a stripped string changes nothing |
| Text.StripKeepsTrimmed | data_manager.py:63 | a string without whitespace at either end is stored as given |
| DataManager.PatchProduct | data_manager.py:78-83 | each key the payload carries replaces its field (the name stripped); every field the payload lacks keeps its value |
| DataManager.PatchCustomer | data_manager.py:133-138 | each key the payload carries replaces its field, stripped; every field the payload lacks keeps its value |
| DataManager.GetAllProducts | data_manager.py:49-51 | the stored products in stored order; every listed product is found by get-by-id (itself, when ids are distinct) and every product get-by-id returns is listed |
| DataManager.GetProduct | data_manager.py:53-56 | the first product with the id, or nothing exactly when no product has it |
| DataManager.CreateProduct | data_manager.py:58-69 | customers untouched; one product appended at the end with the name stripped, price and stock as given, and id one more than the largest product id (1 on an empty collection), so above every product id; it is then found by its id; the store invariant is kept |
| DataManager.UpdateProduct | data_manager.py:71-88 | customers untouched; nothing returned and nothing changed exactly when the id is absent; otherwise the returned record is the first product with that id, patched, under the same id, and the new collection is the old one with exactly that position replaced, so length, order, ids and every other product (later ones with the same id included) are kept; get-by-id returns the updated record; the invariant is kept |
| DataManager.DeleteProduct | data_manager.py:90-101 | customers untouched; true exactly when a product had the id; false leaves the store unchanged; exactly the products with another id remain, in order; get-by-id then finds nothing; the invariant is kept |
| DataManager.GetAllCustomers | data_manager.py:104-106 | the stored customers in stored order; every listed customer is found by get-by-id (itself, when ids are distinct) and every customer get-by-id returns is listed |
| DataManager.GetCustomer | data_manager.py:108-111 | the first customer with the id, or nothing exactly when no customer has it |
| DataManager.CreateCustomer | data_manager.py:113-124 | products untouched; one customer appended at the end with name, email and phone stripped, and id one more than the largest customer id (1 on an empty collection), so above every customer id; it is then found by its id; the invariant is kept |
| DataManager.UpdateCustomer | data_manager.py:126-143 | products untouched; nothing returned and nothing changed exactly when the id is absent; otherwise the returned record is the first customer with that id, patched, under the same id, and the new collection is the old one with exactly that position replaced, so nothing else changes (later customers with the same id included); get-by-id returns it; the invariant is kept |
| DataManager.DeleteCustomer | data_manager.py:145-156 | products untouched; true exactly when a customer had the id; false leaves the store unchanged; exactly the customers with another id remain, in order; get-by-id then finds nothing; the invariant is kept |
| DataManager.EmptyStoreValid | data_manager.py:14-22 | the empty collections the store starts from satisfy the invariant (distinct, positive ids) |
| DataManager.PatchProductIdempotent | data_manager.py:78-83 | applying the same product payload twice equals applying it once |
| DataManager.PatchCustomerIdempotent | data_manager.py:133-138 | applying the same customer payload twice equals applying it once |
| DataManager.UpdateProductIdempotent | data_manager.py:71-88 | sending the same product update twice leaves the store and the answer as sending it once |
| DataManager.UpdateCustomerIdempotent | data_manager.py:126-143 | sending the same customer update twice leaves the store and the answer as sending it once |
| DataManager.CreateProductIdsConsecutive | data_manager.py:42-69 | two product creates in a row hand out consecutive ids |
| DataManager.CreateCustomerIdsConsecutive | data_manager.py:113-124 | two customer creates in a row hand out consecutive ids |
| DataManager.ProductIdReusedAfterDelete | data_manager.py:42-46 | create A, create B, delete B, create C: C gets B's id, so ids are fresh only for the current collection |
| DataManager.UpdateOnlyProduct | data_manager.py:71-88 | updating the only product of a store replaces it with the patched record under the same id and returns that record |
| DataManager.DeleteOnlyProduct | data_manager.py:90-101 | deleting the only product of a store empties the product collection and reports true |
| DataManager.ProductLifeCycle | test_data_manager.py:28-97 | for any names without surrounding whitespace, on an empty store: create gives id 1 with the fields as sent; a name-and-price update keeps the stock; update and delete of an unknown id change nothing and report failure; delete succeeds and get then finds nothing |
| Reports.FilterByStock | reports.js:48-56 | each product appears in the result as often as in the input when the filter keeps its stock, otherwise never; "low" keeps stock at most 5, "medium" above 5 up to 20, "high" above 20; any other filter value returns the list unchanged |
| Reports.FilterDistributes | reports.js:49-56 | filtering a concatenation is filtering each part, so the filter keeps the original relative order |
| Reports.LevelsPartition | reports.js:50-55 | the low, medium and high results are pairwise disjoint and together are the whole product list |
| Reports.StockBadge | reports.js:90-95 | "Low" exactly when the low filter keeps the stock, "Medium" exactly when the medium filter does, "Good" exactly when the high filter does |
| Reports.InsertByStock | reports.js:59-63 | inserting into a stock-sorted list yields a stock-sorted list holding one more product |
| Reports.SortByStock | reports.js:59-63 | the result is a permutation of the input with non-decreasing stock |
| Reports.SortStable | reports.js:59-63 | products with equal stock keep their input order |
| Reports.Badged | reports.js:83-95 | one row per product, in order, each carrying the badge for its stock |
| Reports.StockReport | reports.js:48-95 | with sorting by stock, the rows show a permutation of the filtered products in non-decreasing stock, keeping the filtered order among equal stock, each with its stock's badge; under a level filter every badge names that level |

## Left out

- Reading and writing the JSON files, creating missing files, and treating an unreadable file as an empty collection (data_manager.py:14-40) are file I/O. The model's state is the collections themselves, so a failed write, which the code re-raises, is not modelled.
- Requests are modelled one at a time: each operation's read, compute and write is taken as one atomic step. The code takes no lock (data_manager.py:60-68, 73-86, 92-98), so two overlapping requests can lose an update: an update that read the collection before a create finished writes back a collection without the created record. `_write_json_file` opens the file with `'w'`, which empties it before the dump (data_manager.py:36-37); a read during that window fails to parse and yields an empty collection (lines 28-31), and a create working from it writes a one-record file with id 1 (lines 44-45). The create, update and delete contracts, "nothing else changes" included, hold only for requests that do not overlap.
- Request validation and HTTP status codes belong to the Flask layer (app.py); its validation code is not part of this model, and the model adds no validation of its own.
- `price` is an opaque `real` passed through unchanged; the store never computes with it. The price sort, the value column and `toFixed` formatting in reports.js are floating point and are left out.
- The name sort through `localeCompare` depends on locale collation and is left out. So `Reports.StockReport` covers only `sortBy === 'stock'`, and the stock comparator is taken as the exact integer difference.
- Report HTML, DOM, fetch and async code are left out.
- Reports.SortByStock: the sort is taken to be stable, as `Array.prototype.sort` is required to be from ECMAScript 2019 on. An older engine may order products of equal stock differently, and `Reports.SortStable` does not describe it.
- Text.Strip: strings are sequences of Unicode scalar values, so a lone surrogate cannot occur. Python's `json` decodes `"\ud800"` into one, and `str.strip()` and `json.dump` keep it; such strings are outside the model.
- Text.Strip: Python's whitespace set is written out for current Unicode data. A later Unicode version that changes it would need `IsSpace` edited.
- Argument and payload values are typed: price is a `real`, stock an `int`, and name, email and phone are strings. The Python store writes whatever JSON value it is given for price and stock (null, a string, 2.5 as stock), and raises when a text field is not a string; values of any other JSON type are outside the model.
