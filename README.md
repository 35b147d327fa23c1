# Customer and address store, modelled in Dafny

The backend keeps two SQLite tables. `customers` holds first name, last name, a unique
phone number and the derived flag `only_one_address`. `addresses` holds the owning
`customer_id`, four text fields and `is_primary`. Express handlers create, read, update and
delete rows in both tables. Two request validators and two pagination helpers sit beside
them.

This project models that consistency layer:

- The two tables are `map`s in a `class Store` (`db.dfy`), together with the two
  AUTOINCREMENT counters. The UPDATE statements and the delete of a customer's addresses
  are functions from the old table to the new one (`tables.dfy`): the primary clear, the
  address UPDATE, the customer rename, the flag UPDATE and the delete. The INSERTs and the
  single-row DELETEs are written in the controller modules: the address
  INSERT as the function `InsertAddress`, the others as map updates inside the handlers.
- Each handler is a method on the store (`address_controller.dfy`,
  `customer_controller.dfy`). It runs the statements in the source's order and returns
  `Ok(payload)` or `Err(status)`, where the status is 400, 404 or 500.
- The two batch handlers keep their loops. Each loop is proved against a recursive
  specification function: `UpdateAll` for batch update, `AddAll` for batch insert.
- The three read queries are pure functions: `GetAddresses`, `GetCustomer`, and the
  filtered, paginated customer list `GetCustomers`.
- `validate.dfy` models the request validators. `pagination.dfy` models the pagination
  helpers.

The store invariant `Store.Valid` holds before and after every handler:

- every id was issued by its table's counter;
- phone numbers are unique (the schema's UNIQUE constraint);
- no customer has two primary addresses;
- stored text fields are non-empty.

The flag invariant (`only_one_address` is true exactly when the customer has one address)
is not part of `Valid`, because the batch insert breaks it. Each single-address handler
proves it for the customer it touches. `AddAllSkipsCustomerChecks` exhibits a batch insert
that leaves the flag stale.

Three consequences of the code are easy to miss, and the model states them:

- **Filters test one address row.** The WHERE clause runs over the rows of
  `customers LEFT JOIN addresses`. The city, state and pin-code conditions must all hold on
  one joined address row, not each on some address of the customer
  (`ConditionsHoldOnOneRow`).
- **`address_count` counts matching rows.** Under a filter it counts only the customer's
  addresses whose joined rows pass the filter, not every address the customer owns.
- **Batch handlers skip the flag recompute.** The single-address handlers recompute
  `only_one_address` after each address write. The batch handlers never do.

## Model

| member | source | states |
|---|---|---|
| Validate.ValidateCustomer | middlewares/validate.js:3-9 | passes on exactly when first name, last name and phone number are all present and non-empty; otherwise rejects with 400 |
| Validate.ValidateAddress | middlewares/validate.js:11-17 | passes on exactly when details, city, state and pin code are all present and non-empty (`is_primary` plays no part); otherwise rejects with 400 |
| Pagination.GetPagination | utils/pagination.js:1-4 | `limit` is passed through; page 1 starts at offset 0; from page 1 on the offset is not negative |
| Pagination.PagesAdjacent | utils/pagination.js:1-3 | each page starts exactly `limit` rows after the one before it |
| Pagination.TotalPages | utils/pagination.js:11 | for a positive limit, the page count n is the ceiling of total/limit: n·limit ≥ total and (n−1)·limit < total |
| Pagination.GetPaginationMeta | utils/pagination.js:6-13 | echoes total, page and limit; `totalPages` satisfies both ceiling bounds |
| Pagination.TotalPagesOfNothing | utils/pagination.js:11 | zero rows make zero pages |
| Pagination.TotalPagesIsCeiling | utils/pagination.js:11 | the page count is the only number that satisfies both ceiling bounds |
| Pagination.TotalPagesMonotone | utils/pagination.js:11 | more rows never give fewer pages |
| Pagination.RowOnPage | utils/pagination.js:1-3 | row i (counted from 0) is row i mod limit of page ⌊i/limit⌋+1: that page's offset is not negative and lies i mod limit rows before i |
| Db.Store.constructor | config/db.js:16-31 | a new store has empty tables, zero counters and satisfies the invariant |
| Tables.ClearPrimary | controllers/addressController.js:25 | afterwards the customer has no primary address; no row changes owner; only `is_primary` can change, and only from true to false; other customers' rows are untouched |
| Tables.OverwriteAddress | controllers/addressController.js:70-73 | row id gets the new fields and keeps its owner; a missing id changes nothing; every other row is untouched |
| Tables.DeleteAddressesOf | controllers/customerController.js:131 | exactly the customer's addresses are removed; the remaining rows are unchanged and none belongs to the customer |
| Tables.RenameCustomer | controllers/customerController.js:110-113 | only the three name and phone fields of row id change; `only_one_address` and every other row stay the same; a missing id changes nothing |
| Tables.WithAddressFlag | controllers/addressController.js:6-10 | sets the customer's flag to "has exactly one address" and changes no other field and no other customer |
| Tables.WithAddressFlagIdempotent | controllers/addressController.js:6-10 | recomputing the flag twice with no address change between is the same as recomputing it once |
| Tables.WithAddressFlagKeepsValid | controllers/addressController.js:6-10 | recomputing a flag keeps the customers table valid |
| Tables.RenameKeepsValid | controllers/customerController.js:107-113 | renaming to a phone number that no other customer holds keeps phone numbers unique |
| Tables.ClearPrimaryKeepsAtMostOne | controllers/addressController.js:24-26 | clearing primaries keeps "at most one primary per customer" |
| Tables.OverwriteKeepsAtMostOne | controllers/addressController.js:65-73 | overwriting a row keeps at most one primary per customer; with `is_primary` set after a clear, the row is its owner's only primary |
| Tables.InsertKeepsAtMostOne | controllers/addressController.js:24-31 | inserting a fresh row keeps at most one primary per customer; a primary row inserted after a clear is its owner's only primary |
| Tables.InsertCount | controllers/addressController.js:28-31 | a fresh row adds one to its owner's address count and nothing to any other customer's |
| Tables.RemoveCount | controllers/addressController.js:94 | deleting a row takes one from its owner's count and nothing from any other customer's |
| Tables.SameOwnersSameCounts | controllers/addressController.js:122-130 | statements that move no row between customers leave every address set, and so every flag's correctness, as it was |
| Tables.SortedIds | controllers/addressController.js:48 | lists the ids of a set once each, in ascending order (the rowid order of a SELECT without ORDER BY) |
| AddressController.UpdateSingleAddressFlag | controllers/addressController.js:6-10 | the customers table becomes `WithAddressFlag` of the current addresses; addresses and counters are unchanged; the invariant is kept |
| AddressController.InsertAddress | controllers/addressController.js:24-31 | the insert adds exactly the id counter+1, holding the new row, and every id stays within the new counter |
| AddressController.InsertAddressCount | controllers/addressController.js:28-33 | the insert adds one to the owner's address count and changes no other customer's count |
| AddressController.InsertAddressRows | controllers/addressController.js:24-31 | the insert keeps at most one primary per customer; a primary row becomes its owner's only primary; a non-primary insert leaves every old row untouched; the table grows by one |
| AddressController.InsertAddressUnmarks | controllers/addressController.js:24-31 | the insert changes an old row at most by clearing its primary flag |
| AddressController.InsertAddressRow | controllers/addressController.js:24-31 | the statements produce `InsertAddress` of the old table, return the new id, advance the counter and keep the address invariants |
| AddressController.CreateAddress | controllers/addressController.js:14-36 | missing fields give 400 and no change, checked before the lookup; an unknown customer gives 404 and no change; otherwise the new id is counter+1, the tables are the clear, insert and flag recompute of the source, the count grows by one, the flag is right, and the primary rule holds |
| AddressController.GetAddresses | controllers/addressController.js:48 | returns one row per address of the customer (as many as its address count), each equal to the stored row, in ascending id order |
| AddressController.GetAddressesListsAll | controllers/addressController.js:48 | every address of the customer appears in the list |
| AddressController.WriteAddressRow | controllers/addressController.js:65-73 | the clear and UPDATE statements leave the address table as `UpdateAddressRow` says and fail with 500 exactly when it does; an unknown id changes nothing; the address invariants hold; customers and counters are unchanged |
| AddressController.UpdateAddressRow | controllers/addressController.js:65-73 | fails with 500 exactly when `is_primary` is set and the row is missing; otherwise no row changes owner, row id gets the new fields, other rows at most lose their primary flag, and only when `is_primary` is set; other customers' rows are untouched, the invariants hold, and a primary row is its owner's only primary |
| AddressController.UpdateAddress | controllers/addressController.js:62-79 | missing fields give 400 and no change; a missing id gives 500 and no change on both paths; otherwise the tables are `UpdateAddressRow` plus the owner's flag recompute, and the owner's flag is right; a non-primary update leaves every other address row as it was |
| AddressController.DeleteAddress | controllers/addressController.js:91-98 | an unknown id gives 404 and no change; otherwise exactly that row is removed, the owner's count drops by one, its flag is right, and deleting the last address sets the flag to false |
| AddressController.UpdateAll | controllers/addressController.js:115-131 | the batch update's effect: no row changes owner, the invariants hold, success means every item was valid, and any error is 400 or 500 |
| AddressController.UpdateAllSucceeds | controllers/addressController.js:115-131 | a batch update succeeds exactly when every item is valid and no primary item names a missing row (the row ids never change along the batch) |
| AddressController.UpdateAllAppend | controllers/addressController.js:115-131 | items run in list order: the list p+q runs p, then q on what p left if p succeeded |
| AddressController.UpdateAllStopsAt | controllers/addressController.js:115-125 | the first item that stops a batch update ends it with 400 when it fails validation and with 500 when it is a primary item naming no row; the rows the items before it wrote stay written |
| AddressController.UpdateAllWrites | controllers/addressController.js:115-131 | after a successful batch update, each row named by an item holds the fields of the last item naming it, under its old owner; that row keeps the item's primary flag exactly unless a later primary item names a row of the same owner, and otherwise at most loses it; a row no item names at most loses its primary flag, and stays exactly as it was unless a primary item names a row of the same owner |
| AddressController.UpdateAllLastItem | controllers/addressController.js:115-131 | the last item of a successful batch update leaves its row holding exactly its fields, so a primary last item leaves its row primary |
| AddressController.UpdateAllKeepsFlags | controllers/addressController.js:122-131 | skipping the flag recompute is harmless for batch update: a flag that was right before is right after |
| AddressController.UpdateMultipleAddresses | controllers/addressController.js:109-133 | a missing or empty list gives 400 and no change; otherwise the address table and status are those of `UpdateAll`; customers and counters are unchanged (no flag recompute) |
| AddressController.AddAll | controllers/addressController.js:151-165 | the batch insert's effect: success exactly when every item is valid, otherwise 400; the counter only grows and every id stays within it |
| AddressController.ValidPrefix | controllers/addressController.js:151-155 | the number of items before the first invalid one: every item before it passes validation, and the item at that position, if any, fails |
| AddressController.AddAllWrites | controllers/addressController.js:151-165 | the counter advances by one per item before the first invalid one; the table holds exactly the old ids and the new ones; item k is row counter+k+1 with its customer and four fields; old and new rows lose at most their primary flag, and a row stays exactly as it was unless a later inserted primary item has the same owner |
| AddressController.AddAllKeepsRows | controllers/addressController.js:151-165 | the batch insert keeps every old id, and the table grows by exactly as many rows as the counter advanced |
| AddressController.AddAllAppend | controllers/addressController.js:151-165 | items run in list order: the list p+q runs p, then q on what p left if p succeeded |
| AddressController.AddAllStopsAtInvalid | controllers/addressController.js:153-155 | the first invalid item ends the batch with 400 and the rows inserted before it stay |
| AddressController.ExampleBatchRows | controllers/addressController.js:151-165 | a two-item batch inserts ids 2 and 3 in list order |
| AddressController.AddAllSkipsCustomerChecks | controllers/addressController.js:151-167 | an item for a customer that does not exist is inserted, and a customer whose flag was right with one address keeps the flag set beside a second address |
| AddressController.InsertItem | controllers/addressController.js:157-164 | one iteration's clear and insert for a valid item: the batch's outcome from that item on equals the outcome of the items after it on the new table; the address invariants hold; customers are unchanged |
| AddressController.AddMultipleAddresses | controllers/addressController.js:146-167 | a missing or empty list gives 400 and no change; otherwise the tables, counter and status are those of `AddAll`; customers are unchanged (no lookup, no flag recompute) |
| CustomerController.CheckDuplicateCustomer | controllers/customerController.js:7-9 | finds nothing exactly when no customer holds the phone number; a customer it finds holds that number |
| CustomerController.DuplicateIsTheHolder | controllers/customerController.js:7-9 | with unique phone numbers, the lookup finds the one customer holding the number |
| CustomerController.OwnPhoneIsNoDuplicate | controllers/customerController.js:107-108 | the update's "other customer" lookup never finds the customer's own current number |
| CustomerController.CreateCustomer | controllers/customerController.js:21-35 | missing fields give 400 and no change; success exactly when no customer holds the phone number, whatever the names; on success one row is added at counter+1 and addresses are unchanged; the invariant (unique phones) is kept |
| CustomerController.UpdateCustomer | controllers/customerController.js:101-116 | success exactly when the fields are present and no other customer holds the phone number, so keeping one's own number succeeds; on success only row id's three fields change; an absent id succeeds with no change; addresses never change |
| CustomerController.DeleteCustomer | controllers/customerController.js:129-135 | always succeeds; removes the customer and exactly its addresses; every other customer's addresses stay the same |
| CustomerController.GetCustomer | controllers/customerController.js:82-90 | 404 exactly when the id is absent; otherwise the row with exactly its addresses attached, as many as its address count |
| CustomerController.Listing | controllers/customerController.js:47-68 | the grouped rows of the given customers, never more rows than customers |
| CustomerController.ListingSound | controllers/customerController.js:47-68 | every row belongs to a customer that some joined row selects, and carries its columns and its count of matching addresses |
| CustomerController.ListingComplete | controllers/customerController.js:47-68 | every selected customer has a row |
| CustomerController.ListingIncreasing | controllers/customerController.js:68 | rows come in the order of the ids they are built from |
| CustomerController.ListCustomers | controllers/customerController.js:47-68 | the grouped query over all ids in ascending order; never more rows than customers |
| CustomerController.ListCustomersSelectsExactly | controllers/customerController.js:47-68 | the list holds exactly the selected customers, once each, in ascending id order, each row carrying the stored columns and `address_count` the number of matching address rows |
| CustomerController.UnfilteredRow | controllers/customerController.js:48-50 | with no filter every customer is selected and its `address_count` is its address count |
| CustomerController.UnfilteredListing | controllers/customerController.js:47-51 | with no filter the listing has one row per id, in order, with the full address count |
| CustomerController.UnfilteredListsEveryone | controllers/customerController.js:47-51 | with no filter every customer is listed once, with `address_count` equal to its number of addresses (0 if none, through the LEFT JOIN) |
| CustomerController.MatchingAddresses | controllers/customerController.js:48-67 | `COUNT(a.id)` counts only addresses of the customer itself |
| CustomerController.SelectedIffJoinedRowMatches | controllers/customerController.js:47-68 | `GROUP BY` over the LEFT JOIN lists a customer exactly when one of its own address rows passes the WHERE clause, or, when it has no address, its NULL row does |
| CustomerController.ContainsIgnoresCase | controllers/customerController.js:58-64 | `LIKE '%t%'` ignores the case of ASCII letters in both the column and the term |
| CustomerController.ContainsInfix | controllers/customerController.js:63 | `%t%` matches every column that contains `t` |
| CustomerController.SearchIgnoresCase | controllers/customerController.js:58-65 | the search condition on a joined row gives the same answer for terms that differ only in letter case |
| CustomerController.SearchFindsCityInAnyCase | controllers/customerController.js:58-67 | `search=mumbai` lists a customer whose only address is in "Mumbai" and counts that address |
| CustomerController.SearchOnOwnName | controllers/customerController.js:58-65 | any search term that occurs in a customer's first name, letter case aside, selects that customer, with or without addresses, and then every one of its addresses counts |
| CustomerController.ConditionsHoldOnOneRow | controllers/customerController.js:55-67 | a customer with one address that matches the city and another that matches the pin code is not selected when both are asked for |
| CustomerController.Window | controllers/customerController.js:68-69 | LIMIT/OFFSET: at most `limit` rows, taken consecutively from the offset, where a negative offset counts as 0 |
| CustomerController.RowsOfPage | controllers/customerController.js:68-69 | at most `limit` rows; from page 1 on, the page is full unless the list ends first, and its row k is the list's row at the page offset plus k |
| CustomerController.EarlyPagesAreFirst | controllers/customerController.js:69 | a page number below 1 gives a negative or zero offset, which SQLite reads as 0, so it returns the first page |
| CustomerController.GetCustomers | controllers/customerController.js:45-72 | `data` is the page of the customer list; `meta.total` is the page's own length, not the number of matches; `totalPages` is 0 or 1, never more |
| CustomerController.PagesTile | controllers/customerController.js:68-69 | pages 1, 2, ... of a list tile it: row i is row i mod limit of page ⌊i/limit⌋+1 |
| CustomerController.EveryRowOnOnePage | controllers/customerController.js:68-69 | the pages tile the list: row i appears at position i mod limit of page ⌊i/limit⌋+1 |

## Left out

- The SQLite driver, the database file and the lazily opened connection (`config/db.js`) are not part of this model. Driver errors are not modelled; a failing statement would be a 500.
- The schema declares no `is_primary` or `only_one_address` columns (`config/db.js:16-31`), yet the handlers write both. The model uses the row shape the handlers expect. The phone UNIQUE constraint is an invariant of the store.
- Routing, bootstrap, the response, logging and error-handler helpers, and the seed script are left out. This includes `/multiple` being shadowed by `/:addressId` in `routes/addressRoutes.js`. Results are `Ok` or `Err(status)` values instead of HTTP responses.
- `sort_by` and `order` are spliced into the SQL text. Only the default `ORDER BY c.id ASC` is modelled.
- A SELECT without ORDER BY (`getAddresses`, `getCustomer`) is assumed to return rows in ascending id order.
- `%` and `_` inside a search term act as LIKE wildcards in SQLite. The model treats them as literal characters. Case folding covers ASCII letters only, as SQLite's LIKE does.
- async/await, requests interleaving and a crash between the non-atomic steps are out of scope: each handler runs to completion alone.
- JavaScript coercions are left out. `is_primary` is a boolean, ids and page numbers are integers, and a request field is either absent or a string. String-typed route parameters compared with integer ids are read as integers.
- GetCustomers: requires `limit > 0`. `Math.ceil` with a zero limit gives Infinity or NaN, and SQLite reads a negative LIMIT as "no limit"; neither is modelled.
- GetPaginationMeta: requires `limit > 0`, for the same reason.
- CreateCustomer: the INSERT leaves `only_one_address` unset. The model stores false, which is right for a customer without addresses.
- The second copy of `updateSingleAddressFlag` in `controllers/customerController.js:12-16` is never called and is not modelled separately.
