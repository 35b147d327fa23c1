/** The customer handlers. Create, update and delete are statement sequences on the store;
    the two read queries, one customer with its addresses and the filtered, paginated
    customer list, are functions of the two tables. */
module CustomerController {
  import opened Results
  import opened Requests
  import opened Tables
  import opened Db
  import opened Pagination
  import AddressController

  // ---------------------------------------------------------------------------
  // Duplicate phone numbers

  /** Ids of the customers whose phone number is `phone`. */
  function PhoneHolders(customers: CustomerTable, phone: string): set<int> {
    set id | id in customers && customers[id].phoneNumber == phone
  }

  /** `checkDuplicateCustomer`: `SELECT * FROM customers WHERE phone_number = ?` finds a customer
      holding `phone`, or nothing. */
  function CheckDuplicateCustomer(customers: CustomerTable, phone: string): (r: Option<int>)
    ensures r.None? <==> forall id :: id in customers ==> customers[id].phoneNumber != phone
    ensures r.Some? ==> r.value in customers && customers[r.value].phoneNumber == phone
  {
    var holders := PhoneHolders(customers, phone);
    if holders == {} then
      assert forall id :: id in customers ==> customers[id].phoneNumber != phone by {
        forall id | id in customers ensures customers[id].phoneNumber != phone {
          assert customers[id].phoneNumber == phone ==> id in holders;
        }
      }
      None
    else
      Some(Least(holders))
  }

  /** With phone numbers unique, the lookup finds the one customer holding the number. */
  lemma DuplicateIsTheHolder(customers: CustomerTable, id: int)
    requires PhonesUnique(customers) && id in customers
    ensures CheckDuplicateCustomer(customers, customers[id].phoneNumber) == Some(id)
  {
  }

  /** The update's lookup `phone_number = ? AND id != ?` is the same lookup on the table without
      row `id`; with phone numbers unique it never finds the customer's own current number. */
  lemma OwnPhoneIsNoDuplicate(customers: CustomerTable, id: int)
    requires PhonesUnique(customers) && id in customers
    ensures CheckDuplicateCustomer(customers - {id}, customers[id].phoneNumber).None?
  {
    var phone := customers[id].phoneNumber;
    forall k | k in customers - {id} ensures customers[k].phoneNumber != phone {
      assert customers[k].phoneNumber == phone ==> k == id;
    }
  }

  // ---------------------------------------------------------------------------
  // Handlers that change the store

  /** `POST /`: the new row's `only_one_address` is left unset, read here as false. */
  method CreateCustomer(db: Store, body: CustomerBody) returns (r: Result<int>)
    requires db.Valid()
    modifies db
    ensures db.Valid()
    ensures !CustomerFieldsPresent(body) ==> r == Err(BadRequest) && unchanged(db)
    ensures CustomerFieldsPresent(body) && CheckDuplicateCustomer(old(db.customers), body.phoneNumber.value).Some? ==>
      r == Err(BadRequest) && unchanged(db)
    ensures r.Ok? <==>
      CustomerFieldsPresent(body)
      && forall k :: k in old(db.customers) ==> old(db.customers)[k].phoneNumber != body.phoneNumber.value
    ensures r.Ok? ==>
      && r.value == old(db.customerSeq) + 1 == db.customerSeq && r.value !in old(db.customers)
      && db.customers == old(db.customers)[r.value := Customer(body.firstName.value, body.lastName.value,
                                                               body.phoneNumber.value, false)]
      && db.addresses == old(db.addresses) && db.addressSeq == old(db.addressSeq)
    ensures r.Ok? ==> |db.customers| == |old(db.customers)| + 1
  {
    if !Present(body.firstName) || !Present(body.lastName) || !Present(body.phoneNumber) {
      return Err(BadRequest);
    }
    var duplicate := CheckDuplicateCustomer(db.customers, body.phoneNumber.value);
    if duplicate.Some? {
      return Err(BadRequest);
    }
    var id := db.customerSeq + 1;
    var row := Customer(body.firstName.value, body.lastName.value, body.phoneNumber.value, false);
    FreshInsertSize(db.customers, id, row);
    db.customers := db.customers[id := row];
    db.customerSeq := id;
    return Ok(id);
  }

  /** `PUT /:id`: the phone number may not be held by another customer; the customer's own
      number is fine. An id that is not a customer updates nothing and still succeeds. */
  method UpdateCustomer(db: Store, id: int, body: CustomerBody) returns (r: Result<()>)
    requires db.Valid()
    modifies db
    ensures db.Valid()
    ensures r.Ok? || r == Err(BadRequest)
    ensures r.Err? ==> unchanged(db)
    ensures r.Ok? <==>
      CustomerFieldsPresent(body)
      && forall k :: k in old(db.customers) && k != id ==> old(db.customers)[k].phoneNumber != body.phoneNumber.value
    ensures r.Ok? ==> db.customers == RenameCustomer(old(db.customers), id, body)
    ensures id !in old(db.customers) ==> db.customers == old(db.customers)
    ensures db.addresses == old(db.addresses)
    ensures db.customerSeq == old(db.customerSeq) && db.addressSeq == old(db.addressSeq)
  {
    if !Present(body.firstName) || !Present(body.lastName) || !Present(body.phoneNumber) {
      return Err(BadRequest);
    }
    var duplicate := CheckDuplicateCustomer(db.customers - {id}, body.phoneNumber.value);
    if duplicate.Some? {
      return Err(BadRequest);
    }
    assert forall k :: k in db.customers && k != id ==> k in db.customers - {id};
    RenameKeepsValid(db.customers, db.customerSeq, id, body);
    db.customers := RenameCustomer(db.customers, id, body);
    return Ok(());
  }

  /** `DELETE /:id`: first the customer's addresses, then the customer; succeeds whether or not
      `id` is a customer. */
  method DeleteCustomer(db: Store, id: int) returns (r: Result<()>)
    requires db.Valid()
    modifies db
    ensures db.Valid()
    ensures r == Ok(())
    ensures db.customers == old(db.customers) - {id}
    ensures db.addresses == DeleteAddressesOf(old(db.addresses), id)
    ensures db.customerSeq == old(db.customerSeq) && db.addressSeq == old(db.addressSeq)
    ensures AddressCount(db.addresses, id) == 0
    ensures forall c :: c != id ==> AddressesOf(db.addresses, c) == AddressesOf(old(db.addresses), c)
  {
    ghost var before := db.addresses;
    db.addresses := DeleteAddressesOf(db.addresses, id);
    db.customers := db.customers - {id};
    assert AddressesOf(db.addresses, id) == {};
    forall c | c != id ensures AddressesOf(db.addresses, c) == AddressesOf(before, c) {
      forall a | a in AddressesOf(before, c) ensures a in db.addresses {
        assert a !in AddressesOf(before, id);
      }
    }
    return Ok(());
  }

  // ---------------------------------------------------------------------------
  // GET /:id

  /** A customer row with its addresses attached. */
  datatype CustomerDetail = CustomerDetail(id: int, customer: Customer, addresses: seq<AddressRow>)

  /** `getCustomer`: 404 for an unknown id, otherwise the row and exactly its addresses. */
  function GetCustomer(customers: CustomerTable, addresses: AddressTable, id: int): (r: Result<CustomerDetail>)
    ensures r.Err? <==> id !in customers
    ensures r.Err? ==> r.status == NotFound
    ensures r.Ok? ==> r.value.id == id && r.value.customer == customers[id]
    ensures r.Ok? ==> |r.value.addresses| == AddressCount(addresses, id)
    ensures r.Ok? ==> forall k :: 0 <= k < |r.value.addresses| ==>
      var row := r.value.addresses[k];
      row.id in addresses && row.address == addresses[row.id] && row.address.customerId == id
    ensures r.Ok? ==> forall a :: a in addresses && addresses[a].customerId == id ==>
      exists k :: 0 <= k < |r.value.addresses| && r.value.addresses[k].id == a
  {
    if id !in customers then Err(NotFound)
    else
      var rows := AddressController.GetAddresses(addresses, id);
      assert forall a :: a in addresses && addresses[a].customerId == id ==>
        exists k :: 0 <= k < |rows| && rows[k].id == a
      by {
        forall a | a in addresses && addresses[a].customerId == id
          ensures exists k :: 0 <= k < |rows| && rows[k].id == a
        {
          AddressController.GetAddressesListsAll(addresses, id, a);
        }
      }
      Ok(CustomerDetail(id, customers[id], rows))
  }

  // ---------------------------------------------------------------------------
  // GET /: filters

  /** The query-string filters of the customer list; each is applied only when present. */
  datatype Filters = Filters(city: Field, state: Field, pinCode: Field, search: Field)

  predicate NoFilters(f: Filters) {
    !Present(f.city) && !Present(f.state) && !Present(f.pinCode) && !Present(f.search)
  }

  /** SQLite's LIKE folds the case of ASCII letters only. */
  function LowerChar(ch: char): char {
    if 'A' <= ch <= 'Z' then (ch as int - 'A' as int + 'a' as int) as char else ch
  }

  predicate SameIgnoringCase(s: string, t: string) {
    |s| == |t| && forall i :: 0 <= i < |s| ==> LowerChar(s[i]) == LowerChar(t[i])
  }

  /** `t` occurs in `s` from position `i` on, ASCII letters compared without case. */
  predicate OccursAt(s: string, t: string, i: int)
    requires 0 <= i <= |s| - |t|
  {
    SameIgnoringCase(s[i..i + |t|], t)
  }

  /** `s LIKE '%t%'`: `t` occurs in `s`, ASCII letters compared without case. */
  predicate ContainsIgnoreCase(s: string, t: string) {
    exists i :: 0 <= i <= |s| - |t| && OccursAt(s, t, i)
  }

  /** The search condition on one joined row: a customer column or an address column contains
      the term. On the NULL row of a customer without addresses only the customer columns can. */
  predicate SearchMatches(c: Customer, a: Option<Address>, term: string) {
    || ContainsIgnoreCase(c.firstName, term) || ContainsIgnoreCase(c.lastName, term)
    || ContainsIgnoreCase(c.phoneNumber, term)
    || (a.Some? && (|| ContainsIgnoreCase(a.value.details, term) || ContainsIgnoreCase(a.value.city, term)
                    || ContainsIgnoreCase(a.value.state, term) || ContainsIgnoreCase(a.value.pinCode, term)))
  }

  /** The WHERE clause on one row of `customers LEFT JOIN addresses`: `a` is the joined address,
      `None` for the NULL row, on which every equality with an address column fails. */
  predicate RowMatches(c: Customer, a: Option<Address>, f: Filters) {
    && (Present(f.city) ==> a.Some? && a.value.city == f.city.value)
    && (Present(f.state) ==> a.Some? && a.value.state == f.state.value)
    && (Present(f.pinCode) ==> a.Some? && a.value.pinCode == f.pinCode.value)
    && (Present(f.search) ==> SearchMatches(c, a, f.search.value))
  }

  /** The addresses of `cid` whose joined rows pass the WHERE clause; `COUNT(a.id)` counts them. */
  function MatchingAddresses(c: Customer, addresses: AddressTable, cid: int, f: Filters): (m: set<int>)
    ensures m <= AddressesOf(addresses, cid)
  {
    set a | a in addresses && addresses[a].customerId == cid && RowMatches(c, Some(addresses[a]), f)
  }

  /** Whether `GROUP BY c.id` yields a row for `cid`: one of its joined rows passes the WHERE
      clause, the NULL row standing in when it has no addresses. */
  predicate Selected(c: Customer, addresses: AddressTable, cid: int, f: Filters) {
    if AddressesOf(addresses, cid) == {} then RowMatches(c, None, f)
    else MatchingAddresses(c, addresses, cid, f) != {}
  }

  /** One result row: `c.*` and `address_count`. */
  datatype CustomerRow = CustomerRow(id: int, customer: Customer, addressCount: nat)

  /** The result row of customer `id`: its columns and the number of its matching addresses. */
  function ResultRow(customers: CustomerTable, addresses: AddressTable, f: Filters, id: int): CustomerRow
    requires id in customers
  {
    CustomerRow(id, customers[id], |MatchingAddresses(customers[id], addresses, id, f)|)
  }

  predicate RowsIncreasing(rows: seq<CustomerRow>) {
    forall i, j :: 0 <= i < j < |rows| ==> rows[i].id < rows[j].id
  }

  /** The result rows of the customers `ids`, in the order of `ids`, before LIMIT and OFFSET. */
  function Listing(customers: CustomerTable, addresses: AddressTable, f: Filters, ids: seq<int>): (rows: seq<CustomerRow>)
    requires forall k :: 0 <= k < |ids| ==> ids[k] in customers
    ensures |rows| <= |ids|
    decreases |ids|
  {
    if ids == [] then []
    else
      var rest := Listing(customers, addresses, f, ids[1..]);
      if Selected(customers[ids[0]], addresses, ids[0], f) then [ResultRow(customers, addresses, f, ids[0])] + rest
      else rest
  }

  /** `r` is the result row of a selected customer among `ids`. */
  predicate RowOf(customers: CustomerTable, addresses: AddressTable, f: Filters, ids: seq<int>, r: CustomerRow) {
    && r.id in ids && r.id in customers && Selected(customers[r.id], addresses, r.id, f)
    && r == ResultRow(customers, addresses, f, r.id)
  }

  /** `r` is the result row of a selected customer. */
  predicate ListedRow(customers: CustomerTable, addresses: AddressTable, f: Filters, r: CustomerRow) {
    && r.id in customers && Selected(customers[r.id], addresses, r.id, f)
    && r.customer == customers[r.id]
    && r.addressCount == |MatchingAddresses(customers[r.id], addresses, r.id, f)|
  }

  /** Every row of the listing belongs to a selected customer among `ids` and carries that
      customer's columns and matching-address count. */
  lemma {:induction false} ListingSound(customers: CustomerTable, addresses: AddressTable, f: Filters, ids: seq<int>)
    requires forall k :: 0 <= k < |ids| ==> ids[k] in customers
    ensures forall k :: 0 <= k < |Listing(customers, addresses, f, ids)| ==>
      RowOf(customers, addresses, f, ids, Listing(customers, addresses, f, ids)[k])
    decreases |ids|
  {
    if ids != [] {
      ListingSound(customers, addresses, f, ids[1..]);
      var rest := Listing(customers, addresses, f, ids[1..]);
      var rows := Listing(customers, addresses, f, ids);
      var head := Selected(customers[ids[0]], addresses, ids[0], f);
      forall k | 0 <= k < |rows| ensures RowOf(customers, addresses, f, ids, rows[k]) {
        if !head {
          assert RowOf(customers, addresses, f, ids[1..], rest[k]);
        } else if k == 0 {
          assert rows[0] == ResultRow(customers, addresses, f, ids[0]);
        } else {
          assert rows[k] == rest[k - 1];
          assert RowOf(customers, addresses, f, ids[1..], rest[k - 1]);
        }
      }
    }
  }

  /** `rows` has a row for customer `id`. */
  predicate HasRowFor(rows: seq<CustomerRow>, id: int) {
    exists k :: 0 <= k < |rows| && rows[k].id == id
  }

  /** Every selected customer among `ids` has a row in the listing. */
  lemma {:induction false} ListingComplete(customers: CustomerTable, addresses: AddressTable, f: Filters, ids: seq<int>)
    requires forall k :: 0 <= k < |ids| ==> ids[k] in customers
    ensures forall j :: 0 <= j < |ids| && Selected(customers[ids[j]], addresses, ids[j], f) ==>
      HasRowFor(Listing(customers, addresses, f, ids), ids[j])
    decreases |ids|
  {
    if ids != [] {
      ListingComplete(customers, addresses, f, ids[1..]);
      var rest := Listing(customers, addresses, f, ids[1..]);
      var rows := Listing(customers, addresses, f, ids);
      var head := Selected(customers[ids[0]], addresses, ids[0], f);
      assert rows == if head then [ResultRow(customers, addresses, f, ids[0])] + rest else rest;
      forall j | 0 <= j < |ids| && Selected(customers[ids[j]], addresses, ids[j], f)
        ensures HasRowFor(rows, ids[j])
      {
        if j == 0 {
          assert rows[0].id == ids[0];
        } else {
          assert ids[j] == ids[1..][j - 1];
          assert HasRowFor(rest, ids[j]);
          var k :| 0 <= k < |rest| && rest[k].id == ids[j];
          if head {
            assert rows[k + 1] == rest[k];
          } else {
            assert rows[k] == rest[k];
          }
        }
      }
    }
  }

  /** Rows come out in the order of `ids`. */
  lemma {:induction false} ListingIncreasing(customers: CustomerTable, addresses: AddressTable, f: Filters, ids: seq<int>)
    requires forall k :: 0 <= k < |ids| ==> ids[k] in customers
    requires Increasing(ids)
    ensures RowsIncreasing(Listing(customers, addresses, f, ids))
    decreases |ids|
  {
    if ids != [] {
      ListingIncreasing(customers, addresses, f, ids[1..]);
      ListingSound(customers, addresses, f, ids[1..]);
      var rest := Listing(customers, addresses, f, ids[1..]);
      var rows := Listing(customers, addresses, f, ids);
      if Selected(customers[ids[0]], addresses, ids[0], f) {
        forall k | 0 <= k < |rest| ensures ids[0] < rest[k].id {
          assert rest[k].id in ids[1..];
          var j :| 0 <= j < |ids[1..]| && ids[1..][j] == rest[k].id;
          assert ids[j + 1] == rest[k].id;
        }
        forall i, j | 0 <= i < j < |rows| ensures rows[i].id < rows[j].id {
          assert rows[j] == rest[j - 1];
          if i > 0 {
            assert rows[i] == rest[i - 1];
          }
        }
      }
    }
  }

  /** The grouped, filtered rows in the default order `ORDER BY c.id ASC`: the listing of all
      customer ids in ascending order. */
  function ListCustomers(customers: CustomerTable, addresses: AddressTable, f: Filters): (rows: seq<CustomerRow>)
    ensures |rows| <= |customers|
  {
    var ids := SortedIds(customers.Keys);
    assert |customers.Keys| == |customers|;
    assert forall k :: 0 <= k < |ids| ==> ids[k] in ids;
    Listing(customers, addresses, f, ids)
  }

  /** The list holds exactly the selected customers, once each, in ascending id order, with
      `address_count` the number of their matching addresses. */
  lemma ListCustomersSelectsExactly(customers: CustomerTable, addresses: AddressTable, f: Filters)
    ensures forall k :: 0 <= k < |ListCustomers(customers, addresses, f)| ==>
      ListedRow(customers, addresses, f, ListCustomers(customers, addresses, f)[k])
    ensures forall id :: id in customers && Selected(customers[id], addresses, id, f) ==>
      HasRowFor(ListCustomers(customers, addresses, f), id)
    ensures RowsIncreasing(ListCustomers(customers, addresses, f))
  {
    var ids := SortedIds(customers.Keys);
    assert forall k :: 0 <= k < |ids| ==> ids[k] in ids;
    var rows := Listing(customers, addresses, f, ids);
    assert rows == ListCustomers(customers, addresses, f);
    assert forall k :: 0 <= k < |rows| ==> ListedRow(customers, addresses, f, rows[k]) by {
      ListingSound(customers, addresses, f, ids);
      forall k | 0 <= k < |rows| ensures ListedRow(customers, addresses, f, rows[k]) {
        assert RowOf(customers, addresses, f, ids, rows[k]);
      }
    }
    assert forall id :: id in customers && Selected(customers[id], addresses, id, f) ==> HasRowFor(rows, id) by {
      ListingComplete(customers, addresses, f, ids);
      forall id | id in customers && Selected(customers[id], addresses, id, f) ensures HasRowFor(rows, id) {
        assert id in ids;
        var j :| 0 <= j < |ids| && ids[j] == id;
      }
    }
    ListingIncreasing(customers, addresses, f, ids);
  }

  /** With no filter every joined row passes the WHERE clause. */
  lemma UnfilteredRow(customers: CustomerTable, addresses: AddressTable, f: Filters, id: int)
    requires NoFilters(f) && id in customers
    ensures Selected(customers[id], addresses, id, f)
    ensures ResultRow(customers, addresses, f, id) == CustomerRow(id, customers[id], AddressCount(addresses, id))
  {
    var c := customers[id];
    forall a ensures a in MatchingAddresses(c, addresses, id, f) <==> a in AddressesOf(addresses, id) {
      if a in addresses {
        assert RowMatches(c, Some(addresses[a]), f);
      }
    }
    assert MatchingAddresses(c, addresses, id, f) == AddressesOf(addresses, id);
  }

  /** Unfiltered, the listing has one row per id, in the order of `ids`. */
  lemma {:induction false} UnfilteredListing(customers: CustomerTable, addresses: AddressTable, f: Filters, ids: seq<int>)
    requires NoFilters(f)
    requires forall k :: 0 <= k < |ids| ==> ids[k] in customers
    ensures |Listing(customers, addresses, f, ids)| == |ids|
    ensures forall k :: 0 <= k < |ids| ==>
      Listing(customers, addresses, f, ids)[k] == CustomerRow(ids[k], customers[ids[k]], AddressCount(addresses, ids[k]))
    decreases |ids|
  {
    if ids != [] {
      UnfilteredRow(customers, addresses, f, ids[0]);
      UnfilteredListing(customers, addresses, f, ids[1..]);
      var rest := Listing(customers, addresses, f, ids[1..]);
      var rows := Listing(customers, addresses, f, ids);
      assert forall k :: 1 <= k < |ids| ==> rows[k] == rest[k - 1] && ids[k] == ids[1..][k - 1];
    }
  }

  /** With no filter the list has every customer, once, in id order, with `address_count` its
      number of addresses: 0 for a customer without any, through the LEFT JOIN. */
  lemma UnfilteredListsEveryone(customers: CustomerTable, addresses: AddressTable, f: Filters)
    requires NoFilters(f)
    ensures |ListCustomers(customers, addresses, f)| == |customers|
    ensures forall id :: id in customers ==> HasRowFor(ListCustomers(customers, addresses, f), id)
    ensures forall k :: 0 <= k < |ListCustomers(customers, addresses, f)| ==>
      ListCustomers(customers, addresses, f)[k].addressCount
        == AddressCount(addresses, ListCustomers(customers, addresses, f)[k].id)
  {
    var ids := SortedIds(customers.Keys);
    assert |customers.Keys| == |customers|;
    assert forall k :: 0 <= k < |ids| ==> ids[k] in ids;
    var rows := ListCustomers(customers, addresses, f);
    assert rows == Listing(customers, addresses, f, ids);
    UnfilteredListing(customers, addresses, f, ids);
    forall id | id in customers ensures HasRowFor(rows, id) {
      assert id in ids;
      var k :| 0 <= k < |ids| && ids[k] == id;
      assert rows[k].id == id;
    }
  }


  /** `GROUP BY c.id` over the LEFT JOIN: a customer is listed exactly when one of its joined
      rows passes the WHERE clause, an address row of its own or, when it has no address, the
      NULL row. */
  lemma SelectedIffJoinedRowMatches(c: Customer, addresses: AddressTable, cid: int, f: Filters)
    ensures Selected(c, addresses, cid, f) <==>
      || (AddressesOf(addresses, cid) == {} && RowMatches(c, None, f))
      || (exists a :: a in addresses && addresses[a].customerId == cid && RowMatches(c, Some(addresses[a]), f))
  {
    var m := MatchingAddresses(c, addresses, cid, f);
    if AddressesOf(addresses, cid) != {} {
      if !exists a :: a in addresses && addresses[a].customerId == cid && RowMatches(c, Some(addresses[a]), f) {
        assert forall a :: a !in m;
      }
      forall a | a in addresses && addresses[a].customerId == cid && RowMatches(c, Some(addresses[a]), f) ensures a in m {
      }
    } else {
      assert forall a :: a in addresses && addresses[a].customerId == cid ==> a in AddressesOf(addresses, cid);
    }
  }

  /** LIKE compares ASCII letters without case: columns and terms that differ only in the case
      of their letters give the same answer. */
  lemma ContainsIgnoresCase(s: string, s': string, t: string, t': string)
    requires SameIgnoringCase(s, s') && SameIgnoringCase(t, t')
    ensures ContainsIgnoreCase(s, t) <==> ContainsIgnoreCase(s', t')
  {
    forall i | 0 <= i <= |s| - |t| ensures OccursAt(s, t, i) <==> OccursAt(s', t', i) {
      var u, u' := s[i..i + |t|], s'[i..i + |t|];
      assert forall j :: 0 <= j < |t| ==> u[j] == s[i + j] && u'[j] == s'[i + j];
    }
  }

  /** `%t%` matches every column that has `t` inside it. */
  lemma ContainsInfix(x: string, t: string, y: string)
    ensures ContainsIgnoreCase(x + t + y, t)
  {
    assert OccursAt(x + t + y, t, |x|) by {
      assert (x + t + y)[|x|..|x| + |t|] == t;
    }
  }

  /** The search condition ignores the case of the term. */
  lemma SearchIgnoresCase(c: Customer, a: Option<Address>, term: string, term': string)
    requires SameIgnoringCase(term, term')
    ensures SearchMatches(c, a, term) <==> SearchMatches(c, a, term')
  {
    forall s: string ensures ContainsIgnoreCase(s, term) <==> ContainsIgnoreCase(s, term') {
      ContainsIgnoresCase(s, s, term, term');
    }
  }

  /** `search=mumbai` lists a customer whose only address is in "Mumbai", and counts it. */
  lemma SearchFindsCityInAnyCase()
    ensures var c := Customer("Ada", "Lovelace", "555", false);
      var addresses := map[1 := Address(1, "7 Hill Rd", "Mumbai", "MH", "400001", false)];
      var f := Filters(None, None, None, Some("mumbai"));
      Selected(c, addresses, 1, f) && MatchingAddresses(c, addresses, 1, f) == {1}
  {
    var c := Customer("Ada", "Lovelace", "555", false);
    var addresses := map[1 := Address(1, "7 Hill Rd", "Mumbai", "MH", "400001", false)];
    var f := Filters(None, None, None, Some("mumbai"));
    assert SameIgnoringCase("Mumbai", "mumbai") by {
      assert LowerChar('M') == 'm';
    }
    ContainsIgnoresCase("Mumbai", "Mumbai", "Mumbai", "mumbai");
    ContainsInfix("", "Mumbai", "");
    assert "" + "Mumbai" + "" == "Mumbai";
    assert RowMatches(c, Some(addresses[1]), f);
    assert 1 in MatchingAddresses(c, addresses, 1, f);
  }

  /** A search term found in a customer's own first name selects the customer whatever its
      addresses, through the NULL row when it has none and through any address row otherwise,
      and then every one of its addresses counts. */
  lemma SearchOnOwnName(c: Customer, addresses: AddressTable, cid: int, f: Filters)
    requires !Present(f.city) && !Present(f.state) && !Present(f.pinCode)
    requires Present(f.search) && ContainsIgnoreCase(c.firstName, f.search.value)
    ensures Selected(c, addresses, cid, f)
    ensures MatchingAddresses(c, addresses, cid, f) == AddressesOf(addresses, cid)
  {
    forall a ensures a in MatchingAddresses(c, addresses, cid, f) <==> a in AddressesOf(addresses, cid) {
      if a in addresses {
        assert RowMatches(c, Some(addresses[a]), f);
      }
    }
  }

  /** All conditions are tested on one joined row: a customer with an address in Pune and a
      different one with pin code 411002 is not listed for city Pune and pin code 411002. */
  lemma ConditionsHoldOnOneRow()
    ensures var c := Customer("Ada", "Lovelace", "555", false);
      var addresses := map[1 := Address(1, "12 Main St", "Pune", "MH", "411001", false),
                           2 := Address(1, "7 Hill Rd", "Mumbai", "MH", "411002", false)];
      var f := Filters(Some("Pune"), None, Some("411002"), None);
      && (exists a :: a in addresses && RowMatches(c, Some(addresses[a]), f.(pinCode := None)))
      && (exists a :: a in addresses && RowMatches(c, Some(addresses[a]), f.(city := None)))
      && !Selected(c, addresses, 1, f)
  {
    var c := Customer("Ada", "Lovelace", "555", false);
    var addresses := map[1 := Address(1, "12 Main St", "Pune", "MH", "411001", false),
                         2 := Address(1, "7 Hill Rd", "Mumbai", "MH", "411002", false)];
    var f := Filters(Some("Pune"), None, Some("411002"), None);
    assert RowMatches(c, Some(addresses[1]), f.(pinCode := None));
    assert RowMatches(c, Some(addresses[2]), f.(city := None));
    assert 1 in AddressesOf(addresses, 1);
    assert MatchingAddresses(c, addresses, 1, f) == {};
  }

  // ---------------------------------------------------------------------------
  // GET /: the page

  /** `LIMIT limit OFFSET offset`; SQLite reads a negative offset as 0. */
  function Window<T>(rows: seq<T>, offset: int, limit: nat): (w: seq<T>)
    ensures var start := if offset < 0 then 0 else offset;
      && |w| == (if start >= |rows| then 0 else if |rows| - start < limit then |rows| - start else limit)
      && forall k :: 0 <= k < |w| ==> start + k < |rows| && w[k] == rows[start + k]
  {
    var start := if offset < 0 then 0 else offset;
    if start >= |rows| then []
    else if |rows| - start < limit then rows[start..]
    else rows[start..start + limit]
  }

  /** The response of the customer list: the page and its pagination block. */
  datatype CustomerPage = CustomerPage(data: seq<CustomerRow>, meta: Meta)

  /** Page `page` of `rows`: LIMIT `limit` OFFSET `(page - 1) * limit`, the offset
      `getPagination` computes. From page 1 on the page is the run of rows starting at that
      offset, full unless the rows end first. */
  function RowsOfPage<T>(rows: seq<T>, page: int, limit: int): (data: seq<T>)
    requires limit > 0
    ensures |data| <= limit
    ensures page >= 1 ==> var left := |rows| - GetPagination(page, limit).offset;
      |data| == if left <= 0 then 0 else if left < limit then left else limit
    ensures page >= 1 ==> forall k :: 0 <= k < |data| ==>
      GetPagination(page, limit).offset + k < |rows| && data[k] == rows[GetPagination(page, limit).offset + k]
  {
    var offset := GetPagination(page, limit).offset;
    assert page >= 1 ==> offset >= 0;
    Window(rows, offset, limit)
  }

  /** A page number below 1 gives a negative or zero offset, which SQLite reads as 0: the first
      page. */
  lemma EarlyPagesAreFirst<T>(rows: seq<T>, page: int, limit: int)
    requires limit > 0 && page < 1
    ensures RowsOfPage(rows, page, limit) == RowsOfPage(rows, 1, limit)
  {
    MultiplyNonNegative(1 - page, limit);
    assert (page - 1) * limit == -((1 - page) * limit);
    assert GetPagination(page, limit).offset <= 0;
  }

  /** `getCustomers`: the rows of the page and the pagination block. `meta` is computed from
      the length of the page itself, so `meta.total` counts the rows returned, not the rows that
      match, and `meta.totalPages` is never more than 1. */
  function GetCustomers(customers: CustomerTable, addresses: AddressTable, f: Filters, page: int := 1, limit: int := 10)
    : (r: CustomerPage)
    requires limit > 0
    ensures r.data == RowsOfPage(ListCustomers(customers, addresses, f), page, limit)
    ensures r.meta.total == |r.data| && r.meta.page == page && r.meta.limit == limit
    ensures r.meta.totalPages == if r.data == [] then 0 else 1
  {
    var rows := RowsOfPage(ListCustomers(customers, addresses, f), page, limit);
    var meta := GetPaginationMeta(|rows|, page, limit);
    assert meta.totalPages == if rows == [] then 0 else 1 by {
      if rows == [] {
        TotalPagesOfNothing(limit);
      } else {
        TotalPagesIsCeiling(|rows|, limit, 1);
      }
    }
    CustomerPage(rows, meta)
  }

  /** Pages 1, 2, ... of the same rows tile them: row `i` is row `i % limit` of page
      `i / limit + 1`. */
  lemma PagesTile<T>(rows: seq<T>, limit: int, i: int)
    requires limit > 0 && 0 <= i < |rows|
    ensures var data := RowsOfPage(rows, i / limit + 1, limit);
      i % limit < |data| && data[i % limit] == rows[i]
  {
    var page := i / limit + 1;
    RowOnPage(i, limit);
    var offset := GetPagination(page, limit).offset;
    var data := RowsOfPage(rows, page, limit);
    assert offset + i % limit == i;
    assert data[i % limit] == rows[offset + i % limit];
  }

  /** Paging through the customer list with a fixed limit meets every listed customer: row `i`
      is row `i % limit` of page `i / limit + 1`. */
  lemma EveryRowOnOnePage(customers: CustomerTable, addresses: AddressTable, f: Filters, limit: int, i: int)
    requires limit > 0
    requires 0 <= i < |ListCustomers(customers, addresses, f)|
    ensures var data := GetCustomers(customers, addresses, f, i / limit + 1, limit).data;
      i % limit < |data| && data[i % limit] == ListCustomers(customers, addresses, f)[i]
  {
    PagesTile(ListCustomers(customers, addresses, f), limit, i);
  }
}
