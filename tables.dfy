/** The two tables, `customers` and `addresses`, as maps from row id to row, and the
    single SQL statements the handlers run on them, each as a function from the old
    table to the new one. */
module Tables {
  import opened Requests

  /** A `customers` row (its id is the map key). `onlyOneAddress` is the derived flag. */
  datatype Customer = Customer(firstName: string, lastName: string, phoneNumber: string, onlyOneAddress: bool)

  /** An `addresses` row (its id is the map key). */
  datatype Address = Address(customerId: int, details: string, city: string, state: string, pinCode: string, isPrimary: bool)

  /** An address row as a query returns it, id included. */
  datatype AddressRow = AddressRow(id: int, address: Address)

  type CustomerTable = map<int, Customer>
  type AddressTable = map<int, Address>

  // ---------------------------------------------------------------------------
  // Derived quantities and the store invariants

  /** Ids of the address rows with `customer_id = cid`. */
  function AddressesOf(addresses: AddressTable, cid: int): set<int> {
    set a | a in addresses && addresses[a].customerId == cid
  }

  /** `SELECT COUNT(*) FROM addresses WHERE customer_id = ?` */
  function AddressCount(addresses: AddressTable, cid: int): nat {
    |AddressesOf(addresses, cid)|
  }

  /** I1: no customer owns two primary addresses. */
  ghost predicate AtMostOnePrimary(addresses: AddressTable) {
    forall a, b ::
      (a in addresses && b in addresses && addresses[a].isPrimary && addresses[b].isPrimary &&
       addresses[a].customerId == addresses[b].customerId) ==> a == b
  }

  /** Address `id` is a primary address of `cid`, and the only one. */
  ghost predicate IsOnlyPrimary(addresses: AddressTable, cid: int, id: int) {
    && id in addresses && addresses[id].customerId == cid && addresses[id].isPrimary
    && forall a :: a in addresses && addresses[a].customerId == cid && addresses[a].isPrimary ==> a == id
  }

  /** No address of `cid` is primary. */
  ghost predicate NoPrimary(addresses: AddressTable, cid: int) {
    forall a :: a in addresses && addresses[a].customerId == cid ==> !addresses[a].isPrimary
  }

  /** I2 for one customer: its flag says whether it owns exactly one address. */
  ghost predicate FlagConsistent(customers: CustomerTable, addresses: AddressTable, cid: int) {
    cid in customers ==> customers[cid].onlyOneAddress == (AddressCount(addresses, cid) == 1)
  }

  /** I3: the UNIQUE constraint on `phone_number`. */
  ghost predicate PhonesUnique(customers: CustomerTable) {
    forall i, j :: i in customers && j in customers && customers[i].phoneNumber == customers[j].phoneNumber ==> i == j
  }

  /** The NOT NULL text columns of `customers` hold non-empty text, as every handler validates
      before writing. */
  ghost predicate CustomersFilled(customers: CustomerTable) {
    forall id :: id in customers ==>
      customers[id].firstName != "" && customers[id].lastName != "" && customers[id].phoneNumber != ""
  }

  /** The same for the text columns of `addresses`. */
  ghost predicate AddressesFilled(addresses: AddressTable) {
    forall id :: id in addresses ==>
      addresses[id].details != "" && addresses[id].city != "" && addresses[id].state != "" && addresses[id].pinCode != ""
  }

  /** Every id was handed out by its table's AUTOINCREMENT counter. */
  ghost predicate IdsIssued<T>(table: map<int, T>, counter: nat) {
    forall id :: id in table ==> 1 <= id <= counter
  }

  /** The invariants of the `customers` table. */
  ghost predicate CustomersValid(customers: CustomerTable, customerSeq: nat) {
    IdsIssued(customers, customerSeq) && PhonesUnique(customers) && CustomersFilled(customers)
  }

  /** The invariants of the `addresses` table. */
  ghost predicate AddressesValid(addresses: AddressTable, addressSeq: nat) {
    IdsIssued(addresses, addressSeq) && AtMostOnePrimary(addresses) && AddressesFilled(addresses)
  }

  /** The invariants that hold between requests. */
  ghost predicate Consistent(customers: CustomerTable, addresses: AddressTable, customerSeq: nat, addressSeq: nat) {
    CustomersValid(customers, customerSeq) && AddressesValid(addresses, addressSeq)
  }

  /** Two address tables with the same rows owned by the same customers. */
  ghost predicate SameOwners(a1: AddressTable, a2: AddressTable) {
    a1.Keys == a2.Keys && forall a :: a in a1 ==> a1[a].customerId == a2[a].customerId
  }

  /** `after` is the row `before` with at most its `is_primary` flag cleared. */
  predicate Unmarked(before: Address, after: Address) {
    after == before.(isPrimary := after.isPrimary) && (after.isPrimary ==> before.isPrimary)
  }

  // ---------------------------------------------------------------------------
  // Statements

  /** The row an INSERT or an UPDATE writes from a validated body. */
  function NewAddress(cid: int, b: AddressBody): (a: Address)
    requires AddressFieldsPresent(b)
    ensures a.customerId == cid && a.isPrimary == b.isPrimary
    ensures a.details == b.details.value && a.city == b.city.value && a.state == b.state.value && a.pinCode == b.pinCode.value
    ensures a.details != "" && a.city != "" && a.state != "" && a.pinCode != ""
  {
    Address(cid, b.details.value, b.city.value, b.state.value, b.pinCode.value, b.isPrimary)
  }

  /** `UPDATE addresses SET is_primary = 0 WHERE customer_id = ?` */
  function ClearPrimary(addresses: AddressTable, cid: int): (r: AddressTable)
    ensures SameOwners(addresses, r)
    ensures NoPrimary(r, cid)
    ensures forall a :: a in r ==> Unmarked(addresses[a], r[a])
    ensures forall a :: a in r && addresses[a].customerId != cid ==> r[a] == addresses[a]
  {
    map a | a in addresses :: if addresses[a].customerId == cid then addresses[a].(isPrimary := false) else addresses[a]
  }

  /** `UPDATE addresses SET address_details = ?, city = ?, state = ?, pin_code = ?, is_primary = ? WHERE id = ?`:
      a missing id matches no row. */
  function OverwriteAddress(addresses: AddressTable, id: int, b: AddressBody): (r: AddressTable)
    requires AddressFieldsPresent(b)
    ensures SameOwners(addresses, r)
    ensures id in r ==> r[id] == NewAddress(addresses[id].customerId, b)
    ensures forall a :: a in r && a != id ==> r[a] == addresses[a]
  {
    if id in addresses then addresses[id := NewAddress(addresses[id].customerId, b)] else addresses
  }

  /** `DELETE FROM addresses WHERE customer_id = ?` */
  function DeleteAddressesOf(addresses: AddressTable, cid: int): (r: AddressTable)
    ensures r.Keys == addresses.Keys - AddressesOf(addresses, cid)
    ensures forall a :: a in r ==> r[a] == addresses[a] && r[a].customerId != cid
  {
    map a | a in addresses && addresses[a].customerId != cid :: addresses[a]
  }

  /** `UPDATE customers SET first_name = ?, last_name = ?, phone_number = ? WHERE id = ?`:
      a missing id matches no row, and `only_one_address` keeps its value. */
  function RenameCustomer(customers: CustomerTable, id: int, b: CustomerBody): (r: CustomerTable)
    requires CustomerFieldsPresent(b)
    ensures r.Keys == customers.Keys
    ensures id in r ==> r[id].onlyOneAddress == customers[id].onlyOneAddress
    ensures id in r ==> r[id].firstName == b.firstName.value && r[id].lastName == b.lastName.value
                        && r[id].phoneNumber == b.phoneNumber.value
    ensures forall k :: k in r && k != id ==> r[k] == customers[k]
  {
    if id in customers then
      customers[id := customers[id].(firstName := b.firstName.value, lastName := b.lastName.value,
                                     phoneNumber := b.phoneNumber.value)]
    else customers
  }

  /** `updateSingleAddressFlag(db, cid)`: count the addresses of `cid` and store whether there is
      exactly one in its `only_one_address`; `UPDATE ... WHERE id = ?` touches nothing when `cid`
      is not a customer. */
  function WithAddressFlag(customers: CustomerTable, addresses: AddressTable, cid: int): (r: CustomerTable)
    ensures r.Keys == customers.Keys
    ensures FlagConsistent(r, addresses, cid)
    ensures cid in r ==> r[cid] == customers[cid].(onlyOneAddress := r[cid].onlyOneAddress)
    ensures forall k :: k in r && k != cid ==> r[k] == customers[k]
  {
    if cid in customers then customers[cid := customers[cid].(onlyOneAddress := AddressCount(addresses, cid) == 1)]
    else customers
  }

  // ---------------------------------------------------------------------------
  // Lemmas about the statements

  /** Renaming a customer to a phone number no other customer holds keeps the table valid. */
  lemma RenameKeepsValid(customers: CustomerTable, customerSeq: nat, id: int, b: CustomerBody)
    requires CustomersValid(customers, customerSeq) && CustomerFieldsPresent(b)
    requires forall k :: k in customers && k != id ==> customers[k].phoneNumber != b.phoneNumber.value
    ensures CustomersValid(RenameCustomer(customers, id, b), customerSeq)
  {
    var r := RenameCustomer(customers, id, b);
    forall i, j | i in r && j in r && r[i].phoneNumber == r[j].phoneNumber ensures i == j {
      if i != id && j != id {
        assert customers[i].phoneNumber == customers[j].phoneNumber;
      }
    }
  }

  /** Recomputing the flag a second time, with no address change in between, changes nothing. */
  lemma WithAddressFlagIdempotent(customers: CustomerTable, addresses: AddressTable, cid: int)
    ensures WithAddressFlag(WithAddressFlag(customers, addresses, cid), addresses, cid)
         == WithAddressFlag(customers, addresses, cid)
  {
  }

  /** The flag recompute keeps every between-request invariant. */
  lemma WithAddressFlagKeepsValid(customers: CustomerTable, addresses: AddressTable, customerSeq: nat, cid: int)
    requires CustomersValid(customers, customerSeq)
    ensures CustomersValid(WithAddressFlag(customers, addresses, cid), customerSeq)
  {
  }

  /** Clearing a customer's primary flags keeps I1. */
  lemma ClearPrimaryKeepsAtMostOne(addresses: AddressTable, cid: int)
    ensures AtMostOnePrimary(addresses) ==> AtMostOnePrimary(ClearPrimary(addresses, cid))
  {
  }

  /** Rewriting a row with its owner's other primaries cleared first (when it becomes primary)
      keeps I1 and makes that row the owner's only primary. */
  lemma OverwriteKeepsAtMostOne(addresses: AddressTable, id: int, b: AddressBody)
    requires AddressFieldsPresent(b)
    requires b.isPrimary ==> id in addresses && NoPrimary(addresses, addresses[id].customerId)
    ensures AtMostOnePrimary(addresses) ==> AtMostOnePrimary(OverwriteAddress(addresses, id, b))
    ensures b.isPrimary ==> IsOnlyPrimary(OverwriteAddress(addresses, id, b), addresses[id].customerId, id)
  {
    var r := OverwriteAddress(addresses, id, b);
    forall x, y | AtMostOnePrimary(addresses) && x in r && y in r && r[x].isPrimary && r[y].isPrimary && r[x].customerId == r[y].customerId
      ensures x == y
    {
      if x != id && y != id {
        assert r[x] == addresses[x] && r[y] == addresses[y];
      }
    }
  }

  /** Inserting a fresh row with its owner's primaries cleared first (when it is primary) keeps I1
      and makes the new row the owner's only primary. */
  lemma InsertKeepsAtMostOne(addresses: AddressTable, id: int, a: Address)
    requires id !in addresses
    requires a.isPrimary ==> NoPrimary(addresses, a.customerId)
    ensures AtMostOnePrimary(addresses) ==> AtMostOnePrimary(addresses[id := a])
    ensures a.isPrimary ==> IsOnlyPrimary(addresses[id := a], a.customerId, id)
  {
  }

  /** Inserting under a fresh id adds one row. */
  lemma FreshInsertSize<T>(table: map<int, T>, id: int, row: T)
    requires id !in table
    ensures |table[id := row]| == |table| + 1
  {
    assert table[id := row].Keys == table.Keys + {id};
    assert |table[id := row].Keys| == |table.Keys| + 1;
  }

  /** A fresh row adds one to its owner's count and nothing to anybody else's. */
  lemma {:induction false} InsertCount(addresses: AddressTable, id: int, a: Address, cid: int)
    requires id !in addresses
    ensures AddressCount(addresses[id := a], cid) == AddressCount(addresses, cid) + (if a.customerId == cid then 1 else 0)
  {
    var after := AddressesOf(addresses[id := a], cid);
    if a.customerId == cid {
      assert after == AddressesOf(addresses, cid) + {id};
    } else {
      assert after == AddressesOf(addresses, cid);
    }
  }

  /** Removing a row takes one from its owner's count and nothing from anybody else's. */
  lemma {:induction false} RemoveCount(addresses: AddressTable, id: int, cid: int)
    requires id in addresses
    ensures AddressCount(addresses - {id}, cid) == AddressCount(addresses, cid) - (if addresses[id].customerId == cid then 1 else 0)
  {
    var after := AddressesOf(addresses - {id}, cid);
    if addresses[id].customerId == cid {
      assert after == AddressesOf(addresses, cid) - {id};
    } else {
      assert after == AddressesOf(addresses, cid);
    }
  }

  /** Statements that move no row between customers leave every count, and so every flag's
      consistency, as it was. */
  lemma SameOwnersSameCounts(a1: AddressTable, a2: AddressTable, customers: CustomerTable, cid: int)
    requires SameOwners(a1, a2)
    ensures AddressesOf(a1, cid) == AddressesOf(a2, cid)
    ensures FlagConsistent(customers, a1, cid) <==> FlagConsistent(customers, a2, cid)
  {
    forall a ensures a in AddressesOf(a1, cid) <==> a in AddressesOf(a2, cid) {
      if a in a1 {
        assert a1[a].customerId == a2[a].customerId;
      }
    }
    assert AddressesOf(a1, cid) == AddressesOf(a2, cid);
  }

  // ---------------------------------------------------------------------------
  // Row order of a SELECT without ORDER BY: ascending id

  predicate Increasing(ids: seq<int>) {
    forall i, j :: 0 <= i < j < |ids| ==> ids[i] < ids[j]
  }

  predicate IsLeast(m: int, s: set<int>) {
    m in s && forall x :: x in s ==> m <= x
  }

  lemma HasElement(s: set<int>)
    requires s != {}
    ensures exists y :: y in s
  {
    if forall y :: y !in s {
      assert false;
    }
  }

  lemma {:induction false} HasLeast(s: set<int>)
    requires s != {}
    ensures exists m :: IsLeast(m, s)
  {
    HasElement(s);
    var y :| y in s;
    if s == {y} {
      assert IsLeast(y, s);
    } else {
      var rest := s - {y};
      HasLeast(rest);
      var m :| IsLeast(m, rest);
      var least := if y < m then y else m;
      forall x | x in s ensures least <= x {
        if x != y {
          assert x in rest;
        }
      }
      assert IsLeast(least, s);
    }
  }

  function Least(s: set<int>): (m: int)
    requires s != {}
    ensures m in s && forall x :: x in s ==> m <= x
  {
    HasLeast(s);
    var m :| IsLeast(m, s);
    m
  }

  /** A value below every element of an ascending sequence can go in front of it. */
  lemma PrependLeast(m: int, rest: seq<int>)
    requires Increasing(rest) && forall k :: 0 <= k < |rest| ==> m < rest[k]
    ensures Increasing([m] + rest)
  {
    forall i, j | 0 <= i < j < |[m] + rest| ensures ([m] + rest)[i] < ([m] + rest)[j] {
      if i > 0 {
        assert ([m] + rest)[i] == rest[i - 1];
      }
      assert ([m] + rest)[j] == rest[j - 1];
    }
  }

  /** The elements of `s`, each once, in ascending order. */
  function SortedIds(s: set<int>): (ids: seq<int>)
    ensures |ids| == |s|
    ensures forall x :: x in ids <==> x in s
    ensures Increasing(ids)
    decreases s
  {
    if s == {} then []
    else
      var m := Least(s);
      var rest := SortedIds(s - {m});
      assert |s - {m}| == |s| - 1;
      assert Increasing([m] + rest) by {
        forall k | 0 <= k < |rest| ensures m < rest[k] {
          assert rest[k] in rest;
        }
        PrependLeast(m, rest);
      }
      [m] + rest
  }
}
