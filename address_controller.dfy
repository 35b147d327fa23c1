/** The address handlers. Each is a sequence of statements on the shared store: validate,
    look up, clear the owner's primary flags, write the row, recompute the owner's
    `only_one_address`. The batch handlers loop over the request array and stop at the
    first invalid item without undoing the items before it. */
module AddressController {
  import opened Results
  import opened Requests
  import opened Tables
  import opened Db

  /** `updateSingleAddressFlag(db, customerId)`. */
  method UpdateSingleAddressFlag(db: Store, customerId: int)
    modifies db
    ensures db.customers == WithAddressFlag(old(db.customers), db.addresses, customerId)
    ensures db.addresses == old(db.addresses)
    ensures db.customerSeq == old(db.customerSeq) && db.addressSeq == old(db.addressSeq)
    ensures old(db.Valid()) ==> db.Valid()
  {
    var count := AddressCount(db.addresses, customerId);
    var isSingle := count == 1;
    if customerId in db.customers {
      db.customers := db.customers[customerId := db.customers[customerId].(onlyOneAddress := isSingle)];
    }
    if old(db.Valid()) {
      WithAddressFlagKeepsValid(old(db.customers), db.addresses, db.customerSeq, customerId);
    }
  }

  /** The primary clear and the INSERT of `createAddress` and of each batch insert item, for one
      valid body: clear the owner's primaries when the body is primary, then insert it under the
      next id. */
  function InsertAddress(addresses: AddressTable, addressSeq: nat, cid: int, b: AddressBody): (r: AddressTable)
    requires AddressFieldsPresent(b) && IdsIssued(addresses, addressSeq)
    ensures r.Keys == addresses.Keys + {addressSeq + 1}
    ensures r[addressSeq + 1] == NewAddress(cid, b)
    ensures IdsIssued(r, addressSeq + 1)
  {
    var cleared := if b.isPrimary then ClearPrimary(addresses, cid) else addresses;
    var id := addressSeq + 1;
    assert cleared.Keys == addresses.Keys && id !in addresses;
    var r := cleared[id := NewAddress(cid, b)];
    assert IdsIssued(r, id) by {
      forall a | a in r ensures 1 <= a <= id {
        if a != id { assert a in addresses; }
      }
    }
    r
  }

  lemma InsertAddressUnfold(addresses: AddressTable, addressSeq: nat, cid: int, b: AddressBody)
    requires AddressFieldsPresent(b) && IdsIssued(addresses, addressSeq)
    ensures InsertAddress(addresses, addressSeq, cid, b)
         == (if b.isPrimary then ClearPrimary(addresses, cid) else addresses)[addressSeq + 1 := NewAddress(cid, b)]
  {
  }

  /** The new row adds one to its owner's count and nothing to any other customer's. */
  lemma InsertAddressCount(addresses: AddressTable, addressSeq: nat, cid: int, b: AddressBody, other: int)
    requires AddressFieldsPresent(b) && IdsIssued(addresses, addressSeq)
    ensures AddressCount(InsertAddress(addresses, addressSeq, cid, b), other)
         == AddressCount(addresses, other) + (if other == cid then 1 else 0)
  {
    var cleared := if b.isPrimary then ClearPrimary(addresses, cid) else addresses;
    InsertAddressUnfold(addresses, addressSeq, cid, b);
    SameOwnersSameCounts(addresses, cleared, map[], other);
    InsertCount(cleared, addressSeq + 1, NewAddress(cid, b), other);
  }

  /** The inserted row is its owner's only primary when it is primary, and otherwise no other
      row changes; I1 and the non-empty columns are kept. */
  lemma InsertAddressRows(addresses: AddressTable, addressSeq: nat, cid: int, b: AddressBody)
    requires AddressFieldsPresent(b) && IdsIssued(addresses, addressSeq)
    ensures var r := InsertAddress(addresses, addressSeq, cid, b);
      && (AtMostOnePrimary(addresses) ==> AtMostOnePrimary(r))
      && (AddressesFilled(addresses) ==> AddressesFilled(r))
      && (b.isPrimary ==> IsOnlyPrimary(r, cid, addressSeq + 1))
      && (!b.isPrimary ==> forall a :: a in addresses ==> r[a] == addresses[a])
      && |r| == |addresses| + 1
  {
    var cleared := if b.isPrimary then ClearPrimary(addresses, cid) else addresses;
    assert |cleared| == |addresses| by { assert |cleared.Keys| == |addresses.Keys|; }
    FreshInsertSize(cleared, addressSeq + 1, NewAddress(cid, b));
    ClearPrimaryKeepsAtMostOne(addresses, cid);
    InsertKeepsAtMostOne(cleared, addressSeq + 1, NewAddress(cid, b));
  }

  /** The same two statements on the store: clear the owner's primaries when the new row is
      primary, then insert it under the next AUTOINCREMENT id. */
  method InsertAddressRow(db: Store, cid: int, body: AddressBody) returns (newId: int)
    requires AddressFieldsPresent(body) && AddressesValid(db.addresses, db.addressSeq)
    modifies db
    ensures newId == old(db.addressSeq) + 1 == db.addressSeq
    ensures db.addresses == InsertAddress(old(db.addresses), old(db.addressSeq), cid, body)
    ensures AddressesValid(db.addresses, db.addressSeq)
    ensures db.customers == old(db.customers) && db.customerSeq == old(db.customerSeq)
  {
    InsertAddressRows(db.addresses, db.addressSeq, cid, body);
    InsertAddressUnfold(db.addresses, db.addressSeq, cid, body);
    if body.isPrimary {
      db.addresses := ClearPrimary(db.addresses, cid);
    }
    newId := db.addressSeq + 1;
    db.addresses := db.addresses[newId := NewAddress(cid, body)];
    db.addressSeq := newId;
  }

  /** `POST /:id/addresses`. */
  method CreateAddress(db: Store, id: int, body: AddressBody) returns (r: Result<int>)
    requires db.Valid()
    modifies db
    ensures db.Valid()
    ensures !AddressFieldsPresent(body) ==> r == Err(BadRequest) && unchanged(db)
    ensures AddressFieldsPresent(body) && id !in old(db.customers) ==> r == Err(NotFound) && unchanged(db)
    ensures AddressFieldsPresent(body) && id in old(db.customers) ==>
      && r == Ok(old(db.addressSeq) + 1)
      && db.addressSeq == r.value && db.customerSeq == old(db.customerSeq)
      && db.addresses == (if body.isPrimary then ClearPrimary(old(db.addresses), id) else old(db.addresses))
                           [r.value := NewAddress(id, body)]
      && db.customers == WithAddressFlag(old(db.customers), db.addresses, id)
    ensures r.Ok? ==> r.value !in old(db.addresses)
    ensures r.Ok? ==> AddressCount(db.addresses, id) == AddressCount(old(db.addresses), id) + 1
    ensures r.Ok? ==> FlagConsistent(db.customers, db.addresses, id)
    ensures r.Ok? && body.isPrimary ==> IsOnlyPrimary(db.addresses, id, r.value)
    ensures r.Ok? && !body.isPrimary ==>
      !db.addresses[r.value].isPrimary && forall a :: a in old(db.addresses) ==> db.addresses[a] == old(db.addresses)[a]
  {
    if !Present(body.details) || !Present(body.city) || !Present(body.state) || !Present(body.pinCode) {
      return Err(BadRequest);
    }
    if id !in db.customers {
      return Err(NotFound);
    }
    InsertAddressUnfold(db.addresses, db.addressSeq, id, body);
    InsertAddressCount(db.addresses, db.addressSeq, id, body, id);
    InsertAddressRows(db.addresses, db.addressSeq, id, body);
    var newId := InsertAddressRow(db, id, body);
    UpdateSingleAddressFlag(db, id);
    return Ok(newId);
  }

  /** `GET /:id/addresses`: the address rows of customer `id`, in id order. */
  function GetAddresses(addresses: AddressTable, id: int): (rows: seq<AddressRow>)
    ensures |rows| == AddressCount(addresses, id)
    ensures forall k :: 0 <= k < |rows| ==>
      rows[k].id in addresses && rows[k].address == addresses[rows[k].id] && rows[k].address.customerId == id
    ensures forall k, l :: 0 <= k < l < |rows| ==> rows[k].id < rows[l].id
  {
    var ids := SortedIds(AddressesOf(addresses, id));
    assert forall k :: 0 <= k < |ids| ==> ids[k] in AddressesOf(addresses, id);
    var rows := seq(|ids|, k requires 0 <= k < |ids| => AddressRow(ids[k], addresses[ids[k]]));
    rows
  }

  /** No address of the customer is missing from the list. */
  lemma GetAddressesListsAll(addresses: AddressTable, id: int, a: int)
    requires a in addresses && addresses[a].customerId == id
    ensures var rows := GetAddresses(addresses, id);
      exists k :: 0 <= k < |rows| && rows[k].id == a
  {
    var ids := SortedIds(AddressesOf(addresses, id));
    assert a in AddressesOf(addresses, id);
    var k :| 0 <= k < |ids| && ids[k] == a;
    assert GetAddresses(addresses, id)[k].id == a;
  }

  /** The owner lookup, primary clear and UPDATE of `updateAddress` and of each batch update
      item: with `is_primary`, look up the row's owner (a missing row makes reading its
      `customer_id` throw) and clear its primaries; then overwrite the four fields and
      `is_primary` of row `id`, if it exists. */
  function UpdateAddressRow(addresses: AddressTable, id: int, b: AddressBody): (r: Result<AddressTable>)
    requires AddressFieldsPresent(b)
    ensures r.Err? <==> b.isPrimary && id !in addresses
    ensures r.Err? ==> r.status == ServerError
    ensures r.Ok? ==> SameOwners(addresses, r.value)
    ensures r.Ok? && id in addresses ==> r.value[id] == NewAddress(addresses[id].customerId, b)
    ensures r.Ok? ==> forall a :: a in addresses && a != id ==>
      r.value[a] == addresses[a].(isPrimary := r.value[a].isPrimary) && (r.value[a].isPrimary ==> addresses[a].isPrimary)
    ensures r.Ok? ==> forall a :: a in addresses && a != id && (id in addresses ==> addresses[a].customerId != addresses[id].customerId) ==>
      r.value[a] == addresses[a]
    ensures r.Ok? && !b.isPrimary ==> forall a :: a in addresses && a != id ==> r.value[a] == addresses[a]
    ensures r.Ok? && AtMostOnePrimary(addresses) ==> AtMostOnePrimary(r.value)
    ensures r.Ok? && AddressesFilled(addresses) ==> AddressesFilled(r.value)
    ensures r.Ok? && b.isPrimary ==> IsOnlyPrimary(r.value, addresses[id].customerId, id)
  {
    if b.isPrimary then
      if id !in addresses then Err(ServerError)
      else
        var cleared := ClearPrimary(addresses, addresses[id].customerId);
        ClearPrimaryKeepsAtMostOne(addresses, addresses[id].customerId);
        OverwriteKeepsAtMostOne(cleared, id, b);
        Ok(OverwriteAddress(cleared, id, b))
    else
      OverwriteKeepsAtMostOne(addresses, id, b);
      Ok(OverwriteAddress(addresses, id, b))
  }

  /** The same statements on the store: with `is_primary`, look the row's owner up (a
      missing row throws, a 500) and clear its primaries; then overwrite row `addressId`. */
  method WriteAddressRow(db: Store, addressId: int, body: AddressBody) returns (r: Result<()>)
    requires AddressFieldsPresent(body) && AddressesValid(db.addresses, db.addressSeq)
    modifies db
    ensures r.Ok? || r == Err(ServerError)
    ensures r.Ok? ==> UpdateAddressRow(old(db.addresses), addressId, body) == Ok(db.addresses)
    ensures r.Err? ==> UpdateAddressRow(old(db.addresses), addressId, body) == Err(ServerError)
    ensures addressId !in old(db.addresses) ==> unchanged(db)
    ensures AddressesValid(db.addresses, db.addressSeq)
    ensures db.customers == old(db.customers) && db.customerSeq == old(db.customerSeq) && db.addressSeq == old(db.addressSeq)
  {
    ghost var updated := UpdateAddressRow(db.addresses, addressId, body);
    if body.isPrimary {
      if addressId !in db.addresses {
        return Err(ServerError);
      }
      var addr := db.addresses[addressId];
      db.addresses := ClearPrimary(db.addresses, addr.customerId);
    }
    db.addresses := OverwriteAddress(db.addresses, addressId, body);
    assert updated == Ok(db.addresses);
    assert addressId !in old(db.addresses) ==> db.addresses == old(db.addresses);
    return Ok(());
  }

  /** `PUT /:addressId`. A missing address fails with 500 on either path: at the owner lookup
      before the primary clear when `is_primary` is set, otherwise at the owner lookup for the
      flag recompute, after an UPDATE that matched no row. */
  method UpdateAddress(db: Store, addressId: int, body: AddressBody) returns (r: Result<()>)
    requires db.Valid()
    modifies db
    ensures db.Valid()
    ensures !AddressFieldsPresent(body) ==> r == Err(BadRequest) && unchanged(db)
    ensures AddressFieldsPresent(body) && addressId !in old(db.addresses) ==> r == Err(ServerError) && unchanged(db)
    ensures AddressFieldsPresent(body) && addressId in old(db.addresses) ==>
      && r == Ok(())
      && UpdateAddressRow(old(db.addresses), addressId, body) == Ok(db.addresses)
      && db.customers == WithAddressFlag(old(db.customers), db.addresses, old(db.addresses)[addressId].customerId)
      && db.customerSeq == old(db.customerSeq) && db.addressSeq == old(db.addressSeq)
    ensures r.Ok? ==> db.addresses[addressId] == NewAddress(old(db.addresses)[addressId].customerId, body)
    ensures r.Ok? ==> FlagConsistent(db.customers, db.addresses, db.addresses[addressId].customerId)
    ensures r.Ok? && body.isPrimary ==> IsOnlyPrimary(db.addresses, db.addresses[addressId].customerId, addressId)
    ensures r.Ok? && !body.isPrimary ==>
      forall a :: a in old(db.addresses) && a != addressId ==> db.addresses[a] == old(db.addresses)[a]
  {
    if !Present(body.details) || !Present(body.city) || !Present(body.state) || !Present(body.pinCode) {
      return Err(BadRequest);
    }
    var written := WriteAddressRow(db, addressId, body);
    if written.Err? {
      return written;
    }
    if addressId !in db.addresses {
      return Err(ServerError);
    }
    var addr := db.addresses[addressId];
    UpdateSingleAddressFlag(db, addr.customerId);
    return Ok(());
  }

  /** `DELETE /:addressId`. */
  method DeleteAddress(db: Store, addressId: int) returns (r: Result<()>)
    requires db.Valid()
    modifies db
    ensures db.Valid()
    ensures addressId !in old(db.addresses) ==> r == Err(NotFound) && unchanged(db)
    ensures addressId in old(db.addresses) ==>
      && r == Ok(())
      && db.addresses == old(db.addresses) - {addressId}
      && db.customers == WithAddressFlag(old(db.customers), db.addresses, old(db.addresses)[addressId].customerId)
      && db.customerSeq == old(db.customerSeq) && db.addressSeq == old(db.addressSeq)
    ensures r.Ok? ==>
      var owner := old(db.addresses)[addressId].customerId;
      && AddressCount(db.addresses, owner) == AddressCount(old(db.addresses), owner) - 1
      && FlagConsistent(db.customers, db.addresses, owner)
      && (owner in db.customers && AddressCount(old(db.addresses), owner) == 1 ==> !db.customers[owner].onlyOneAddress)
  {
    if addressId !in db.addresses {
      return Err(NotFound);
    }
    var addr := db.addresses[addressId];
    RemoveCount(db.addresses, addressId, addr.customerId);
    db.addresses := db.addresses - {addressId};
    UpdateSingleAddressFlag(db, addr.customerId);
    return Ok(());
  }

  // ---------------------------------------------------------------------------
  // Batch update

  /** The effect of a batch update's loop on the address table: items in list order, stopping
      at the first item that fails validation (400) or throws (500). */
  function UpdateAll(addresses: AddressTable, items: seq<UpdateItem>): (r: (AddressTable, Result<()>))
    ensures SameOwners(addresses, r.0)
    ensures AtMostOnePrimary(addresses) ==> AtMostOnePrimary(r.0)
    ensures AddressesFilled(addresses) ==> AddressesFilled(r.0)
    ensures r.1 == Ok(()) ==> forall k :: 0 <= k < |items| ==> UpdateItemValid(items[k])
    ensures r.1 != Ok(()) ==> r.1 == Err(BadRequest) || r.1 == Err(ServerError)
    decreases |items|
  {
    if items == [] then (addresses, Ok(()))
    else if !UpdateItemValid(items[0]) then (addresses, Err(BadRequest))
    else
      match UpdateAddressRow(addresses, items[0].id.value, items[0].body)
      case Err(s) => (addresses, Err(s))
      case Ok(next) =>
        var r := UpdateAll(next, items[1..]);
        assert forall k :: 1 <= k < |items| ==> items[k] == items[1..][k - 1];
        r
  }

  lemma UpdateAllStep(addresses: AddressTable, items: seq<UpdateItem>)
    requires items != []
    ensures !UpdateItemValid(items[0]) ==> UpdateAll(addresses, items) == (addresses, Err(BadRequest))
    ensures UpdateItemValid(items[0]) ==>
      var step := UpdateAddressRow(addresses, items[0].id.value, items[0].body);
      UpdateAll(addresses, items) == if step.Err? then (addresses, Err(step.status)) else UpdateAll(step.value, items[1..])
  {
  }

  /** The loop's view of `UpdateAllStep`: the suffix from item `i` on. */
  lemma UpdateAllAt(addresses: AddressTable, items: seq<UpdateItem>, i: int)
    requires 0 <= i < |items|
    ensures !UpdateItemValid(items[i]) ==> UpdateAll(addresses, items[i..]) == (addresses, Err(BadRequest))
    ensures UpdateItemValid(items[i]) ==>
      var step := UpdateAddressRow(addresses, items[i].id.value, items[i].body);
      UpdateAll(addresses, items[i..]) == if step.Err? then (addresses, Err(step.status)) else UpdateAll(step.value, items[i + 1..])
  {
    UpdateAllStep(addresses, items[i..]);
    assert items[i..][0] == items[i] && items[i..][1..] == items[i + 1..];
  }

  /** A batch update runs its items in list order: the list `p + q` does `p`, then, if `p`
      succeeded, `q` on the table `p` left behind. */
  lemma {:induction false} UpdateAllAppend(addresses: AddressTable, p: seq<UpdateItem>, q: seq<UpdateItem>)
    ensures var first := UpdateAll(addresses, p);
      UpdateAll(addresses, p + q) == if first.1 == Ok(()) then UpdateAll(first.0, q) else first
    decreases |p|
  {
    if p == [] {
      assert p + q == q;
    } else {
      assert (p + q)[0] == p[0] && (p + q)[1..] == p[1..] + q;
      UpdateAllStep(addresses, p + q);
      UpdateAllStep(addresses, p);
      if UpdateItemValid(p[0]) {
        var step := UpdateAddressRow(addresses, p[0].id.value, p[0].body);
        if step.Ok? {
          UpdateAllAppend(step.value, p[1..], q);
        }
      }
    }
  }

  /** Item `item` stops a batch update on a table with row ids `ids`: it fails validation
      (400), or it is primary and names no row, so the owner lookup throws (500). No item
      adds or removes a row, so `ids` stays the same along the batch. */
  predicate UpdateItemFails(ids: set<int>, item: UpdateItem) {
    !UpdateItemValid(item) || (item.body.isPrimary && item.id.value !in ids)
  }

  /** A batch update succeeds exactly when none of its items stops it. */
  lemma {:induction false} UpdateAllSucceeds(addresses: AddressTable, items: seq<UpdateItem>)
    ensures UpdateAll(addresses, items).1 == Ok(()) <==>
      forall k :: 0 <= k < |items| ==> !UpdateItemFails(addresses.Keys, items[k])
    decreases |items|
  {
    if items != [] {
      UpdateAllStep(addresses, items);
      if !UpdateItemFails(addresses.Keys, items[0]) {
        var next := UpdateAddressRow(addresses, items[0].id.value, items[0].body).value;
        assert next.Keys == addresses.Keys;
        UpdateAllSucceeds(next, items[1..]);
        assert forall k :: 1 <= k < |items| ==> items[k] == items[1..][k - 1];
      }
    }
  }

  /** The first item that stops a batch update ends it: with 400 when it fails validation, with
      500 when it is a primary item naming no row. The rows the items before it wrote stay
      written. */
  lemma UpdateAllStopsAt(addresses: AddressTable, items: seq<UpdateItem>, k: int)
    requires 0 <= k < |items| && UpdateItemFails(addresses.Keys, items[k])
    requires forall j :: 0 <= j < k ==> !UpdateItemFails(addresses.Keys, items[j])
    ensures UpdateAll(addresses, items)
         == (UpdateAll(addresses, items[..k]).0, if UpdateItemValid(items[k]) then Err(ServerError) else Err(BadRequest))
  {
    assert items == items[..k] + items[k..];
    UpdateAllAppend(addresses, items[..k], items[k..]);
    UpdateAllSucceeds(addresses, items[..k]);
    var before := UpdateAll(addresses, items[..k]).0;
    assert before.Keys == addresses.Keys;
    UpdateAllStep(before, items[k..]);
  }

  /** No item of `items` from position `lo` on names row `a`. */
  predicate NotNamed(items: seq<UpdateItem>, lo: int, a: int) {
    forall j :: lo <= j < |items| && 0 <= j ==> items[j].id != Some(a)
  }

  /** No primary item of `items` names a row of customer `cid`. */
  ghost predicate NoPrimaryUpdateFor(addresses: AddressTable, items: seq<UpdateItem>, cid: int) {
    forall j :: 0 <= j < |items| && items[j].body.isPrimary && items[j].id.Some? && items[j].id.value in addresses ==>
      addresses[items[j].id.value].customerId != cid
  }

  /** The row of an item that no later item names holds that item's fields under its old
      owner, up to a primary flag a later item cleared. */
  ghost predicate ItemsWritten(addresses: AddressTable, items: seq<UpdateItem>, after: AddressTable) {
    forall k :: 0 <= k < |items| && UpdateItemValid(items[k]) && items[k].id.value in addresses
                && NotNamed(items, k + 1, items[k].id.value) ==>
      items[k].id.value in after
      && Unmarked(NewAddress(addresses[items[k].id.value].customerId, items[k].body), after[items[k].id.value])
  }

  /** A row no item names at most loses its primary flag. */
  ghost predicate UnnamedUnmarked(addresses: AddressTable, items: seq<UpdateItem>, after: AddressTable) {
    forall a :: a in addresses && NotNamed(items, 0, a) ==> a in after && Unmarked(addresses[a], after[a])
  }

  /** A row no item names stays exactly as it was when no primary item names a row of its
      owner. */
  ghost predicate UnnamedSpared(addresses: AddressTable, items: seq<UpdateItem>, after: AddressTable) {
    forall a :: a in addresses && NotNamed(items, 0, a) && NoPrimaryUpdateFor(addresses, items, addresses[a].customerId) ==>
      a in after && after[a] == addresses[a]
  }

  /** The row of an item that no later item names holds exactly that item's fields, primary
      flag included, when no later primary item names a row of the same owner. */
  ghost predicate ItemsWrittenExactly(addresses: AddressTable, items: seq<UpdateItem>, after: AddressTable) {
    forall k :: 0 <= k < |items| && UpdateItemValid(items[k]) && items[k].id.value in addresses
                && NotNamed(items, k + 1, items[k].id.value)
                && NoPrimaryUpdateFor(addresses, items[k + 1..], addresses[items[k].id.value].customerId) ==>
      items[k].id.value in after
      && after[items[k].id.value] == NewAddress(addresses[items[k].id.value].customerId, items[k].body)
  }

  /** What a successful batch update from `addresses` left in `after`. */
  ghost predicate UpdatesApplied(addresses: AddressTable, items: seq<UpdateItem>, after: AddressTable) {
    ItemsWritten(addresses, items, after) && ItemsWrittenExactly(addresses, items, after)
    && UnnamedUnmarked(addresses, items, after) && UnnamedSpared(addresses, items, after)
  }

  /** A successful batch update writes every item's fields into its row, the last item naming a
      row winning, and touches other rows only through the primary clears. */
  lemma {:induction false} UpdateAllWrites(addresses: AddressTable, items: seq<UpdateItem>)
    ensures UpdateAll(addresses, items).1 == Ok(()) ==> UpdatesApplied(addresses, items, UpdateAll(addresses, items).0)
    decreases |items|
  {
    if items != [] {
      UpdateAllStep(addresses, items);
      if UpdateItemValid(items[0]) {
        var step := UpdateAddressRow(addresses, items[0].id.value, items[0].body);
        if step.Ok? {
          UpdateAllWrites(step.value, items[1..]);
          var after := UpdateAll(step.value, items[1..]).0;
          if UpdateAll(step.value, items[1..]).1 == Ok(()) {
            ItemsWrittenStep(addresses, items, after);
            ItemsWrittenExactlyStep(addresses, items, after);
            UnnamedUnmarkedStep(addresses, items, after);
            UnnamedSparedStep(addresses, items, after);
          }
        }
      }
    }
  }

  /** The last item of a successful batch update leaves its row holding exactly its fields;
      a primary last item leaves its row primary. */
  lemma UpdateAllLastItem(addresses: AddressTable, items: seq<UpdateItem>)
    requires items != [] && UpdateAll(addresses, items).1 == Ok(())
    requires items[|items| - 1].id.Some? && items[|items| - 1].id.value in addresses
    ensures var item := items[|items| - 1];
      UpdateItemValid(item)
      && UpdateAll(addresses, items).0[item.id.value] == NewAddress(addresses[item.id.value].customerId, item.body)
  {
    var k := |items| - 1;
    UpdateAllSucceeds(addresses, items);
    assert !UpdateItemFails(addresses.Keys, items[k]);
    UpdateAllWrites(addresses, items);
    assert items[k + 1..] == [];
  }

  lemma UnmarkedTransitive(x: Address, y: Address, z: Address)
    requires Unmarked(x, y) && Unmarked(y, z)
    ensures Unmarked(x, z)
  {
  }

  lemma NotNamedShift(items: seq<UpdateItem>, lo: int, a: int)
    requires 1 <= lo && items != [] && NotNamed(items, lo, a)
    ensures NotNamed(items[1..], lo - 1, a)
  {
    forall j | lo - 1 <= j < |items[1..]| && 0 <= j ensures items[1..][j].id != Some(a) {
      assert items[1..][j] == items[j + 1];
    }
  }

  lemma ItemsWrittenStep(addresses: AddressTable, items: seq<UpdateItem>, after: AddressTable)
    requires items != [] && UpdateItemValid(items[0])
    requires UpdateAddressRow(addresses, items[0].id.value, items[0].body).Ok?
    requires var next := UpdateAddressRow(addresses, items[0].id.value, items[0].body).value;
      ItemsWritten(next, items[1..], after) && UnnamedUnmarked(next, items[1..], after)
    ensures ItemsWritten(addresses, items, after)
  {
    var id, body := items[0].id.value, items[0].body;
    var next := UpdateAddressRow(addresses, id, body).value;
    assert SameOwners(addresses, next);
    forall k | 0 <= k < |items| && UpdateItemValid(items[k]) && items[k].id.value in addresses && NotNamed(items, k + 1, items[k].id.value)
      ensures items[k].id.value in after
           && Unmarked(NewAddress(addresses[items[k].id.value].customerId, items[k].body), after[items[k].id.value])
    {
      NotNamedShift(items, k + 1, items[k].id.value);
      if k == 0 {
        assert next[id] == NewAddress(addresses[id].customerId, body);
        UnmarkedTransitive(NewAddress(addresses[id].customerId, body), next[id], after[id]);
      } else {
        assert items[1..][k - 1] == items[k];
      }
    }
  }

  lemma NoPrimaryUpdateSameOwners(addresses: AddressTable, next: AddressTable, items: seq<UpdateItem>, cid: int)
    requires SameOwners(addresses, next) && NoPrimaryUpdateFor(addresses, items, cid)
    ensures NoPrimaryUpdateFor(next, items, cid)
  {
    forall j | 0 <= j < |items| && items[j].body.isPrimary && items[j].id.Some? && items[j].id.value in next
      ensures next[items[j].id.value].customerId != cid
    {
      var x := items[j].id.value;
      assert x in addresses && next[x].customerId == addresses[x].customerId;
    }
  }

  lemma ItemsWrittenExactlyStep(addresses: AddressTable, items: seq<UpdateItem>, after: AddressTable)
    requires items != [] && UpdateItemValid(items[0])
    requires UpdateAddressRow(addresses, items[0].id.value, items[0].body).Ok?
    requires var next := UpdateAddressRow(addresses, items[0].id.value, items[0].body).value;
      ItemsWrittenExactly(next, items[1..], after) && UnnamedSpared(next, items[1..], after)
    ensures ItemsWrittenExactly(addresses, items, after)
  {
    var id, body := items[0].id.value, items[0].body;
    var next := UpdateAddressRow(addresses, id, body).value;
    assert SameOwners(addresses, next);
    forall k | 0 <= k < |items| && UpdateItemValid(items[k]) && items[k].id.value in addresses
               && NotNamed(items, k + 1, items[k].id.value)
               && NoPrimaryUpdateFor(addresses, items[k + 1..], addresses[items[k].id.value].customerId)
      ensures items[k].id.value in after
           && after[items[k].id.value] == NewAddress(addresses[items[k].id.value].customerId, items[k].body)
    {
      var x := items[k].id.value;
      var cid := addresses[x].customerId;
      NotNamedShift(items, k + 1, x);
      NoPrimaryUpdateSameOwners(addresses, next, items[k + 1..], cid);
      assert next[x].customerId == cid;
      if k == 0 {
        assert items[1..] == items[k + 1..];
        assert next[id] == NewAddress(cid, body);
      } else {
        assert items[1..][k - 1] == items[k];
        assert items[1..][k..] == items[k + 1..];
      }
    }
  }

  lemma UnnamedUnmarkedStep(addresses: AddressTable, items: seq<UpdateItem>, after: AddressTable)
    requires items != [] && UpdateItemValid(items[0])
    requires UpdateAddressRow(addresses, items[0].id.value, items[0].body).Ok?
    requires UnnamedUnmarked(UpdateAddressRow(addresses, items[0].id.value, items[0].body).value, items[1..], after)
    ensures UnnamedUnmarked(addresses, items, after)
  {
    var id, body := items[0].id.value, items[0].body;
    var next := UpdateAddressRow(addresses, id, body).value;
    assert SameOwners(addresses, next);
    forall a | a in addresses && NotNamed(items, 0, a) ensures a in after && Unmarked(addresses[a], after[a]) {
      NotNamedShift(items, 1, a);
      assert a != id by { assert items[0].id != Some(a); }
      UnmarkedTransitive(addresses[a], next[a], after[a]);
    }
  }

  lemma NoPrimaryUpdateShift(addresses: AddressTable, next: AddressTable, items: seq<UpdateItem>, cid: int)
    requires SameOwners(addresses, next) && items != [] && NoPrimaryUpdateFor(addresses, items, cid)
    ensures NoPrimaryUpdateFor(next, items[1..], cid)
  {
    forall j | 0 <= j < |items[1..]| && items[1..][j].body.isPrimary && items[1..][j].id.Some? && items[1..][j].id.value in next
      ensures next[items[1..][j].id.value].customerId != cid
    {
      assert items[1..][j] == items[j + 1];
      var x := items[j + 1].id.value;
      assert x in addresses && next[x].customerId == addresses[x].customerId;
    }
  }

  lemma UnnamedSparedStep(addresses: AddressTable, items: seq<UpdateItem>, after: AddressTable)
    requires items != [] && UpdateItemValid(items[0])
    requires UpdateAddressRow(addresses, items[0].id.value, items[0].body).Ok?
    requires UnnamedSpared(UpdateAddressRow(addresses, items[0].id.value, items[0].body).value, items[1..], after)
    ensures UnnamedSpared(addresses, items, after)
  {
    var id, body := items[0].id.value, items[0].body;
    var next := UpdateAddressRow(addresses, id, body).value;
    assert SameOwners(addresses, next);
    forall a | a in addresses && NotNamed(items, 0, a) && NoPrimaryUpdateFor(addresses, items, addresses[a].customerId)
      ensures a in after && after[a] == addresses[a]
    {
      var cid := addresses[a].customerId;
      NotNamedShift(items, 1, a);
      NoPrimaryUpdateShift(addresses, next, items, cid);
      assert a != id by { assert items[0].id != Some(a); }
      assert next[a] == addresses[a];
    }
  }

  /** Skipping the `only_one_address` recompute is harmless for a batch update: no row changes
      owner, so a flag that was right before is right after. */
  lemma UpdateAllKeepsFlags(customers: CustomerTable, addresses: AddressTable, items: seq<UpdateItem>, cid: int)
    ensures FlagConsistent(customers, addresses, cid) <==> FlagConsistent(customers, UpdateAll(addresses, items).0, cid)
  {
    SameOwnersSameCounts(addresses, UpdateAll(addresses, items).0, customers, cid);
  }

  /** `PUT /multiple`. `addresses` is `None` when the body's `addresses` is not an array. */
  method UpdateMultipleAddresses(db: Store, addresses: Option<seq<UpdateItem>>) returns (r: Result<()>)
    requires db.Valid()
    modifies db
    ensures db.Valid()
    ensures addresses.None? || addresses.value == [] ==> r == Err(BadRequest) && unchanged(db)
    ensures addresses.Some? && addresses.value != [] ==> (db.addresses, r) == UpdateAll(old(db.addresses), addresses.value)
    ensures db.customers == old(db.customers)
    ensures db.customerSeq == old(db.customerSeq) && db.addressSeq == old(db.addressSeq)
  {
    if addresses.None? || |addresses.value| == 0 {
      return Err(BadRequest);
    }
    var items := addresses.value;
    var i := 0;
    while i < |items|
      invariant 0 <= i <= |items|
      invariant UpdateAll(old(db.addresses), items) == UpdateAll(db.addresses, items[i..])
      invariant SameOwners(old(db.addresses), db.addresses)
      invariant AddressesValid(db.addresses, db.addressSeq)
      invariant db.customers == old(db.customers)
      invariant db.customerSeq == old(db.customerSeq) && db.addressSeq == old(db.addressSeq)
    {
      var item := items[i];
      UpdateAllAt(db.addresses, items, i);
      if !UpdateItemValid(item) {
        return Err(BadRequest);
      }
      var written := WriteAddressRow(db, item.id.value, item.body);
      if written.Err? {
        return written;
      }
      i := i + 1;
    }
    assert items[i..] == [];
    return Ok(());
  }

  // ---------------------------------------------------------------------------
  // Batch insert

  /** The address table and its AUTOINCREMENT counter after a batch insert's loop. */
  datatype Inserted = Inserted(addresses: AddressTable, addressSeq: nat, status: Result<()>)

  /** The effect of a batch insert's loop: items in list order, stopping at the first item that
      fails validation. `customer_id` is never looked up. */
  function AddAll(addresses: AddressTable, addressSeq: nat, items: seq<NewItem>): (r: Inserted)
    requires IdsIssued(addresses, addressSeq)
    ensures IdsIssued(r.addresses, r.addressSeq) && r.addressSeq >= addressSeq
    ensures r.status == Ok(()) <==> forall k :: 0 <= k < |items| ==> NewItemValid(items[k])
    ensures r.status != Ok(()) ==> r.status == Err(BadRequest)
    decreases |items|
  {
    if items == [] then Inserted(addresses, addressSeq, Ok(()))
    else if !NewItemValid(items[0]) then Inserted(addresses, addressSeq, Err(BadRequest))
    else
      var next := InsertAddress(addresses, addressSeq, items[0].customerId.value, items[0].body);
      assert forall k :: 1 <= k < |items| ==> items[k] == items[1..][k - 1];
      AddAll(next, addressSeq + 1, items[1..])
  }

  lemma AddAllStep(addresses: AddressTable, addressSeq: nat, items: seq<NewItem>)
    requires IdsIssued(addresses, addressSeq) && items != []
    ensures !NewItemValid(items[0]) ==> AddAll(addresses, addressSeq, items) == Inserted(addresses, addressSeq, Err(BadRequest))
    ensures NewItemValid(items[0]) ==>
      AddAll(addresses, addressSeq, items)
        == AddAll(InsertAddress(addresses, addressSeq, items[0].customerId.value, items[0].body), addressSeq + 1, items[1..])
  {
  }

  /** The loop's view of `AddAllStep`: the suffix from item `i` on. */
  lemma AddAllAt(addresses: AddressTable, addressSeq: nat, items: seq<NewItem>, i: int)
    requires IdsIssued(addresses, addressSeq) && 0 <= i < |items|
    ensures !NewItemValid(items[i]) ==>
      AddAll(addresses, addressSeq, items[i..]) == Inserted(addresses, addressSeq, Err(BadRequest))
    ensures NewItemValid(items[i]) ==>
      AddAll(addresses, addressSeq, items[i..])
        == AddAll(InsertAddress(addresses, addressSeq, items[i].customerId.value, items[i].body), addressSeq + 1, items[i + 1..])
  {
    AddAllStep(addresses, addressSeq, items[i..]);
    assert items[i..][0] == items[i] && items[i..][1..] == items[i + 1..];
  }

  /** How many items of a batch insert pass validation before the first one that fails. */
  function ValidPrefix(items: seq<NewItem>): (n: nat)
    ensures n <= |items|
    ensures forall j :: 0 <= j < n ==> NewItemValid(items[j])
    ensures n < |items| ==> !NewItemValid(items[n])
    decreases |items|
  {
    if items == [] || !NewItemValid(items[0]) then 0
    else
      var n := 1 + ValidPrefix(items[1..]);
      assert forall j :: 1 <= j < |items| ==> items[j] == items[1..][j - 1];
      n
  }

  /** What a batch insert from `addresses` and `addressSeq` left in `after`: one new id per item
      before the first invalid one, item `k` under id `addressSeq + k + 1`, every old row kept,
      and rows at most lose their `is_primary` flag to a later primary item. */
  ghost predicate BatchWrote(addresses: AddressTable, addressSeq: nat, items: seq<NewItem>, after: Inserted) {
    && after.addressSeq == addressSeq + ValidPrefix(items)
    && (forall a :: a in after.addresses <==> a in addresses || addressSeq < a <= addressSeq + ValidPrefix(items))
    && (forall a :: a in addresses ==> Unmarked(addresses[a], after.addresses[a]))
    && (forall k :: 0 <= k < ValidPrefix(items) ==>
          Unmarked(NewAddress(items[k].customerId.value, items[k].body), after.addresses[addressSeq + k + 1]))
  }

  /** The insert clears at most primary flags of the old rows. */
  lemma InsertAddressUnmarks(addresses: AddressTable, addressSeq: nat, cid: int, b: AddressBody)
    requires AddressFieldsPresent(b) && IdsIssued(addresses, addressSeq)
    ensures forall a :: a in addresses ==> Unmarked(addresses[a], InsertAddress(addresses, addressSeq, cid, b)[a])
  {
    InsertAddressUnfold(addresses, addressSeq, cid, b);
    assert addressSeq + 1 !in addresses;
  }

  /** A batch insert writes item `k`, for every `k` before the first invalid item, under id
      `addressSeq + k + 1`, advances the counter by as many ids, and keeps every old row up to
      its primary flag. */
  lemma {:induction false} AddAllWrites(addresses: AddressTable, addressSeq: nat, items: seq<NewItem>)
    requires IdsIssued(addresses, addressSeq)
    ensures BatchWrote(addresses, addressSeq, items, AddAll(addresses, addressSeq, items))
    ensures BatchSpared(addresses, addressSeq, items, AddAll(addresses, addressSeq, items))
    decreases |items|
  {
    if items != [] {
      AddAllStep(addresses, addressSeq, items);
      if NewItemValid(items[0]) {
        var next := InsertAddress(addresses, addressSeq, items[0].customerId.value, items[0].body);
        AddAllWrites(next, addressSeq + 1, items[1..]);
        BatchWroteStep(addresses, addressSeq, items, AddAll(next, addressSeq + 1, items[1..]));
        BatchSparedStep(addresses, addressSeq, items, AddAll(next, addressSeq + 1, items[1..]));
      }
    }
  }

  /** No item among `items[lo..hi]` is a primary item for customer `cid`. */
  predicate NoPrimaryItemFor(items: seq<NewItem>, lo: int, hi: int, cid: int) {
    forall j :: lo <= j < hi && 0 <= j < |items| ==> !(items[j].body.isPrimary && items[j].customerId == Some(cid))
  }

  lemma NoPrimaryItemShift(items: seq<NewItem>, lo: int, hi: int, cid: int)
    requires 1 <= lo && items != [] && NoPrimaryItemFor(items, lo, hi, cid)
    ensures NoPrimaryItemFor(items[1..], lo - 1, hi - 1, cid)
  {
    forall j | lo - 1 <= j < hi - 1 && 0 <= j < |items[1..]|
      ensures !(items[1..][j].body.isPrimary && items[1..][j].customerId == Some(cid))
    {
      assert items[1..][j] == items[j + 1];
    }
  }

  /** The rows a batch insert leaves exactly as they were: an old row, or a row the batch
      inserted, whose owner no later primary item among the inserted ones names, since only
      such an item clears the owner's primaries. */
  ghost predicate BatchSpared(addresses: AddressTable, addressSeq: nat, items: seq<NewItem>, after: Inserted) {
    && (forall a :: a in addresses && NoPrimaryItemFor(items, 0, ValidPrefix(items), addresses[a].customerId) ==>
          a in after.addresses && after.addresses[a] == addresses[a])
    && (forall k :: 0 <= k < ValidPrefix(items) && NoPrimaryItemFor(items, k + 1, ValidPrefix(items), items[k].customerId.value) ==>
          addressSeq + k + 1 in after.addresses
          && after.addresses[addressSeq + k + 1] == NewAddress(items[k].customerId.value, items[k].body))
  }

  /** The insert leaves a row alone unless it is primary and the row has the same owner. */
  lemma InsertAddressSpares(addresses: AddressTable, addressSeq: nat, cid: int, b: AddressBody, a: int)
    requires AddressFieldsPresent(b) && IdsIssued(addresses, addressSeq)
    requires a in addresses && !(b.isPrimary && addresses[a].customerId == cid)
    ensures InsertAddress(addresses, addressSeq, cid, b)[a] == addresses[a]
  {
    InsertAddressUnfold(addresses, addressSeq, cid, b);
    assert a != addressSeq + 1;
  }

  /** Inserting the first item and then the rest spares what the whole batch spares. */
  lemma BatchSparedStep(addresses: AddressTable, addressSeq: nat, items: seq<NewItem>, after: Inserted)
    requires IdsIssued(addresses, addressSeq) && items != [] && NewItemValid(items[0])
    requires BatchSpared(InsertAddress(addresses, addressSeq, items[0].customerId.value, items[0].body),
                         addressSeq + 1, items[1..], after)
    ensures BatchSpared(addresses, addressSeq, items, after)
  {
    var cid, body := items[0].customerId.value, items[0].body;
    var next := InsertAddress(addresses, addressSeq, cid, body);
    var n := ValidPrefix(items);
    assert n == 1 + ValidPrefix(items[1..]);
    forall a | a in addresses && NoPrimaryItemFor(items, 0, n, addresses[a].customerId)
      ensures a in after.addresses && after.addresses[a] == addresses[a]
    {
      InsertAddressSpares(addresses, addressSeq, cid, body, a);
      NoPrimaryItemShift(items, 1, n, addresses[a].customerId);
      assert a in next && next[a].customerId == addresses[a].customerId;
    }
    forall k | 0 <= k < n && NoPrimaryItemFor(items, k + 1, n, items[k].customerId.value)
      ensures addressSeq + k + 1 in after.addresses
           && after.addresses[addressSeq + k + 1] == NewAddress(items[k].customerId.value, items[k].body)
    {
      NoPrimaryItemShift(items, k + 1, n, items[k].customerId.value);
      if k == 0 {
        assert next[addressSeq + 1] == NewAddress(cid, body);
      } else {
        assert items[1..][k - 1] == items[k];
      }
    }
  }

  /** Inserting the first item and then writing the rest is writing the whole batch. */
  lemma BatchWroteStep(addresses: AddressTable, addressSeq: nat, items: seq<NewItem>, after: Inserted)
    requires IdsIssued(addresses, addressSeq) && items != [] && NewItemValid(items[0])
    requires BatchWrote(InsertAddress(addresses, addressSeq, items[0].customerId.value, items[0].body),
                        addressSeq + 1, items[1..], after)
    ensures BatchWrote(addresses, addressSeq, items, after)
  {
    var cid, body := items[0].customerId.value, items[0].body;
    var next := InsertAddress(addresses, addressSeq, cid, body);
    var n := ValidPrefix(items);
    assert n == 1 + ValidPrefix(items[1..]);
    assert forall a :: a in addresses ==> Unmarked(addresses[a], after.addresses[a]) by {
      InsertAddressUnmarks(addresses, addressSeq, cid, body);
      forall a | a in addresses ensures Unmarked(addresses[a], after.addresses[a]) {
        assert a in next;
      }
    }
    forall k | 0 <= k < n
      ensures Unmarked(NewAddress(items[k].customerId.value, items[k].body), after.addresses[addressSeq + k + 1])
    {
      if k == 0 {
        assert next[addressSeq + 1] == NewAddress(cid, body);
      } else {
        assert items[1..][k - 1] == items[k];
      }
    }
  }

  /** `after` keeps every row id of `addresses` and has one more row per id issued since
      `addressSeq`. */
  ghost predicate GrowsFrom(addresses: AddressTable, addressSeq: nat, after: Inserted) {
    && addresses.Keys <= after.addresses.Keys
    && |after.addresses| == |addresses| + (after.addressSeq - addressSeq)
  }

  /** A batch insert deletes no row and adds exactly one row per id it issues. */
  lemma {:induction false} AddAllKeepsRows(addresses: AddressTable, addressSeq: nat, items: seq<NewItem>)
    requires IdsIssued(addresses, addressSeq)
    ensures GrowsFrom(addresses, addressSeq, AddAll(addresses, addressSeq, items))
    decreases |items|
  {
    if items != [] {
      AddAllStep(addresses, addressSeq, items);
      if NewItemValid(items[0]) {
        var cid, body := items[0].customerId.value, items[0].body;
        var next := InsertAddress(addresses, addressSeq, cid, body);
        InsertGrows(addresses, addressSeq, cid, body);
        AddAllKeepsRows(next, addressSeq + 1, items[1..]);
        GrowsFromTransitive(addresses, addressSeq, Inserted(next, addressSeq + 1, Ok(())),
                            AddAll(next, addressSeq + 1, items[1..]));
      }
    }
  }

  lemma InsertGrows(addresses: AddressTable, addressSeq: nat, cid: int, b: AddressBody)
    requires AddressFieldsPresent(b) && IdsIssued(addresses, addressSeq)
    ensures GrowsFrom(addresses, addressSeq, Inserted(InsertAddress(addresses, addressSeq, cid, b), addressSeq + 1, Ok(())))
  {
    InsertAddressRows(addresses, addressSeq, cid, b);
  }

  lemma GrowsFromTransitive(addresses: AddressTable, addressSeq: nat, mid: Inserted, after: Inserted)
    requires GrowsFrom(addresses, addressSeq, mid) && GrowsFrom(mid.addresses, mid.addressSeq, after)
    ensures GrowsFrom(addresses, addressSeq, after)
  {
  }

  /** A batch insert runs its items in list order: the list `p + q` does `p`, then, if `p`
      succeeded, `q` on the table and counter `p` left behind. */
  lemma {:induction false} AddAllAppend(addresses: AddressTable, addressSeq: nat, p: seq<NewItem>, q: seq<NewItem>)
    requires IdsIssued(addresses, addressSeq)
    ensures var first := AddAll(addresses, addressSeq, p);
      AddAll(addresses, addressSeq, p + q)
        == if first.status == Ok(()) then AddAll(first.addresses, first.addressSeq, q) else first
    decreases |p|
  {
    if p == [] {
      assert p + q == q;
    } else {
      assert (p + q)[0] == p[0] && (p + q)[1..] == p[1..] + q;
      AddAllStep(addresses, addressSeq, p + q);
      AddAllStep(addresses, addressSeq, p);
      if NewItemValid(p[0]) {
        var next := InsertAddress(addresses, addressSeq, p[0].customerId.value, p[0].body);
        AddAllAppend(next, addressSeq + 1, p[1..], q);
      }
    }
  }

  /** The first invalid item of a batch insert ends it with 400; the rows the items before it
      inserted stay inserted. */
  lemma AddAllStopsAtInvalid(addresses: AddressTable, addressSeq: nat, items: seq<NewItem>, k: int)
    requires IdsIssued(addresses, addressSeq)
    requires 0 <= k < |items| && !NewItemValid(items[k])
    requires forall j :: 0 <= j < k ==> NewItemValid(items[j])
    ensures var before := AddAll(addresses, addressSeq, items[..k]);
      AddAll(addresses, addressSeq, items) == Inserted(before.addresses, before.addressSeq, Err(BadRequest))
  {
    assert items == items[..k] + items[k..];
    AddAllAppend(addresses, addressSeq, items[..k], items[k..]);
    var before := AddAll(addresses, addressSeq, items[..k]);
    AddAllStep(before.addresses, before.addressSeq, items[k..]);
  }

  const exampleBody := AddressBody(Some("7 Hill Rd"), Some("Pune"), Some("MH"), Some("411002"), false)
  const exampleAddresses: AddressTable := map[1 := Address(1, "12 Main St", "Pune", "MH", "411001", false)]
  const exampleBatch := [NewItem(Some(2), exampleBody), NewItem(Some(1), exampleBody)]

  /** The two-item batch below inserts rows 2 and 3, for customers 2 and 1, in that order. */
  lemma ExampleBatchRows()
    ensures AddAll(exampleAddresses, 1, exampleBatch)
         == Inserted(exampleAddresses[2 := NewAddress(2, exampleBody)][3 := NewAddress(1, exampleBody)], 3, Ok(()))
  {
    var items := exampleBatch;
    AddAllStep(exampleAddresses, 1, items);
    var once := InsertAddress(exampleAddresses, 1, 2, exampleBody);
    InsertAddressUnfold(exampleAddresses, 1, 2, exampleBody);
    assert items[1..] == [items[1]];
    AddAllStep(once, 2, items[1..]);
    InsertAddressUnfold(once, 2, 1, exampleBody);
    assert items[1..][1..] == [];
  }

  /** A batch insert neither looks the customer up nor recomputes `only_one_address`: an item
      for customer 2, who does not exist, is inserted, and customer 1, whose flag was right with
      one address, keeps `only_one_address` set beside a second one. */
  lemma AddAllSkipsCustomerChecks()
    ensures var customers := map[1 := Customer("Ada", "Lovelace", "555", true)];
      var r := AddAll(exampleAddresses, 1, exampleBatch);
      && FlagConsistent(customers, exampleAddresses, 1)
      && r.status == Ok(()) && 2 !in customers && AddressCount(r.addresses, 2) == 1
      && !FlagConsistent(customers, r.addresses, 1)
  {
    ExampleBatchRows();
    var after := AddAll(exampleAddresses, 1, exampleBatch).addresses;
    assert AddressesOf(exampleAddresses, 1) == {1};
    assert AddressesOf(after, 2) == {2};
    assert AddressesOf(after, 1) == {1, 3};
  }

  /** The primary clear and INSERT of `addMultipleAddresses` for item `i` of the batch: the
      batch's outcome is now that of the items after it, run on the table with item `i`
      inserted. */
  method InsertItem(db: Store, items: seq<NewItem>, i: int, ghost outcome: Inserted)
    requires 0 <= i < |items| && NewItemValid(items[i]) && AddressesValid(db.addresses, db.addressSeq)
    requires outcome == AddAll(db.addresses, db.addressSeq, items[i..])
    modifies db
    ensures AddressesValid(db.addresses, db.addressSeq)
    ensures outcome == AddAll(db.addresses, db.addressSeq, items[i + 1..])
    ensures db.customers == old(db.customers) && db.customerSeq == old(db.customerSeq)
  {
    AddAllAt(db.addresses, db.addressSeq, items, i);
    var _ := InsertAddressRow(db, items[i].customerId.value, items[i].body);
  }

  /** `POST /multiple`. */
  method AddMultipleAddresses(db: Store, addresses: Option<seq<NewItem>>) returns (r: Result<()>)
    requires db.Valid()
    modifies db
    ensures db.Valid()
    ensures addresses.None? || addresses.value == [] ==> r == Err(BadRequest) && unchanged(db)
    ensures addresses.Some? && addresses.value != [] ==>
      Inserted(db.addresses, db.addressSeq, r) == AddAll(old(db.addresses), old(db.addressSeq), addresses.value)
    ensures db.customers == old(db.customers) && db.customerSeq == old(db.customerSeq)
  {
    if addresses.None? || |addresses.value| == 0 {
      return Err(BadRequest);
    }
    var items := addresses.value;
    ghost var outcome := AddAll(db.addresses, db.addressSeq, items);
    var i := 0;
    while i < |items|
      invariant 0 <= i <= |items|
      invariant AddressesValid(db.addresses, db.addressSeq)
      invariant outcome == AddAll(db.addresses, db.addressSeq, items[i..])
      invariant db.customers == old(db.customers) && db.customerSeq == old(db.customerSeq)
    {
      var item := items[i];
      if !NewItemValid(item) {
        AddAllAt(db.addresses, db.addressSeq, items, i);
        return Err(BadRequest);
      }
      InsertItem(db, items, i, outcome);
      i := i + 1;
    }
    assert items[i..] == [];
    return Ok(());
  }
}
