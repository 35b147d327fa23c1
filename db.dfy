/** The shared storage handle: the two tables and their AUTOINCREMENT counters. */
module Db {
  import opened Tables

  class Store {
    var customers: CustomerTable
    var addresses: AddressTable
    /** The largest customer id ever issued (`sqlite_sequence` for `customers`). */
    var customerSeq: nat
    /** The largest address id ever issued (`sqlite_sequence` for `addresses`). */
    var addressSeq: nat

    ghost predicate Valid()
      reads this
    {
      Consistent(customers, addresses, customerSeq, addressSeq)
    }

    /** A freshly created database: both tables empty, no id issued yet. */
    constructor ()
      ensures Valid()
      ensures customers == map[] && addresses == map[] && customerSeq == 0 && addressSeq == 0
    {
      customers, addresses := map[], map[];
      customerSeq, addressSeq := 0, 0;
    }
  }
}
