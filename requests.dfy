/** Request bodies as the handlers destructure them. */
module Requests {
  import opened Results

  /** `{ first_name, last_name, phone_number }` of a customer request. */
  datatype CustomerBody = CustomerBody(firstName: Field, lastName: Field, phoneNumber: Field)

  /** `{ address_details, city, state, pin_code, is_primary }` of an address request;
      an omitted `is_primary` is `false`. */
  datatype AddressBody = AddressBody(details: Field, city: Field, state: Field, pinCode: Field, isPrimary: bool)

  /** One element of the `addresses` array of a batch update: `id` plus the address fields. */
  datatype UpdateItem = UpdateItem(id: Option<int>, body: AddressBody)

  /** One element of the `addresses` array of a batch insert: `customer_id` plus the address fields. */
  datatype NewItem = NewItem(customerId: Option<int>, body: AddressBody)

  predicate CustomerFieldsPresent(b: CustomerBody) {
    Present(b.firstName) && Present(b.lastName) && Present(b.phoneNumber)
  }

  predicate AddressFieldsPresent(b: AddressBody) {
    Present(b.details) && Present(b.city) && Present(b.state) && Present(b.pinCode)
  }

  predicate UpdateItemValid(item: UpdateItem) {
    PresentId(item.id) && AddressFieldsPresent(item.body)
  }

  predicate NewItemValid(item: NewItem) {
    PresentId(item.customerId) && AddressFieldsPresent(item.body)
  }
}
