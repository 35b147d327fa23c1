/** The two required-field middlewares: each either hands the request on (`next()`) or
    answers 400 itself. Both are pure: they read the body and never change it. */
module Validate {
  import opened Results
  import opened Requests

  datatype Outcome = Next | Reject(status: Status)

  function ValidateCustomer(body: CustomerBody): (o: Outcome)
    ensures o == Next <==> Present(body.firstName) && Present(body.lastName) && Present(body.phoneNumber)
    ensures o != Next ==> o == Reject(BadRequest) && o.status.Code() == 400
  {
    if !Present(body.firstName) || !Present(body.lastName) || !Present(body.phoneNumber) then
      Reject(BadRequest)
    else
      Next
  }

  function ValidateAddress(body: AddressBody): (o: Outcome)
    ensures o == Next <==> Present(body.details) && Present(body.city) && Present(body.state) && Present(body.pinCode)
    ensures o != Next ==> o == Reject(BadRequest) && o.status.Code() == 400
  {
    if !Present(body.details) || !Present(body.city) || !Present(body.state) || !Present(body.pinCode) then
      Reject(BadRequest)
    else
      Next
  }
}
