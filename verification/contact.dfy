/** The contact record: four strings, any of which may be empty. */
module Contacts {

  datatype Contact = Contact(firstName: string, lastName: string, phoneNumber: string, email: string)

  /** The four fields, in the order the program always lists them. */
  datatype Field = FirstName | LastName | PhoneNumber | Email

  function Get(c: Contact, f: Field): string {
    match f
    case FirstName => c.firstName
    case LastName => c.lastName
    case PhoneNumber => c.phoneNumber
    case Email => c.email
  }

  /** `c` with field `f` replaced by `v`. */
  function With(c: Contact, f: Field, v: string): (r: Contact)
    ensures Get(r, f) == v
    ensures forall g :: g != f ==> Get(r, g) == Get(c, g)
  {
    match f
    case FirstName => c.(firstName := v)
    case LastName => c.(lastName := v)
    case PhoneNumber => c.(phoneNumber := v)
    case Email => c.(email := v)
  }

  /** The values of field `f` across `cs`, in order (`group.Select(e => e.f)`). */
  function Column(cs: seq<Contact>, f: Field): (r: seq<string>)
    ensures |r| == |cs|
    ensures forall k :: 0 <= k < |cs| ==> r[k] == Get(cs[k], f)
  {
    seq(|cs|, k requires 0 <= k < |cs| => Get(cs[k], f))
  }
}
