/** The equipment records the bot reads from its catalogue. */
module Catalog {
  import opened Common

  /**
   * One equipment row.  A numeric column that is missing or falsy reads
   * as 0 (the handlers only ever use it through `x || default`), a missing
   * text column as the empty string.  A coordinate is `None` when it does
   * not parse as a number.
   */
  datatype Equipment = Equipment(
    id: int,
    name: string,
    description: string,
    pricePerDay: real,
    price: real,
    rating: real,
    rentalCount: real,
    available: bool,
    latitude: Option<real>,
    longitude: Option<real>)

  /** JavaScript's `x || d` on a number read as 0 when missing. */
  function OrElse(x: real, d: real): (r: real)
    ensures x != 0.0 ==> r == x
    ensures x == 0.0 ==> r == d
  {
    if x != 0.0 then x else d
  }

  /** An equipment row is an object, and JavaScript reads every object as true. */
  predicate IsObject(eq: Equipment) {
    true
  }
}
