/** What the lists and tables store: a `void *`, modelled as an integer with 0 for NULL. */
module Payloads {
  type Ptr = int

  const NULL: Ptr := 0
}
