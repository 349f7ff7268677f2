/** The answer codes the JSON API returns. */
module Http {
  datatype Status =
    | Ok200        // found, changed or already present
    | Created201   // a new row was inserted
    | Forbidden403 // the row belongs to another user
    | NotFound404  // route model binding found no row with that id
    | ServerError500 // the database refused the write (the unique slug index or the NOT NULL trade_price column)
}
