/** What the two edit controllers (species and profile) share: the caller's identity,
    the outcome of one submit, and the error texts they show. */
module EditFlow {

  /** The authentication identifier of a signed-in user. */
  type UserId = string

  /** How one submit of an edit form ends.
      Redirected: there was no session; `redirect("/")` aborts the handler.
      Updated: the caller owns the record and one update was issued.
      Denied: the caller does not own the record.
      Invalid: the caller owns the record but a required field is empty. */
  datatype SubmitOutcome = Redirected | Updated | Denied | Invalid

  const WrongAccountMessage: string := "Login to the correct account to edit"
  const RequiredFieldsMessage: string := "Please fill out the required fields"
}
