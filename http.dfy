/** What an endpoint answers. An exception that escapes an action is a server error, and
    `Fault` says which one it was. */
module Http {
  import Store
  import FieldEncryption

  datatype ServerError =
    | SaveFailed(saveError: Store.SaveError)                    // a save threw
    | DecryptFailed(cipherError: FieldEncryption.CipherError)   // a stored field did not decrypt
    | RoleMissing                                             // AddToRoleAsync threw for an unknown role
    | IdentityStoreFailed                                     // CreateAsync's save threw

  datatype Response<+T> =
    | Ok(body: T)
    | Created(created: T)
    | NoContent
    | BadRequest
    | Unauthorized
    | Forbid
    | NotFound
    | Fault(error: ServerError)
}
