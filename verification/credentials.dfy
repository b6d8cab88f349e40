/**
 Google service-account keys as the code sees them. `JSON.parse` is not
 modelled: callers receive it as a function from the key text to a `Json`.
 */
module Credentials {
  /**
   The three fields the code reads from a service-account key; the empty
   string stands for a field that is missing or falsy.
   */
  datatype ServiceAccount = ServiceAccount(projectId: string, privateKey: string, clientEmail: string)

  /**
   What `JSON.parse` makes of a key text. `Parsed` is any value other than
   `null`: an object gives its fields, while a number, string, boolean or
   array reads every field as undefined and so has all three empty. `Null`
   is the one value on which a field read throws. `Unparsable` is a thrown
   syntax error with its message.
   */
  datatype Json = Parsed(account: ServiceAccount) | Null | Unparsable(message: string)

  /** `project_id`, `private_key` and `client_email` are all truthy. */
  predicate HasRequiredFields(a: ServiceAccount)
  {
    a.projectId != "" && a.privateKey != "" && a.clientEmail != ""
  }
}
