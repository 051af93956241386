/** The exceptions the staging service raises, a success-or-exception result, and Ruby's
    value-or-nil. */
module Results {

  datatype Error =
    | FiletypeError         // token not in the whitelist
    | HTTPResponseError     // download answered with a status other than "200"
    | EmptyFileError        // downloaded body was empty
    | NoSuchFileError       // virtual filename not registered
    | NoUploadedFilesError  // no item of a batch could be uploaded
    | ArgumentError         // limit called with a bad argument list
    | NoMethodError         // a lookup before the registry hash was ever created (nil receiver)
    | ExternalError         // raised outside the core: file system, network, upload client, edit block

  datatype Result<T> = Ok(value: T) | Err(error: Error)

  datatype Option<T> = None | Some(value: T)
}
