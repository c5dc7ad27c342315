/**
 * The errors the providers of the scripting API report. Their revision of
 * `api::Error` has two values that the error enumeration of this model
 * does not: `InvalidArguments` (a request that cannot be made, or a user
 * file row without a configured column) and `NetworkError` (the book
 * provider has no access token). Every other error they pass on is an
 * `ApiErrors.Error`.
 */
module ProviderApi {
  import A = ApiErrors

  datatype Error = InvalidArguments | NetworkError | Api(error: A.Error)
}
