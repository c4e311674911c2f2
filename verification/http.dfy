/** The few HTTP vocabulary items the dispatch core names: request methods, the status codes
    it uses directly, and opaque handler identities. */
module Http {

  /** The request methods of the HTTP library, including its catch-all extension method. */
  datatype Method =
    | Options | Get | Post | Put | Delete | Head | Trace | Connect | Patch
    | Extension(name: string)

  type StatusCode = nat

  const StatusOk: StatusCode := 200
  const StatusFound: StatusCode := 302
  const StatusNotFound: StatusCode := 404
  const StatusMethodNotAllowed: StatusCode := 405
  const StatusInternalServerError: StatusCode := 500

  /** Handlers are opaque callables; the model only keeps their identity. The two defaults
      are the ones an application is seeded with. */
  datatype Handler =
    | DefaultNotFoundHandler
    | DefaultInternalErrorHandler
    | UserHandler(id: nat)
}
