/** The request a service method hands to the HTTP transport. */
module Http {

  import opened Wrappers
  import opened Wire

  datatype Method = GET | POST | PUT | DELETE

  /** Verb, path below the API's base URL, the headers the method sets, and the JSON body. */
  datatype Request = Request(verb: Method, path: string, headers: map<string, string>, body: Option<Json>)

  /** The error the transport returns; its contents are the transport's business. */
  datatype TransportError = TransportError(message: string)

  /** The optimistic-concurrency header every mutating request carries. */
  const VersionHeader := "X-Contentful-Version"

  function SpacePath(spaceId: string): string {
    "/spaces/" + spaceId
  }
}
