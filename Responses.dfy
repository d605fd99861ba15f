/** What a route handler of server.js sends back: a status code and a JSON
    body that is `{success}`, `{error}` or `{subscribers}`. */
module Responses {
  import opened Registry

  datatype Body =
    | Success(message: string)
    | Error(message: string)
    | Listing(subscribers: seq<Subscriber>)

  datatype Response = Response(status: int, body: Body)
}
