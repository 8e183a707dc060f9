/** What a request handler sends back, reduced to the parts the handlers decide. */
module Responses {
  import opened Wrappers

  datatype Reply =
      /** `template.ejs` rendered with a page title and HTML content. */
    | Page(title: string, content: string)
      /** `search.ejs` rendered with the query (`null` when absent) and the matching paths. */
    | SearchPage(query: Option<string>, files: seq<string>)
      /** `login.ejs` rendered with an error message or `null`. */
    | LoginPage(error: Option<string>)
      /** `res.status(status).send(body)`; `res.send(body)` alone is status 200. */
    | Send(status: nat, body: string)
    | Redirect(location: string)
      /** The middleware hands the request on to the next handler. */
    | Next

  const InternalError := Send(500, "Internal error!")
}
