/** The kinds of route a route table distinguishes. */
module Route {
  datatype RouteType = Static | Prefix | Pattern
}
