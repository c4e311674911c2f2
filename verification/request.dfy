/** The request handed to a handler (request.rs): the matched path, the decoded query string
    and the named captures of the route that matched. The wrapped transport request and its
    body are not part of this model. */
module Requests {
  import opened Wrappers
  import opened QueryString

  datatype Request = Request(path: Option<string>, gets: MultiMap, vars: map<string, string>)

  lemma DecodeValuesAll(q: string)
    ensures forall k :: k in Decode(q) <==> k != "" && ValuesOf(Pairs(q), k) != []
    ensures forall k :: k in Decode(q) ==> Decode(q)[k] == ValuesOf(Pairs(q), k)
  {
    forall k {
      DecodeValues(q, k);
    }
  }

  /** `Request::new(req, captures, path, query_string)`. `captures` stands for the named
      groups of the route's match, already collected by name; without a match, and without
      a query string, the respective maps are empty. */
  function New(captures: Option<map<string, string>>, path: Option<string>, query: Option<string>)
    : (r: Request)
    ensures r.path == path
    ensures query.None? ==> r.gets == map[]
    ensures query.Some? ==> r.gets == Decode(query.value)
    ensures query.Some? ==> forall k ::
              k in r.gets <==> k != "" && ValuesOf(Pairs(query.value), k) != []
    ensures query.Some? ==> forall k :: k in r.gets ==> r.gets[k] == ValuesOf(Pairs(query.value), k)
    ensures captures.None? ==> r.vars == map[]
    ensures captures.Some? ==> r.vars == captures.value
  {
    var vars := if captures.None? then map[] else captures.value;
    if query.None? then Request(path, map[], vars)
    else
      DecodeValuesAll(query.value);
      Request(path, Decode(query.value), vars)
  }
}
