/** The response of response.rs: body, status, headers and an optional cookie jar. A
    response built without a jar refuses cookie and session writes (the source panics). */
module Responses {
  import opened Wrappers
  import opened Http
  import opened Jars
  import opened Strings

  /** Header name, as the handler spelled it, to value. Only `Location` is set by this code;
      the field is public, so a handler may store any spelling. */
  type Headers = map<string, string>

  const LocationHeader: string := "Location"

  /** Header names compare without regard to ASCII case, as the header map does. */
  predicate SameName(a: string, b: string) {
    FoldCase(a) == FoldCase(b)
  }

  /** `headers.has::<H>()`: some stored name is `name` up to ASCII case. */
  predicate HasHeader(h: Headers, name: string) {
    exists k :: k in h && SameName(k, name)
  }

  /** No two stored names differ only in ASCII case, as in the header map itself. */
  predicate CaseDistinct(h: Headers) {
    forall a, b :: a in h && b in h && SameName(a, b) ==> a == b
  }

  datatype Response = Response(body: string, status: StatusCode, headers: Headers, jar: Option<Jar>)

  /** `Response::new(secret)`: status 200, nothing written yet, an empty jar. The secret only
      keys the sealing of encrypted cookies, which is not modelled. */
  function New(): (r: Response)
    ensures r.status == StatusOk && r.body == "" && r.headers == map[]
    ensures r.jar == Some(Empty)
  {
    Response("", StatusOk, map[], Some(Empty))
  }

  /** `Response::no_cookies()`: as `New` but without a jar. */
  function NoCookies(): (r: Response)
    ensures r.status == StatusOk && r.body == "" && r.headers == map[]
    ensures r.jar.None?
  {
    Response("", StatusOk, map[], None)
  }

  /** `redirect(location)`: status 302; `Location` is set only when no header of that name,
      in any ASCII case, is present yet, so the first redirect target wins. */
  function Redirect(r: Response, location: string): (r': Response)
    ensures r'.status == StatusFound
    ensures r'.body == r.body && r'.jar == r.jar
    ensures HasHeader(r'.headers, LocationHeader)
    ensures HasHeader(r.headers, LocationHeader) ==> r'.headers == r.headers
    ensures !HasHeader(r.headers, LocationHeader) ==>
              LocationHeader in r'.headers && r'.headers[LocationHeader] == location
              && forall h :: h in r'.headers && SameName(h, LocationHeader) ==> h == LocationHeader
    ensures forall h :: !SameName(h, LocationHeader) ==> (h in r'.headers <==> h in r.headers)
    ensures forall h :: !SameName(h, LocationHeader) && h in r.headers ==> r'.headers[h] == r.headers[h]
    ensures CaseDistinct(r.headers) ==> CaseDistinct(r'.headers)
  {
    var headers := if HasHeader(r.headers, LocationHeader) then r.headers
                   else r.headers[LocationHeader := location];
    assert SameName(LocationHeader, LocationHeader);
    r.(status := StatusFound, headers := headers)
  }

  /** A second redirect changes nothing: the first target is kept. */
  lemma RedirectIdempotent(r: Response, first: string, second: string)
    ensures Redirect(Redirect(r, first), second) == Redirect(r, first)
  {
  }

  /** A `location` header stored by a handler in lower case counts as the Location header:
      a redirect keeps it as the only one. */
  lemma RedirectKeepsLowercaseLocation(r: Response, name: string, target: string)
    requires name == "location"
    requires r.headers == map[name := "/a"]
    ensures Redirect(r, target).headers == map[name := "/a"]
  {
    assert FoldCase(name) == FoldCase(LocationHeader) by {
      assert FoldCase(name) == "location";
      assert FoldCase(LocationHeader) == "location";
    }
    assert name in r.headers && SameName(name, LocationHeader);
  }

  /** `set_cookie(key, value)`: a plain cookie, or the misuse when there is no jar. */
  function SetCookie(r: Response, key: string, value: string): (r': Result<Response, Misuse>)
    ensures r'.Success? <==> r.jar.Some?
    ensures r'.Failure? ==> r'.error == Cookieless("trying to set a cookie on a non coookie Response")
    ensures r'.Success? ==> r'.value.jar.Some?
                            && Find(r'.value.jar.value, Plain, key) == Some(value)
                            && r'.value.jar.value.encrypted == r.jar.value.encrypted
    ensures r'.Success? ==> forall k :: k != key ==>
              Find(r'.value.jar.value, Plain, k) == Find(r.jar.value, Plain, k)
    ensures r'.Success? ==> r'.value.(jar := r.jar) == r
  {
    match r.jar
    case None => Failure(Cookieless("trying to set a cookie on a non coookie Response"))
    case Some(j) => Success(r.(jar := Some(Add(j, Plain, key, value))))
  }

  /** `set_session(key, value)`: an encrypted cookie, or the misuse when there is no jar. */
  function SetSession(r: Response, key: string, value: string): (r': Result<Response, Misuse>)
    ensures r'.Success? <==> r.jar.Some?
    ensures r'.Failure? ==> r'.error == Cookieless("trying to set a session on a non coookie Response")
    ensures r'.Success? ==> r'.value.jar.Some?
                            && Find(r'.value.jar.value, Encrypted, key) == Some(value)
                            && r'.value.jar.value.plain == r.jar.value.plain
    ensures r'.Success? ==> forall k :: k != key ==>
              Find(r'.value.jar.value, Encrypted, k) == Find(r.jar.value, Encrypted, k)
    ensures r'.Success? ==> r'.value.(jar := r.jar) == r
  {
    match r.jar
    case None => Failure(Cookieless("trying to set a session on a non coookie Response"))
    case Some(j) => Success(r.(jar := Some(Add(j, Encrypted, key, value))))
  }

  /** `pop_session(key)`: removes the encrypted cookie; without a jar nothing happens. */
  function PopSession(r: Response, key: string): (r': Response)
    ensures r.jar.None? ==> r' == r
    ensures r'.jar.Some? <==> r.jar.Some?
    ensures r.jar.Some? ==> Find(r'.jar.value, Encrypted, key).None?
                            && r'.jar.value.plain == r.jar.value.plain
    ensures r.jar.Some? ==> forall k :: k != key ==>
              Find(r'.jar.value, Encrypted, k) == Find(r.jar.value, Encrypted, k)
    ensures r'.(jar := r.jar) == r
  {
    match r.jar
    case None => r
    case Some(j) => r.(jar := Some(Remove(j, Encrypted, key)))
  }

  /** Cookie writes succeed on a fresh response and fail on a cookieless one. */
  lemma CookieSupport(key: string, value: string)
    ensures SetCookie(New(), key, value).Success? && SetSession(New(), key, value).Success?
    ensures SetCookie(NoCookies(), key, value).Failure? && SetSession(NoCookies(), key, value).Failure?
    ensures PopSession(NoCookies(), key) == NoCookies()
  {
  }

  /** A session value set and then popped on the same response is gone; the response
      otherwise reads as it did before the value was set. */
  lemma PopAfterSetSession(r: Response, key: string, value: string)
    requires r.jar.Some? && Find(r.jar.value, Encrypted, key).None?
    ensures PopSession(SetSession(r, key, value).value, key) == r
  {
    var r' := PopSession(SetSession(r, key, value).value, key);
    assert r'.jar.value.encrypted == r.jar.value.encrypted;
  }
}
