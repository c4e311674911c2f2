/** The cookie jar a response carries, and the shared cell through which the session and
    cookie facades reach a jar. The jar has two spaces: the plain one, whose values
    travel as they are, and the encrypted one, whose values are sealed with the application
    secret when the response is written. Sealing and the `Set-Cookie` wire format are not
    modelled; the encrypted space is kept apart from the plain one. */
module Jars {
  import opened Wrappers

  datatype Space = Plain | Encrypted

  datatype Jar = Jar(plain: map<string, string>, encrypted: map<string, string>)

  /** Using a cookie operation where the response was built without a jar; the source
      panics with the message kept here. */
  datatype Misuse = Cookieless(message: string)

  /** `CookieJar::new(secret)`: a jar with no cookies yet. */
  const Empty: Jar := Jar(map[], map[])

  function Entries(j: Jar, s: Space): map<string, string> {
    match s
    case Plain => j.plain
    case Encrypted => j.encrypted
  }

  function WithEntries(j: Jar, s: Space, m: map<string, string>): (r: Jar)
    ensures Entries(r, s) == m
    ensures forall s' :: s' != s ==> Entries(r, s') == Entries(j, s')
  {
    match s
    case Plain => j.(plain := m)
    case Encrypted => j.(encrypted := m)
  }

  /** `find(key)` followed by taking the cookie's value. */
  function Find(j: Jar, s: Space, key: string): (r: Option<string>)
    ensures r.None? <==> key !in Entries(j, s)
    ensures r.Some? ==> Entries(j, s)[key] == r.value
  {
    if key in Entries(j, s) then Some(Entries(j, s)[key]) else None
  }

  /** `add(Cookie::new(key, value))`: a cookie of the same name is replaced. */
  function Add(j: Jar, s: Space, key: string, value: string): (r: Jar)
    ensures Entries(r, s).Keys == Entries(j, s).Keys + {key}
  {
    WithEntries(j, s, Entries(j, s)[key := value])
  }

  /** `remove(key)`: the cookie is gone from the jar (the source also sends an expiring
      cookie to the client; that part of the wire format is not modelled). */
  function Remove(j: Jar, s: Space, key: string): (r: Jar)
    ensures Entries(r, s).Keys == Entries(j, s).Keys - {key}
  {
    WithEntries(j, s, Entries(j, s) - {key})
  }

  /** Reading after a write: the written key gives the new value; every other key, and
      every key of the other space, reads as before. */
  lemma FindAfterAdd(j: Jar, s: Space, key: string, value: string, t: Space, k: string)
    ensures Find(Add(j, s, key, value), t, k)
            == if s == t && k == key then Some(value) else Find(j, t, k)
  {
  }

  /** Reading after a removal: the removed key is absent; everything else reads as
      before. */
  lemma FindAfterRemove(j: Jar, s: Space, key: string, t: Space, k: string)
    ensures Find(Remove(j, s, key), t, k)
            == if s == t && k == key then None else Find(j, t, k)
  {
  }

  /** Writing twice to one key keeps only the second value. */
  lemma AddAdd(j: Jar, s: Space, key: string, v1: string, v2: string)
    ensures Add(Add(j, s, key, v1), s, key, v2) == Add(j, s, key, v2)
  {
    var a := Add(Add(j, s, key, v1), s, key, v2);
    var b := Add(j, s, key, v2);
    assert Entries(a, s) == Entries(b, s);
    match s
    case Plain => assert a.encrypted == b.encrypted;
    case Encrypted => assert a.plain == b.plain;
  }

  /** The `Rc<RefCell<Option<CookieJar>>>` the facades are built from: a single mutable
      cell, never a copy, so a write through one facade is seen by another on the same cell. */
  class SharedJar {
    var jar: Option<Jar>

    constructor (initial: Option<Jar>)
      ensures jar == initial
    {
      jar := initial;
    }
  }
}
