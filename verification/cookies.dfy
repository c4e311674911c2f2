/** The cookie facade of cookies.rs: reads and writes the plain space of the jar held in a
    shared cell. Like the session facade it is defined but not wired into dispatch. As for
    sessions, a cell without a jar reads as empty and refuses writes. */
module Cookies {
  import opened Wrappers
  import opened Jars
  import Sessions

  /** `Cookies::get`. */
  function Get(cell: Option<Jar>, key: string): (r: Option<string>)
    ensures cell.None? ==> r.None?
    ensures cell.Some? ==> r == Find(cell.value, Plain, key)
  {
    match cell
    case None => None
    case Some(j) => Find(j, Plain, key)
  }

  /** `Cookies::set`: the jar after the write, or the misuse. */
  function Set(cell: Option<Jar>, key: string, value: string): (r: Result<Jar, Misuse>)
    ensures r.Success? <==> cell.Some?
    ensures r.Failure? ==> r.error == Cookieless("cant set on a cookieless..")
    ensures r.Success? ==> Get(Some(r.value), key) == Some(value)
    ensures r.Success? ==> forall k :: k != key ==> Get(Some(r.value), k) == Get(cell, k)
    ensures r.Success? ==> r.value.encrypted == cell.value.encrypted
  {
    match cell
    case None => Failure(Cookieless("cant set on a cookieless.."))
    case Some(j) => Success(Add(j, Plain, key, value))
  }

  /** A cookie facade: a handle on a shared cell. */
  class CookieFacade {
    const cell: SharedJar

    constructor (cell: SharedJar)
      ensures this.cell == cell
    {
      this.cell := cell;
    }

    function Lookup(key: string): Option<string>
      reads cell
    {
      Get(cell.jar, key)
    }

    method Store(key: string, value: string) returns (outcome: Outcome<Misuse>)
      modifies cell
      ensures outcome.Pass? <==> old(cell.jar).Some?
      ensures outcome.Pass? ==> Lookup(key) == Some(value)
      ensures outcome.Pass? ==> forall k :: k != key ==> Lookup(k) == Get(old(cell.jar), k)
      ensures outcome.Pass? ==> cell.jar.Some? && cell.jar.value.encrypted == old(cell.jar).value.encrypted
      ensures outcome.Pass? ==> cell.jar == Some(Set(old(cell.jar), key, value).value)
      ensures outcome.Fail? ==> outcome.error == Cookieless("cant set on a cookieless..")
      ensures outcome.Fail? ==> cell.jar == old(cell.jar)
    {
      match Set(cell.jar, key, value)
      case Failure(e) =>
        outcome := Fail(e);
      case Success(j) =>
        cell.jar := Some(j);
        outcome := Pass;
    }
  }

  /** A cookie written through one facade is read through another over the same cell,
      and the session facade over that cell does not see it. */
  method SharedCellWrites(key: string, value: string) returns (seen: Option<string>, session: Option<string>)
    ensures seen == Some(value)
    ensures session.None?
  {
    var cell := new SharedJar(Some(Empty));
    var writer := new CookieFacade(cell);
    var reader := new CookieFacade(cell);
    var sessions := new Sessions.Session(cell);
    var outcome := writer.Store(key, value);
    seen := reader.Lookup(key);
    session := sessions.Lookup(key);
  }

  /** Plain cookies and session values do not see each other's writes. */
  lemma SpacesIndependent(j: Jar, key: string, value: string, k: string)
    ensures Sessions.Get(Some(Set(Some(j), key, value).value), k) == Sessions.Get(Some(j), k)
    ensures Get(Some(Sessions.Set(Some(j), key, value).value), k) == Get(Some(j), k)
  {
    FindAfterAdd(j, Plain, key, value, Encrypted, k);
    FindAfterAdd(j, Encrypted, key, value, Plain, k);
  }
}
