/** The session facade of session.rs: reads and writes the encrypted space of the jar held
    in a shared cell (`Rc<RefCell<Option<CookieJar>>>`). The crate defines this facade but
    does not declare its module or construct it anywhere; dispatch hands handlers a plain
    response instead. A cell without a jar reads as empty, and writing or popping is a misuse
    the source answers with a panic. */
module Sessions {
  import opened Wrappers
  import opened Jars

  /** `Session::get` on the cell's current contents. */
  function Get(cell: Option<Jar>, key: string): (r: Option<string>)
    ensures cell.None? ==> r.None?
    ensures cell.Some? ==> r == Find(cell.value, Encrypted, key)
  {
    match cell
    case None => None
    case Some(j) => Find(j, Encrypted, key)
  }

  /** `Session::set`: the jar after the write, or the misuse. */
  function Set(cell: Option<Jar>, key: string, value: string): (r: Result<Jar, Misuse>)
    ensures r.Success? <==> cell.Some?
    ensures r.Failure? ==> r.error == Cookieless("cant set on a cookieless..")
    ensures r.Success? ==> Get(Some(r.value), key) == Some(value)
    ensures r.Success? ==> forall k :: k != key ==> Get(Some(r.value), k) == Get(cell, k)
    ensures r.Success? ==> r.value.plain == cell.value.plain
  {
    match cell
    case None => Failure(Cookieless("cant set on a cookieless.."))
    case Some(j) => Success(Add(j, Encrypted, key, value))
  }

  /** `Session::pop`: the jar after the removal, or the misuse. */
  function Pop(cell: Option<Jar>, key: string): (r: Result<Jar, Misuse>)
    ensures r.Success? <==> cell.Some?
    ensures r.Failure? ==> r.error == Cookieless("cant pop on a cookieless..")
    ensures r.Success? ==> Get(Some(r.value), key).None?
    ensures r.Success? ==> forall k :: k != key ==> Get(Some(r.value), k) == Get(cell, k)
    ensures r.Success? ==> r.value.plain == cell.value.plain
  {
    match cell
    case None => Failure(Cookieless("cant pop on a cookieless.."))
    case Some(j) => Success(Remove(j, Encrypted, key))
  }

  /** Popping what was just set leaves the key as it was before, when it was absent. */
  lemma PopAfterSet(j: Jar, key: string, value: string)
    requires Get(Some(j), key).None?
    ensures Pop(Some(Set(Some(j), key, value).value), key) == Success(j)
  {
    var after := Pop(Some(Set(Some(j), key, value).value), key).value;
    assert after.encrypted == j.encrypted;
  }

  /** A session facade: a handle on a shared cell. */
  class Session {
    const cell: SharedJar

    constructor (cell: SharedJar)
      ensures this.cell == cell
    {
      this.cell := cell;
    }

    function Lookup(key: string): Option<string>
      reads cell
    {
      Get(cell.jar, key)
    }

    method Store(key: string, value: string) returns (outcome: Outcome<Misuse>)
      modifies cell
      ensures outcome.Pass? <==> old(cell.jar).Some?
      ensures outcome.Pass? ==> Lookup(key) == Some(value)
      ensures outcome.Pass? ==> forall k :: k != key ==> Lookup(k) == Get(old(cell.jar), k)
      ensures outcome.Pass? ==> cell.jar.Some? && cell.jar.value.plain == old(cell.jar).value.plain
      ensures outcome.Pass? ==> cell.jar == Some(Set(old(cell.jar), key, value).value)
      ensures outcome.Fail? ==> outcome.error == Cookieless("cant set on a cookieless..")
      ensures outcome.Fail? ==> cell.jar == old(cell.jar)
    {
      match Set(cell.jar, key, value)
      case Failure(e) =>
        outcome := Fail(e);
      case Success(j) =>
        cell.jar := Some(j);
        outcome := Pass;
    }

    method Discard(key: string) returns (outcome: Outcome<Misuse>)
      modifies cell
      ensures outcome.Pass? <==> old(cell.jar).Some?
      ensures outcome.Pass? ==> Lookup(key).None?
      ensures outcome.Pass? ==> forall k :: k != key ==> Lookup(k) == Get(old(cell.jar), k)
      ensures outcome.Pass? ==> cell.jar.Some? && cell.jar.value.plain == old(cell.jar).value.plain
      ensures outcome.Pass? ==> cell.jar == Some(Pop(old(cell.jar), key).value)
      ensures outcome.Fail? ==> outcome.error == Cookieless("cant pop on a cookieless..")
      ensures outcome.Fail? ==> cell.jar == old(cell.jar)
    {
      match Pop(cell.jar, key)
      case Failure(e) =>
        outcome := Fail(e);
      case Success(j) =>
        cell.jar := Some(j);
        outcome := Pass;
    }
  }

  /** Two facades built from one cell, as `Session::new` allows: a value stored through one
      is read back through the other. */
  method SharedCellWrites(key: string, value: string) returns (seen: Option<string>)
    ensures seen == Some(value)
  {
    var cell := new SharedJar(Some(Empty));
    var writer := new Session(cell);
    var reader := new Session(cell);
    var outcome := writer.Store(key, value);
    seen := reader.Lookup(key);
  }

  /** On a cell without a jar, storing fails and the other facade still reads nothing. */
  method CookielessCellRefuses(key: string, value: string) returns (outcome: Outcome<Misuse>, seen: Option<string>)
    ensures outcome == Fail(Cookieless("cant set on a cookieless.."))
    ensures seen.None?
  {
    var cell := new SharedJar(None);
    var writer := new Session(cell);
    var reader := new Session(cell);
    outcome := writer.Store(key, value);
    seen := reader.Lookup(key);
  }
}
