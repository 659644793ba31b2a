/** The `Peer` record of the node's database and the validation attached to its `health`
    column: a remote node as known locally, keyed by its url. */
module Models {
  import opened Wrappers

  /** An opaque point in time; the source stamps records with the wall clock. */
  type Timestamp = int

  /** A peer record. The database `id` column is not modelled: the url is the key. */
  datatype Peer = Peer(url: string, active: bool, health: real, lastChecked: Timestamp)

  /** What an operation on peer records can raise. */
  datatype Error =
    | HealthOutOfRange(health: real)    // the assertion in the health validator fails
    | NoneOperand                       // arithmetic on a `None` attribute value
    | NotNullViolation(column: string)  // a NULL written to a non-nullable column on commit
    | ProbeRaised                       // the HEAD request raised (unreachable host, bad url)

  /** Column defaults, used when a `Peer` is built without explicit values. */
  const DefaultActive: bool := true
  const DefaultHealth: real := 1.0

  /** The `last_checked` default: one timestamp fixed when the models are loaded, not the
      time the record is built. Its value is never observed by a stored record here. */
  const ModuleLoadTime: Timestamp := 0

  /** The bound the validator asserts on every assignment to `health`. */
  predicate ValidHealth(h: real)
  {
    0.0 <= h <= 1.0
  }

  predicate ValidPeer(p: Peer)
  {
    ValidHealth(p.health)
  }

  /** The store's invariant: each record sits under its own url (the unique key) and
      satisfies the health bound. */
  predicate ValidStore(store: map<string, Peer>)
  {
    forall u :: u in store ==> store[u].url == u && ValidPeer(store[u])
  }

  /** The health validator, returning the value to be assigned (corrected: the source's
      validator returns nothing, see ValidateHealthAsWritten). */
  function ValidateHealth(h: real): (r: Result<real, Error>)
    ensures r.Ok? <==> ValidHealth(h)
    ensures r.Ok? ==> r.value == h
    ensures r.Err? ==> r.error == HealthOutOfRange(h)
  {
    if 0.0 <= h && h <= 1.0 then Ok(h) else Err(HealthOutOfRange(h))
  }

  /** The health validator as written: the assertion is checked, but the method has no
      `return`, so the value the ORM assigns to the attribute is `None`. */
  function ValidateHealthAsWritten(h: real): (r: Result<Option<real>, Error>)
    ensures r.Ok? <==> ValidHealth(h)
    ensures r.Ok? ==> r.value == None
  {
    if 0.0 <= h && h <= 1.0 then Ok(None) else Err(HealthOutOfRange(h))
  }

  /** Assignment `p.health = h`, which always goes through the validator. This uses the
      corrected validator, which hands back `h`; as written the value assigned is `None`
      (see ValidateHealthAsWritten). */
  function SetHealth(p: Peer, h: real): (r: Result<Peer, Error>)
    ensures r.Ok? <==> ValidHealth(h)
    ensures r.Ok? ==> ValidPeer(r.value)
    ensures r.Ok? ==> r.value.health == h && r.value.url == p.url
                      && r.value.active == p.active && r.value.lastChecked == p.lastChecked
    ensures r.Err? ==> r.error == HealthOutOfRange(h)
  {
    match ValidateHealth(h)
    case Ok(v) => Ok(p.(health := v))
    case Err(e) => Err(e)
  }

  /** The record constructor with every field given explicitly; the health keyword argument
      is validated like any other assignment. */
  function NewPeer(url: string, active: bool, health: real, lastChecked: Timestamp): (r: Result<Peer, Error>)
    ensures r.Ok? <==> ValidHealth(health)
    ensures r.Ok? ==> r.value == Peer(url, active, health, lastChecked) && ValidPeer(r.value)
  {
    SetHealth(Peer(url, active, 0.0, lastChecked), health)
  }

  /** A record built from its url alone takes the column defaults. */
  function DefaultPeer(url: string): (p: Peer)
    ensures p.url == url && p.active && p.health == 1.0 && p.lastChecked == ModuleLoadTime
    ensures ValidPeer(p)
  {
    Peer(url, DefaultActive, DefaultHealth, ModuleLoadTime)
  }

  /** In a valid store the url determines the record: no two stored records share a url. */
  lemma UrlIsUniqueKey(store: map<string, Peer>, p: Peer, q: Peer)
    requires ValidStore(store)
    requires p in store.Values && q in store.Values && p.url == q.url
    ensures p == q
  {
  }
}
