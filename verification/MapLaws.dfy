/** What an application relies on from one operation to the next: the server-side state and the client
    map behave like maps. */
module MapLaws {
  import opened SessionTypes
  import opened StoreSpec
  import opened SessionSpec

  function ReadServer(s: SessionData, key: string): Outcome
    requires s.server.Some?
  {
    Apply(s, Get(key)).0
  }

  predicate Doomed(s: SessionData) {
    s.server == Some(MarkedForDeletion)
  }

  /** On the server side: an insert is read back, a removed key is gone, other keys are not affected,
      the previous value is returned; and a state that is marked for deletion ignores everything. */
  lemma ServerLaws(s: SessionData, key: string, value: Value, other: string)
    requires Valid(s) && s.server.Some? && other != key
    ensures var (was, s1) := Apply(s, Insert(key, value));
      var (got, s2) := Apply(s1, Op.Remove(key));
      && was == ReadServer(s, key) && ReadServer(s1, other) == ReadServer(s, other) == ReadServer(s2, other)
      && ReadServer(s1, key) == got == (if Doomed(s) then Found(None) else Found(Some(value)))
      && ReadServer(s2, key) == Found(None)
      && Apply(s1, IsEmpty).0 == Flag(Doomed(s))
  {
    assert key in ServerMap(s.server.value)[key := value];
  }

  lemma ServerRemovalLaws(s: SessionData, key: string, other: string)
    requires Valid(s) && s.server.Some? && other != key
    ensures var (got, s1) := Apply(s, Op.Remove(key));
      got == ReadServer(s, key) && ReadServer(s1, key) == Found(None) && ReadServer(s1, other) == ReadServer(s, other)
    ensures var s1 := Apply(s, Op.Clear).1;
      ReadServer(s1, key) == Found(None) && Apply(s1, IsEmpty).0 == Flag(true)
    ensures var s1 := Apply(s, Op.Delete).1;
      Doomed(s1) && ReadServer(s1, key) == Found(None) && Apply(s1, IsEmpty).0 == Flag(true)
  {
  }

  /** On the client side the same, as long as the session is not invalidated. */
  lemma ClientLaws(s: SessionData, key: string, value: Value, other: string)
    requires Valid(s) && other != key
    ensures var (was, s1) := Apply(s, ClientInsert(key, value));
      var (got, s2) := Apply(s1, ClientRemove(key));
      && was == Apply(s, ClientGet(key)).0
      && Apply(s1, ClientGet(key)).0 == got == (if s.invalidated then Found(None) else Found(Some(value)))
      && Apply(s2, ClientGet(key)).0 == Found(None)
      && Apply(s1, ClientGet(other)).0 == Apply(s, ClientGet(other)).0 == Apply(s2, ClientGet(other)).0
      && Apply(s1, Op.ClientIsEmpty).0 == Flag(s.invalidated)
  {
    assert key in s.client.state[key := value];
  }

  lemma ClientRemovalLaws(s: SessionData, key: string, other: string)
    requires Valid(s) && other != key
    ensures var (got, s1) := Apply(s, ClientRemove(key));
      && got == Apply(s, ClientGet(key)).0 && Apply(s1, ClientGet(key)).0 == Found(None)
      && Apply(s1, ClientGet(other)).0 == Apply(s, ClientGet(other)).0
    ensures var s1 := Apply(s, Op.ClientClear).1;
      Apply(s1, ClientGet(key)).0 == Found(None) && Apply(s1, Op.ClientIsEmpty).0 == Flag(true)
  {
  }

  /** A new identifier takes effect for every kind of session, also one that already has a new one; the
      incoming identifier and everything else stay. It fails exactly if it was the old one again. */
  lemma CycleIdRenames(s: SessionData, generated: SessionId)
    requires Valid(s)
    ensures var (outcome, s') := Apply(s, CycleId(generated));
      && (outcome == Panicked <==> s.id.Old() == Some(generated))
      && (outcome == Panicked ==> s' == s)
      && (outcome != Panicked ==>
           && outcome == Finished && s'.id.New() == generated && s'.id.Old() == s.id.Old()
           && s'.id.NewlyGenerated? == s.id.Old().None? && s' == s.(id := s'.id))
  {
  }

  /** A cookie that does not parse starts a new session, as no cookie would; so do cookies of other
      names alone. */
  lemma UnparsableCookie(cookies: map<string, CookieValue>, name: string, generated: SessionId)
    ensures NewSession(Extract(cookies[name := Garbage], name), generated) == NewSession(None, generated)
    ensures NewSession(Extract(cookies - {name}, name), generated) == NewSession(None, generated)
  {
  }
}
