/** The server object: its registry of authentication methods, its event-handler sets, and the
    first-match method selection of section 3 of RFC 1928. */
module Server {
  import opened Wire
  import opened Auth

  /** An event handler, known only by identity (the coroutine functions themselves are not modelled). */
  type HandlerId = nat

  class SocksServer {
    const host: string
    const port: int
    var authMethods: map<byte, AuthHandler>
    var eventHandlers: map<string, set<HandlerId>>

    /** With `noAuth` the registry starts as {0 ↦ NoAuthentication}; otherwise it starts empty. */
    constructor (host: string, port: int, noAuth: bool)
      ensures this.host == host && this.port == port
      ensures authMethods == if noAuth then map[0x00 := NoAuthentication] else map[]
      ensures eventHandlers == map[]
    {
      this.host := host;
      this.port := port;
      var registry: map<byte, AuthHandler> := map[];
      if noAuth {
        registry := registry[0x00 := NoAuthentication];
      }
      authMethods := registry;
      eventHandlers := map[];
    }

    /** Sets (or replaces) the handler for one method byte; every other entry is kept. */
    method RegisterAuthentication(code: byte, handler: AuthHandler)
      modifies this
      ensures authMethods == old(authMethods)[code := handler]
      ensures eventHandlers == old(eventHandlers)
    {
      authMethods := authMethods[code := handler];
    }

    /** Adds `func` to the set of handlers for `event`, creating the set on first use. */
    method RegisterHandler(event: string, func: HandlerId)
      modifies this
      ensures eventHandlers == WithHandler(old(eventHandlers), event, func)
      ensures authMethods == old(authMethods)
    {
      if event !in eventHandlers {
        eventHandlers := eventHandlers[event := {}];
      }
      eventHandlers := eventHandlers[event := eventHandlers[event] + {func}];
    }
  }

  /** The handler table after registering `func` for `event`. */
  function WithHandler(handlers: map<string, set<HandlerId>>, event: string, func: HandlerId): (r: map<string, set<HandlerId>>)
    ensures r.Keys == handlers.Keys + {event}
    ensures func in r[event]
    ensures event in handlers ==> r[event] == handlers[event] + {func}
    ensures event !in handlers ==> r[event] == {func}
    ensures forall e :: e in handlers && e != event ==> r[e] == handlers[e]
  {
    handlers[event := (if event in handlers then handlers[event] else {}) + {func}]
  }

  /** Registering the same handler for the same event twice changes nothing the second time. */
  lemma RegisterHandlerIdempotent(handlers: map<string, set<HandlerId>>, event: string, func: HandlerId)
    ensures WithHandler(WithHandler(handlers, event, func), event, func) == WithHandler(handlers, event, func)
  {
    var once := WithHandler(handlers, event, func);
    var twice := WithHandler(once, event, func);
    assert twice[event] == once[event];
    assert twice.Keys == once.Keys;
  }

  /** `choose_auth_method(methods)`: the first offered byte, in the client's order, that the registry
      holds, paired with its handler; None when no offered byte is registered. */
  function ChooseAuthMethod(registry: map<byte, AuthHandler>, methods: Bytes): (r: Option<(byte, AuthHandler)>)
    ensures r.None? <==> forall i :: 0 <= i < |methods| ==> methods[i] !in registry
    ensures r.Some? ==> r.value.0 in registry && r.value.1 == registry[r.value.0]
    ensures r.Some? ==> exists k :: 0 <= k < |methods| && methods[k] == r.value.0
                                 && forall j :: 0 <= j < k ==> methods[j] !in registry
  {
    if methods == [] then None
    else if methods[0] in registry then Some((methods[0], registry[methods[0]]))
    else
      var r := ChooseAuthMethod(registry, methods[1..]);
      assert forall i :: 1 <= i < |methods| ==> methods[i] == methods[1..][i - 1];
      assert r.Some? ==> exists k :: 1 <= k < |methods| && methods[k] == r.value.0
                                   && forall j :: 1 <= j < k ==> methods[j] !in registry;
      r
  }

  /** The client's order decides, not the registry's: with only method 2 registered, the offer [1, 2] selects 2. */
  lemma ClientOrderDecides(h: AuthHandler)
    ensures ChooseAuthMethod(map[0x02 := h], [0x01, 0x02]) == Some((0x02, h))
  {
    assert [0x01, 0x02][1..] == [0x02 as byte];
  }

  /** Conversely, the first registered byte of the offer is the one selected. */
  lemma FirstRegisteredSelected(registry: map<byte, AuthHandler>, methods: Bytes, i: nat)
    requires i < |methods| && methods[i] in registry
    requires forall l :: 0 <= l < i ==> methods[l] !in registry
    ensures ChooseAuthMethod(registry, methods) == Some((methods[i], registry[methods[i]]))
  {
    var r := ChooseAuthMethod(registry, methods);
    var k :| 0 <= k < |methods| && methods[k] == r.value.0 && forall j :: 0 <= j < k ==> methods[j] !in registry;
    assert k == i;
  }
}
