// Routing of HTTP requests to handlers by exact URL, with a default.

module HandlerManagers {

  /** A handler reference: null, or the handler with the given identity. */
  datatype HandlerRef = Null | Handler(id: nat)

  /** The result of setting the default: the new default and whether the call succeeded. */
  datatype SetResult = SetResult(default: HandlerRef, ok: bool)

  /** The default is set only while it is still null. */
  function SetDefault(current: HandlerRef, handler: HandlerRef): (r: SetResult)
    ensures r.ok <==> current == Null
    ensures r.default == if current == Null then handler else current
  {
    if current != Null then SetResult(current, false) else SetResult(handler, true)
  }

  /** A path is registered only when no handler holds it yet; an existing one is never replaced. */
  function AddHandler(handlers: map<string, HandlerRef>, path: string, handler: HandlerRef): map<string, HandlerRef>
  {
    if path in handlers then handlers else handlers[path := handler]
  }

  /** The handler a request URL dispatches to: the one registered under exactly that URL, else the default. */
  function Dispatch(handlers: map<string, HandlerRef>, default: HandlerRef, url: string): HandlerRef
  {
    if url in handlers then handlers[url] else default
  }

  class HandlerManager {
    var defaultHandler: HandlerRef
    var handlers: map<string, HandlerRef>

    constructor()
      ensures defaultHandler == Null && handlers == map[]
    {
      defaultHandler := Null;
      handlers := map[];
    }

    method SetDefualtHandler(handler: HandlerRef) returns (ok: bool)
      modifies this
      ensures SetResult(defaultHandler, ok) == SetDefault(old(defaultHandler), handler)
      ensures handlers == old(handlers)
    {
      if defaultHandler != Null {
        return false;
      }
      defaultHandler := handler;
      return true;
    }

    method AddRequestHandler(path: string, handler: HandlerRef) returns (ok: bool)
      modifies this
      ensures ok <==> path !in old(handlers)
      ensures handlers == AddHandler(old(handlers), path, handler)
      ensures defaultHandler == old(defaultHandler)
    {
      if path in handlers {
        return false;
      }
      handlers := handlers[path := handler];
      return true;
    }

    /** The handler whose HandleRequest the request is passed to. */
    method OnNewRequest(reqUrl: string) returns (invoked: HandlerRef)
      ensures invoked == Dispatch(handlers, defaultHandler, reqUrl)
    {
      if reqUrl in handlers {
        invoked := handlers[reqUrl];
      } else {
        invoked := defaultHandler;
      }
    }
  }

  /** Once a non-null default is set, every later attempt fails and keeps it. */
  lemma DefaultSetOnce(h1: HandlerRef, h2: HandlerRef)
    requires h1 != Null
    ensures SetDefault(SetDefault(Null, h1).default, h2) == SetResult(h1, false)
  {
  }

  /** Adding a new path maps exactly that path to the handler and keeps every other entry. */
  lemma AddNewPath(handlers: map<string, HandlerRef>, path: string, handler: HandlerRef)
    requires path !in handlers
    ensures AddHandler(handlers, path, handler).Keys == handlers.Keys + {path}
    ensures AddHandler(handlers, path, handler)[path] == handler
    ensures forall p :: p in handlers ==> AddHandler(handlers, path, handler)[p] == handlers[p]
  {
  }

  /** Adding an existing path changes nothing, whatever the handler. */
  lemma AddExistingPath(handlers: map<string, HandlerRef>, path: string, handler: HandlerRef)
    requires path in handlers
    ensures AddHandler(handlers, path, handler) == handlers
  {
  }

  /** After registering a path, requests for exactly that URL reach the first handler registered for it. */
  lemma RegisteredPathDispatches(handlers: map<string, HandlerRef>, default: HandlerRef, path: string,
                                 handler: HandlerRef, url: string)
    ensures Dispatch(AddHandler(handlers, path, handler), default, url) ==
      if url == path then (if path in handlers then handlers[path] else handler)
      else Dispatch(handlers, default, url)
  {
  }

  /** Matching is exact: a sequence of registrations reaches a URL only through the path equal to it. */
  lemma {:induction false} OnlyExactMatch(handlers: map<string, HandlerRef>, default: HandlerRef,
                                          paths: seq<string>, hs: seq<HandlerRef>, url: string)
    requires |paths| == |hs| && forall i :: 0 <= i < |paths| ==> paths[i] != url
    ensures Dispatch(AddAll(handlers, paths, hs), default, url) == Dispatch(handlers, default, url)
    decreases |paths|
  {
    if paths != [] {
      OnlyExactMatch(AddHandler(handlers, paths[0], hs[0]), default, paths[1..], hs[1..], url);
    }
  }

  /** The routing table after registering paths[i] with hs[i] in order. */
  function AddAll(handlers: map<string, HandlerRef>, paths: seq<string>, hs: seq<HandlerRef>): map<string, HandlerRef>
    requires |paths| == |hs|
    decreases |paths|
  {
    if paths == [] then handlers else AddAll(AddHandler(handlers, paths[0], hs[0]), paths[1..], hs[1..])
  }
}
