// The in-process publish/subscribe bus: clients listen for method names,
// messages are broadcast to every listener and requests go to the first.

module DpClients {
  import opened Bytes
  import opened Lists

  const TYPE_MESSAGE: int := 0
  const TYPE_REQUEST: int := 1
  const TYPE_REPLY: int := 2

  predicate IsU32(x: int) { 0 <= x < 0x1_0000_0000 }

  // ---------------------------------------------------------------------------
  // The client list as a sequence without duplicates

  /** Erasure of the first occurrence of x, if any. */
  function Removed<T(==)>(s: seq<T>, x: T): (r: seq<T>)
    decreases |s|
  {
    if s == [] then []
    else if s[0] == x then s[1..]
    else [s[0]] + Removed(s[1..], x)
  }

  /** Removal erases exactly one occurrence: everything else stays, in order. */
  lemma {:induction false} RemovedFacts<T>(s: seq<T>, x: T)
    ensures x !in s ==> Removed(s, x) == s
    ensures x in s ==> |Removed(s, x)| == |s| - 1
    ensures forall y :: y in Removed(s, x) ==> y in s
    decreases |s|
  {
    if s != [] {
      RemovedFacts(s[1..], x);
    }
  }

  /** Removal of a present client takes exactly one occurrence out of the list's multiset. */
  lemma {:induction false} RemovedMultiset<T>(s: seq<T>, x: T)
    requires x in s
    ensures multiset(Removed(s, x)) == multiset(s) - multiset{x}
    decreases |s|
  {
    assert s == [s[0]] + s[1..];
    if s[0] != x {
      RemovedMultiset(s[1..], x);
    }
  }

  /** In a duplicate-free list, removal leaves no trace of x and no duplicates. */
  lemma {:induction false} RemovedNoDuplicates<T>(s: seq<T>, x: T)
    requires NoDuplicates(s)
    ensures NoDuplicates(Removed(s, x)) && x !in Removed(s, x)
    decreases |s|
  {
    if s != [] {
      RemovedFacts(s[1..], x);
      RemovedNoDuplicates(s[1..], x);
      if s[0] != x {
        forall i, j | 0 <= i < j < |Removed(s, x)| ensures Removed(s, x)[i] != Removed(s, x)[j] {
          if i == 0 {
            assert Removed(s, x)[j] in Removed(s[1..], x);
            assert s[0] !in s[1..];
          } else {
            assert Removed(s, x)[i] == Removed(s[1..], x)[i - 1];
          }
        }
      }
    }
  }

  /** Removing a client just added undoes the addition. */
  lemma {:induction false} RemoveUndoesAdd<T>(s: seq<T>, x: T)
    requires x !in s
    ensures Removed(Added(s, x), x) == s
    decreases |s|
  {
    if s != [] {
      assert (s + [x])[1..] == s[1..] + [x];
      RemoveUndoesAdd(s[1..], x);
      assert [s[0]] + s[1..] == s;
    } else {
      assert [x][1..] == [];
    }
  }

  // ---------------------------------------------------------------------------
  // Messages and clients

  class DpMessage {
    var msgType: int
    var name: string
    var sessionId: int
    var reqBuffer: seq<byte>

    constructor(msgType: int, name: string, sessionId: int, reqBuffer: seq<byte>)
      ensures this.msgType == msgType && this.name == name
      ensures this.sessionId == sessionId && this.reqBuffer == reqBuffer
    {
      this.msgType := msgType;
      this.name := name;
      this.sessionId := sessionId;
      this.reqBuffer := reqBuffer;
    }
  }

  class DpClientImpl {
    /** The methods this client listens for. */
    var methodSet: set<string>
    /** The messages posted to this client's event service, oldest first. */
    var posted: seq<DpMessage>

    constructor()
      ensures methodSet == {} && posted == []
    {
      methodSet := {};
      posted := [];
    }

    method ListenMessage(name: string)
      modifies this
      ensures methodSet == old(methodSet) + {name} && posted == old(posted)
    {
      methodSet := methodSet + {name};
    }

    method RemoveMessage(name: string)
      modifies this
      ensures methodSet == old(methodSet) - {name} && posted == old(posted)
    {
      methodSet := methodSet - {name};
    }

    /** Posts msg to this client exactly when it listens for the message's name. */
    method HandleDpMessage(msg: DpMessage) returns (accepted: bool)
      modifies this
      ensures accepted <==> msg.name in methodSet
      ensures methodSet == old(methodSet)
      ensures posted == old(posted) + (if accepted then [msg] else [])
    {
      accepted := msg.name in methodSet;
      if accepted {
        posted := posted + [msg];
      }
    }

    /** Broadcasts a fresh MESSAGE carrying name, sessionId and data to every other listener. */
    method SendDpMessage(manager: DpClientManager, name: string, sessionId: int, data: seq<byte>)
      returns (ok: bool, msg: DpMessage)
      requires IsU32(sessionId) && manager.Valid()
      modifies set c | c in manager.clients
      ensures fresh(msg) && ok
      ensures msg.msgType == TYPE_MESSAGE && msg.name == name && msg.sessionId == sessionId && msg.reqBuffer == data
      ensures forall k :: 0 <= k < |manager.clients| ==> manager.clients[k].methodSet == old(manager.clients[k].methodSet)
      ensures forall k :: 0 <= k < |manager.clients| ==>
        manager.clients[k].posted == old(manager.clients[k].posted) +
          (if manager.clients[k] != this && name in manager.clients[k].methodSet then [msg] else [])
    {
      msg := new DpMessage(TYPE_MESSAGE, name, sessionId, data);
      ok := manager.ProcessDpMessage(this, msg);
    }

    /**
     * Offers a fresh REQUEST to the first other listener and then waits for the
     * reply signal; signalled says whether it arrived before the timeout.
     */
    method SendDpRequest(manager: DpClientManager, name: string, sessionId: int, data: seq<byte>, signalled: bool)
      returns (ok: bool, msg: DpMessage)
      requires IsU32(sessionId) && manager.Valid()
      modifies set c | c in manager.clients
      ensures fresh(msg)
      ensures msg.msgType == TYPE_REQUEST && msg.name == name && msg.sessionId == sessionId && msg.reqBuffer == data
      ensures ok <==> signalled && FirstAccepting(manager.clients, this, name) < |manager.clients|
      ensures forall k :: 0 <= k < |manager.clients| ==> manager.clients[k].methodSet == old(manager.clients[k].methodSet)
      ensures forall k :: 0 <= k < |manager.clients| ==>
        manager.clients[k].posted == old(manager.clients[k].posted) +
          (if k == FirstAccepting(manager.clients, this, name) then [msg] else [])
    {
      msg := new DpMessage(TYPE_REQUEST, name, sessionId, data);
      var delivered := manager.ProcessDpRequest(this, msg);
      if !delivered {
        return false, msg;
      }
      ok := signalled;
    }

    /** Marks a request as answered. */
    method SendDpReply(msg: DpMessage) returns (ok: bool)
      modifies msg
      ensures ok && msg.msgType == TYPE_REPLY
      ensures msg.name == old(msg.name) && msg.sessionId == old(msg.sessionId) && msg.reqBuffer == old(msg.reqBuffer)
    {
      msg.msgType := TYPE_REPLY;
      return true;
    }
  }

  /**
   * The position of the first client other than sender that listens for
   * name, or |cs| when there is none.
   */
  function FirstAccepting(cs: seq<DpClientImpl>, sender: DpClientImpl, name: string): (k: nat)
    reads set c | c in cs
    ensures k <= |cs|
    ensures forall j :: 0 <= j < k ==> cs[j] == sender || name !in cs[j].methodSet
    ensures k < |cs| ==> cs[k] != sender && name in cs[k].methodSet
    decreases |cs|
  {
    if cs == [] then 0
    else if cs[0] != sender && name in cs[0].methodSet then 0
    else 1 + FirstAccepting(cs[1..], sender, name)
  }

  class DpClientManager {
    var clients: seq<DpClientImpl>

    /** No client is registered twice. */
    predicate Valid()
      reads this
    {
      NoDuplicates(clients)
    }

    constructor()
      ensures Valid() && clients == []
    {
      clients := [];
    }

    method AddDpClient(client: DpClientImpl)
      requires Valid()
      modifies this
      ensures Valid() && clients == Added(old(clients), client)
    {
      AddedNoDuplicates(clients, client);
      if client in clients {
        return;
      }
      clients := clients + [client];
    }

    method RemoveDpClient(client: DpClientImpl)
      requires Valid()
      modifies this
      ensures Valid() && clients == Removed(old(clients), client) && client !in clients
    {
      RemovedNoDuplicates(clients, client);
      clients := EraseFirst(clients, client);
    }

    /** Offers msg once to every registered client except sender. */
    method ProcessDpMessage(sender: DpClientImpl, msg: DpMessage) returns (ok: bool)
      requires Valid()
      modifies set c | c in clients
      ensures ok
      ensures forall k :: 0 <= k < |clients| ==> clients[k].methodSet == old(clients[k].methodSet)
      ensures forall k :: 0 <= k < |clients| ==>
        clients[k].posted == old(clients[k].posted) +
          (if clients[k] != sender && msg.name in clients[k].methodSet then [msg] else [])
    {
      var i := 0;
      while i < |clients|
        invariant 0 <= i <= |clients|
        invariant forall k :: 0 <= k < |clients| ==> clients[k].methodSet == old(clients[k].methodSet)
        invariant forall k :: 0 <= k < i ==>
          clients[k].posted == old(clients[k].posted) +
            (if clients[k] != sender && msg.name in clients[k].methodSet then [msg] else [])
        invariant forall k :: i <= k < |clients| ==> clients[k].posted == old(clients[k].posted)
      {
        if clients[i] != sender {
          var _ := clients[i].HandleDpMessage(msg);
        }
        i := i + 1;
      }
      return true;
    }

    /** Delivers msg to the first listening client other than sender, if any. */
    method ProcessDpRequest(sender: DpClientImpl, msg: DpMessage) returns (delivered: bool)
      requires Valid()
      modifies set c | c in clients
      ensures delivered <==> FirstAccepting(clients, sender, msg.name) < |clients|
      ensures forall k :: 0 <= k < |clients| ==> clients[k].methodSet == old(clients[k].methodSet)
      ensures forall k :: 0 <= k < |clients| ==>
        clients[k].posted == old(clients[k].posted) +
          (if k == FirstAccepting(clients, sender, msg.name) then [msg] else [])
    {
      var i := 0;
      while i < |clients|
        invariant 0 <= i <= |clients|
        invariant forall k :: 0 <= k < i ==> clients[k] == sender || msg.name !in clients[k].methodSet
        invariant forall k :: 0 <= k < |clients| ==> clients[k].methodSet == old(clients[k].methodSet)
        invariant forall k :: 0 <= k < |clients| ==> clients[k].posted == old(clients[k].posted)
      {
        if clients[i] != sender {
          var accepted := clients[i].HandleDpMessage(msg);
          if accepted {
            FirstAcceptingAt(clients, sender, msg.name, i);
            return true;
          }
        }
        i := i + 1;
      }
      FirstAcceptingAt(clients, sender, msg.name, i);
      return false;
    }
  }

  /** The first accepting position is the one before which every client refuses. */
  lemma {:induction false} FirstAcceptingAt(cs: seq<DpClientImpl>, sender: DpClientImpl, name: string, i: nat)
    requires i <= |cs|
    requires forall k :: 0 <= k < i ==> cs[k] == sender || name !in cs[k].methodSet
    requires i < |cs| ==> cs[i] != sender && name in cs[i].methodSet
    ensures FirstAccepting(cs, sender, name) == i
  {
  }

  /** The list with the first occurrence of x erased. */
  method EraseFirst<T(==)>(s: seq<T>, x: T) returns (r: seq<T>)
    ensures r == Removed(s, x)
  {
    var i := 0;
    while i < |s| && s[i] != x
      invariant 0 <= i <= |s|
      invariant Removed(s, x) == s[..i] + Removed(s[i..], x)
    {
      RemovedStep(s, x, i);
      i := i + 1;
    }
    RemovedEnd(s, x, i);
    if i == |s| {
      return s;
    }
    r := s[..i] + s[i + 1..];
  }

  /** Where the search for the client to erase ends. */
  lemma RemovedEnd<T>(s: seq<T>, x: T, i: nat)
    requires i <= |s| && Removed(s, x) == s[..i] + Removed(s[i..], x)
    requires i < |s| ==> s[i] == x
    ensures i == |s| ==> Removed(s, x) == s
    ensures i < |s| ==> Removed(s, x) == s[..i] + s[i + 1..]
  {
    if i == |s| {
      assert s[i..] == [] && s[..i] == s;
    } else {
      assert s[i..][1..] == s[i + 1..];
    }
  }

  /** One step of the search for the client to erase. */
  lemma RemovedStep<T>(s: seq<T>, x: T, i: nat)
    requires i < |s| && s[i] != x
    ensures Removed(s[i..], x) == [s[i]] + Removed(s[i + 1..], x)
    ensures s[..i + 1] == s[..i] + [s[i]]
  {
    assert s[i..][1..] == s[i + 1..];
  }
}
