// The file cache's stanzas (a path, its data and a saved flag) and the FIFO
// pool they are taken from and recycled into.

module StanzaPools {
  import opened Bytes
  import opened Lists

  class CachedStanza {
    /** The file path the stanza caches. */
    var path: string
    /** The contents of the stanza's memory buffer. */
    var data: seq<byte>
    /** Whether the stanza's contents have been dealt with (written, or deliberately not). */
    var saved: bool
    /** Whether another owner holds the stanza besides the cache (use_count() above 1). */
    var inUse: bool

    /** A fresh stanza: empty path and data, not saved. */
    constructor()
      ensures IsReset() && !inUse
    {
      path := [];
      data := [];
      saved := false;
      inUse := false;
    }

    /** The state a stanza has when fresh or just recycled. */
    predicate IsReset()
      reads this
    {
      path == [] && data == [] && !saved
    }

    method SetPath(p: string)
      modifies this
      ensures path == p && data == old(data) && saved == old(saved) && inUse == old(inUse)
    {
      path := p;
    }

    method SetData(d: seq<byte>)
      modifies this
      ensures data == d && path == old(path) && saved == old(saved) && inUse == old(inUse)
    {
      data := d;
    }

    method IsSaved() returns (r: bool)
      ensures r == saved
    {
      r := saved;
    }

    /** Marks an unsaved stanza saved. */
    method SaveConfimation()
      requires !saved
      modifies this
      ensures saved && path == old(path) && data == old(data) && inUse == old(inUse)
    {
      saved := true;
    }

    /** Clears the data and the path and marks the stanza unsaved. */
    method ResetDefualtState()
      modifies this
      ensures IsReset() && inUse == old(inUse)
    {
      data := [];
      path := [];
      saved := false;
    }
  }

  class CachedStanzaPool {
    /** The free stanzas, front first. */
    var stanzas: seq<CachedStanza>

    /** Every free stanza occurs once, is in its reset state and is held by nobody. */
    ghost predicate Valid()
      reads this, set s | s in stanzas
    {
      NoDuplicates(stanzas) && forall i :: 0 <= i < |stanzas| ==> stanzas[i].IsReset() && !stanzas[i].inUse
    }

    constructor()
      ensures stanzas == [] && Valid()
    {
      stanzas := [];
    }

    /** Removes and returns the front stanza, or null when the pool is empty. */
    method TakeStanza() returns (s: CachedStanza?)
      requires Valid()
      modifies this
      ensures old(stanzas) == [] ==> s == null && stanzas == []
      ensures old(stanzas) != [] ==> s == old(stanzas)[0] && stanzas == old(stanzas)[1..]
      ensures s != null ==> s.IsReset() && !s.inUse && s !in stanzas
      ensures Valid()
    {
      if |stanzas| > 0 {
        s := stanzas[0];
        stanzas := stanzas[1..];
        assert forall i :: 0 <= i < |stanzas| ==> stanzas[i] == old(stanzas)[i + 1];
      } else {
        s := null;
      }
    }

    /** Resets a stanza nobody holds any more and puts it at the back of the pool. */
    method RecyleStanza(s: CachedStanza)
      requires Valid() && s !in stanzas && !s.inUse
      modifies this, s
      ensures stanzas == old(stanzas) + [s] && s.inUse == old(s.inUse)
      ensures Valid()
    {
      s.ResetDefualtState();
      stanzas := stanzas + [s];
    }

    /** Adds n fresh stanzas at the back. */
    method SetDefaultCachedSize(n: nat)
      requires Valid()
      modifies this
      ensures |stanzas| == |old(stanzas)| + n && stanzas[..|old(stanzas)|] == old(stanzas)
      ensures forall i :: |old(stanzas)| <= i < |stanzas| ==> fresh(stanzas[i]) && !stanzas[i].inUse
      ensures Valid()
    {
      var k := 0;
      while k < n
        invariant 0 <= k <= n && |stanzas| == |old(stanzas)| + k && stanzas[..|old(stanzas)|] == old(stanzas)
        invariant forall i :: |old(stanzas)| <= i < |stanzas| ==> fresh(stanzas[i]) && !stanzas[i].inUse
        invariant Valid()
      {
        var s := new CachedStanza();
        stanzas := stanzas + [s];
        k := k + 1;
      }
    }
  }
}
