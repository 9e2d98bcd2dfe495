/** Ending a write transaction on the watchable store: the transaction's
    changes become PUT and DELETE events at the revision the write
    produces, handed to the watchers under the store lock before the
    underlying transaction ends. */
module WatchableStoreTxn {
  import opened Types

  /** `mvccpb.KeyValue`. */
  datatype KeyValue = KeyValue(
    key: seq<byte>,
    createRevision: int64,
    modRevision: int64,
    version: int64,
    value: seq<byte>,
    lease: int64)

  datatype EventType = PUT | DELETE

  /** `mvccpb.Event`: its key-value is the change it was built from. */
  datatype Event = Event(evType: EventType, kv: KeyValue)

  /** What `End` does outside the transaction's own data, in order: take
      the store lock, notify the watchers, end the underlying write
      transaction, release the lock. */
  datatype Effect = Lock | Notify(rev: int64, evs: seq<Event>) | TxnEnd | Unlock

  /** Go's `int64` addition of one, wrapping at the top of the range. */
  function NextRev(rev: int64): (next: int64)
    ensures rev < 0x7fff_ffff_ffff_ffff ==> next == rev + 1
    ensures rev == 0x7fff_ffff_ffff_ffff ==> next == -0x8000_0000_0000_0000
  {
    if rev == 0x7fff_ffff_ffff_ffff then -0x8000_0000_0000_0000 else rev + 1
  }

  /** A change as it stands once its event is built: a deletion (no
      creation revision) is stamped with the new revision. */
  function Stamped(change: KeyValue, rev: int64): KeyValue
  {
    if change.createRevision == 0 then change.(modRevision := rev) else change
  }

  function EventOf(change: KeyValue, rev: int64): Event
  {
    Event(if change.createRevision == 0 then DELETE else PUT, Stamped(change, rev))
  }

  /** The events for a list of changes, one per change, in order. */
  function EventsFor(changes: seq<KeyValue>, rev: int64): (evs: seq<Event>)
    ensures |evs| == |changes|
  {
    if |changes| == 0 then []
    else EventsFor(changes[..|changes| - 1], rev) + [EventOf(changes[|changes| - 1], rev)]
  }

  /** Event i is built from change i: a DELETE carrying the new revision
      when the change has no creation revision, otherwise a PUT carrying
      the change untouched. */
  lemma {:induction false} EventsMatchChanges(changes: seq<KeyValue>, rev: int64)
    ensures |EventsFor(changes, rev)| == |changes|
    ensures forall i :: 0 <= i < |changes| && changes[i].createRevision == 0 ==>
      EventsFor(changes, rev)[i] == Event(DELETE, changes[i].(modRevision := rev))
    ensures forall i :: 0 <= i < |changes| && changes[i].createRevision != 0 ==>
      EventsFor(changes, rev)[i] == Event(PUT, changes[i])
  {
    if |changes| > 0 {
      EventsMatchChanges(changes[..|changes| - 1], rev);
    }
  }

  /** Every event carries the key of its change, and every DELETE is
      dated at the new revision. */
  lemma EventKeysAndRevisions(changes: seq<KeyValue>, rev: int64)
    ensures forall i :: 0 <= i < |changes| ==> EventsFor(changes, rev)[i].kv.key == changes[i].key
    ensures forall e :: e in EventsFor(changes, rev) && e.evType == DELETE ==> e.kv.modRevision == rev
  {
    EventsMatchChanges(changes, rev);
    forall e | e in EventsFor(changes, rev) && e.evType == DELETE
      ensures e.kv.modRevision == rev
    {
      var i :| 0 <= i < |EventsFor(changes, rev)| && EventsFor(changes, rev)[i] == e;
    }
  }

  /** `watchableStoreTxnWrite`: the write transaction's changes, its
      starting revision, and the effects performed so far. */
  class WatchableStoreTxnWrite {
    /** `Changes()`: the key-values the transaction wrote, in order. */
    const changes: array<KeyValue>
    /** `Rev()`: the store revision before this transaction. */
    const rev: int64
    var effects: seq<Effect>

    constructor (changes: array<KeyValue>, rev: int64)
      ensures this.changes == changes && this.rev == rev && effects == []
    {
      this.changes := changes;
      this.rev := rev;
      effects := [];
    }

    /** `End`: without changes only the underlying transaction ends;
        otherwise the events are built at revision `Rev() + 1`, deletions
        are stamped in place, and the watchers are notified under the lock
        before the underlying transaction ends. */
    method End()
      modifies this, changes
      ensures changes.Length == 0 ==> effects == old(effects) + [TxnEnd]
      ensures changes.Length > 0 ==>
        effects == old(effects) + [Lock, Notify(NextRev(rev), EventsFor(old(changes[..]), NextRev(rev))), TxnEnd, Unlock]
      ensures forall i :: 0 <= i < changes.Length ==> changes[i] == Stamped(old(changes[i]), NextRev(rev))
    {
      if changes.Length == 0 {
        effects := effects + [TxnEnd];
        return;
      }
      var next := NextRev(rev);
      var evs := new Event[changes.Length];
      for i := 0 to changes.Length
        invariant forall j :: 0 <= j < i ==> changes[j] == Stamped(old(changes[j]), next)
        invariant forall j :: i <= j < changes.Length ==> changes[j] == old(changes[j])
        invariant evs[..i] == EventsFor(old(changes[..i]), next)
        invariant effects == old(effects)
      {
        assert old(changes[..i + 1]) == old(changes[..i]) + [old(changes[i])];
        if changes[i].createRevision == 0 {
          changes[i] := changes[i].(modRevision := next);
          evs[i] := Event(DELETE, changes[i]);
        } else {
          evs[i] := Event(PUT, changes[i]);
        }
        assert evs[..i + 1] == evs[..i] + [evs[i]];
      }
      assert old(changes[..changes.Length]) == old(changes[..]);
      assert evs[..] == evs[..changes.Length];
      assert evs[..] == EventsFor(old(changes[..]), next);
      effects := effects + [Lock, Notify(next, evs[..]), TxnEnd, Unlock];
    }
  }
}
