/** What a record reader hands to the converter, one callback per completed record. */
module Records {
  import opened Bytes
  import opened Overlay
  import opened ImageContext

  datatype Event = Event(rtype: nat, address: nat, data: seq<byte>, isData: bool, mismatch: bool, short: bool) {
    predicate Faulty() { mismatch || short }
  }

  /** The converter's verdict over all callbacks: sticky fault, and the data records that passed. */
  predicate AnyFault(events: seq<Event>) {
    events != [] && (events[|events| - 1].Faulty() || AnyFault(events[..|events| - 1]))
  }

  function DataWrites(events: seq<Event>): seq<Write> {
    if events == [] then [] else
      var e := events[|events| - 1];
      var front := DataWrites(events[..|events| - 1]);
      if e.isData && !e.Faulty() then front + [Write(e.address, e.data)] else front
  }

  lemma EventStep(events: seq<Event>, e: Event)
    ensures AnyFault(events + [e]) == (AnyFault(events) || e.Faulty())
    ensures DataWrites(events + [e]) ==
            DataWrites(events) + (if e.isData && !e.Faulty() then [Write(e.address, e.data)] else [])
  {
    assert (events + [e])[..|events|] == events;
  }

  lemma {:induction false} EventsAppend(a: seq<Event>, b: seq<Event>)
    ensures AnyFault(a + b) == (AnyFault(a) || AnyFault(b))
    ensures DataWrites(a + b) == DataWrites(a) + DataWrites(b)
  {
    if b == [] {
      assert a + b == a;
    } else {
      var front, e := b[..|b| - 1], b[|b| - 1];
      assert a + b == (a + front) + [e];
      EventStep(a + front, e);
      EventsAppend(a, front);
    }
  }

  lemma {:induction false} AnyFaultIff(events: seq<Event>)
    ensures AnyFault(events) <==> exists i :: 0 <= i < |events| && events[i].Faulty()
  {
    if events != [] {
      var n := |events| - 1;
      AnyFaultIff(events[..n]);
      if AnyFault(events) && !events[n].Faulty() {
        var i :| 0 <= i < n && events[..n][i].Faulty();
        assert events[i].Faulty();
      }
      if i :| 0 <= i < |events| && events[i].Faulty() {
        assert i < n ==> events[..n][i].Faulty();
      }
    }
  }

  /** How a conversion ends, from its callbacks alone. */
  function Convert(events: seq<Event>): Converted {
    var ws := DataWrites(events);
    if AnyFault(events) then Failed
    else if ws == [] then Empty
    else ImageOf(ws)
  }
}
