/** The replay cache of the iroh transport (src/transport/iroh_transport.rs). */
module IrohReplayCache {
  import opened Prelude
  import opened ReplayLedger

  /** The counters are exactly the numbers of ids held, and no zero is stored. */
  ghost predicate CountsExact(counts: map<Principal, nat>, l: Ledger) {
    forall p :: ExactFor(counts, l, p)
  }

  ghost predicate ExactFor(counts: map<Principal, nat>, l: Ledger, p: Principal) {
    (p in counts <==> Of(l, p) != []) && (p in counts ==> counts[p] == |Of(l, p)|)
  }

  /** The counters after one id is dropped. */
  function Decrement(counts: map<Principal, nat>, p: Principal): map<Principal, nat> {
    if p !in counts then counts
    else if SaturatingSub(counts[p], 1) == 0 then counts - {p}
    else counts[p := SaturatingSub(counts[p], 1)]
  }

  lemma DecrementExact(counts: map<Principal, nat>, l: Ledger, id: Id)
    requires WellFormed(l) && CountsExact(counts, l) && id in l.entries
    ensures CountsExact(Decrement(counts, l.entries[id].principal), Drop(l, id))
  {
    var p := l.entries[id].principal;
    DropShare(l, id, p);
    OwnedIsHeld(l.ids, l.entries, p);
    var k :| 0 <= k < |Of(l, p)| && Of(l, p)[k] == id;
    WithoutOnce(Of(l, p), k);
    assert ExactFor(counts, l, p);
    forall q
      ensures ExactFor(Decrement(counts, p), Drop(l, id), q)
    {
      assert ExactFor(counts, l, q);
      DropShare(l, id, q);
    }
  }

  lemma IncrementExact(counts: map<Principal, nat>, l: Ledger, id: Id, e: Entry)
    requires WellFormed(l) && CountsExact(counts, l) && id !in l.entries
    ensures var count := if e.principal in counts then counts[e.principal] else 0;
            CountsExact(counts[e.principal := count + 1], Append(l, id, e))
  {
    var count := if e.principal in counts then counts[e.principal] else 0;
    var after, m := counts[e.principal := count + 1], Append(l, id, e);
    forall q
      ensures ExactFor(after, m, q)
    {
      assert ExactFor(counts, l, q);
      OwnedAppend(l.ids, l.entries, q, id, e);
    }
  }

  lemma DropAbsent(l: Ledger, id: Id)
    requires WellFormed(l) && id !in l.entries
    ensures Drop(l, id) == l
  {
    WithoutFacts(l.ids, id);
    assert l.entries - {id} == l.entries;
  }

  class IrohCache {
    var entries: map<Id, Entry>
    var order: seq<Id>
    var perPrincipal: map<Principal, nat>
    const maxEntries: nat
    const maxPerPrincipal: nat

    ghost function View(): Ledger
      reads this
    {
      Ledger(order, entries)
    }

    ghost predicate Valid()
      reads this
    {
      WellFormed(View()) && CountsExact(perPrincipal, View())
    }

    constructor (maxEntries: nat, maxPerPrincipal: nat)
      ensures Valid() && View() == Ledger([], map[])
      ensures this.maxEntries == maxEntries && this.maxPerPrincipal == maxPerPrincipal
    {
      this.entries, this.order, this.perPrincipal := map[], [], map[];
      this.maxEntries, this.maxPerPrincipal := maxEntries, maxPerPrincipal;
    }

    method DecrementCount(p: Principal)
      modifies this`perPrincipal
      ensures perPrincipal == Decrement(old(perPrincipal), p)
    {
      if p in perPrincipal {
        perPrincipal := perPrincipal[p := SaturatingSub(perPrincipal[p], 1)];
        if perPrincipal[p] == 0 {
          perPrincipal := perPrincipal - {p};
        }
      }
    }

    /** Finishes a removal whose id has already left the queue. */
    method RemoveEntry(eventId: Id, ghost l: Ledger)
      requires WellFormed(l) && CountsExact(perPrincipal, l)
      requires entries == l.entries && order == Without(l.ids, eventId)
      modifies this`entries, this`perPrincipal
      ensures Valid() && View() == Drop(l, eventId)
    {
      if eventId !in entries {
        DropAbsent(l, eventId);
        return;
      }
      DropWellFormed(l, eventId);
      DecrementExact(perPrincipal, l, eventId);
      var p := entries[eventId].principal;
      entries := entries - {eventId};
      DecrementCount(p);
    }

    method EvictOldest() returns (evicted: bool)
      requires Valid()
      modifies this
      ensures Valid() && evicted == (old(order) != [])
      ensures View() == if evicted then Drop(old(View()), old(order)[0]) else old(View())
    {
      if order == [] {
        return false;
      }
      ghost var before := View();
      var eventId := order[0];
      WithoutHead(order);
      order := order[1..];
      RemoveEntry(eventId, before);
      return true;
    }

    method EvictOldestFor(principal: Principal) returns (evicted: bool)
      requires Valid()
      modifies this
      ensures Valid() && evicted == (Of(old(View()), principal) != [])
      ensures View() == if evicted then Drop(old(View()), Of(old(View()), principal)[0]) else old(View())
    {
      ghost var before := View();
      var position := 0;
      while position < |order| && entries[order[position]].principal != principal
        invariant position <= |order|
        invariant forall j :: 0 <= j < position ==> entries[order[j]].principal != principal
      {
        position := position + 1;
      }
      if position == |order| {
        OwnedNone(order, entries, principal);
        return false;
      }
      OwnedFirst(order, entries, principal, position);
      WithoutOnce(order, position);
      var eventId := order[position];
      order := order[..position] + order[position + 1..];
      RemoveEntry(eventId, before);
      return true;
    }

    method PruneExpired(now: nat)
      requires Valid()
      modifies this
      ensures Valid() && View() == Prune(old(View()), now)
    {
      while order != []
        invariant Valid() && Prune(View(), now) == Prune(old(View()), now)
        decreases |order|
      {
        var eventId := order[0];
        var expired := eventId !in entries || entries[eventId].expiresAt <= now;
        if !expired {
          break;
        }
        DropHead(View());
        var _ := EvictOldest();
      }
    }

    /** The first loop of commit: room within the principal's share. */
    method MakeRoomFor(principal: Principal)
      requires Valid()
      modifies this
      ensures Valid() && View() == EvictFor(old(View()), principal, maxPerPrincipal)
    {
      while (if principal in perPrincipal then perPrincipal[principal] else 0) >= maxPerPrincipal
        invariant Valid()
        invariant EvictFor(View(), principal, maxPerPrincipal) == EvictFor(old(View()), principal, maxPerPrincipal)
        decreases |order|
      {
        ghost var owned := Of(View(), principal);
        assert ExactFor(perPrincipal, View(), principal);
        if owned != [] {
          OwnedIsHeld(order, entries, principal);
          DropWellFormed(View(), owned[0]);
        }
        var evicted := EvictOldestFor(principal);
        if !evicted {
          break;
        }
      }
      assert ExactFor(perPrincipal, View(), principal);
    }

    /** The second loop of commit: room within the whole cache. */
    method MakeRoom()
      requires Valid()
      modifies this
      ensures Valid() && View() == ReplayLedger.EvictOldest(old(View()), maxEntries)
    {
      while |entries| >= maxEntries
        invariant Valid()
        invariant ReplayLedger.EvictOldest(View(), maxEntries) == ReplayLedger.EvictOldest(old(View()), maxEntries)
        decreases |order|
      {
        SizeOfEntries(View());
        if order != [] { DropHead(View()); }
        var evicted := EvictOldest();
        if !evicted {
          break;
        }
      }
      SizeOfEntries(View());
    }

    method Insert(eventId: Id, entry: Entry)
      requires Valid() && eventId !in entries
      modifies this
      ensures Valid() && View() == Append(old(View()), eventId, entry)
    {
      AppendFacts(View(), eventId, entry);
      IncrementExact(perPrincipal, View(), eventId, entry);
      entries := entries[eventId := entry];
      order := order + [eventId];
      var count := if entry.principal in perPrincipal then perPrincipal[entry.principal] else 0;
      perPrincipal := perPrincipal[entry.principal := count + 1];
    }

    /** Refines the ledger's commit: same answer, same held ids in the same order. */
    method Commit(eventId: Id, principal: Principal, now: nat) returns (accepted: bool)
      requires Valid()
      modifies this
      ensures Valid()
      ensures (View(), accepted) == ReplayLedger.Commit(old(View()), maxEntries, maxPerPrincipal,
                                                        principal, eventId, now, SaturatingAdd(now, RETENTION))
    {
      EvictKeeps(View(), maxEntries, maxPerPrincipal, principal, now);
      PruneExpired(now);
      if eventId in entries {
        return false;
      }
      EvictForSub(View(), principal, maxPerPrincipal);
      MakeRoomFor(principal);
      EvictOldestSub(View(), maxEntries);
      MakeRoom();
      Insert(eventId, Entry(principal, SaturatingAdd(now, RETENTION)));
      return true;
    }
  }
}
