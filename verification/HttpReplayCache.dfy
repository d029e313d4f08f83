/** The replay cache object of the HTTP server (src/server/mod.rs). */
module HttpReplayCache {
  import opened ReplayLedger
  import H = HttpReplay

  class HttpCache {
    var entries: map<Id, Entry>
    var insertionOrder: seq<Id>
    var byPrincipal: map<Principal, seq<Id>>
    const capacity: nat
    const perPrincipal: nat

    function State(): H.Cache
      reads this
    {
      H.Cache(entries, insertionOrder, byPrincipal)
    }

    constructor (capacity: nat, perPrincipal: nat)
      ensures State() == H.EMPTY && this.capacity == capacity && this.perPrincipal == perPrincipal
    {
      this.entries, this.insertionOrder, this.byPrincipal := map[], [], map[];
      this.capacity, this.perPrincipal := capacity, perPrincipal;
    }

    method RemoveEvent(eventId: Id)
      modifies this`entries, this`byPrincipal
      ensures State() == H.Remove(old(State()), eventId)
    {
      if eventId !in entries {
        return;
      }
      var principal := entries[eventId].principal;
      entries := entries - {eventId};
      if principal in byPrincipal {
        byPrincipal := byPrincipal[principal := Without(byPrincipal[principal], eventId)];
        if byPrincipal[principal] == [] {
          byPrincipal := byPrincipal - {principal};
          assert byPrincipal == old(byPrincipal) - {principal};
        }
      }
    }

    method PruneExpired(now: nat)
      modifies this
      ensures State() == H.Prune(old(State()), now)
    {
      while insertionOrder != []
        invariant H.Prune(State(), now) == H.Prune(old(State()), now)
        decreases |insertionOrder|
      {
        var eventId := insertionOrder[0];
        if eventId !in entries {
          insertionOrder := insertionOrder[1..];
        } else if entries[eventId].expiresAt <= now {
          insertionOrder := insertionOrder[1..];
          RemoveEvent(eventId);
        } else {
          break;
        }
      }
    }

    method CheckAndInsert(principal: Principal, eventId: Id, now: nat, expiresAt: nat) returns (accepted: bool)
      modifies this
      ensures (State(), accepted) ==
              H.CheckAndInsert(old(State()), capacity, perPrincipal, principal, eventId, now, expiresAt)
    {
      PruneExpired(now);
      if eventId in entries {
        return false;
      }
      ghost var a := State();
      while principal in byPrincipal && |byPrincipal[principal]| >= perPrincipal
        invariant H.EvictFor(State(), principal, perPrincipal) == H.EvictFor(a, principal, perPrincipal)
        decreases H.Share(State(), principal)
      {
        if byPrincipal[principal] == [] {
          break;
        }
        H.PopShrinks(State(), principal);
        var oldest := byPrincipal[principal][0];
        byPrincipal := byPrincipal[principal := byPrincipal[principal][1..]];
        RemoveEvent(oldest);
      }
      ghost var b := State();
      while |entries| >= capacity
        invariant H.EvictOldest(State(), capacity) == H.EvictOldest(b, capacity)
        decreases |insertionOrder|
      {
        if insertionOrder == [] {
          break;
        }
        var oldest := insertionOrder[0];
        insertionOrder := insertionOrder[1..];
        RemoveEvent(oldest);
      }
      entries := entries[eventId := Entry(principal, expiresAt)];
      insertionOrder := insertionOrder + [eventId];
      var ids := if principal in byPrincipal then byPrincipal[principal] else [];
      byPrincipal := byPrincipal[principal := ids + [eventId]];
      return true;
    }
  }
}
