/** Accounts and ownership over every run of the handlers. */
module Ownership {
  import opened Prelude
  import opened Server
  import S = LfsStore
  import D = BlobDatabase

  /** Accounts balance, recorded uploads are exactly the owned hashes, and each is stored. */
  ghost predicate Inv(st: State) {
    && D.Balanced(st.db) && D.Anchored(st.db)
    && st.store.blobs.Keys == st.store.index.Keys
    && st.db.uploads.Keys <= st.store.index.Keys
  }

  lemma {:induction false} RebaseKeys(c: S.Codec, st: S.Store, deltas: seq<S.Version>)
    requires st.blobs.Keys == st.index.Keys
    ensures S.RebaseAll(c, st, deltas).blobs.Keys == st.blobs.Keys
    ensures S.RebaseAll(c, st, deltas).index.Keys == st.index.Keys
    decreases |deltas|
  {
    if deltas != [] {
      var next := S.RebaseOne(c, st, deltas[0]);
      assert next.blobs.Keys == st.blobs.Keys && next.index.Keys == st.index.Keys;
      RebaseKeys(c, next, deltas[1..]);
    }
  }

  lemma RecordKeeps(env: Env, db: D.Db, u: Upload)
    requires D.Balanced(db) && D.Anchored(db)
    ensures D.Balanced(Record(env, db, u).0) && D.Anchored(Record(env, db, u).0)
    ensures Record(env, db, u).0.uploads.Keys <= db.uploads.Keys + {env.hash(u.data)}
  {
    D.RecordUploadKeeps(db, RecordOf(env, u));
    D.RecordUploadAnchors(db, RecordOf(env, u));
    D.RecordedKeys(db, RecordOf(env, u));
  }

  lemma PutKeys(env: Env, st: S.Store, u: Upload)
    requires st.blobs.Keys == st.index.Keys
    ensures var after := S.Put(env.codec, env.lfsEnabled, st, env.hash(u.data), u.data, u.tags, u.now);
            && after.blobs.Keys == after.index.Keys
            && after.index.Keys == st.index.Keys + {env.hash(u.data)}
  {
  }

  lemma DropKeeps(st: State, p: Key, h: Hash)
    requires Inv(st) && ClaimOf(st.db, Member, p, h).DropReference?
    ensures Inv(st.(db := D.DeleteUploadOwner(st.db, h, p).0))
  {
    D.DeleteUploadOwnerKeeps(st.db, h, p);
    D.DeleteUploadOwnerAnchors(st.db, h, p);
  }

  lemma EraseKeeps(st: State, h: Hash)
    requires Inv(st)
    ensures Inv(EraseBytes(st, h).0)
  {
    D.DeleteUploadKeeps(st.db, h);
    D.DeleteUploadAnchors(st.db, h);
  }

  lemma ProceedKeeps(st: State, rebased: S.Store, h: Hash)
    requires Inv(st) && rebased.blobs.Keys == rebased.index.Keys == st.store.index.Keys
    ensures h in rebased.index ==> Inv(State(S.Erase(rebased, h), D.DeleteUpload(st.db, h).0))
    ensures h !in rebased.index ==> Inv(st.(store := S.Erase(rebased, h)))
  {
    D.DeleteUploadKeeps(st.db, h);
    D.DeleteUploadAnchors(st.db, h);
  }

  lemma DeleteKeeps(env: Env, st: State, role: Role, p: Key, h: Hash)
    requires Inv(st)
    ensures Inv(HandleDelete(env, st, role, p, h).0)
  {
    match ClaimOf(st.db, role, p, h) {
      case Refuse =>
      case DropReference => DropKeeps(st, p, h);
      case Proceed =>
        RebaseKeys(env.codec, st.store, S.DeltasFor(st.store.versions, h));
        ProceedKeeps(st, S.RebaseAll(env.codec, st.store, S.DeltasFor(st.store.versions, h)), h);
    }
  }

  lemma PutStepKeeps(env: Env, st: State, u: Upload)
    requires Inv(st)
    ensures Inv(HandlePut(env, st, u).0)
  {
    RecordKeeps(env, st.db, u);
    PutKeys(env, st.store, u);
  }

  lemma InsertStepKeeps(env: Env, st: State, u: Upload)
    requires Inv(st)
    ensures Inv(HandleInsert(env, st, u).0)
  {
    RecordKeeps(env, st.db, u);
  }

  lemma Nip96DeleteKeeps(st: State, role: Role, p: Key, h: Hash)
    requires Inv(st)
    ensures Inv(HandleNip96Delete(st, role, p, h).0)
  {
    match ClaimOf(st.db, role, p, h) {
      case Refuse =>
      case DropReference => DropKeeps(st, p, h);
      case Proceed => EraseKeeps(st, h);
    }
  }

  lemma SetQuotaStepKeeps(st: State, p: Key, quota: Option<nat>)
    requires Inv(st)
    ensures Inv(st.(db := D.SetQuota(st.db, p, quota)))
  {
    D.SetQuotaKeeps(st.db, p, quota);
  }

  lemma StepKeeps(env: Env, st: State, op: Op)
    requires Inv(st)
    ensures Inv(Step(env, st, op).0)
  {
    match op {
      case Put(u) =>
        PutStepKeeps(env, st, u);
        assert Step(env, st, op) == HandlePut(env, st, u);
      case Insert(u) =>
        InsertStepKeeps(env, st, u);
        assert Step(env, st, op) == HandleInsert(env, st, u);
      case Delete(role, p, h) =>
        DeleteKeeps(env, st, role, p, h);
        assert Step(env, st, op) == HandleDelete(env, st, role, p, h);
      case Nip96Delete(role, p, h) =>
        Nip96DeleteKeeps(st, role, p, h);
        assert Step(env, st, op) == HandleNip96Delete(st, role, p, h);
      case AdminDelete(h) =>
        EraseKeeps(st, h);
        assert Step(env, st, op) == EraseBytes(st, h);
      case SetQuota(p, quota) =>
        SetQuotaStepKeeps(st, p, quota);
        assert Step(env, st, op).0 == st.(db := D.SetQuota(st.db, p, quota));
    }
  }

  /** In every reachable state accounts balance and recorded uploads are the owned hashes, all of them stored. */
  lemma {:induction false} RunInvariant(env: Env, run: seq<Op>, n: nat)
    requires n <= |run|
    ensures Inv(StateAt(env, run, n))
  {
    if n == 0 {
      D.EmptyBalanced();
    } else {
      RunInvariant(env, run, n - 1);
      StepKeeps(env, StateAt(env, run, n - 1), run[n - 1]);
    }
  }

  // ----- quotas -----

  lemma RecordRespectsQuota(db: D.Db, r: D.UploadRecord, p: Key)
    requires D.Balanced(db) && p in db.users && db.users[p].quota.Some?
    ensures var after := D.RecordUpload(db, r).0;
            && p in after.users && after.users[p].quota == db.users[p].quota
            && D.OwnedBytes(after.owners, p) <= Max(D.OwnedBytes(db.owners, p), db.users[p].quota.value)
  {
    var after := D.RecordUpload(db, r).0;
    D.RecordUploadKeeps(db, r);
    D.RecordWithinQuota(db, r, p);
    assert D.Settled(db.owners, db.users, p) && D.Settled(after.owners, after.users, p);
  }

  /** No upload takes a key above the quota in force; only a lowered quota can be exceeded. */
  lemma UploadsRespectQuota(env: Env, st: State, op: Op, p: Key)
    requires Inv(st) && (op.Put? || op.Insert?)
    requires p in st.db.users && st.db.users[p].quota.Some?
    ensures var after := Step(env, st, op).0.db;
            && p in after.users && after.users[p].quota == st.db.users[p].quota
            && D.OwnedBytes(after.owners, p) <= Max(D.OwnedBytes(st.db.owners, p), st.db.users[p].quota.value)
  {
    var r := RecordOf(env, op.upload);
    RecordRespectsQuota(st.db, r, p);
    var after := Step(env, st, op).0.db;
    assert after == st.db || after == D.RecordUpload(st.db, r).0;
  }

  /** Passing the quota check leaves overflow as the only reason the record can fail. */
  lemma AdmittedIsRecorded(env: Env, db: D.Db, u: Upload)
    requires D.Balanced(db) && u.pubkey.Some? && Refusal(env, db, u).None?
    ensures Record(env, db, u).1.Done? <==>
            || D.IsOwner(db, env.hash(u.data), u.pubkey.value)
            || D.OwnedBytes(db.owners, u.pubkey.value) + |u.data| <= U64_MAX
  {
    D.RecordUploadRefuses(db, RecordOf(env, u));
    D.OwnedByStranger(db, u.pubkey.value);
  }

  // ----- deletes by members -----

  /** What another key owns: its references and its account unchanged, and every blob it owns still stored. */
  ghost predicate Untouched(st: State, after: State, q: Key) {
    && D.SameFor(st.db, after.db, q)
    && (forall x :: D.IsOwner(st.db, x, q) ==> x in after.store.index)
  }

  lemma SoleOwner(db: D.Db, h: Hash, p: Key, q: Key)
    requires ClaimOf(db, Member, p, h).Proceed? && p != q
    ensures !D.IsOwner(db, h, q)
  {
    if (h, q) in db.owners {
      assert {(h, p), (h, q)} <= D.OwnersOf(db.owners, h);
      SubsetSize({(h, p), (h, q)}, D.OwnersOf(db.owners, h));
    }
  }

  lemma OwnedIsStored(st: State, x: Hash, q: Key)
    requires Inv(st) && D.IsOwner(st.db, x, q)
    ensures x in st.store.index
  {
    assert (x, q) in D.OwnersOf(st.db.owners, x);
    assert x in st.db.uploads;
  }

  lemma OwnedStayStored(st: State, rebased: S.Store, h: Hash, q: Key)
    requires Inv(st) && rebased.index.Keys == st.store.index.Keys && !D.IsOwner(st.db, h, q)
    ensures forall x :: D.IsOwner(st.db, x, q) ==> x in S.Erase(rebased, h).index
  {
    forall x | D.IsOwner(st.db, x, q)
      ensures x in S.Erase(rebased, h).index
    {
      OwnedIsStored(st, x, q);
    }
  }

  lemma ProceedLeavesOthers(st: State, rebased: S.Store, h: Hash, q: Key)
    requires Inv(st) && rebased.index.Keys == st.store.index.Keys && !D.IsOwner(st.db, h, q)
    ensures Untouched(st, State(S.Erase(rebased, h), D.DeleteUpload(st.db, h).0), q)
    ensures Untouched(st, st.(store := S.Erase(rebased, h)), q)
  {
    D.OthersAfterDelete(st.db, h, q);
    OwnedStayStored(st, rebased, h, q);
  }

  lemma DropLeavesOthers(st: State, p: Key, h: Hash, q: Key)
    requires Inv(st) && p != q
    ensures Untouched(st, st, q) && Untouched(st, st.(db := D.DeleteUploadOwner(st.db, h, p).0), q)
  {
    D.OthersAfterDeleteOwner(st.db, h, p, q);
    forall x | D.IsOwner(st.db, x, q)
      ensures x in st.store.index
    {
      OwnedIsStored(st, x, q);
    }
  }

  /** A member's delete changes no other key's references or account and removes no blob another key owns. */
  lemma MemberDeleteIsOwn(env: Env, st: State, p: Key, h: Hash, q: Key)
    requires Inv(st) && p != q
    ensures Untouched(st, HandleDelete(env, st, Member, p, h).0, q)
  {
    if ClaimOf(st.db, Member, p, h).Proceed? {
      SoleOwner(st.db, h, p, q);
      RebaseKeys(env.codec, st.store, S.DeltasFor(st.store.versions, h));
      ProceedLeavesOthers(st, S.RebaseAll(env.codec, st.store, S.DeltasFor(st.store.versions, h)), h, q);
    } else {
      DropLeavesOthers(st, p, h, q);
    }
  }

  lemma EraseLeavesOthers(st: State, h: Hash, q: Key)
    requires Inv(st) && !D.IsOwner(st.db, h, q)
    ensures Untouched(st, EraseBytes(st, h).0, q)
  {
    D.OthersAfterDelete(st.db, h, q);
    forall x | D.IsOwner(st.db, x, q)
      ensures x in EraseBytes(st, h).0.store.index
    {
      OwnedIsStored(st, x, q);
    }
  }

  /** The same for a delete over NIP-96. */
  lemma MemberNip96DeleteIsOwn(st: State, p: Key, h: Hash, q: Key)
    requires Inv(st) && p != q
    ensures Untouched(st, HandleNip96Delete(st, Member, p, h).0, q)
  {
    if ClaimOf(st.db, Member, p, h).Proceed? {
      SoleOwner(st.db, h, p, q);
      EraseLeavesOthers(st, h, q);
    } else {
      DropLeavesOthers(st, p, h, q);
    }
  }
}
