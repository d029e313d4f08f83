/** What each answer of the handlers means: when it is given, and what has changed in ownership and storage. */
module Answers {
  import opened Prelude
  import opened Server
  import S = LfsStore
  import D = BlobDatabase
  import O = Ownership

  // ----- uploads -----

  /** The key an upload is recorded for. */
  ghost function Uploader(u: Upload): Key {
    if u.pubkey.Some? then u.pubkey.value else "anonymous"
  }

  ghost predicate FitsServer(env: Env, u: Upload) {
    env.maxSize.Some? ==> |u.data| <= env.maxSize.value
  }

  /** What the key would own with the upload. */
  ghost function OwnedWith(env: Env, db: D.Db, u: Upload, p: Key): nat {
    D.OwnedBytes(db.owners, p) + if D.IsOwner(db, env.hash(u.data), p) then 0 else |u.data|
  }

  ghost predicate OverQuota(env: Env, db: D.Db, u: Upload, p: Key) {
    p in db.users && db.users[p].quota.Some? && OwnedWith(env, db, u, p) > Min(db.users[p].quota.value, U64_MAX)
  }

  /** An upload is turned away for being empty, for its size, or for the quota of the key that signed it. */
  lemma RefusalIff(env: Env, db: D.Db, u: Upload)
    requires D.Balanced(db)
    ensures var refused := Refusal(env, db, u);
            var over := u.pubkey.Some? && OverQuota(env, db, u, u.pubkey.value);
            && (refused == Some(BadRequest) <==> |u.data| == 0)
            && (refused == Some(TooLarge) <==> |u.data| > 0 && !FitsServer(env, u))
            && (refused == Some(QuotaFull) <==> |u.data| > 0 && FitsServer(env, u) && over)
            && (refused.None? <==> |u.data| > 0 && FitsServer(env, u) && !over)
  {
    if u.pubkey.Some? {
      D.CheckQuotaIff(db, u.pubkey.value, Additional(env, db, u));
    }
  }

  ghost predicate Uploads(op: Op) {
    op.Put? || op.Insert?
  }

  /** A reference for the key exists, or it can be had within 64 bits and its quota. */
  ghost predicate Recordable(env: Env, db: D.Db, u: Upload, p: Key) {
    || D.IsOwner(db, env.hash(u.data), p)
    || (OwnedWith(env, db, u, p) <= U64_MAX && !OverQuota(env, db, u, p))
  }

  lemma RecordableIff(env: Env, db: D.Db, u: Upload)
    requires D.Balanced(db)
    ensures Record(env, db, u).1 == if Recordable(env, db, u, Uploader(u)) then Done else MetadataFailed
  {
    D.RecordUploadRefuses(db, RecordOf(env, u));
  }

  /** An upload is done exactly when it is not turned away and its key can have the reference. */
  lemma UploadAnswer(env: Env, st: State, op: Op)
    requires O.Inv(st) && Uploads(op)
    ensures var status, refused := Step(env, st, op).1, Refusal(env, st.db, op.upload);
            && (refused.Some? ==> status == refused.value && Step(env, st, op).0 == st)
            && (status == Done <==> refused.None? && Recordable(env, st.db, op.upload, Uploader(op.upload)))
            && (status == MetadataFailed <==> refused.None? && !Recordable(env, st.db, op.upload, Uploader(op.upload)))
  {
    RefusalIff(env, st.db, op.upload);
    RecordableIff(env, st.db, op.upload);
  }

  /** The database after an upload that is done: its key owns it, and is charged for it once. */
  lemma RecordDone(env: Env, db: D.Db, u: Upload, q: Key)
    requires D.Balanced(db) && D.Anchored(db) && Record(env, db, u).1.Done?
    ensures var after, h, p := Record(env, db, u).0, env.hash(u.data), Uploader(u);
            && D.IsOwner(after, h, p) && h in after.uploads
            && (!D.IsOwner(db, h, p) ==> after.owners[(h, p)] == D.UploadRecord(h, |u.data|, u.mimeType, p, u.now))
            && D.OwnedBytes(after.owners, p) == OwnedWith(env, db, u, p)
            && (q != p ==> D.SameFor(db, after, q))
  {
    var r := RecordOf(env, u);
    if D.IsOwner(db, r.sha, r.pubkey) {
      D.RecordedTwice(db, r);
      assert (r.sha, r.pubkey) in D.OwnersOf(db.owners, r.sha);
    } else {
      D.RecordAdds(db, r);
      D.RecordCharges(db, r);
      D.RecordAccounts(db, r, q);
    }
  }

  lemma StoredByUpload(env: Env, st: State, op: Op)
    requires Uploads(op) && st.store.blobs.Keys == st.store.index.Keys && Refusal(env, st.db, op.upload).None?
    ensures var after, h := Step(env, st, op).0.store, env.hash(op.upload.data);
            after.blobs.Keys == after.index.Keys == st.store.index.Keys + {h}
  {
    if op.Put? {
      O.PutKeys(env, st.store, op.upload);
    }
  }

  /** An upload answered Done leaves its key an owner of the stored hash, charged once, and no other key changed. */
  lemma UploadDone(env: Env, st: State, op: Op, q: Key)
    requires O.Inv(st) && Uploads(op) && Step(env, st, op).1.Done?
    ensures var after, h, p := Step(env, st, op).0, env.hash(op.upload.data), Uploader(op.upload);
            && D.IsOwner(after.db, h, p) && h in after.db.uploads
            && D.OwnedBytes(after.db.owners, p) == OwnedWith(env, st.db, op.upload, p)
            && (q != p ==> D.SameFor(st.db, after.db, q))
            && h in after.store.blobs && after.store.index.Keys == st.store.index.Keys + {h}
  {
    UploadAnswer(env, st, op);
    RecordDone(env, st.db, op.upload, q);
    StoredByUpload(env, st, op);
  }

  /** An upload not answered Done adds no reference and no upload record. */
  lemma UploadNotDone(env: Env, st: State, op: Op)
    requires O.Inv(st) && Uploads(op) && !Step(env, st, op).1.Done?
    ensures var after := Step(env, st, op).0;
            && after.db.owners == st.db.owners && after.db.uploads == st.db.uploads
  {
    UploadAnswer(env, st, op);
    D.RecordFailsIff(st.db, RecordOf(env, op.upload));
  }

  /** What an upload stores: a mirror or NIP-96 upload writes over what is there, others do not. */
  lemma UploadStores(env: Env, st: State, op: Op)
    requires Uploads(op) && Refusal(env, st.db, op.upload).None?
    ensures var after, h, data := Step(env, st, op).0.store, env.hash(op.upload.data), op.upload.data;
            var form := S.ChooseForm(env.codec, env.lfsEnabled, st.store, data, op.upload.tags);
            if op.Insert? then
              && after.blobs == st.store.blobs[h := data] && after.index == st.store.index[h := |data|]
              && after.versions == st.store.versions
            else if h in st.store.index then after.blobs == st.store.blobs && after.index == st.store.index
            else after.blobs == st.store.blobs[h := form.bytes] && after.index == st.store.index[h := |data|]
  {
    if op.Put? {
      S.PutStores(env.codec, env.lfsEnabled, st.store, env.hash(op.upload.data), op.upload.data, op.upload.tags,
                  op.upload.now);
    }
  }

  /** A quota change is always done, and changes that quota alone. */
  lemma QuotaSet(env: Env, st: State, p: Key, quota: Option<nat>, q: Key)
    ensures var (after, status) := Step(env, st, SetQuota(p, quota));
            && status == Done && after.store == st.store
            && p in after.db.users && after.db.users[p].quota == quota
            && (p in st.db.users ==> after.db.users[p] == st.db.users[p].(quota := quota))
            && (q != p ==> D.SameFor(st.db, after.db, q))
            && after.db.owners == st.db.owners && after.db.uploads == st.db.uploads
  {
    D.SetQuotaSets(st.db, p, quota, q);
  }

  // ----- deletes -----

  ghost predicate Shared(db: D.Db, h: Hash, p: Key) {
    exists q :: q != p && D.IsOwner(db, h, q)
  }

  lemma SharedIff(db: D.Db, h: Hash, p: Key)
    requires D.IsOwner(db, h, p)
    ensures |D.OwnersOf(db.owners, h)| > 1 <==> Shared(db, h, p)
  {
    var all := D.OwnersOf(db.owners, h);
    assert (h, p) in all;
    if Shared(db, h, p) {
      var q :| q != p && D.IsOwner(db, h, q);
      assert {(h, p), (h, q)} <= all;
      SubsetSize({(h, p), (h, q)}, all);
    } else {
      forall k | k in all
        ensures k == (h, p)
      {
        assert k == (h, k.1) && (k.1 == p || !D.IsOwner(db, h, k.1));
      }
      assert all == {(h, p)};
    }
  }

  ghost predicate MayErase(db: D.Db, role: Role, p: Key, h: Hash) {
    role == Admin || (role == Member && D.IsOwner(db, h, p) && !Shared(db, h, p))
  }

  /** Only an owner or an administrator gets past the claim; a shared blob loses a reference only. */
  lemma ClaimIff(db: D.Db, role: Role, p: Key, h: Hash)
    ensures var claim := ClaimOf(db, role, p, h);
            && (claim == Refuse <==> role == Denied || (role == Member && !D.IsOwner(db, h, p)))
            && (claim == DropReference <==> role == Member && D.IsOwner(db, h, p) && Shared(db, h, p))
            && (claim == Proceed <==> MayErase(db, role, p, h))
  {
    if D.IsOwner(db, h, p) {
      SharedIff(db, h, p);
    }
  }

  /** A delete over HTTP, iroh or NIP-96. */
  ghost predicate Deletes(op: Op, role: Role, p: Key, h: Hash) {
    op == Delete(role, p, h) || op == Nip96Delete(role, p, h)
  }

  lemma RebasedKeys(env: Env, st: State, h: Hash)
    requires O.Inv(st)
    ensures var rebased := S.RebaseAll(env.codec, st.store, S.DeltasFor(st.store.versions, h));
            rebased.blobs.Keys == rebased.index.Keys == st.store.index.Keys
  {
    O.RebaseKeys(env.codec, st.store, S.DeltasFor(st.store.versions, h));
  }

  /** When each answer to a delete is given. */
  lemma DeleteAnswer(env: Env, st: State, op: Op, role: Role, p: Key, h: Hash)
    requires O.Inv(st) && Deletes(op, role, p, h)
    ensures var status := Step(env, st, op).1;
            && (status == Forbidden <==> role == Denied || (role == Member && !D.IsOwner(st.db, h, p)))
            && (status == Retained <==> role == Member && D.IsOwner(st.db, h, p) && Shared(st.db, h, p))
            && (status == Done <==> MayErase(st.db, role, p, h) && h in st.store.index)
            && (status == NotFound <==> MayErase(st.db, role, p, h) && h !in st.store.index)
            && (status == NotFound ==> role == Admin)
  {
    ClaimIff(st.db, role, p, h);
    RebasedKeys(env, st, h);
    if D.IsOwner(st.db, h, p) {
      O.OwnedIsStored(st, h, p);
    }
  }

  /** Forbidden: nothing has changed. */
  lemma DeleteForbidden(env: Env, st: State, op: Op, role: Role, p: Key, h: Hash)
    requires O.Inv(st) && Deletes(op, role, p, h) && Step(env, st, op).1.Forbidden?
    ensures Step(env, st, op).0 == st
  {
    DeleteAnswer(env, st, op, role, p, h);
    ClaimIff(st.db, role, p, h);
  }

  /** Retained: the key's reference is gone and its size taken off the key's account, and nothing else has changed. */
  lemma DeleteRetained(env: Env, st: State, op: Op, role: Role, p: Key, h: Hash, q: Key)
    requires O.Inv(st) && Deletes(op, role, p, h) && Step(env, st, op).1.Retained?
    ensures D.IsOwner(st.db, h, p)
    ensures var after := Step(env, st, op).0;
            && !D.IsOwner(after.db, h, p) && after.store == st.store && after.db.uploads == st.db.uploads
            && |D.OwnersOf(after.db.owners, h)| + 1 == |D.OwnersOf(st.db.owners, h)|
            && D.OwnedBytes(after.db.owners, p) + st.db.owners[(h, p)].size == D.OwnedBytes(st.db.owners, p)
            && (forall x :: x != h ==> (D.IsOwner(after.db, x, p) <==> D.IsOwner(st.db, x, p)))
            && (q != p ==> D.SameFor(st.db, after.db, q))
  {
    DeleteAnswer(env, st, op, role, p, h);
    ClaimIff(st.db, role, p, h);
    D.DeleteOwnerRemoves(st.db, h, p);
    D.OwnersLeft(st.db, h, p);
    D.DeleteOwnerCredits(st.db, h, p);
    if q != p {
      D.OthersAfterDeleteOwner(st.db, h, p, q);
    }
  }

  /** The database once a stored blob is deleted, whether or not it had an upload record. */
  lemma ErasedFromDb(st: State, h: Hash, q: Key)
    requires O.Inv(st)
    ensures var after := D.DeleteUpload(st.db, h).0;
            && D.OwnersOf(after.owners, h) == {} && h !in after.uploads
            && D.OwnedBytes(after.owners, q) + D.Owned(st.db.owners, h, q) == D.OwnedBytes(st.db.owners, q)
            && (forall x :: x != h ==> (D.IsOwner(after, x, q) <==> D.IsOwner(st.db, x, q)))
  {
    D.DeleteUploadAnchors(st.db, h);
    if h in st.db.uploads {
      D.DeleteUploadRemoves(st.db, h);
      D.DeleteUploadCredits(st.db, h, q);
    } else {
      D.DeleteUploadOfNothing(st.db, h);
      assert (h, q) in st.db.owners ==> (h, q) in D.OwnersOf(st.db.owners, h);
    }
  }

  ghost predicate Erases(op: Op, h: Hash) {
    op == AdminDelete(h) || ((op.Delete? || op.Nip96Delete?) && op.hash == h)
  }

  lemma ErasedFromStore(env: Env, st: State, op: Op, h: Hash)
    requires O.Inv(st) && Erases(op, h) && Step(env, st, op).1.Done?
    ensures var after := Step(env, st, op).0;
            && after.db == D.DeleteUpload(st.db, h).0
            && after.store.blobs.Keys == after.store.index.Keys == st.store.index.Keys - {h}
  {
    RebasedKeys(env, st, h);
  }

  /** Done: the hash has no owner and is not stored, each owner is charged less by it, and no other hash has changed. */
  lemma DeleteDone(env: Env, st: State, op: Op, h: Hash, q: Key)
    requires O.Inv(st) && Erases(op, h) && Step(env, st, op).1.Done?
    ensures var after := Step(env, st, op).0;
            && D.OwnersOf(after.db.owners, h) == {} && h !in after.db.uploads
            && after.store.blobs.Keys == after.store.index.Keys == st.store.index.Keys - {h}
            && D.OwnedBytes(after.db.owners, q) + D.Owned(st.db.owners, h, q) == D.OwnedBytes(st.db.owners, q)
            && (forall x :: x != h ==> (D.IsOwner(after.db, x, q) <==> D.IsOwner(st.db, x, q)))
  {
    ErasedFromStore(env, st, op, h);
    ErasedFromDb(st, h, q);
  }

  /** NotFound: the blob was not stored, and owners and stored hashes are as before. */
  lemma DeleteNotFound(env: Env, st: State, op: Op, h: Hash)
    requires O.Inv(st) && Erases(op, h) && Step(env, st, op).1.NotFound?
    ensures var after := Step(env, st, op).0;
            && h !in st.store.index && after.db == st.db
            && after.store.blobs.Keys == after.store.index.Keys == st.store.index.Keys
  {
    RebasedKeys(env, st, h);
  }

  /** An administrator's delete is done exactly when the blob is stored. */
  lemma AdminDeleteAnswer(env: Env, st: State, h: Hash)
    ensures Step(env, st, AdminDelete(h)).1 == if h in st.store.index then Done else NotFound
  {
  }

  // ----- a shared blob -----

  /** Two keys upload the same bytes, and then each deletes them. */
  ghost predicate SharedRun(env: Env, run: seq<Op>, a: Key, b: Key, data: Bytes) {
    && |run| == 4 && a != b && 0 < |data| <= U64_MAX && env.maxSize.None?
    && run[0].Put? && run[0].upload.pubkey == Some(a) && run[0].upload.data == data
    && run[1].Put? && run[1].upload.pubkey == Some(b) && run[1].upload.data == data
    && run[2] == Delete(Member, a, env.hash(data)) && run[3] == Delete(Member, b, env.hash(data))
  }

  /** A key that has no account yet can upload what fits 64 bits. */
  lemma FirstUpload(env: Env, st: State, op: Op, p: Key)
    requires O.Inv(st) && op.Put? && op.upload.pubkey == Some(p) && p !in st.db.users
    requires 0 < |op.upload.data| <= U64_MAX && env.maxSize.None?
    ensures Step(env, st, op).1.Done?
  {
    D.OwnedByStranger(st.db, p);
    RefusalIff(env, st.db, op.upload);
    UploadAnswer(env, st, op);
  }

  lemma BothOwn(env: Env, run: seq<Op>, a: Key, b: Key, data: Bytes, one: State, two: State, q: Key)
    requires SharedRun(env, run, a, b, data)
    requires one == Step(env, EMPTY, run[0]).0 && two == Step(env, one, run[1]).0
    ensures Step(env, EMPTY, run[0]).1.Done? && Step(env, one, run[1]).1.Done? && O.Inv(two)
    ensures D.IsOwner(two.db, env.hash(data), q) <==> q == a || q == b
  {
    D.EmptyBalanced();
    FirstUpload(env, EMPTY, run[0], a);
    UploadDone(env, EMPTY, run[0], b);
    UploadDone(env, EMPTY, run[0], q);
    O.StepKeeps(env, EMPTY, run[0]);
    FirstUpload(env, one, run[1], b);
    UploadDone(env, one, run[1], a);
    UploadDone(env, one, run[1], q);
    O.StepKeeps(env, one, run[1]);
  }

  ghost predicate OwnedOnlyBy(st: State, h: Hash, keys: set<Key>) {
    O.Inv(st) && forall q :: D.IsOwner(st.db, h, q) <==> q in keys
  }

  lemma LeftTo(env: Env, st: State, a: Key, b: Key, h: Hash, after: State, q: Key)
    requires OwnedOnlyBy(st, h, {a, b}) && a != b && Step(env, st, Delete(Member, a, h)) == (after, Retained)
    ensures D.IsOwner(after.db, h, q) <==> q == b
  {
    DeleteRetained(env, st, Delete(Member, a, h), Member, a, h, q);
    assert D.IsOwner(st.db, h, q) <==> q == a || q == b;
  }

  lemma FirstDelete(env: Env, st: State, a: Key, b: Key, h: Hash, after: State, status: Status)
    requires OwnedOnlyBy(st, h, {a, b}) && a != b && Step(env, st, Delete(Member, a, h)) == (after, status)
    ensures status.Retained? && OwnedOnlyBy(after, h, {b}) && h in after.store.blobs
  {
    assert D.IsOwner(st.db, h, b);
    DeleteAnswer(env, st, Delete(Member, a, h), Member, a, h);
    O.StepKeeps(env, st, Delete(Member, a, h));
    forall q
      ensures D.IsOwner(after.db, h, q) <==> q == b
    {
      LeftTo(env, st, a, b, h, after, q);
    }
    O.OwnedIsStored(after, h, b);
  }

  lemma LastDelete(env: Env, st: State, b: Key, h: Hash)
    requires OwnedOnlyBy(st, h, {b})
    ensures Step(env, st, Delete(Member, b, h)).1.Done? && h !in Step(env, st, Delete(Member, b, h)).0.store.blobs
  {
    O.OwnedIsStored(st, h, b);
    DeleteAnswer(env, st, Delete(Member, b, h), Member, b, h);
    DeleteDone(env, st, Delete(Member, b, h), h, b);
  }

  /** The first delete keeps the blob for the other key, the second removes it. */
  lemma SharedDeletes(env: Env, run: seq<Op>, a: Key, b: Key, data: Bytes, one: State, two: State, three: State)
    requires SharedRun(env, run, a, b, data)
    requires one == Step(env, EMPTY, run[0]).0 && two == Step(env, one, run[1]).0 && three == Step(env, two, run[2]).0
    ensures Step(env, two, run[2]).1.Retained? && env.hash(data) in three.store.blobs
    ensures Step(env, three, run[3]).1.Done? && env.hash(data) !in Step(env, three, run[3]).0.store.blobs
  {
    var h := env.hash(data);
    forall q
      ensures O.Inv(two) && (D.IsOwner(two.db, h, q) <==> q in {a, b})
    {
      BothOwn(env, run, a, b, data, one, two, q);
    }
    FirstDelete(env, two, a, b, h, three, Step(env, two, run[2]).1);
    LastDelete(env, three, b, h);
  }

  // ----- what a delete leaves in the store -----

  /** A NIP-96 or administrator's delete takes the bytes alone and leaves every version record. */
  lemma BytesErased(env: Env, st: State, op: Op, h: Hash)
    requires Erases(op, h) && !op.Delete? && Step(env, st, op).1.Done?
    ensures var after := Step(env, st, op).0.store;
            && after.versions == st.store.versions
            && after.blobs == st.store.blobs - {h} && after.index == st.store.index - {h}
  {
  }

  lemma {:induction false} NoRecordLeft(vs: seq<S.Version>, h: Hash)
    ensures forall v :: v in S.RemoveSha(vs, h) ==> v.sha != h
  {
    if vs != [] {
      NoRecordLeft(vs[1..], h);
    }
  }

  /** The ordinary delete also leaves no version record of the hash. */
  lemma RecordsErased(env: Env, st: State, role: Role, p: Key, h: Hash)
    requires Step(env, st, Delete(role, p, h)).1.Done?
    ensures forall v :: v in Step(env, st, Delete(role, p, h)).0.store.versions ==> v.sha != h
  {
    NoRecordLeft(S.RebaseAll(env.codec, st.store, S.DeltasFor(st.store.versions, h)).versions, h);
  }
}
