/** Upload records, owners and quotas of the in-memory database (src/db/memory.rs). */
module BlobDatabase {
  import opened Prelude

  datatype UploadRecord = UploadRecord(sha: Hash, size: nat, mimeType: string, pubkey: Key, createdAt: nat)

  datatype User = User(pubkey: Key, role: string, quota: Option<nat>, used: nat)

  datatype DbError = QuotaExceeded(used: nat, requested: nat, limit: nat) | Overflow

  datatype Db = Db(uploads: map<Hash, UploadRecord>, owners: map<(Hash, Key), UploadRecord>, users: map<Key, User>)

  const EMPTY := Db(map[], map[], map[])

  // ----- the operations -----

  function UserOf(db: Db, p: Key): User {
    if p in db.users then db.users[p] else User(p, "member", None, 0)
  }

  function RecordUpload(db: Db, r: UploadRecord): (Db, Option<DbError>) {
    if (r.sha, r.pubkey) in db.owners then (db, None)
    else
      var user := UserOf(db, r.pubkey);
      var created := db.(users := db.users[r.pubkey := user]);
      var used := user.used + r.size;
      if used > U64_MAX then (created, Some(Overflow))
      else if user.quota.Some? && used > user.quota.value then
        (created, Some(QuotaExceeded(user.used, r.size, user.quota.value)))
      else
        (Db(if r.sha in db.uploads then db.uploads else db.uploads[r.sha := r],
            db.owners[(r.sha, r.pubkey) := r],
            db.users[r.pubkey := user.(used := used)]), None)
  }

  function CheckQuota(db: Db, p: Key, additional: nat): Option<DbError> {
    if p in db.users && db.users[p].quota.Some?
       && (db.users[p].used + additional > U64_MAX || db.users[p].used + additional > db.users[p].quota.value)
    then Some(QuotaExceeded(db.users[p].used, additional, db.users[p].quota.value))
    else None
  }

  predicate IsOwner(db: Db, h: Hash, p: Key) {
    (h, p) in db.owners
  }

  type Owners = map<(Hash, Key), UploadRecord>

  function OwnersOf(owners: Owners, h: Hash): set<(Hash, Key)> {
    set k | k in owners && k.0 == h
  }

  /** Takes the size of a removed reference off its owner's account. */
  function Debit(users: map<Key, User>, p: Key, size: nat): map<Key, User> {
    if p in users then users[p := users[p].(used := SaturatingSub(users[p].used, size))] else users
  }

  function DeleteUploadOwner(db: Db, h: Hash, p: Key): (Db, bool) {
    if (h, p) !in db.owners then (db, false)
    else (db.(owners := db.owners - {(h, p)}, users := Debit(db.users, p, db.owners[(h, p)].size)), true)
  }

  /** What a key owns of one blob. */
  function Owned(owners: Owners, h: Hash, p: Key): nat {
    if (h, p) in owners then owners[(h, p)].size else 0
  }

  /** Takes a blob's size off the account of each of its owners. */
  function DebitAll(users: map<Key, User>, owners: Owners, h: Hash): map<Key, User> {
    map p | p in users :: users[p].(used := SaturatingSub(users[p].used, Owned(owners, h, p)))
  }

  function DeleteUpload(db: Db, h: Hash): (Db, bool) {
    if h !in db.uploads then (db, false)
    else (Db(db.uploads - {h}, db.owners - OwnersOf(db.owners, h), DebitAll(db.users, db.owners, h)), true)
  }

  function SetQuota(db: Db, p: Key, quota: Option<nat>): Db {
    db.(users := db.users[p := UserOf(db, p).(quota := quota)])
  }

  // ----- sums -----

  ghost function Sum(m: map<Hash, nat>): nat
    decreases |m|
  {
    if m == map[] then 0
    else
      var h :| h in m;
      m[h] + Sum(m - {h})
  }

  lemma {:induction false} SumWithout(m: map<Hash, nat>, h: Hash)
    requires h in m
    ensures Sum(m) == m[h] + Sum(m - {h})
    decreases |m|
  {
    var x :| x in m && Sum(m) == m[x] + Sum(m - {x});
    if x != h {
      SumWithout(m - {x}, h);
      SumWithout(m - {h}, x);
      assert m - {x} - {h} == m - {h} - {x};
    }
  }

  /** The hashes that have an owner. */
  function OwnedHashes(owners: Owners): (hs: set<Hash>)
    ensures forall h, p :: (h, p) in owners ==> h in hs
  {
    set k | k in owners :: k.0
  }

  /** The sizes of the blobs a key owns. */
  function Holdings(owners: Owners, p: Key): (m: map<Hash, nat>)
    ensures forall h :: h in m <==> (h, p) in owners
    ensures forall h :: h in m ==> m[h] == owners[(h, p)].size
  {
    map h | h in OwnedHashes(owners) && (h, p) in owners :: owners[(h, p)].size
  }

  /** Bytes a key owns. */
  ghost function OwnedBytes(owners: Owners, p: Key): nat {
    Sum(Holdings(owners, p))
  }

  lemma OwnedAfterInsert(owners: Owners, h: Hash, q: Key, r: UploadRecord, p: Key)
    requires (h, q) !in owners
    ensures OwnedBytes(owners[(h, q) := r], p) == OwnedBytes(owners, p) + (if p == q then r.size else 0)
  {
    var after := Holdings(owners[(h, q) := r], p);
    if p == q {
      assert (h, q) in owners[(h, q) := r];
      assert after - {h} == Holdings(owners, p);
      SumWithout(after, h);
    } else {
      assert after == Holdings(owners, p);
    }
  }

  lemma OwnedAfterRemove(owners: Owners, h: Hash, q: Key, p: Key)
    requires (h, q) in owners
    ensures OwnedBytes(owners, p) == OwnedBytes(owners - {(h, q)}, p) + (if p == q then owners[(h, q)].size else 0)
  {
    assert owners == (owners - {(h, q)})[(h, q) := owners[(h, q)]];
    OwnedAfterInsert(owners - {(h, q)}, h, q, owners[(h, q)], p);
  }

  lemma OwnedAfterRemoveAll(owners: Owners, h: Hash, p: Key)
    ensures OwnedBytes(owners, p) == OwnedBytes(owners - OwnersOf(owners, h), p) + Owned(owners, h, p)
  {
    var before, after := Holdings(owners, p), Holdings(owners - OwnersOf(owners, h), p);
    if (h, p) in owners {
      assert after == before - {h};
      SumWithout(before, h);
    } else {
      assert after == before;
    }
  }

  // ----- the invariant -----

  ghost predicate Keyed(owners: Owners, users: map<Key, User>) {
    forall k :: k in owners ==> owners[k].sha == k.0 && owners[k].pubkey == k.1 && k.1 in users
  }

  /** The account of one key is the sum of what it owns. */
  ghost predicate Settled(owners: Owners, users: map<Key, User>, p: Key) {
    p in users ==> users[p].used == OwnedBytes(owners, p) <= U64_MAX
  }

  ghost predicate Accounted(owners: Owners, users: map<Key, User>) {
    forall p {:trigger Settled(owners, users, p)} :: Settled(owners, users, p)
  }

  /** Every account equals the sum of the sizes of the blobs its key owns. */
  ghost predicate Balanced(db: Db) {
    Keyed(db.owners, db.users) && Accounted(db.owners, db.users)
  }

  /** Recorded uploads are exactly the hashes with at least one owner. */
  ghost predicate Anchored(db: Db) {
    forall h :: h in db.uploads <==> OwnersOf(db.owners, h) != {}
  }

  lemma EmptyBalanced()
    ensures Balanced(EMPTY) && Anchored(EMPTY)
  {
    assert forall p :: Settled(EMPTY.owners, EMPTY.users, p);
  }

  /** A key without an account owns nothing. */
  lemma OwnedByStranger(db: Db, p: Key)
    requires Balanced(db)
    ensures UserOf(db, p).used == OwnedBytes(db.owners, p) <= U64_MAX
  {
    assert Settled(db.owners, db.users, p);
    if p !in db.users {
      assert Holdings(db.owners, p) == map[];
    }
  }

  lemma SizeIsCounted(db: Db, h: Hash, p: Key)
    requires Balanced(db) && (h, p) in db.owners
    ensures p in db.users && db.owners[(h, p)].size <= db.users[p].used
  {
    assert Settled(db.owners, db.users, p);
    OwnedAfterRemove(db.owners, h, p, p);
  }

  /** An upload is recorded unless the sum of its owner's blobs would overflow or exceed the quota in force. */
  lemma RecordUploadRefuses(db: Db, r: UploadRecord)
    requires Balanced(db)
    ensures RecordUpload(db, r).1.None? <==>
              || IsOwner(db, r.sha, r.pubkey)
              || (var used := OwnedBytes(db.owners, r.pubkey) + r.size;
                  used <= U64_MAX && (UserOf(db, r.pubkey).quota.Some? ==> used <= UserOf(db, r.pubkey).quota.value))
  {
    OwnedByStranger(db, r.pubkey);
  }

  lemma RecordedIsSettled(db: Db, r: UploadRecord, after: Db, p: Key)
    requires Settled(db.owners, db.users, p) && !IsOwner(db, r.sha, r.pubkey)
    requires after.owners == db.owners[(r.sha, r.pubkey) := r]
    requires p != r.pubkey ==> (p in after.users <==> p in db.users)
    requires p != r.pubkey && p in db.users ==> after.users[p] == db.users[p]
    requires r.pubkey in after.users
    requires after.users[r.pubkey].used == OwnedBytes(db.owners, r.pubkey) + r.size <= U64_MAX
    ensures Settled(after.owners, after.users, p)
  {
    OwnedAfterInsert(db.owners, r.sha, r.pubkey, r, p);
  }

  lemma RecordedIsAccounted(db: Db, r: UploadRecord)
    requires Balanced(db) && !IsOwner(db, r.sha, r.pubkey) && RecordUpload(db, r).1.None?
    ensures Accounted(RecordUpload(db, r).0.owners, RecordUpload(db, r).0.users)
  {
    OwnedByStranger(db, r.pubkey);
    var after := RecordUpload(db, r).0;
    forall p
      ensures Settled(after.owners, after.users, p)
    {
      assert Settled(db.owners, db.users, p);
      RecordedIsSettled(db, r, after, p);
    }
  }

  lemma CreatedIsBalanced(db: Db, p: Key)
    requires Balanced(db)
    ensures Balanced(db.(users := db.users[p := UserOf(db, p)]))
  {
    OwnedByStranger(db, p);
    SettledWith(db, p, UserOf(db, p));
  }

  /** A change of an account that leaves its bytes alone. */
  lemma SettledWith(db: Db, p: Key, user: User)
    requires Balanced(db) && user.used == OwnedBytes(db.owners, p) <= U64_MAX
    ensures Balanced(db.(users := db.users[p := user]))
  {
    var users := db.users[p := user];
    forall q
      ensures Settled(db.owners, users, q)
    {
      assert Settled(db.owners, db.users, q);
    }
  }

  lemma RecordedIsKeyed(db: Db, r: UploadRecord)
    requires Keyed(db.owners, db.users)
    ensures Keyed(RecordUpload(db, r).0.owners, RecordUpload(db, r).0.users)
  {
    var after := RecordUpload(db, r).0;
    assert after.owners == db.owners || after.owners == db.owners[(r.sha, r.pubkey) := r];
    assert after.users.Keys >= db.users.Keys;
  }

  /** Recording an upload keeps the accounts balanced, whether it succeeds or not. */
  lemma RecordUploadKeeps(db: Db, r: UploadRecord)
    requires Balanced(db)
    ensures Balanced(RecordUpload(db, r).0)
  {
    CreatedIsBalanced(db, r.pubkey);
    RecordedIsKeyed(db, r);
    if IsOwner(db, r.sha, r.pubkey) {
    } else if RecordUpload(db, r).1.None? {
      RecordedIsAccounted(db, r);
    } else {
      assert RecordUpload(db, r).0 == db.(users := db.users[r.pubkey := UserOf(db, r.pubkey)]);
    }
  }

  lemma RecordUploadAnchors(db: Db, r: UploadRecord)
    requires Anchored(db)
    ensures Anchored(RecordUpload(db, r).0)
  {
    var after := RecordUpload(db, r).0;
    if !IsOwner(db, r.sha, r.pubkey) && RecordUpload(db, r).1.None? {
      forall h
        ensures h in after.uploads <==> OwnersOf(after.owners, h) != {}
      {
        if h == r.sha {
          assert (r.sha, r.pubkey) in OwnersOf(after.owners, h);
        } else {
          assert OwnersOf(after.owners, h) == OwnersOf(db.owners, h);
        }
      }
    }
  }

  /** Removing one reference debits its owner by exactly its size: the subtraction does not saturate. */
  lemma DeleteUploadOwnerKeeps(db: Db, h: Hash, p: Key)
    requires Balanced(db)
    ensures Balanced(DeleteUploadOwner(db, h, p).0)
    ensures (h, p) in db.owners ==> p in db.users && db.owners[(h, p)].size <= db.users[p].used
  {
    if (h, p) in db.owners {
      SizeIsCounted(db, h, p);
      var after := DeleteUploadOwner(db, h, p).0;
      forall q
        ensures Settled(after.owners, after.users, q)
      {
        assert Settled(db.owners, db.users, q);
        OwnedAfterRemove(db.owners, h, p, q);
      }
    }
  }

  lemma DeleteUploadOwnerAnchors(db: Db, h: Hash, p: Key)
    requires Anchored(db) && |OwnersOf(db.owners, h)| > 1
    ensures Anchored(DeleteUploadOwner(db, h, p).0)
  {
    var after := DeleteUploadOwner(db, h, p).0;
    forall x
      ensures OwnersOf(after.owners, x) == OwnersOf(db.owners, x) - {(h, p)}
    {
    }
    assert OwnersOf(db.owners, h) != {(h, p)};
    assert forall x :: x != h ==> (h, p) !in OwnersOf(db.owners, x);
    forall x
      ensures OwnersOf(db.owners, x) - {(h, p)} == {} <==> OwnersOf(db.owners, x) == {}
    {
      if x == h && OwnersOf(db.owners, x) != {} {
        var k :| k in OwnersOf(db.owners, x) && k != (h, p);
      }
    }
  }

  lemma DebitedIsAccounted(owners: Owners, users: map<Key, User>, h: Hash)
    requires Accounted(owners, users)
    ensures Accounted(owners - OwnersOf(owners, h), DebitAll(users, owners, h))
  {
    forall p
      ensures Settled(owners - OwnersOf(owners, h), DebitAll(users, owners, h), p)
    {
      assert Settled(owners, users, p);
      OwnedAfterRemoveAll(owners, h, p);
    }
  }

  /** Deleting an upload debits each owner by exactly its size. */
  lemma DeleteUploadKeeps(db: Db, h: Hash)
    requires Balanced(db)
    ensures Balanced(DeleteUpload(db, h).0)
    ensures forall p :: (h, p) in db.owners ==> p in db.users && db.owners[(h, p)].size <= db.users[p].used
  {
    forall p | (h, p) in db.owners
      ensures p in db.users && db.owners[(h, p)].size <= db.users[p].used
    {
      SizeIsCounted(db, h, p);
    }
    DebitedIsAccounted(db.owners, db.users, h);
  }

  lemma DeleteUploadAnchors(db: Db, h: Hash)
    requires Anchored(db)
    ensures Anchored(DeleteUpload(db, h).0) && OwnersOf(DeleteUpload(db, h).0.owners, h) == {}
  {
    var after := DeleteUpload(db, h).0;
    forall x
      ensures OwnersOf(after.owners, x) == if x == h then {} else OwnersOf(db.owners, x)
    {
    }
  }

  lemma SetQuotaKeeps(db: Db, p: Key, quota: Option<nat>)
    requires Balanced(db)
    ensures Balanced(SetQuota(db, p, quota))
  {
    OwnedByStranger(db, p);
    SettledWith(db, p, UserOf(db, p).(quota := quota));
  }

  lemma RecordedKeys(db: Db, r: UploadRecord)
    ensures RecordUpload(db, r).0.uploads.Keys <= db.uploads.Keys + {r.sha}
  {
  }

  /** What is recorded never takes an account above its quota. */
  lemma RecordWithinQuota(db: Db, r: UploadRecord, p: Key)
    requires p in db.users && db.users[p].quota.Some?
    ensures var after := RecordUpload(db, r).0;
            && p in after.users && after.users[p].quota == db.users[p].quota
            && after.users[p].used <= Max(db.users[p].used, db.users[p].quota.value)
  {
  }

  /** Same references and same account for one key. */
  ghost predicate SameFor(db: Db, after: Db, q: Key) {
    && (forall x :: (x, q) in after.owners <==> (x, q) in db.owners)
    && (forall x :: (x, q) in db.owners ==> after.owners[(x, q)] == db.owners[(x, q)])
    && (q in after.users <==> q in db.users)
    && (q in db.users ==> after.users[q] == db.users[q])
  }

  lemma OthersAfterDeleteOwner(db: Db, h: Hash, p: Key, q: Key)
    requires p != q
    ensures SameFor(db, DeleteUploadOwner(db, h, p).0, q)
  {
  }

  lemma OthersAfterDelete(db: Db, h: Hash, q: Key)
    requires (h, q) !in db.owners
    ensures SameFor(db, DeleteUpload(db, h).0, q)
  {
  }

  // ----- exactly what each operation changes -----

  /** The upload is refused for the first of these reasons, and then no reference and no upload is added. */
  lemma RecordFailsIff(db: Db, r: UploadRecord)
    requires Balanced(db)
    ensures var (after, error) := RecordUpload(db, r);
            var owned, quota := OwnedBytes(db.owners, r.pubkey), UserOf(db, r.pubkey).quota;
            && (error == Some(Overflow) <==> !IsOwner(db, r.sha, r.pubkey) && owned + r.size > U64_MAX)
            && (error.Some? && error.value.QuotaExceeded? <==>
                && !IsOwner(db, r.sha, r.pubkey) && owned + r.size <= U64_MAX
                && quota.Some? && owned + r.size > quota.value)
            && (error.Some? && error.value.QuotaExceeded? ==>
                  error.value == QuotaExceeded(owned, r.size, quota.value))
            && (error.Some? ==> after.owners == db.owners && after.uploads == db.uploads)
  {
    OwnedByStranger(db, r.pubkey);
  }

  /** A recorded upload adds its reference, and its upload record if there was none. */
  lemma RecordAdds(db: Db, r: UploadRecord)
    requires !IsOwner(db, r.sha, r.pubkey) && RecordUpload(db, r).1.None?
    ensures var after := RecordUpload(db, r).0;
            && (forall k :: k in after.owners <==> k in db.owners || k == (r.sha, r.pubkey))
            && (forall k :: k in db.owners ==> after.owners[k] == db.owners[k])
            && after.owners[(r.sha, r.pubkey)] == r
            && (forall h :: h in after.uploads <==> h in db.uploads || h == r.sha)
            && (forall h :: h in db.uploads ==> after.uploads[h] == db.uploads[h])
            && (r.sha !in db.uploads ==> after.uploads[r.sha] == r)
  {
  }

  /** And it charges its key with its size. */
  lemma RecordCharges(db: Db, r: UploadRecord)
    requires Balanced(db) && !IsOwner(db, r.sha, r.pubkey) && RecordUpload(db, r).1.None?
    ensures var after := RecordUpload(db, r).0;
            && OwnedBytes(after.owners, r.pubkey) == OwnedBytes(db.owners, r.pubkey) + r.size
            && r.pubkey in after.users && after.users[r.pubkey].used == OwnedBytes(after.owners, r.pubkey)
  {
    OwnedByStranger(db, r.pubkey);
    OwnedAfterInsert(db.owners, r.sha, r.pubkey, r, r.pubkey);
  }

  /** Recording a reference that is there already changes nothing. */
  lemma RecordedTwice(db: Db, r: UploadRecord)
    requires IsOwner(db, r.sha, r.pubkey)
    ensures RecordUpload(db, r) == (db, None)
  {
  }

  /** A key gets its account with its first upload, as a member without a quota; no other key's changes. */
  lemma RecordAccounts(db: Db, r: UploadRecord, q: Key)
    requires !IsOwner(db, r.sha, r.pubkey)
    ensures var after := RecordUpload(db, r).0;
            && r.pubkey in after.users
            && (var user := after.users[r.pubkey];
                if r.pubkey in db.users then user == db.users[r.pubkey].(used := user.used)
                else user.pubkey == r.pubkey && user.role == "member" && user.quota.None?)
            && (q != r.pubkey ==> SameFor(db, after, q))
  {
  }

  /** Removing a reference removes that one alone. */
  lemma DeleteOwnerRemoves(db: Db, h: Hash, p: Key)
    requires IsOwner(db, h, p)
    ensures var (after, removed) := DeleteUploadOwner(db, h, p);
            && removed && after.uploads == db.uploads
            && (forall k :: k in after.owners <==> k in db.owners && k != (h, p))
            && (forall k :: k in after.owners ==> after.owners[k] == db.owners[k])
  {
  }

  lemma OwnersLeft(db: Db, h: Hash, p: Key)
    requires IsOwner(db, h, p)
    ensures |OwnersOf(DeleteUploadOwner(db, h, p).0.owners, h)| + 1 == |OwnersOf(db.owners, h)|
  {
    assert OwnersOf(db.owners - {(h, p)}, h) == OwnersOf(db.owners, h) - {(h, p)};
  }

  /** And it takes its size off its key's account. */
  lemma DeleteOwnerCredits(db: Db, h: Hash, p: Key)
    requires Balanced(db) && IsOwner(db, h, p)
    ensures var after := DeleteUploadOwner(db, h, p).0;
            && OwnedBytes(after.owners, p) + db.owners[(h, p)].size == OwnedBytes(db.owners, p)
            && p in db.users && p in after.users
            && after.users[p] == db.users[p].(used := OwnedBytes(after.owners, p))
  {
    OwnedAfterRemove(db.owners, h, p, p);
    SizeIsCounted(db, h, p);
    assert Settled(db.owners, db.users, p);
  }

  lemma DeleteOwnerOfNothing(db: Db, h: Hash, p: Key)
    requires !IsOwner(db, h, p)
    ensures DeleteUploadOwner(db, h, p) == (db, false)
  {
  }

  /** Deleting an upload removes its record and its references alone. */
  lemma DeleteUploadRemoves(db: Db, h: Hash)
    requires h in db.uploads
    ensures var (after, removed) := DeleteUpload(db, h);
            && removed && after.uploads == db.uploads - {h}
            && (forall k :: k in after.owners <==> k in db.owners && k.0 != h)
            && (forall k :: k in after.owners ==> after.owners[k] == db.owners[k])
  {
  }

  lemma DebitedAccount(users: map<Key, User>, owners: Owners, h: Hash, q: Key)
    requires q in users && users[q].used == OwnedBytes(owners, q)
    ensures DebitAll(users, owners, h)[q] == users[q].(used := OwnedBytes(owners - OwnersOf(owners, h), q))
  {
    OwnedAfterRemoveAll(owners, h, q);
  }

  /** And it takes what each key owned of it off that key's account. */
  lemma DeleteUploadCredits(db: Db, h: Hash, q: Key)
    requires Balanced(db) && h in db.uploads
    ensures var after := DeleteUpload(db, h).0;
            && OwnedBytes(after.owners, q) + Owned(db.owners, h, q) == OwnedBytes(db.owners, q)
            && (q in after.users <==> q in db.users)
            && (q in db.users ==> after.users[q] == db.users[q].(used := OwnedBytes(after.owners, q)))
  {
    OwnedAfterRemoveAll(db.owners, h, q);
    if q in db.users {
      assert Settled(db.owners, db.users, q);
      DebitedAccount(db.users, db.owners, h, q);
    }
  }

  lemma DeleteUploadOfNothing(db: Db, h: Hash)
    requires h !in db.uploads
    ensures DeleteUpload(db, h) == (db, false)
  {
  }

  /** The quota of the key is the one given, and nothing else changes. */
  lemma SetQuotaSets(db: Db, p: Key, quota: Option<nat>, q: Key)
    ensures var after := SetQuota(db, p, quota);
            && p in after.users && after.users[p].quota == quota
            && (p in db.users ==> after.users[p] == db.users[p].(quota := quota))
            && (p !in db.users ==> after.users[p] == User(p, "member", quota, 0))
            && (q != p ==> SameFor(db, after, q))
            && after.owners == db.owners && after.uploads == db.uploads
  {
  }

  /** Bytes are turned away exactly when they would take a key with a quota over it, or over 64 bits. */
  lemma CheckQuotaIff(db: Db, p: Key, additional: nat)
    requires Balanced(db)
    ensures CheckQuota(db, p, additional).Some? <==>
            && p in db.users && db.users[p].quota.Some?
            && OwnedBytes(db.owners, p) + additional > Min(db.users[p].quota.value, U64_MAX)
  {
    assert Settled(db.owners, db.users, p);
  }
}
