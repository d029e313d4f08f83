/**
 The objects behind the handlers, updated in place: the memory backend (src/storage/memory.rs),
 the LFS version records (src/lfs/mod.rs), the memory database (src/db/memory.rs) and the
 server that owns them (src/server/mod.rs).
 */
module BlobServer {
  import opened Prelude
  import opened Server
  import S = LfsStore
  import D = BlobDatabase

  class MemoryBackend {
    var blobs: map<Hash, Bytes>
    var index: map<Hash, nat>

    constructor ()
      ensures blobs == map[] && index == map[]
    {
      blobs, index := map[], map[];
    }

    method InsertWithHash(data: Bytes, h: Hash, originalSize: nat)
      modifies this
      ensures blobs == old(blobs)[h := data] && index == old(index)[h := originalSize]
    {
      index := index[h := originalSize];
      blobs := blobs[h := data];
    }

    method DeleteBlob(h: Hash) returns (existed: bool)
      modifies this
      ensures existed == (h in old(index)) && blobs == old(blobs) - {h} && index == old(index) - {h}
    {
      blobs := blobs - {h};
      existed := h in index;
      index := index - {h};
    }
  }

  class LfsVersions {
    var versions: seq<S.Version>

    constructor ()
      ensures versions == []
    {
      versions := [];
    }

    method RecordVersion(v: S.Version)
      modifies this
      ensures versions == old(versions) + [v]
    {
      versions := versions + [v];
    }

    method GetLatestVersion(repo: string, path: string) returns (latest: Option<S.Version>)
      ensures latest == S.Latest(versions, repo, path)
    {
      latest := None;
      var i := |versions|;
      while i > 0
        invariant 0 <= i <= |versions| && latest == S.Latest(versions[i..], repo, path)
      {
        i := i - 1;
        var v := versions[i];
        if v.repo == repo && v.path == path && (latest.None? || latest.value.number < v.number) {
          latest := Some(v);
        }
      }
    }

    method DeleteBySha256(h: Hash)
      modifies this
      ensures versions == S.RemoveSha(old(versions), h)
    {
      var kept := [];
      for i := 0 to |versions|
        invariant versions == old(versions)
        invariant kept + S.RemoveSha(versions[i..], h) == S.RemoveSha(versions, h)
      {
        assert versions[i..][1..] == versions[i + 1..];
        if versions[i].sha != h {
          kept := kept + [versions[i]];
        }
      }
      assert versions[|versions|..] == [];
      versions := kept;
    }

    method GetDeltasForBase(base: Hash) returns (deltas: seq<S.Version>)
      ensures deltas == S.DeltasFor(versions, base)
    {
      deltas := [];
      for i := 0 to |versions|
        invariant deltas + S.DeltasFor(versions[i..], base) == S.DeltasFor(versions, base)
      {
        assert versions[i..][1..] == versions[i + 1..];
        if versions[i].storage.Delta? && versions[i].base == Some(base) {
          deltas := deltas + [versions[i]];
        }
      }
      assert versions[|versions|..] == [];
    }

    method UpdateVersion(h: Hash, storage: S.Storage, base: Option<Hash>, storedSize: nat)
      modifies this
      ensures versions == S.UpdateFirst(old(versions), h, storage, base, storedSize)
    {
      var i := 0;
      while i < |versions| && versions[i].sha != h
        invariant i <= |versions| && versions == old(versions)
        invariant forall j :: 0 <= j < i ==> versions[j].sha != h
      {
        i := i + 1;
      }
      UpdateAt(versions, h, i, storage, base, storedSize);
      if i < |versions| {
        versions := versions[i := versions[i].(storage := storage, base := base, storedSize := storedSize)];
      }
    }
  }

  lemma {:induction false} UpdateAt(vs: seq<S.Version>, h: Hash, i: nat, storage: S.Storage, base: Option<Hash>,
                                    size: nat)
    requires i <= |vs| && (forall j :: 0 <= j < i ==> vs[j].sha != h) && (i < |vs| ==> vs[i].sha == h)
    ensures S.UpdateFirst(vs, h, storage, base, size) ==
            if i < |vs| then vs[i := vs[i].(storage := storage, base := base, storedSize := size)] else vs
    decreases i
  {
    if i > 0 {
      UpdateAt(vs[1..], h, i - 1, storage, base, size);
      assert vs == [vs[0]] + vs[1..];
    }
  }

  /** Accounts after the references in `gone` were debited. */
  ghost function DebitSome(users: map<Key, D.User>, owners: D.Owners, h: Hash, gone: set<(Hash, Key)>)
    : map<Key, D.User>
  {
    map p | p in users ::
      if (h, p) in gone then users[p].(used := SaturatingSub(users[p].used, D.Owned(owners, h, p))) else users[p]
  }

  lemma DebitOneMore(users: map<Key, D.User>, owners: D.Owners, h: Hash, gone: set<(Hash, Key)>, p: Key)
    requires p in users && (h, p) in owners && (h, p) !in gone
    ensures var before := DebitSome(users, owners, h, gone);
            DebitSome(users, owners, h, gone + {(h, p)}) ==
            before[p := before[p].(used := SaturatingSub(before[p].used, owners[(h, p)].size))]
  {
  }

  lemma DebitedAll(users: map<Key, D.User>, owners: D.Owners, h: Hash)
    ensures DebitSome(users, owners, h, D.OwnersOf(owners, h)) == D.DebitAll(users, owners, h)
    ensures DebitSome(users, owners, h, {}) == users
  {
    assert forall p :: (h, p) in D.OwnersOf(owners, h) <==> (h, p) in owners;
  }

  class MemoryDatabase {
    var uploads: map<Hash, D.UploadRecord>
    var owners: D.Owners
    var users: map<Key, D.User>

    function Db(): D.Db
      reads this
    {
      D.Db(uploads, owners, users)
    }

    constructor ()
      ensures Db() == D.EMPTY
    {
      uploads, owners, users := map[], map[], map[];
    }

    method RecordUpload(r: D.UploadRecord) returns (error: Option<D.DbError>)
      modifies this
      ensures (Db(), error) == D.RecordUpload(old(Db()), r)
    {
      var ownerKey := (r.sha, r.pubkey);
      if ownerKey in owners {
        return None;
      }
      var user := D.UserOf(Db(), r.pubkey);
      users := users[r.pubkey := user];
      var used := user.used + r.size;
      if used > U64_MAX {
        return Some(D.Overflow);
      }
      if user.quota.Some? && used > user.quota.value {
        return Some(D.QuotaExceeded(user.used, r.size, user.quota.value));
      }
      if r.sha !in uploads {
        uploads := uploads[r.sha := r];
      }
      owners := owners[ownerKey := r];
      users := users[r.pubkey := user.(used := used)];
      assert users == old(users)[r.pubkey := user.(used := used)];
      return None;
    }

    method DeleteUploadOwner(h: Hash, p: Key) returns (removed: bool)
      modifies this
      ensures (Db(), removed) == D.DeleteUploadOwner(old(Db()), h, p)
    {
      if (h, p) !in owners {
        return false;
      }
      var record := owners[(h, p)];
      owners := owners - {(h, p)};
      if p in users {
        users := users[p := users[p].(used := SaturatingSub(users[p].used, record.size))];
      }
      return true;
    }

    /** Removes the references one at a time, debiting each owner. */
    method DeleteUpload(h: Hash) returns (removed: bool)
      requires D.Keyed(owners, users)
      modifies this
      ensures (Db(), removed) == D.DeleteUpload(old(Db()), h)
    {
      if h !in uploads {
        return false;
      }
      DebitedAll(users, owners, h);
      uploads := uploads - {h};
      var keys := D.OwnersOf(owners, h);
      ghost var all := keys;
      while keys != {}
        invariant keys <= all == D.OwnersOf(old(owners), h)
        invariant uploads == old(uploads) - {h} && owners == old(owners) - (all - keys)
        invariant users == DebitSome(old(users), old(owners), h, all - keys)
        decreases keys
      {
        var key :| key in keys;
        DebitOneMore(old(users), old(owners), h, all - keys, key.1);
        assert all - (keys - {key}) == (all - keys) + {key};
        keys := keys - {key};
        if key in owners {
          var owner := owners[key];
          owners := owners - {key};
          if owner.pubkey in users {
            users := users[owner.pubkey :=
                             users[owner.pubkey].(used := SaturatingSub(users[owner.pubkey].used, owner.size))];
          }
        }
      }
      assert all - keys == all;
      return true;
    }
  }

  // ----- reconstruction -----

  ghost function Prepend(chain: seq<S.Version>, rest: Option<seq<S.Version>>): Option<seq<S.Version>> {
    if rest.Some? then Some(chain + rest.value) else None
  }

  /** Walks back at most `hops` records, then applies their deltas oldest first. */
  method ReconstructWithin(c: S.Codec, st: S.Store, h: Hash, hops: nat) returns (r: Result<Bytes, S.Failure>)
    ensures r == S.Rebuild(c, st, h, hops)
  {
    var chain: seq<S.Version> := [];
    var current, left, walking := h, hops, true;
    assert forall rest: seq<S.Version> :: [] + rest == rest;
    while left > 0 && walking
      invariant walking ==> S.Walk(st.versions, h, hops) == Prepend(chain, S.Walk(st.versions, current, left))
      invariant !walking ==> S.Walk(st.versions, h, hops) == Some(chain)
      decreases left + if walking then 1 else 0
    {
      var found := S.First(st.versions, current);
      if found.None? {
        return Err(S.ChainBroken);
      }
      var v := found.value;
      assert forall rest: seq<S.Version> :: (chain + [v]) + rest == chain + ([v] + rest);
      chain := chain + [v];
      if v.storage.Delta? && v.base.Some? {
        current, left := v.base.value, left - 1;
      } else {
        walking := false;
      }
    }
    assert chain + [] == chain;
    r := ApplyChain(c, st, chain);
  }

  method ApplyChain(c: S.Codec, st: S.Store, chain: seq<S.Version>) returns (r: Result<Bytes, S.Failure>)
    ensures r == match S.ChainBase(chain)
                 case None => Err(S.NoBase)
                 case Some(b) => if b !in st.blobs then Err(S.BaseMissing)
                                 else S.Apply(c, st.blobs, chain, S.BaseBytes(c, st, b))
  {
    var base := S.ChainBase(chain);
    if base.None? {
      return Err(S.NoBase);
    }
    if base.value !in st.blobs {
      return Err(S.BaseMissing);
    }
    var result := S.BaseBytes(c, st, base.value);
    var i := |chain|;
    while i > 0
      invariant 0 <= i <= |chain|
      invariant S.Apply(c, st.blobs, chain[i..], S.BaseBytes(c, st, base.value)) == Ok(result)
    {
      i := i - 1;
      assert chain[i..][1..] == chain[i + 1..];
      var step := S.ApplyOne(c, st.blobs, chain[i], result);
      if step.Err? {
        ErrorPropagates(c, st.blobs, chain, S.BaseBytes(c, st, base.value), i, step.error);
        return step;
      }
      result := step.value;
    }
    assert chain[0..] == chain;
    return Ok(result);
  }

  lemma {:induction false} ErrorPropagates(c: S.Codec, blobs: map<Hash, Bytes>, chain: seq<S.Version>, start: Bytes,
                                           i: nat, e: S.Failure)
    requires i <= |chain| && S.Apply(c, blobs, chain[i..], start) == Err(e)
    ensures S.Apply(c, blobs, chain, start) == Err(e)
    decreases i
  {
    if i == 0 {
      assert chain[0..] == chain;
    } else {
      assert chain[i - 1..][1..] == chain[i..];
      ErrorPropagates(c, blobs, chain, start, i - 1, e);
    }
  }

  // ----- the server -----

  class BlobServer {
    const env: Env
    const backend: MemoryBackend
    const lfs: LfsVersions
    const database: MemoryDatabase

    constructor (env: Env)
      ensures this.env == env && State() == Server.EMPTY
      ensures fresh(backend) && fresh(lfs) && fresh(database)
    {
      this.env := env;
      backend := new MemoryBackend();
      lfs := new LfsVersions();
      database := new MemoryDatabase();
    }

    function State(): Server.State
      reads backend, lfs, database
    {
      Server.State(S.Store(backend.blobs, backend.index, lfs.versions), database.Db())
    }

    /** Storing the upload and recording its version. */
    method StoreUpload(u: Upload, h: Hash)
      requires h == env.hash(u.data)
      modifies backend, lfs
      ensures State().store == S.Put(env.codec, env.lfsEnabled, old(State().store), h, u.data, u.tags, u.now)
    {
      var form := S.ChooseForm(env.codec, env.lfsEnabled, State().store, u.data, u.tags);
      if h !in backend.index {
        backend.InsertWithHash(form.bytes, h, |u.data|);
      }
      if env.lfsEnabled && u.tags.isLfs && u.tags.repo.Some? && u.tags.path.Some? {
        var latest := lfs.GetLatestVersion(u.tags.repo.value, u.tags.path.value);
        var number := if latest.Some? then latest.value.number + 1 else 1;
        lfs.RecordVersion(S.Version(u.tags.repo.value, u.tags.path.value, number, h, form.base, form.storage,
                                    if form.storage.Delta? then Some("xdelta3") else None,
                                    |u.data|, |u.data|, u.now));
      }
    }

    method HandleUpload(u: Upload) returns (status: Status)
      modifies backend, lfs, database
      ensures (State(), status) == HandlePut(env, old(State()), u)
    {
      var refusal := Refusal(env, database.Db(), u);
      if refusal.Some? {
        return refusal.value;
      }
      StoreUpload(u, env.hash(u.data));
      var error := database.RecordUpload(RecordOf(env, u));
      return if error.None? then Done else MetadataFailed;
    }

    method HandleGet(h: Hash) returns (data: Option<Bytes>)
      ensures data == S.Get(env.codec, State().store, h)
    {
      if h !in backend.blobs {
        return None;
      }
      var raw := backend.blobs[h];
      var version := S.First(lfs.versions, h);
      if version.None? {
        return Some(raw);
      }
      match version.value.storage {
        case Compressed => return Some(S.Unzip(env.codec, raw));
        case Delta =>
          var r := ReconstructWithin(env.codec, State().store, h, S.MAX_DELTA_CHAIN_DEPTH);
          return Some(if r.Ok? then r.value else raw);
        case Raw => return Some(raw);
      }
    }

    method RebaseDelta(v: S.Version)
      modifies backend, lfs
      ensures State().store == S.RebaseOne(env.codec, old(State().store), v)
    {
      if v.sha in backend.blobs {
        var r := ReconstructWithin(env.codec, State().store, v.sha, S.MAX_DELTA_CHAIN_DEPTH);
        if r.Ok? {
          backend.InsertWithHash(S.Zip(env.codec, r.value), v.sha, v.originalSize);
          lfs.UpdateVersion(v.sha, S.Compressed, None, |r.value|);
        }
      }
    }

    method RebaseDeltas(h: Hash)
      modifies backend, lfs
      ensures State().store == S.RebaseAll(env.codec, old(State().store), S.DeltasFor(old(State().store.versions), h))
    {
      var deltas := lfs.GetDeltasForBase(h);
      for i := 0 to |deltas|
        invariant S.RebaseAll(env.codec, State().store, deltas[i..]) ==
                  S.RebaseAll(env.codec, old(State().store), deltas)
      {
        assert deltas[i..][1..] == deltas[i + 1..];
        RebaseDelta(deltas[i]);
      }
      assert deltas[|deltas|..] == [];
    }

    method HandleDelete(role: Role, p: Key, h: Hash) returns (status: Status)
      requires D.Balanced(database.Db())
      modifies backend, lfs, database
      ensures (State(), status) == Server.HandleDelete(env, old(State()), role, p, h)
    {
      if role.Denied? {
        return Forbidden;
      }
      if !role.Admin? {
        if (h, p) !in database.owners {
          return Forbidden;
        }
        if |D.OwnersOf(database.owners, h)| > 1 {
          var _ := database.DeleteUploadOwner(h, p);
          return Retained;
        }
      }
      RebaseDeltas(h);
      status := EraseBlob(h);
    }

    /** Removing the blob, its upload and its version records. */
    method EraseBlob(h: Hash) returns (status: Status)
      requires D.Balanced(database.Db())
      modifies backend, lfs, database
      ensures State().store == S.Erase(old(State().store), h)
      ensures State().db ==
              if h in old(State().store.index) then D.DeleteUpload(old(State().db), h).0 else old(State().db)
      ensures status == if h in old(State().store.index) then Done else NotFound
    {
      var existed := backend.DeleteBlob(h);
      if !existed {
        return NotFound;
      }
      var _ := database.DeleteUpload(h);
      lfs.DeleteBySha256(h);
      return Done;
    }
  }
}
