/**
 The upload, delete and read handlers over the blob backend, the LFS version records and
 the upload database (src/server/mod.rs, src/server/nip96.rs, src/server/admin.rs,
 src/transport/iroh_transport.rs), as steps of one state machine. A request here has
 passed authentication, access, rate and content-type checks.
 */
module Server {
  import opened Prelude
  import S = LfsStore
  import D = BlobDatabase

  datatype Role = Admin | Member | Denied

  datatype Env = Env(codec: S.Codec, lfsEnabled: bool, maxSize: Option<nat>, hash: Bytes -> Hash)

  datatype State = State(store: S.Store, db: D.Db)

  const EMPTY := State(S.EMPTY, D.EMPTY)

  datatype Status = Done | Retained | BadRequest | TooLarge | QuotaFull | MetadataFailed | Forbidden | NotFound

  datatype Upload = Upload(pubkey: Option<Key>, data: Bytes, tags: S.Context, mimeType: string, now: nat)

  /**
   Put: PUT /upload and the iroh upload. Insert: mirror and NIP-96 uploads, which overwrite.
   Delete: DELETE /sha256 and the iroh delete. Nip96Delete and AdminDelete do not touch LFS records.
   */
  datatype Op =
    | Put(upload: Upload)
    | Insert(upload: Upload)
    | Delete(role: Role, pubkey: Key, hash: Hash)
    | Nip96Delete(role: Role, pubkey: Key, hash: Hash)
    | AdminDelete(hash: Hash)
    | SetQuota(pubkey: Key, quota: Option<nat>)

  /** Why an upload is turned away before anything is stored. */
  function Refusal(env: Env, db: D.Db, u: Upload): Option<Status> {
    if u.data == [] then Some(BadRequest)
    else if env.maxSize.Some? && |u.data| > env.maxSize.value then Some(TooLarge)
    else if u.pubkey.Some? && D.CheckQuota(db, u.pubkey.value, Additional(env, db, u)).Some? then Some(QuotaFull)
    else None
  }

  function Additional(env: Env, db: D.Db, u: Upload): nat
    requires u.pubkey.Some?
  {
    if D.IsOwner(db, env.hash(u.data), u.pubkey.value) then 0 else |u.data|
  }

  function RecordOf(env: Env, u: Upload): D.UploadRecord {
    D.UploadRecord(env.hash(u.data), |u.data|, u.mimeType,
                   match u.pubkey case Some(p) => p case None => "anonymous", u.now)
  }

  function Record(env: Env, db: D.Db, u: Upload): (D.Db, Status) {
    var (after, error) := D.RecordUpload(db, RecordOf(env, u));
    (after, if error.None? then Done else MetadataFailed)
  }

  function HandlePut(env: Env, st: State, u: Upload): (State, Status) {
    match Refusal(env, st.db, u)
    case Some(status) => (st, status)
    case None =>
      var store := S.Put(env.codec, env.lfsEnabled, st.store, env.hash(u.data), u.data, u.tags, u.now);
      var (db, status) := Record(env, st.db, u);
      (State(store, db), status)
  }

  function HandleInsert(env: Env, st: State, u: Upload): (State, Status) {
    match Refusal(env, st.db, u)
    case Some(status) => (st, status)
    case None =>
      var h := env.hash(u.data);
      var store := st.store.(blobs := st.store.blobs[h := u.data], index := st.store.index[h := |u.data|]);
      var (db, status) := Record(env, st.db, u);
      (State(store, db), status)
  }

  /** What a delete does before the blob is touched: refuse it, drop one reference, or go on. */
  datatype Claim = Refuse | DropReference | Proceed

  function ClaimOf(db: D.Db, role: Role, p: Key, h: Hash): Claim {
    if role.Denied? then Refuse
    else if role.Admin? then Proceed
    else if !D.IsOwner(db, h, p) then Refuse
    else if |D.OwnersOf(db.owners, h)| > 1 then DropReference
    else Proceed
  }

  function HandleDelete(env: Env, st: State, role: Role, p: Key, h: Hash): (State, Status) {
    match ClaimOf(st.db, role, p, h)
    case Refuse => (st, Forbidden)
    case DropReference => (st.(db := D.DeleteUploadOwner(st.db, h, p).0), Retained)
    case Proceed =>
      var rebased := S.RebaseAll(env.codec, st.store, S.DeltasFor(st.store.versions, h));
      if h in rebased.index then (State(S.Erase(rebased, h), D.DeleteUpload(st.db, h).0), Done)
      else (st.(store := S.Erase(rebased, h)), NotFound)
  }

  /** Removes the bytes but no version record, and rebases nothing. */
  function EraseBytes(st: State, h: Hash): (State, Status) {
    var store := st.store.(blobs := st.store.blobs - {h}, index := st.store.index - {h});
    if h in st.store.index then (State(store, D.DeleteUpload(st.db, h).0), Done) else (st.(store := store), NotFound)
  }

  function HandleNip96Delete(st: State, role: Role, p: Key, h: Hash): (State, Status) {
    match ClaimOf(st.db, role, p, h)
    case Refuse => (st, Forbidden)
    case DropReference => (st.(db := D.DeleteUploadOwner(st.db, h, p).0), Retained)
    case Proceed => EraseBytes(st, h)
  }

  function Step(env: Env, st: State, op: Op): (State, Status) {
    match op
    case Put(u) => HandlePut(env, st, u)
    case Insert(u) => HandleInsert(env, st, u)
    case Delete(role, p, h) => HandleDelete(env, st, role, p, h)
    case Nip96Delete(role, p, h) => HandleNip96Delete(st, role, p, h)
    case AdminDelete(h) => EraseBytes(st, h)
    case SetQuota(p, quota) => (st.(db := D.SetQuota(st.db, p, quota)), Done)
  }

  /** The state after the first n operations. */
  function StateAt(env: Env, run: seq<Op>, n: nat): State
    requires n <= |run|
  {
    if n == 0 then EMPTY else Step(env, StateAt(env, run, n - 1), run[n - 1]).0
  }
}
