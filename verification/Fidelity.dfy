/**
 The server with LFS storage behaves as a plain server that keeps every blob as it was
 uploaded: same answers to every operation, and GET and HEAD give the original bytes.
 */
module Fidelity {
  import opened Prelude
  import opened Server
  import S = LfsStore
  import F = LfsFaithful
  import X = LfsExact
  import W = LfsOverwrite
  import D = BlobDatabase

  // ----- the plain server -----

  datatype Plain = Plain(content: map<Hash, Bytes>, db: D.Db)

  function PlainErase(st: Plain, h: Hash): (Plain, Status) {
    if h in st.content then (Plain(st.content - {h}, D.DeleteUpload(st.db, h).0), Done) else (st, NotFound)
  }

  function PlainDelete(st: Plain, role: Role, p: Key, h: Hash): (Plain, Status) {
    match ClaimOf(st.db, role, p, h)
    case Refuse => (st, Forbidden)
    case DropReference => (st.(db := D.DeleteUploadOwner(st.db, h, p).0), Retained)
    case Proceed => PlainErase(st, h)
  }

  function PlainUpload(env: Env, st: Plain, u: Upload): (Plain, Status) {
    match Refusal(env, st.db, u)
    case Some(status) => (st, status)
    case None =>
      var (db, status) := Record(env, st.db, u);
      (Plain(F.PutContent(st.content, env.hash(u.data), u.data), db), status)
  }

  function PlainStep(env: Env, st: Plain, op: Op): (Plain, Status) {
    match op
    case Put(u) => PlainUpload(env, st, u)
    case Insert(u) => PlainUpload(env, st, u)
    case Delete(role, p, h) => PlainDelete(st, role, p, h)
    case Nip96Delete(role, p, h) => PlainDelete(st, role, p, h)
    case AdminDelete(h) => PlainErase(st, h)
    case SetQuota(p, quota) => (st.(db := D.SetQuota(st.db, p, quota)), Done)
  }

  function PlainAt(env: Env, run: seq<Op>, n: nat): Plain
    requires n <= |run|
  {
    if n == 0 then Plain(map[], D.EMPTY) else PlainStep(env, PlainAt(env, run, n - 1), run[n - 1]).0
  }

  /** The plain server keeps under each hash bytes with that hash. */
  lemma {:induction false} PlainIsContentAddressed(env: Env, run: seq<Op>, n: nat, h: Hash)
    requires n <= |run|
    ensures h in PlainAt(env, run, n).content ==> env.hash(PlainAt(env, run, n).content[h]) == h
  {
    if n > 0 {
      PlainIsContentAddressed(env, run, n - 1, h);
    }
  }

  // ----- when a step is safe -----

  /** The operation, in this state, is one the LFS store survives. */
  predicate Safe(env: Env, st: State, op: Op) {
    match op
    case Put(u) =>
      Refusal(env, st.db, u).None? ==>
        F.PutSafe(env.codec, env.lfsEnabled, st.store, env.hash(u.data), u.data, u.tags)
    case Insert(u) =>
      Refusal(env, st.db, u).None? ==> InsertSafe(env, st.store, env.hash(u.data), u.data)
    case Delete(_, _, _) => true
    case Nip96Delete(_, _, h) => S.First(st.store.versions, h).None?
    case AdminDelete(h) => S.First(st.store.versions, h).None?
    case SetQuota(_, _) => true
  }

  /** An overwriting upload must not hit a blob with a version record. */
  predicate InsertSafe(env: Env, st: S.Store, h: Hash, data: Bytes) {
    && F.Stowable(env.codec, data) && S.First(st.versions, h).None?
    && (h in st.blobs ==> st.blobs[h] == data)
  }

  ghost predicate SafeRun(env: Env, run: seq<Op>) {
    forall n :: 0 <= n < |run| ==> Safe(env, StateAt(env, run, n), run[n])
  }

  // ----- one step -----

  ghost predicate Simulates(env: Env, st: State, plain: Plain) {
    && F.Refines(env.codec, st.store, plain.content) && F.Reachable(st.store)
    && st.db == plain.db
  }

  lemma PutSimulates(env: Env, st: State, plain: Plain, u: Upload)
    requires S.Lawful(env.codec) && Simulates(env, st, plain) && Safe(env, st, Put(u))
    ensures Simulates(env, HandlePut(env, st, u).0, PlainUpload(env, plain, u).0)
    ensures HandlePut(env, st, u).1 == PlainUpload(env, plain, u).1
  {
    if Refusal(env, st.db, u).None? {
      F.PutRefines(env.codec, env.lfsEnabled, st.store, plain.content, env.hash(u.data), u.data, u.tags, u.now);
    }
  }

  lemma InsertRefines(env: Env, st: S.Store, content: map<Hash, Bytes>, h: Hash, data: Bytes)
    requires F.Refines(env.codec, st, content) && F.Reachable(st) && InsertSafe(env, st, h, data)
    ensures var after := st.(blobs := st.blobs[h := data], index := st.index[h := |data|]);
            F.Refines(env.codec, after, F.PutContent(content, h, data)) && F.Reachable(after)
  {
    var after := st.(blobs := st.blobs[h := data], index := st.index[h := |data|]);
    var content' := F.PutContent(content, h, data);
    forall x | x in content'
      ensures x in after.blobs && F.Represents(env.codec, after, content', x) && F.Stowable(env.codec, content'[x])
    {
      if x in content {
        assert F.Represents(env.codec, st, content, x);
        F.RepresentsFrame(env.codec, st, content, after, content', x);
      }
    }
    assert after.blobs.Keys == content'.Keys && after.index.Keys == content'.Keys;
  }

  lemma InsertSimulates(env: Env, st: State, plain: Plain, u: Upload)
    requires Simulates(env, st, plain) && Safe(env, st, Insert(u))
    ensures Simulates(env, HandleInsert(env, st, u).0, PlainUpload(env, plain, u).0)
    ensures HandleInsert(env, st, u).1 == PlainUpload(env, plain, u).1
  {
    if Refusal(env, st.db, u).None? {
      InsertRefines(env, st.store, plain.content, env.hash(u.data), u.data);
    }
  }

  lemma DeleteSimulates(env: Env, st: State, plain: Plain, role: Role, p: Key, h: Hash)
    requires Simulates(env, st, plain)
    ensures Simulates(env, HandleDelete(env, st, role, p, h).0, PlainDelete(plain, role, p, h).0)
    ensures HandleDelete(env, st, role, p, h).1 == PlainDelete(plain, role, p, h).1
  {
    if ClaimOf(st.db, role, p, h).Proceed? {
      F.RemoveRefines(env.codec, st.store, plain.content, h);
      F.DeltasForAll(st.store.versions, h);
      F.RebaseAllKeeps(env.codec, st.store, plain.content, S.DeltasFor(st.store.versions, h));
      if h !in plain.content {
        assert plain.content - {h} == plain.content;
      }
    }
  }

  /** Bytes no record speaks of are nobody's base and may go. */
  lemma EraseBytesRefines(env: Env, st: S.Store, content: map<Hash, Bytes>, h: Hash)
    requires F.Refines(env.codec, st, content) && F.Reachable(st) && S.First(st.versions, h).None?
    ensures var after := st.(blobs := st.blobs - {h}, index := st.index - {h});
            F.Refines(env.codec, after, content - {h}) && F.Reachable(after)
  {
    var after := st.(blobs := st.blobs - {h}, index := st.index - {h});
    forall x | x in content - {h}
      ensures x in after.blobs && F.Represents(env.codec, after, content - {h}, x)
    {
      assert F.Represents(env.codec, st, content, x);
      F.RepresentsFrame(env.codec, st, content, after, content - {h}, x);
    }
  }

  lemma EraseSimulates(env: Env, st: State, plain: Plain, h: Hash)
    requires Simulates(env, st, plain) && S.First(st.store.versions, h).None?
    ensures Simulates(env, EraseBytes(st, h).0, PlainErase(plain, h).0)
    ensures EraseBytes(st, h).1 == PlainErase(plain, h).1
  {
    EraseBytesRefines(env, st.store, plain.content, h);
    if h !in plain.content {
      assert plain.content - {h} == plain.content;
    }
  }

  lemma StepSimulates(env: Env, st: State, plain: Plain, op: Op)
    requires S.Lawful(env.codec) && Simulates(env, st, plain) && Safe(env, st, op)
    ensures Simulates(env, Step(env, st, op).0, PlainStep(env, plain, op).0)
    ensures Step(env, st, op).1 == PlainStep(env, plain, op).1
  {
    match op {
      case Put(u) => PutSimulates(env, st, plain, u);
      case Insert(u) => InsertSimulates(env, st, plain, u);
      case Delete(role, p, h) => DeleteSimulates(env, st, plain, role, p, h);
      case Nip96Delete(role, p, h) => EraseSimulates(env, st, plain, h);
      case AdminDelete(h) => EraseSimulates(env, st, plain, h);
      case SetQuota(_, _) =>
    }
  }

  // ----- what a delete does to the reads of other blobs -----

  /** A delete that rebases leaves every other read as it was. */
  lemma DeleteReadsSame(env: Env, st: State, plain: Plain, role: Role, p: Key, h: Hash, x: Hash)
    requires Simulates(env, st, plain) && x != h
    ensures S.Get(env.codec, HandleDelete(env, st, role, p, h).0.store, x) == S.Get(env.codec, st.store, x)
    ensures S.Head(HandleDelete(env, st, role, p, h).0.store, x) == S.Head(st.store, x)
  {
    var after, plainAfter := HandleDelete(env, st, role, p, h).0, PlainDelete(plain, role, p, h).0;
    DeleteSimulates(env, st, plain, role, p, h);
    F.ReadsAreFaithful(env.codec, st.store, plain.content, x);
    F.ReadsAreFaithful(env.codec, after.store, plainAfter.content, x);
  }

  /** A NIP-96 delete, which does not, does so exactly when the read takes nothing of the deleted blob. */
  lemma Nip96DeleteReadsIff(env: Env, st: State, role: Role, p: Key, h: Hash, x: Hash)
    requires x != h && x in st.store.blobs
    ensures S.Get(env.codec, HandleNip96Delete(st, role, p, h).0.store, x) == S.Get(env.codec, st.store, x) <==>
            || !ClaimOf(st.db, role, p, h).Proceed?
            || !X.Needs(st.store.versions, x, h, S.MAX_DELTA_CHAIN_DEPTH)
            || S.Get(env.codec, st.store, x) == Some(st.store.blobs[x])
  {
    X.EraseReadsIff(env.codec, st.store, h, x);
  }

  // ----- what an overwriting upload does to reads -----

  lemma NoneOnOwnChain(env: Env, st: State, plain: Plain, h: Hash)
    requires Simulates(env, st, plain)
    ensures W.Meets(st.store.versions, h, h, S.MAX_DELTA_CHAIN_DEPTH).None?
  {
    if S.First(st.store.versions, h).Some? {
      W.NotOnOwnChain(st.store.versions, h, S.MAX_DELTA_CHAIN_DEPTH, S.MAX_DELTA_CHAIN_DEPTH);
    }
  }

  /** A mirror or NIP-96 upload, of a recorded hash too, reads back exactly when the record lets it. */
  lemma InsertReadsIff(env: Env, st: State, plain: Plain, u: Upload)
    requires Simulates(env, st, plain) && Refusal(env, st.db, u).None?
    ensures var h := env.hash(u.data);
            S.Get(env.codec, HandleInsert(env, st, u).0.store, h) == Some(u.data) <==>
            W.OverwriteReadsBack(env.codec, st.store, h, u.data)
  {
    NoneOnOwnChain(env, st, plain, env.hash(u.data));
    W.OverwriteReadsIff(env.codec, st.store, env.hash(u.data), u.data);
  }

  /** And leaves another read as it was exactly when that does not come to the hash, or makes the same of it. */
  lemma InsertReadsOthersIff(env: Env, st: State, plain: Plain, u: Upload, x: Hash)
    requires Simulates(env, st, plain) && x != env.hash(u.data) && x in st.store.blobs
    ensures S.Get(env.codec, HandleInsert(env, st, u).0.store, x) == S.Get(env.codec, st.store, x) <==>
            || Refusal(env, st.db, u).Some?
            || W.OverwriteKeeps(env.codec, st.store, env.hash(u.data), u.data, x)
  {
    NoneOnOwnChain(env, st, plain, env.hash(u.data));
    W.OverwriteReadsOthersIff(env.codec, st.store, env.hash(u.data), u.data, x);
  }

  // ----- whole runs -----

  ghost predicate SimulatesAt(env: Env, run: seq<Op>, n: nat)
    requires n <= |run|
  {
    Simulates(env, StateAt(env, run, n), PlainAt(env, run, n))
  }

  lemma StepSimulatesAt(env: Env, run: seq<Op>, n: nat)
    requires S.Lawful(env.codec) && SafeRun(env, run) && n < |run| && SimulatesAt(env, run, n)
    ensures SimulatesAt(env, run, n + 1)
  {
    StepSimulates(env, StateAt(env, run, n), PlainAt(env, run, n), run[n]);
  }

  lemma RunSimulates(env: Env, run: seq<Op>, n: nat)
    requires S.Lawful(env.codec) && SafeRun(env, run) && n <= |run|
    ensures SimulatesAt(env, run, n)
  {
    for i := 0 to n
      invariant SimulatesAt(env, run, i)
    {
      StepSimulatesAt(env, run, i);
    }
  }

  /** Along every safe run, each operation is answered as by the plain server. */
  lemma SameAnswers(env: Env, run: seq<Op>, n: nat)
    requires S.Lawful(env.codec) && SafeRun(env, run) && n < |run|
    ensures Step(env, StateAt(env, run, n), run[n]).1 == PlainStep(env, PlainAt(env, run, n), run[n]).1
  {
    RunSimulates(env, run, n);
    StepSimulates(env, StateAt(env, run, n), PlainAt(env, run, n), run[n]);
  }

  /**
   After every safe run, GET of each stored hash gives the bytes uploaded under it, which
   have that hash, HEAD gives their length, and nothing else is found.
   */
  lemma ReadsAreOriginal(env: Env, run: seq<Op>, n: nat, h: Hash)
    requires S.Lawful(env.codec) && SafeRun(env, run) && n <= |run|
    ensures var store, content := StateAt(env, run, n).store, PlainAt(env, run, n).content;
            && S.Get(env.codec, store, h) == (if h in content then Some(content[h]) else None)
            && S.Head(store, h) == (if h in content then Some(|content[h]|) else None)
            && (h in content ==> env.hash(content[h]) == h)
  {
    RunSimulates(env, run, n);
    F.ReadsAreFaithful(env.codec, StateAt(env, run, n).store, PlainAt(env, run, n).content, h);
    PlainIsContentAddressed(env, run, n, h);
  }
}
