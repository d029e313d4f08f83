/**
 LFS-aware storage (src/lfs/mod.rs and the LFS parts of the handlers in src/server/mod.rs
 and src/transport/iroh_transport.rs): a blob is kept raw, compressed, or as a compressed
 delta against another blob, always under the hash of its original bytes.
 */
module LfsStore {
  import opened Prelude

  datatype Storage = Raw | Compressed | Delta

  datatype Version = Version(repo: string, path: string, number: int, sha: Hash, base: Option<Hash>,
                             storage: Storage, deltaAlgo: Option<string>,
                             originalSize: nat, storedSize: nat, createdAt: nat)

  /** LFS tags of an upload. */
  datatype Context = Context(isLfs: bool, path: Option<string>, repo: Option<string>, base: Option<Hash>,
                             isManifest: bool)

  /** zstd and xdelta3, left abstract. The delta functions take the base first. */
  datatype Codec = Codec(compress: Bytes -> Option<Bytes>, decompress: Bytes -> Option<Bytes>,
                         encodeDelta: (Bytes, Bytes) -> Option<Bytes>,
                         decodeDelta: (Bytes, Bytes) -> Option<Bytes>)

  /** Decompression inverts compression; a delta decodes if the result fits the decoder's buffer. */
  ghost predicate Lawful(c: Codec) {
    && (forall x :: c.compress(x).Some? ==> c.decompress(c.compress(x).value) == Some(x))
    && (forall b, x :: c.encodeDelta(b, x).Some? && FitsBuffer(b, c.encodeDelta(b, x).value, x) ==>
          c.decodeDelta(b, c.encodeDelta(b, x).value) == Some(x))
  }

  /** The decoder's output buffer is twice the size of its inputs. */
  predicate FitsBuffer(base: Bytes, delta: Bytes, data: Bytes) {
    |data| <= 2 * (|delta| + |base|)
  }

  const MAX_DELTA_CHAIN_DEPTH: nat := 10

  datatype Store = Store(blobs: map<Hash, Bytes>, index: map<Hash, nat>, versions: seq<Version>)

  const EMPTY := Store(map[], map[], [])

  // ----- version records -----

  function First(vs: seq<Version>, h: Hash): (v: Option<Version>)
    ensures v.Some? ==> v.value.sha == h && v.value in vs
    ensures v.None? <==> forall w :: w in vs ==> w.sha != h
  {
    if vs == [] then None else if vs[0].sha == h then Some(vs[0]) else First(vs[1..], h)
  }

  /** The record with the greatest version number; of several, the last. */
  function Latest(vs: seq<Version>, repo: string, path: string): Option<Version> {
    if vs == [] then None
    else
      var v, rest := vs[0], Latest(vs[1..], repo, path);
      if v.repo != repo || v.path != path then rest
      else if rest.Some? && rest.value.number >= v.number then rest
      else Some(v)
  }

  function DeltasFor(vs: seq<Version>, base: Hash): seq<Version> {
    if vs == [] then []
    else if vs[0].storage.Delta? && vs[0].base == Some(base) then [vs[0]] + DeltasFor(vs[1..], base)
    else DeltasFor(vs[1..], base)
  }

  function UpdateFirst(vs: seq<Version>, h: Hash, storage: Storage, base: Option<Hash>, size: nat): seq<Version> {
    if vs == [] then []
    else if vs[0].sha == h then [vs[0].(storage := storage, base := base, storedSize := size)] + vs[1..]
    else [vs[0]] + UpdateFirst(vs[1..], h, storage, base, size)
  }

  function RemoveSha(vs: seq<Version>, h: Hash): seq<Version> {
    if vs == [] then []
    else if vs[0].sha == h then RemoveSha(vs[1..], h)
    else [vs[0]] + RemoveSha(vs[1..], h)
  }

  // ----- reading -----

  /** Decompressed bytes, or the bytes themselves if they are no compressed stream. */
  function Unzip(c: Codec, x: Bytes): Bytes {
    match c.decompress(x)
    case Some(y) => y
    case None => x
  }

  /** Compressed bytes, or the bytes themselves if compression fails. */
  function Zip(c: Codec, x: Bytes): Bytes {
    match c.compress(x)
    case Some(y) => y
    case None => x
  }

  datatype Failure = ChainBroken | NoBase | BaseMissing | DeltaMissing | DecodeFailed

  /** The records met walking back from h, newest first, at most `hops` of them. */
  function Walk(vs: seq<Version>, h: Hash, hops: nat): Option<seq<Version>>
    decreases hops
  {
    if hops == 0 then Some([])
    else
      match First(vs, h)
      case None => None
      case Some(v) =>
        if v.storage.Delta? && v.base.Some? then
          match Walk(vs, v.base.value, hops - 1)
          case None => None
          case Some(rest) => Some([v] + rest)
        else Some([v])
  }

  /** Applies the deltas of a chain, the last first. */
  function Apply(c: Codec, blobs: map<Hash, Bytes>, chain: seq<Version>, start: Bytes): Result<Bytes, Failure> {
    if chain == [] then Ok(start)
    else
      match Apply(c, blobs, chain[1..], start)
      case Err(e) => Err(e)
      case Ok(data) => ApplyOne(c, blobs, chain[0], data)
  }

  function ApplyOne(c: Codec, blobs: map<Hash, Bytes>, v: Version, data: Bytes): Result<Bytes, Failure> {
    if !v.storage.Delta? then Ok(data)
    else if v.sha !in blobs then Err(DeltaMissing)
    else
      match c.decodeDelta(data, Unzip(c, blobs[v.sha]))
      case None => Err(DecodeFailed)
      case Some(next) => Ok(next)
  }

  function ChainBase(chain: seq<Version>): Option<Hash> {
    if chain == [] then None
    else
      var last := chain[|chain| - 1];
      if last.storage.Delta? then last.base else Some(last.sha)
  }

  /** The bytes a chain starts from. */
  function BaseBytes(c: Codec, st: Store, b: Hash): Bytes
    requires b in st.blobs
  {
    match First(st.versions, b)
    case Some(v) => if v.storage.Compressed? then Unzip(c, st.blobs[b]) else st.blobs[b]
    case None => st.blobs[b]
  }

  /** Rebuilds h from the records met within some number of hops. */
  function Rebuild(c: Codec, st: Store, h: Hash, hops: nat): Result<Bytes, Failure> {
    match Walk(st.versions, h, hops)
    case None => Err(ChainBroken)
    case Some(chain) =>
      match ChainBase(chain)
      case None => Err(NoBase)
      case Some(b) =>
        if b !in st.blobs then Err(BaseMissing)
        else Apply(c, st.blobs, chain, BaseBytes(c, st, b))
  }

  function Reconstruct(c: Codec, st: Store, h: Hash): Result<Bytes, Failure> {
    Rebuild(c, st, h, MAX_DELTA_CHAIN_DEPTH)
  }

  /** The original bytes of a stored blob, as far as its record lets the server recover them. */
  function Expand(c: Codec, st: Store, v: Version, raw: Bytes): Bytes {
    match v.storage
    case Raw => raw
    case Compressed => Unzip(c, raw)
    case Delta =>
      match Reconstruct(c, st, v.sha)
      case Ok(data) => data
      case Err(_) => raw
  }

  function Get(c: Codec, st: Store, h: Hash): Option<Bytes> {
    if h !in st.blobs then None
    else
      match First(st.versions, h)
      case None => Some(st.blobs[h])
      case Some(v) => Some(Expand(c, st, v, st.blobs[h]))
  }

  function Head(st: Store, h: Hash): Option<nat> {
    if h !in st.blobs then None
    else
      match First(st.versions, h)
      case None => Some(|st.blobs[h]|)
      case Some(v) => Some(v.originalSize)
  }

  // ----- writing -----

  /** Whether a delta is below 0.8 of the original size. */
  predicate Worthwhile(deltaLen: nat, originalLen: nat) {
    originalLen != 0 && 10 * deltaLen < 8 * originalLen
  }

  datatype Form = Form(bytes: Bytes, storage: Storage, base: Option<Hash>)

  function FullForm(c: Codec, data: Bytes): Form {
    Form(Zip(c, data), Compressed, None)
  }

  /** The bytes a delta is taken against: those of a base that is both recorded and stored. */
  function BaseContent(c: Codec, st: Store, base: Hash): Option<Bytes> {
    match First(st.versions, base)
    case None => None
    case Some(v) => if base in st.blobs then Some(Expand(c, st, v, st.blobs[base])) else None
  }

  /** The delta of data against the base, if there is one worth keeping. */
  function DeltaAgainst(c: Codec, st: Store, data: Bytes, base: Hash): Option<Bytes> {
    match BaseContent(c, st, base)
    case None => None
    case Some(before) =>
      match c.encodeDelta(before, data)
      case None => None
      case Some(delta) => if Worthwhile(|delta|, |data|) then Some(delta) else None
  }

  function DeltaForm(c: Codec, st: Store, data: Bytes, base: Hash): Option<Form> {
    match DeltaAgainst(c, st, data, base)
    case None => None
    case Some(delta) =>
      match c.compress(delta)
      case None => None
      case Some(bytes) => Some(Form(bytes, Delta, Some(base)))
  }

  function ChooseForm(c: Codec, lfsEnabled: bool, st: Store, data: Bytes, ctx: Context): Form {
    if !lfsEnabled || !ctx.isLfs || ctx.isManifest then Form(data, Raw, None)
    else if ctx.base.None? then FullForm(c, data)
    else
      match DeltaForm(c, st, data, ctx.base.value)
      case None => FullForm(c, data)
      case Some(form) => form
  }

  predicate Recorded(lfsEnabled: bool, ctx: Context) {
    lfsEnabled && ctx.isLfs && ctx.repo.Some? && ctx.path.Some?
  }

  function NewVersion(vs: seq<Version>, h: Hash, size: nat, form: Form, ctx: Context, now: nat): Version
    requires ctx.repo.Some? && ctx.path.Some?
  {
    var number := match Latest(vs, ctx.repo.value, ctx.path.value) case Some(v) => v.number + 1 case None => 1;
    Version(ctx.repo.value, ctx.path.value, number, h, form.base, form.storage,
            if form.storage.Delta? then Some("xdelta3") else None, size, size, now)
  }

  /** Stores data under h unless h is stored already, and records the version if the tags ask for it. */
  function Put(c: Codec, lfsEnabled: bool, st: Store, h: Hash, data: Bytes, ctx: Context, now: nat): Store {
    var form := ChooseForm(c, lfsEnabled, st, data, ctx);
    var stored := if h in st.index then st
                  else st.(blobs := st.blobs[h := form.bytes], index := st.index[h := |data|]);
    if Recorded(lfsEnabled, ctx) then
      stored.(versions := st.versions + [NewVersion(st.versions, h, |data|, form, ctx, now)])
    else stored
  }

  /** Rewrites one delta as a full compressed blob. */
  function RebaseOne(c: Codec, st: Store, v: Version): Store {
    if v.sha !in st.blobs then st
    else
      match Reconstruct(c, st, v.sha)
      case Err(_) => st
      case Ok(data) =>
        Store(st.blobs[v.sha := Zip(c, data)], st.index[v.sha := v.originalSize],
              UpdateFirst(st.versions, v.sha, Compressed, None, |data|))
  }

  function RebaseAll(c: Codec, st: Store, deltas: seq<Version>): Store
    decreases |deltas|
  {
    if deltas == [] then st else RebaseAll(c, RebaseOne(c, st, deltas[0]), deltas[1..])
  }

  /** Deletes the blob and its records if it is stored. */
  function Erase(st: Store, h: Hash): Store {
    if h in st.index then Store(st.blobs - {h}, st.index - {h}, RemoveSha(st.versions, h))
    else st.(blobs := st.blobs - {h})
  }

  function Remove(c: Codec, st: Store, h: Hash): Store {
    Erase(RebaseAll(c, st, DeltasFor(st.versions, h)), h)
  }

  // ----- what an upload stores and records -----

  ghost predicate OfPath(v: Version, repo: string, path: string) {
    v.repo == repo && v.path == path
  }

  /** The record at i is of the path, none of the path has a greater number, and none after it as great a one. */
  ghost predicate IsLatest(vs: seq<Version>, repo: string, path: string, i: nat)
    requires i < |vs|
  {
    && OfPath(vs[i], repo, path)
    && (forall j :: 0 <= j < |vs| && OfPath(vs[j], repo, path) ==> vs[j].number <= vs[i].number)
    && (forall j :: i < j < |vs| && OfPath(vs[j], repo, path) ==> vs[j].number < vs[i].number)
  }

  ghost predicate NoneOfPath(vs: seq<Version>, repo: string, path: string) {
    forall j :: 0 <= j < |vs| ==> !OfPath(vs[j], repo, path)
  }

  /** The latest record of a path is the last of those with the greatest number; there is none if the path has none. */
  lemma {:induction false} LatestIs(vs: seq<Version>, repo: string, path: string) returns (i: nat)
    ensures var latest := Latest(vs, repo, path);
            if NoneOfPath(vs, repo, path) then latest.None?
            else i < |vs| && latest == Some(vs[i]) && IsLatest(vs, repo, path, i)
  {
    i := 0;
    if vs != [] {
      var rest := vs[1..];
      var k := LatestIs(rest, repo, path);
      assert forall j :: 0 < j < |vs| ==> vs[j] == rest[j - 1];
      assert forall j :: 0 <= j < |rest| ==> rest[j] == vs[j + 1];
      var below := NoneOfPath(rest, repo, path) || rest[k].number < vs[0].number;
      i := if OfPath(vs[0], repo, path) && below then 0 else k + 1;
    }
  }

  /** A delta below four fifths of the data, against the bytes the base reads as, that compresses. */
  ghost predicate DeltaWorthKeeping(c: Codec, st: Store, data: Bytes, base: Hash) {
    && First(st.versions, base).Some? && base in st.blobs
    && var before := Expand(c, st, First(st.versions, base).value, st.blobs[base]);
       && c.encodeDelta(before, data).Some?
       && var delta := c.encodeDelta(before, data).value;
          |data| > 0 && 5 * |delta| < 4 * |data| && c.compress(delta).Some?
  }

  /** Which form an upload is stored in. */
  lemma FormIff(c: Codec, lfsEnabled: bool, st: Store, data: Bytes, ctx: Context)
    ensures var form := ChooseForm(c, lfsEnabled, st, data, ctx);
            var lfs := lfsEnabled && ctx.isLfs && !ctx.isManifest;
            && (form.storage == Raw <==> !lfs)
            && (form.storage == Delta <==> lfs && ctx.base.Some? && DeltaWorthKeeping(c, st, data, ctx.base.value))
            && (form.storage == Raw ==> form.bytes == data)
            && (form.storage == Compressed ==>
                  form.bytes == if c.compress(data).Some? then c.compress(data).value else data)
            && form.base == if form.storage == Delta then ctx.base else None
  {
  }

  /** A recorded upload appends one record, of the data as sent and numbered one above the latest of its path. */
  lemma PutRecords(c: Codec, lfsEnabled: bool, st: Store, h: Hash, data: Bytes, ctx: Context, now: nat)
    ensures var after, form := Put(c, lfsEnabled, st, h, data, ctx, now), ChooseForm(c, lfsEnabled, st, data, ctx);
            if lfsEnabled && ctx.isLfs && ctx.repo.Some? && ctx.path.Some? then
              && |after.versions| == |st.versions| + 1 && st.versions <= after.versions
              && var v := after.versions[|st.versions|];
                 && OfPath(v, ctx.repo.value, ctx.path.value) && v.sha == h && v.base == form.base
                 && v.storage == form.storage && v.originalSize == v.storedSize == |data| && v.createdAt == now
                 && (v.deltaAlgo == if v.storage == Delta then Some("xdelta3") else None)
                 && var latest := Latest(st.versions, v.repo, v.path);
                    v.number == if latest.Some? then latest.value.number + 1 else 1
            else after.versions == st.versions
  {
  }

  /** An upload adds its bytes only if nothing is stored under its hash, and touches no other. */
  lemma PutStores(c: Codec, lfsEnabled: bool, st: Store, h: Hash, data: Bytes, ctx: Context, now: nat)
    ensures var after := Put(c, lfsEnabled, st, h, data, ctx, now);
            if h in st.index then after.blobs == st.blobs && after.index == st.index
            else after.index == st.index[h := |data|]
                 && after.blobs == st.blobs[h := ChooseForm(c, lfsEnabled, st, data, ctx).bytes]
  {
  }
}
