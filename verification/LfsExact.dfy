/**
 Where the LFS store does not read back what was uploaded, and exactly when it does.
 docs/BUD-20.md promises that chains never pass 10 deltas; the upload handlers do not check it.
 */
module LfsExact {
  import opened Prelude
  import opened LfsStore
  import opened LfsFaithful

  // ----- walks that end on a delta -----

  /** The k records before h, and h itself, are deltas. */
  predicate Deep(vs: seq<Version>, h: Hash, k: nat)
    decreases k
  {
    match First(vs, h)
    case None => false
    case Some(v) => v.storage.Delta? && (k > 0 ==> v.base.Some? && Deep(vs, v.base.value, k - 1))
  }

  /** The record k hops before h. */
  function Ancestor(vs: seq<Version>, h: Hash, k: nat): Hash
    requires Deep(vs, h, k)
    decreases k
  {
    if k == 0 then h else Ancestor(vs, First(vs, h).value.base.value, k - 1)
  }

  /** What reading h makes of a walk of k hops when the bytes stored where it ends are taken for a full blob. */
  function WalkBytes(c: Codec, st: Store, h: Hash, k: nat): Result<Bytes, Failure>
    decreases k
  {
    if k == 0 then if h in st.blobs then Ok(st.blobs[h]) else Err(BaseMissing)
    else
      match First(st.versions, h)
      case None => Err(ChainBroken)
      case Some(v) =>
        if v.base.None? then Err(NoBase)
        else ApplyTo(c, st.blobs, v, WalkBytes(c, st, v.base.value, k - 1))
  }

  function ApplyTo(c: Codec, blobs: map<Hash, Bytes>, v: Version, before: Result<Bytes, Failure>)
    : Result<Bytes, Failure>
  {
    match before
    case Err(e) => Err(e)
    case Ok(bytes) => ApplyOne(c, blobs, v, bytes)
  }

  ghost predicate AllStored(st: Store) {
    forall x {:trigger First(st.versions, x)} :: First(st.versions, x).Some? ==> x in st.blobs
  }

  lemma {:induction false} DeepWalk(c: Codec, st: Store, h: Hash, k: nat)
    requires Deep(st.versions, h, k) && AllStored(st)
    ensures var a := Ancestor(st.versions, h, k);
            && a in st.blobs && First(st.versions, a).Some? && First(st.versions, a).value.storage.Delta?
            && Walk(st.versions, h, k).Some?
            && (k > 0 ==> ChainBase(Walk(st.versions, h, k).value) == Some(a))
            && Apply(c, st.blobs, Walk(st.versions, h, k).value, st.blobs[a]) == WalkBytes(c, st, h, k)
    decreases k
  {
    if k > 0 {
      var v := First(st.versions, h).value;
      DeepWalk(c, st, v.base.value, k - 1);
      ChainBaseCons(v, Walk(st.versions, v.base.value, k - 1).value);
    }
  }

  /** Reconstruction over more deltas than it walks starts from the bytes of a delta. */
  lemma DeepRebuild(c: Codec, st: Store, h: Hash, k: nat)
    requires Deep(st.versions, h, k) && AllStored(st) && k > 0
    ensures Rebuild(c, st, h, k) == WalkBytes(c, st, h, k)
  {
    DeepWalk(c, st, h, k);
  }

  lemma {:induction false} TooDeep(c: Codec, st: Store, content: map<Hash, Bytes>, h: Hash, k: nat)
    requires Refines(c, st, content) && First(st.versions, h).Some?
    ensures h in content && (DepthAtMost(st.versions, h, k) <==> !Deep(st.versions, h, k))
    decreases k
  {
    assert Represents(c, st, content, h);
    var v := First(st.versions, h).value;
    if v.storage.Delta? && k > 0 {
      TooDeep(c, st, content, v.base.value, k - 1);
    }
  }

  // ----- when such a walk is right all the same -----

  /** At h the walk takes bytes that are not those of the base and makes the right ones of them. */
  ghost predicate Repairs(c: Codec, st: Store, content: map<Hash, Bytes>, h: Hash, k: nat)
    requires k > 0 && Deep(st.versions, h, k) && h in content
  {
    var v := First(st.versions, h).value;
    && v.base.value in content
    && var before := WalkBytes(c, st, v.base.value, k - 1);
       before.Ok? && before.value != content[v.base.value] && ApplyOne(c, st.blobs, v, before.value) == Ok(content[h])
  }

  /** The delta the walk starts from is stored as its own original bytes, or some step of the walk repairs. */
  ghost predicate Chances(c: Codec, st: Store, content: map<Hash, Bytes>, h: Hash, k: nat)
    requires Deep(st.versions, h, k)
    decreases k
  {
    && h in content && h in st.blobs
    && if k == 0 then st.blobs[h] == content[h]
       else Repairs(c, st, content, h, k) || Chances(c, st, content, First(st.versions, h).value.base.value, k - 1)
  }

  lemma {:induction false} RightByChance(c: Codec, st: Store, content: map<Hash, Bytes>, h: Hash, k: nat)
    requires Refines(c, st, content) && Deep(st.versions, h, k)
    ensures h in content && (WalkBytes(c, st, h, k) == Ok(content[h]) <==> Chances(c, st, content, h, k))
    decreases k
  {
    assert Represents(c, st, content, h);
    if k > 0 {
      RightByChance(c, st, content, First(st.versions, h).value.base.value, k - 1);
    }
  }

  /** A blob beyond reach answered right: by chance, or because its delta fails to apply and is its own content. */
  ghost predicate Lucky(c: Codec, st: Store, content: map<Hash, Bytes>, h: Hash, k: nat)
    requires h in content && h in st.blobs
  {
    && Deep(st.versions, h, k)
    && (Chances(c, st, content, h, k) || (WalkBytes(c, st, h, k).Err? && st.blobs[h] == content[h]))
  }

  lemma RebuildsIff(c: Codec, st: Store, content: map<Hash, Bytes>, h: Hash, k: nat)
    requires Refines(c, st, content) && First(st.versions, h).Some? && k > 0
    ensures h in content
    ensures DepthAtMost(st.versions, h, k) ==> Rebuild(c, st, h, k) == Ok(content[h])
    ensures !DepthAtMost(st.versions, h, k) ==>
              Deep(st.versions, h, k) && Rebuild(c, st, h, k) == WalkBytes(c, st, h, k)
    ensures !DepthAtMost(st.versions, h, k) ==>
              (WalkBytes(c, st, h, k) == Ok(content[h]) <==> Chances(c, st, content, h, k))
  {
    TooDeep(c, st, content, h, k);
    if DepthAtMost(st.versions, h, k) {
      RebuildsWithin(c, st, content, h, k);
    } else {
      DeepRebuild(c, st, h, k);
      RightByChance(c, st, content, h, k);
    }
  }

  /** A recorded blob reads back its original bytes exactly when at most 10 deltas lead to its full base, or by luck. */
  lemma ReadableIffShallow(c: Codec, st: Store, content: map<Hash, Bytes>, h: Hash)
    requires Refines(c, st, content) && First(st.versions, h).Some?
    ensures h in content && h in st.blobs
    ensures Get(c, st, h) == Some(content[h]) <==>
            DepthAtMost(st.versions, h, MAX_DELTA_CHAIN_DEPTH) || Lucky(c, st, content, h, MAX_DELTA_CHAIN_DEPTH)
  {
    assert Represents(c, st, content, h);
    RebuildsIff(c, st, content, h, MAX_DELTA_CHAIN_DEPTH);
  }

  // ----- one upload -----

  /** The bytes that reading a delta on b applies it to, when k hops are left for b. */
  function ReadOfBase(c: Codec, st: Store, b: Hash, k: nat): Result<Bytes, Failure> {
    if !DepthAtMost(st.versions, b, k) then WalkBytes(c, st, b, k)
    else
      match BaseContent(c, st, b)
      case None => Err(BaseMissing)
      case Some(before) => Ok(before)
  }

  /** The delta decodes against those bytes to the data, or fails to where the stored bytes serve as well. */
  predicate DecodesTo(c: Codec, before: Result<Bytes, Failure>, delta: Bytes, data: Bytes, elseStored: bool) {
    match before
    case Err(_) => elseStored
    case Ok(bytes) =>
      match c.decodeDelta(bytes, delta)
      case Some(x) => x == data
      case None => elseStored
  }

  /** When an upload reads back: a test on the request, the chosen form and the store before it. */
  ghost predicate UploadReadsBack(c: Codec, lfsEnabled: bool, st: Store, content: map<Hash, Bytes>, h: Hash,
                                  data: Bytes, ctx: Context)
    requires st.blobs.Keys == content.Keys
  {
    var form := ChooseForm(c, lfsEnabled, st, data, ctx);
    var recorded := Recorded(lfsEnabled, ctx);
    var before := if ctx.base.Some? then ReadOfBase(c, st, ctx.base.value, MAX_DELTA_CHAIN_DEPTH - 1) else Err(NoBase);
    if h in st.blobs && First(st.versions, h).Some? then
      DepthAtMost(st.versions, h, MAX_DELTA_CHAIN_DEPTH) || Lucky(c, st, content, h, MAX_DELTA_CHAIN_DEPTH)
    else if h in st.blobs then
      || !recorded || form.storage.Raw?
      || (form.storage.Compressed? && Unzip(c, st.blobs[h]) == st.blobs[h])
      || (form.storage.Delta? && DecodesTo(c, before, Unzip(c, st.blobs[h]), st.blobs[h], true))
    else
      || form.storage.Raw?
      || (!recorded && form.bytes == data)
      || (recorded && form.storage.Compressed? && Unzip(c, form.bytes) == data)
      || (recorded && form.storage.Delta? && DecodesTo(c, before, Unzip(c, form.bytes), data, form.bytes == data))
  }

  /** The store with a record and perhaps a blob added for a hash that had no record. */
  ghost predicate Adds(st: Store, st': Store, v: Version) {
    && First(st.versions, v.sha).None? && st'.versions == st.versions + [v] && v.sha in st'.blobs
    && forall x {:trigger st'.blobs[x]} {:trigger st.blobs[x]} {:trigger x in st'.blobs} ::
         x in st.blobs && x != v.sha ==> x in st'.blobs && st'.blobs[x] == st.blobs[x]
  }

  lemma AddsExtends(st: Store, st': Store, v: Version)
    requires Adds(st, st', v)
    ensures Extends(st.versions, st'.versions)
    ensures forall x :: First(st.versions, x).Some? ==> First(st'.versions, x) == First(st.versions, x)
  {
    forall x { FirstAppend(st.versions, v, x); }
  }

  /** The full record a chain starts from still gives its bytes. */
  lemma OriginStays(c: Codec, st: Store, content: map<Hash, Bytes>, st': Store, v: Version, o: Hash)
    requires Refines(c, st, content) && Adds(st, st', v) && o in content
    requires First(st.versions, o).Some? && !First(st.versions, o).value.storage.Delta?
    ensures o in st'.blobs && BaseBytes(c, st', o) == content[o]
  {
    AddsExtends(st, st', v);
    assert Represents(c, st, content, o);
  }

  /** Adding a record and a blob for a new hash leaves reconstruction of the base as it was. */
  lemma BaseStillRebuilds(c: Codec, st: Store, content: map<Hash, Bytes>, st': Store, v: Version, b: Hash, k: nat)
    requires Refines(c, st, content) && Adds(st, st', v) && DepthAtMost(st.versions, b, k) && k > 0
    ensures b in content && Walk(st'.versions, b, k).Some?
    ensures var rest := Walk(st'.versions, b, k).value;
            && rest != [] && ChainBase(rest).Some? && ChainBase(rest).value in st'.blobs
            && Apply(c, st'.blobs, rest, BaseBytes(c, st', ChainBase(rest).value)) == Ok(content[b])
  {
    var o := Origin(st.versions, b, k);
    WalkRebuilds(c, st, content, b, k);
    OriginIsFull(st.versions, b, k);
    OriginStays(c, st, content, st', v, o);
    WalkStays(c, st, st', v, b, k, content[o]);
  }

  lemma WalkStays(c: Codec, st: Store, st': Store, v: Version, b: Hash, k: nat, start: Bytes)
    requires Adds(st, st', v) && DepthAtMost(st.versions, b, k) && Walk(st.versions, b, k).Some?
    requires Apply(c, st.blobs, Walk(st.versions, b, k).value, start).Ok?
    ensures Walk(st'.versions, b, k) == Walk(st.versions, b, k)
    ensures var chain := Walk(st.versions, b, k).value;
            Apply(c, st'.blobs, chain, start) == Apply(c, st.blobs, chain, start)
  {
    AddsExtends(st, st', v);
    WalkExtends(st.versions, st'.versions, b, k);
    WalkAvoids(st.versions, b, k, v.sha);
    ApplySame(c, st.blobs, st'.blobs, Walk(st.versions, b, k).value, start);
  }

  /** Rebuilding a new delta whose base is within reach is decoding it against the base's bytes. */
  lemma RebuildDelta(c: Codec, st: Store, content: map<Hash, Bytes>, st': Store, v: Version, k: nat)
    requires Refines(c, st, content) && Adds(st, st', v) && v.storage.Delta? && v.base.Some?
    requires k > 0 && DepthAtMost(st.versions, v.base.value, k)
    ensures v.base.value in content
    ensures Rebuild(c, st', v.sha, k + 1) == ApplyOne(c, st'.blobs, v, content[v.base.value])
  {
    FirstAppend(st.versions, v, v.sha);
    BaseStillRebuilds(c, st, content, st', v, v.base.value, k);
    var rest := Walk(st'.versions, v.base.value, k).value;
    ChainBaseCons(v, rest);
    assert Walk(st'.versions, v.sha, k + 1) == Some([v] + rest);
  }

  lemma {:induction false} DeepStays(c: Codec, st: Store, st': Store, v: Version, h: Hash, k: nat)
    requires Adds(st, st', v) && AllStored(st) && Deep(st.versions, h, k)
    ensures Deep(st'.versions, h, k) && WalkBytes(c, st', h, k) == WalkBytes(c, st, h, k)
    decreases k
  {
    if k == 0 {
      NodeStays(c, st, st', v, h, Err(NoBase));
    } else {
      var base := First(st.versions, h).value.base.value;
      DeepStays(c, st, st', v, base, k - 1);
      NodeStays(c, st, st', v, h, WalkBytes(c, st, base, k - 1));
    }
  }

  lemma NodeStays(c: Codec, st: Store, st': Store, v: Version, h: Hash, before: Result<Bytes, Failure>)
    requires Adds(st, st', v) && AllStored(st)
    requires First(st.versions, h).Some? && First(st.versions, h).value.storage.Delta?
    ensures First(st'.versions, h) == First(st.versions, h)
    ensures h in st.blobs && h in st'.blobs && st'.blobs[h] == st.blobs[h]
    ensures var w := First(st.versions, h).value; ApplyTo(c, st'.blobs, w, before) == ApplyTo(c, st.blobs, w, before)
  {
    FirstAppend(st.versions, v, h);
  }

  lemma AddedAreStored(st: Store, st': Store, v: Version)
    requires Adds(st, st', v) && AllStored(st)
    ensures AllStored(st')
  {
    forall x | First(st'.versions, x).Some?
      ensures x in st'.blobs
    {
      FirstAppend(st.versions, v, x);
    }
  }

  lemma RebuildOnDeep(c: Codec, st: Store, st': Store, v: Version, k: nat)
    requires Adds(st, st', v) && AllStored(st) && v.storage.Delta? && v.base.Some? && Deep(st.versions, v.base.value, k)
    ensures Rebuild(c, st', v.sha, k + 1) == ApplyTo(c, st'.blobs, v, WalkBytes(c, st, v.base.value, k))
  {
    FirstAppend(st.versions, v, v.sha);
    DeepStays(c, st, st', v, v.base.value, k);
    AddedAreStored(st, st', v);
    DeepRebuild(c, st', v.sha, k + 1);
  }

  /** Rebuilding a new delta is applying it to what the hops left make of its base. */
  lemma RebuildNew(c: Codec, st: Store, content: map<Hash, Bytes>, st': Store, v: Version, k: nat)
    requires Refines(c, st, content) && Adds(st, st', v) && v.storage.Delta? && v.base.Some? && k > 0
    requires First(st.versions, v.base.value).Some?
    ensures v.base.value in content
    ensures Rebuild(c, st', v.sha, k + 1) ==
            ApplyTo(c, st'.blobs, v, if DepthAtMost(st.versions, v.base.value, k) then Ok(content[v.base.value])
                                     else WalkBytes(c, st, v.base.value, k))
  {
    TooDeep(c, st, content, v.base.value, k);
    if DepthAtMost(st.versions, v.base.value, k) {
      RebuildDelta(c, st, content, st', v, k);
    } else {
      RebuildOnDeep(c, st, st', v, k);
    }
  }

  lemma ShallowBase(c: Codec, st: Store, content: map<Hash, Bytes>, b: Hash, k: nat)
    requires Refines(c, st, content) && k <= MAX_DELTA_CHAIN_DEPTH && DepthAtMost(st.versions, b, k)
    ensures b in content && BaseContent(c, st, b) == Some(content[b])
  {
    DepthGrows(st.versions, b, k, MAX_DELTA_CHAIN_DEPTH);
    assert Represents(c, st, content, b);
    ReconstructRebuilds(c, st, content, b);
  }

  lemma ReadOfBaseIs(c: Codec, st: Store, content: map<Hash, Bytes>, b: Hash, k: nat)
    requires Refines(c, st, content) && First(st.versions, b).Some? && k <= MAX_DELTA_CHAIN_DEPTH
    ensures b in content
    ensures ReadOfBase(c, st, b, k) == if DepthAtMost(st.versions, b, k) then Ok(content[b]) else WalkBytes(c, st, b, k)
  {
    if DepthAtMost(st.versions, b, k) {
      ShallowBase(c, st, content, b, k);
    }
  }

  /** A recorded upload in delta form adds its record, and its blob if that is new. */
  lemma DeltaAdds(c: Codec, lfsEnabled: bool, st: Store, h: Hash, data: Bytes, ctx: Context, now: nat)
    requires First(st.versions, h).None? && Recorded(lfsEnabled, ctx) && st.blobs.Keys == st.index.Keys
    requires ChooseForm(c, lfsEnabled, st, data, ctx).storage.Delta?
    ensures var v := NewVersion(st.versions, h, |data|, ChooseForm(c, lfsEnabled, st, data, ctx), ctx, now);
            var st' := Put(c, lfsEnabled, st, h, data, ctx, now);
            && Adds(st, st', v) && First(st'.versions, h) == Some(v) && v.storage.Delta? && v.sha == h
            && ctx.base.Some? && v.base == ctx.base && First(st.versions, ctx.base.value).Some?
  {
    ChosenBase(c, lfsEnabled, st, data, ctx);
    FirstAppend(st.versions, NewVersion(st.versions, h, |data|, ChooseForm(c, lfsEnabled, st, data, ctx), ctx, now), h);
  }

  lemma ReadNewDelta(c: Codec, lfsEnabled: bool, st: Store, content: map<Hash, Bytes>, h: Hash, data: Bytes,
                     ctx: Context, now: nat)
    requires Refines(c, st, content) && First(st.versions, h).None?
    requires Recorded(lfsEnabled, ctx) && ChooseForm(c, lfsEnabled, st, data, ctx).storage.Delta?
    ensures var st' := Put(c, lfsEnabled, st, h, data, ctx, now);
            && ctx.base.Some? && h in st'.blobs
            && var read := ReadOfBase(c, st, ctx.base.value, MAX_DELTA_CHAIN_DEPTH - 1);
               Get(c, st', h) == Some(Decoded(c, read, st'.blobs[h]))
  {
    var st' := Put(c, lfsEnabled, st, h, data, ctx, now);
    DeltaAdds(c, lfsEnabled, st, h, data, ctx, now);
    ReadAdded(c, st, content, st', First(st'.versions, h).value, MAX_DELTA_CHAIN_DEPTH - 1);
  }

  lemma ReadAdded(c: Codec, st: Store, content: map<Hash, Bytes>, st': Store, v: Version, k: nat)
    requires Refines(c, st, content) && Adds(st, st', v) && v.storage.Delta? && v.base.Some?
    requires First(st.versions, v.base.value).Some? && First(st'.versions, v.sha) == Some(v)
    requires 0 < k && k + 1 == MAX_DELTA_CHAIN_DEPTH
    ensures Get(c, st', v.sha) == Some(Decoded(c, ReadOfBase(c, st, v.base.value, k), st'.blobs[v.sha]))
  {
    RebuildNew(c, st, content, st', v, k);
    ReadOfBaseIs(c, st, content, v.base.value, k);
  }

  /** What a GET answers for a delta: what it decodes to, or the stored bytes if that fails. */
  function Decoded(c: Codec, before: Result<Bytes, Failure>, stored: Bytes): Bytes {
    match before
    case Err(_) => stored
    case Ok(bytes) =>
      match c.decodeDelta(bytes, Unzip(c, stored))
      case Some(x) => x
      case None => stored
  }

  /** Uploading a recorded blob again changes nothing that a read of it uses. */
  lemma ReadAfterDuplicate(c: Codec, lfsEnabled: bool, st: Store, h: Hash, data: Bytes, ctx: Context, now: nat)
    requires h in st.blobs && h in st.index && First(st.versions, h).Some?
    ensures Get(c, Put(c, lfsEnabled, st, h, data, ctx, now), h) == Get(c, st, h)
  {
    var st' := Put(c, lfsEnabled, st, h, data, ctx, now);
    PutExtends(c, lfsEnabled, st, h, data, ctx, now);
    SameRecordsRebuild(c, st, st', h, MAX_DELTA_CHAIN_DEPTH);
  }

  lemma SameRecordsRebuild(c: Codec, st: Store, st': Store, h: Hash, k: nat)
    requires st'.blobs == st.blobs && forall x :: First(st'.versions, x) == First(st.versions, x)
    ensures Rebuild(c, st', h, k) == Rebuild(c, st, h, k)
  {
    SameRecordsWalk(st.versions, st'.versions, h, k);
  }

  lemma {:induction false} SameRecordsWalk(vs: seq<Version>, ws: seq<Version>, h: Hash, k: nat)
    requires forall x :: First(ws, x) == First(vs, x)
    ensures Walk(ws, h, k) == Walk(vs, h, k)
    decreases k
  {
    if k > 0 && First(vs, h).Some? && First(vs, h).value.base.Some? {
      SameRecordsWalk(vs, ws, First(vs, h).value.base.value, k - 1);
    }
  }

  /** A record appended for bytes stored before without one. */
  lemma ReadRelabelled(c: Codec, lfsEnabled: bool, st: Store, content: map<Hash, Bytes>, h: Hash, data: Bytes,
                       ctx: Context, now: nat)
    requires Refines(c, st, content) && h in content && First(st.versions, h).None?
    ensures Get(c, Put(c, lfsEnabled, st, h, data, ctx, now), h) == Some(content[h]) <==>
            UploadReadsBack(c, lfsEnabled, st, content, h, data, ctx)
  {
    assert Represents(c, st, content, h);
    if Recorded(lfsEnabled, ctx) && ChooseForm(c, lfsEnabled, st, data, ctx).storage.Delta? {
      ReadNewDelta(c, lfsEnabled, st, content, h, data, ctx, now);
      RelabelledBytes(c, lfsEnabled, st, h, data, ctx, now);
    } else {
      PutExtends(c, lfsEnabled, st, h, data, ctx, now);
    }
  }

  lemma RelabelledBytes(c: Codec, lfsEnabled: bool, st: Store, h: Hash, data: Bytes, ctx: Context, now: nat)
    requires h in st.blobs && h in st.index
    ensures var st' := Put(c, lfsEnabled, st, h, data, ctx, now);
            h in st'.blobs && st'.blobs[h] == st.blobs[h]
  {
  }

  lemma ReadNew(c: Codec, lfsEnabled: bool, st: Store, content: map<Hash, Bytes>, h: Hash, data: Bytes,
                ctx: Context, now: nat)
    requires Refines(c, st, content) && h !in content
    ensures Get(c, Put(c, lfsEnabled, st, h, data, ctx, now), h) == Some(data) <==>
            UploadReadsBack(c, lfsEnabled, st, content, h, data, ctx)
  {
    PutExtends(c, lfsEnabled, st, h, data, ctx, now);
    ChosenBase(c, lfsEnabled, st, data, ctx);
    if Recorded(lfsEnabled, ctx) && ChooseForm(c, lfsEnabled, st, data, ctx).storage.Delta? {
      ReadNewDelta(c, lfsEnabled, st, content, h, data, ctx, now);
    }
  }

  /** An upload reads back exactly when the test before it says so, whatever the depth of its base. */
  lemma UploadReadsBackIff(c: Codec, lfsEnabled: bool, st: Store, content: map<Hash, Bytes>, h: Hash, data: Bytes,
                           ctx: Context, now: nat)
    requires Refines(c, st, content)
    ensures Get(c, Put(c, lfsEnabled, st, h, data, ctx, now), h) == Some(PutContent(content, h, data)[h]) <==>
            UploadReadsBack(c, lfsEnabled, st, content, h, data, ctx)
  {
    if h !in content {
      ReadNew(c, lfsEnabled, st, content, h, data, ctx, now);
    } else if First(st.versions, h).None? {
      ReadRelabelled(c, lfsEnabled, st, content, h, data, ctx, now);
    } else {
      ReadAfterDuplicate(c, lfsEnabled, st, h, data, ctx, now);
      ReadableIffShallow(c, st, content, h);
    }
  }

  /** A new delta on a base that reads back does so itself exactly when the base is at most nine deep, or by luck. */
  lemma DeltaUploadIff(c: Codec, lfsEnabled: bool, st: Store, content: map<Hash, Bytes>, h: Hash, data: Bytes,
                       ctx: Context, now: nat)
    requires Lawful(c) && Refines(c, st, content) && PutSound(c, lfsEnabled, st, h, data, ctx)
    requires ReadsBase(c, st, content, ctx) && h !in content
    requires ChooseForm(c, lfsEnabled, st, data, ctx).storage.Delta?
    ensures var st' := Put(c, lfsEnabled, st, h, data, ctx, now);
            && h in st'.blobs && ctx.base.Some?
            && (Get(c, st', h) == Some(data) <==>
                || DepthAtMost(st.versions, ctx.base.value, MAX_DELTA_CHAIN_DEPTH - 1)
                || Lucky(c, st', PutContent(content, h, data), h, MAX_DELTA_CHAIN_DEPTH))
  {
    var st' := Put(c, lfsEnabled, st, h, data, ctx, now);
    PutKeepsMeaning(c, lfsEnabled, st, content, h, data, ctx, now);
    DeltaAdds(c, lfsEnabled, st, h, data, ctx, now);
    DepthOfNew(c, st, content, st', First(st'.versions, h).value, MAX_DELTA_CHAIN_DEPTH - 1);
    ReadableIffShallow(c, st', PutContent(content, h, data), h);
  }

  lemma DepthOfNew(c: Codec, st: Store, content: map<Hash, Bytes>, st': Store, v: Version, k: nat)
    requires Refines(c, st, content) && Adds(st, st', v) && v.storage.Delta? && v.base.Some?
    requires First(st.versions, v.base.value).Some?
    ensures DepthAtMost(st'.versions, v.sha, k + 1) <==> DepthAtMost(st.versions, v.base.value, k)
  {
    forall x { FirstAppend(st.versions, v, x); }
    TooDeep(c, st, content, v.base.value, k);
    if DepthAtMost(st.versions, v.base.value, k) {
      ExtendsDepth(st.versions, st'.versions, v.base.value, k);
    } else {
      DeepStays(c, st, st', v, v.base.value, k);
      DeepIsNotShallow(st'.versions, v.base.value, k);
    }
  }

  lemma {:induction false} DeepIsNotShallow(vs: seq<Version>, h: Hash, k: nat)
    requires Deep(vs, h, k)
    ensures !DepthAtMost(vs, h, k)
    decreases k
  {
    if k > 0 {
      DeepIsNotShallow(vs, First(vs, h).value.base.value, k - 1);
    }
  }

  lemma {:induction false} WalkExtends(vs: seq<Version>, ws: seq<Version>, h: Hash, k: nat)
    requires Extends(vs, ws) && DepthAtMost(vs, h, k)
    ensures Walk(ws, h, k) == Walk(vs, h, k)
    decreases k
  {
    var v := First(vs, h).value;
    if v.storage.Delta? {
      WalkExtends(vs, ws, v.base.value, k - 1);
    }
  }

  lemma {:induction false} WalkAvoids(vs: seq<Version>, h: Hash, k: nat, s: Hash)
    requires DepthAtMost(vs, h, k) && First(vs, s).None?
    ensures Walk(vs, h, k).Some?
    ensures forall w :: w in Walk(vs, h, k).value ==> w.sha != s
    ensures Origin(vs, h, k) != s
    decreases k
  {
    var v := First(vs, h).value;
    if v.storage.Delta? {
      WalkAvoids(vs, v.base.value, k - 1, s);
    }
  }

  lemma {:induction false} ApplySame(c: Codec, blobs: map<Hash, Bytes>, blobs': map<Hash, Bytes>, chain: seq<Version>,
                                     start: Bytes)
    requires Apply(c, blobs, chain, start).Ok?
    requires forall w :: w in chain && w.sha in blobs ==> w.sha in blobs' && blobs'[w.sha] == blobs[w.sha]
    ensures Apply(c, blobs', chain, start) == Apply(c, blobs, chain, start)
  {
    if chain != [] {
      assert chain[0] in chain && forall w :: w in chain[1..] ==> w in chain;
      ApplySame(c, blobs, blobs', chain[1..], start);
    }
  }

  // ----- deleting bytes without rebasing -----

  /** A chain is rebuilt from the bytes under h, as its base or as one of its deltas. */
  ghost predicate Uses(chain: seq<Version>, h: Hash) {
    ChainBase(chain) == Some(h) || exists w :: w in chain && w.storage.Delta? && w.sha == h
  }

  /** Reading x takes the bytes under h. */
  ghost predicate Needs(vs: seq<Version>, x: Hash, h: Hash, k: nat) {
    && First(vs, x).Some? && First(vs, x).value.storage.Delta?
    && Walk(vs, x, k).Some? && ChainBase(Walk(vs, x, k).value).Some? && Uses(Walk(vs, x, k).value, h)
  }

  lemma {:induction false} ApplyUnused(c: Codec, blobs: map<Hash, Bytes>, h: Hash, chain: seq<Version>, start: Bytes)
    requires forall w :: w in chain && w.storage.Delta? ==> w.sha != h
    ensures Apply(c, blobs - {h}, chain, start) == Apply(c, blobs, chain, start)
  {
    if chain != [] {
      assert chain[0] in chain && forall w :: w in chain[1..] ==> w in chain;
      ApplyUnused(c, blobs, h, chain[1..], start);
    }
  }

  lemma {:induction false} ApplyUsed(c: Codec, blobs: map<Hash, Bytes>, h: Hash, chain: seq<Version>, start: Bytes,
                                     w: Version)
    requires w in chain && w.storage.Delta? && w.sha == h
    ensures Apply(c, blobs - {h}, chain, start).Err?
  {
    if w != chain[0] {
      assert w in chain[1..];
      ApplyUsed(c, blobs, h, chain[1..], start, w);
    }
  }

  lemma RebuildWithout(c: Codec, st: Store, h: Hash, x: Hash, k: nat)
    requires First(st.versions, x).Some? && First(st.versions, x).value.storage.Delta?
    ensures var after := st.(blobs := st.blobs - {h}, index := st.index - {h});
            if Needs(st.versions, x, h, k) then Rebuild(c, after, x, k).Err?
            else Rebuild(c, after, x, k) == Rebuild(c, st, x, k)
  {
    var walk := Walk(st.versions, x, k);
    if walk.Some? && ChainBase(walk.value).Some? {
      var chain, b := walk.value, ChainBase(walk.value).value;
      if b in st.blobs {
        if w :| w in chain && w.storage.Delta? && w.sha == h {
          ApplyUsed(c, st.blobs, h, chain, BaseBytes(c, st, b), w);
        } else {
          ApplyUnused(c, st.blobs, h, chain, BaseBytes(c, st, b));
        }
      }
    }
  }

  /**
   Deleting the bytes under h and rebasing nothing leaves the read of another stored blob as it was exactly when
   that read does not take those bytes, or was answered with the stored form already.
   */
  lemma EraseReadsIff(c: Codec, st: Store, h: Hash, x: Hash)
    requires x != h && x in st.blobs
    ensures var after := st.(blobs := st.blobs - {h}, index := st.index - {h});
            Get(c, after, x) == Get(c, st, x) <==>
            !Needs(st.versions, x, h, MAX_DELTA_CHAIN_DEPTH) || Get(c, st, x) == Some(st.blobs[x])
  {
    if First(st.versions, x).Some? && First(st.versions, x).value.storage.Delta? {
      RebuildWithout(c, st, h, x, MAX_DELTA_CHAIN_DEPTH);
    }
  }
}
