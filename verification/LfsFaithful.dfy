/** The LFS store keeps the meaning of every blob while its stored form changes. */
module LfsFaithful {
  import opened Prelude
  import opened LfsStore

  // ----- delta chains -----

  /** h has a record, and at most k deltas lead from it to a record that is no delta. */
  predicate DepthAtMost(vs: seq<Version>, h: Hash, k: nat)
    decreases k
  {
    match First(vs, h)
    case None => false
    case Some(v) => v.storage.Delta? ==> k > 0 && v.base.Some? && DepthAtMost(vs, v.base.value, k - 1)
  }

  lemma {:induction false} DepthGrows(vs: seq<Version>, h: Hash, k: nat, n: nat)
    requires DepthAtMost(vs, h, k) && k <= n
    ensures DepthAtMost(vs, h, n)
    decreases k
  {
    var v := First(vs, h).value;
    if v.storage.Delta? {
      DepthGrows(vs, v.base.value, k - 1, n - 1);
    }
  }

  /** Records keep their place or become full ones: no chain gets longer. */
  ghost predicate NoLonger(vs: seq<Version>, ws: seq<Version>) {
    forall h, k: nat :: DepthAtMost(vs, h, k) ==> DepthAtMost(ws, h, k)
  }

  /** Where vs has a first record, ws has the same one. */
  ghost predicate Extends(vs: seq<Version>, ws: seq<Version>) {
    forall h :: First(vs, h).Some? ==> First(ws, h) == First(vs, h)
  }

  lemma {:induction false} ExtendsDepth(vs: seq<Version>, ws: seq<Version>, h: Hash, k: nat)
    requires Extends(vs, ws) && DepthAtMost(vs, h, k)
    ensures DepthAtMost(ws, h, k)
    decreases k
  {
    var v := First(vs, h).value;
    if v.storage.Delta? {
      ExtendsDepth(vs, ws, v.base.value, k - 1);
    }
  }

  /** ws is vs with the first record of s made a full one. */
  ghost predicate Flattens(vs: seq<Version>, ws: seq<Version>, s: Hash) {
    && (forall h :: h != s ==> First(ws, h) == First(vs, h))
    && First(ws, s).Some? && !First(ws, s).value.storage.Delta?
  }

  lemma {:induction false} FlattensDepth(vs: seq<Version>, ws: seq<Version>, s: Hash, h: Hash, k: nat)
    requires Flattens(vs, ws, s) && DepthAtMost(vs, h, k)
    ensures DepthAtMost(ws, h, k)
    decreases k
  {
    if h != s {
      var v := First(vs, h).value;
      if v.storage.Delta? {
        FlattensDepth(vs, ws, s, v.base.value, k - 1);
      }
    }
  }

  /** No first record is a delta against s. */
  ghost predicate NoDeltaOn(vs: seq<Version>, s: Hash) {
    forall h :: First(vs, h).Some? && First(vs, h).value.storage.Delta? ==> First(vs, h).value.base != Some(s)
  }

  lemma {:induction false} WithoutDepth(vs: seq<Version>, ws: seq<Version>, s: Hash, h: Hash, k: nat)
    requires NoDeltaOn(vs, s) && (forall x :: x != s ==> First(ws, x) == First(vs, x))
    requires h != s && DepthAtMost(vs, h, k)
    ensures DepthAtMost(ws, h, k)
    decreases k
  {
    var v := First(vs, h).value;
    if v.storage.Delta? {
      WithoutDepth(vs, ws, s, v.base.value, k - 1);
    }
  }

  // ----- first records after each change -----

  lemma {:induction false} FirstAppend(vs: seq<Version>, v: Version, h: Hash)
    ensures First(vs + [v], h) == if First(vs, h).Some? then First(vs, h) else if v.sha == h then Some(v) else None
  {
    if vs == [] {
      assert vs + [v] == [v];
    } else {
      assert (vs + [v])[1..] == vs[1..] + [v];
      FirstAppend(vs[1..], v, h);
    }
  }

  lemma {:induction false} FirstUpdate(vs: seq<Version>, s: Hash, storage: Storage, base: Option<Hash>, size: nat,
                                       h: Hash)
    ensures var ws := UpdateFirst(vs, s, storage, base, size);
            First(ws, h) == if h == s && First(vs, s).Some?
                            then Some(First(vs, s).value.(storage := storage, base := base, storedSize := size))
                            else First(vs, h)
  {
    if vs != [] {
      FirstUpdate(vs[1..], s, storage, base, size, h);
    }
  }

  lemma {:induction false} FirstRemove(vs: seq<Version>, s: Hash, h: Hash)
    ensures First(RemoveSha(vs, s), h) == if h == s then None else First(vs, h)
  {
    if vs != [] {
      FirstRemove(vs[1..], s, h);
    }
  }

  lemma {:induction false} DeltasForAll(vs: seq<Version>, base: Hash)
    ensures forall v :: v in DeltasFor(vs, base) <==> v in vs && v.storage.Delta? && v.base == Some(base)
  {
    if vs != [] {
      DeltasForAll(vs[1..], base);
      assert vs == [vs[0]] + vs[1..];
    }
  }

  // ----- what the store means -----

  /** Writing x as a full blob and reading it back gives x. */
  predicate Stowable(c: Codec, x: Bytes) {
    Unzip(c, Zip(c, x)) == x
  }

  lemma CompressibleIsStowable(c: Codec, x: Bytes)
    requires Lawful(c) && c.compress(x).Some?
    ensures Stowable(c, x)
  {
  }

  /** The stored form of h stands for the bytes the map gives it. */
  ghost predicate Represents(c: Codec, st: Store, content: map<Hash, Bytes>, h: Hash)
    requires h in st.blobs && h in content
  {
    match First(st.versions, h)
    case None => st.blobs[h] == content[h]
    case Some(v) =>
      && v.originalSize == |content[h]|
      && match v.storage
         case Raw => st.blobs[h] == content[h]
         case Compressed => Unzip(c, st.blobs[h]) == content[h]
         case Delta =>
           && v.base.Some? && v.base.value in content && First(st.versions, v.base.value).Some?
           && c.encodeDelta(content[v.base.value], content[h]) == Some(Unzip(c, st.blobs[h]))
           && c.decodeDelta(content[v.base.value], Unzip(c, st.blobs[h])) == Some(content[h])
  }

  /** The store represents the map: same hashes, each stored form stands for its bytes, no record without a blob. */
  ghost predicate Refines(c: Codec, st: Store, content: map<Hash, Bytes>) {
    && st.blobs.Keys == content.Keys
    && st.index.Keys == content.Keys
    && (forall h :: First(st.versions, h).Some? ==> h in content)
    && (forall h {:trigger Represents(c, st, content, h)} :: h in content ==> Represents(c, st, content, h))
    && (forall h {:trigger Stowable(c, content[h])} :: h in content ==> Stowable(c, content[h]))
  }

  /** The stored form of x depends only on its record, its bytes, and its base. */
  lemma RepresentsFrame(c: Codec, st: Store, content: map<Hash, Bytes>, st': Store, content': map<Hash, Bytes>, x: Hash)
    requires x in st.blobs && x in content && Represents(c, st, content, x)
    requires x in st'.blobs && x in content' && st'.blobs[x] == st.blobs[x] && content'[x] == content[x]
    requires First(st'.versions, x) == First(st.versions, x)
    requires First(st.versions, x).Some? && First(st.versions, x).value.storage.Delta? ==>
               var b := First(st.versions, x).value.base.value;
               b in content' && content'[b] == content[b] && First(st'.versions, b).Some?
    ensures Represents(c, st', content', x)
  {
  }

  /** Every recorded blob is within reach of a read. */
  ghost predicate Reachable(st: Store) {
    forall h :: First(st.versions, h).Some? ==> DepthAtMost(st.versions, h, MAX_DELTA_CHAIN_DEPTH)
  }

  // ----- reading -----

  /** The full record at the end of a chain of at most k deltas. */
  function Origin(vs: seq<Version>, h: Hash, k: nat): Hash
    requires DepthAtMost(vs, h, k)
    decreases k
  {
    var v := First(vs, h).value;
    if v.storage.Delta? then Origin(vs, v.base.value, k - 1) else h
  }

  lemma ChainBaseCons(v: Version, rest: seq<Version>)
    ensures ChainBase([v] + rest) ==
            if rest != [] then ChainBase(rest) else if v.storage.Delta? then v.base else Some(v.sha)
    ensures ([v] + rest)[1..] == rest
  {
    if rest != [] {
      assert ([v] + rest)[|rest|] == rest[|rest| - 1];
    }
  }

  /** A walk of k hops over at most k deltas gathers what rebuilds h from its origin, even if it stops just short. */
  lemma {:induction false} WalkRebuilds(c: Codec, st: Store, content: map<Hash, Bytes>, h: Hash, k: nat)
    requires Refines(c, st, content) && DepthAtMost(st.versions, h, k)
    ensures h in content && Origin(st.versions, h, k) in content
    ensures Walk(st.versions, h, k).Some?
    ensures var chain, origin := Walk(st.versions, h, k).value, Origin(st.versions, h, k);
            && (k == 0 ==> chain == [] && origin == h)
            && (k > 0 ==> ChainBase(chain) == Some(origin))
            && Apply(c, st.blobs, chain, content[origin]) == Ok(content[h])
    decreases k
  {
    var v := First(st.versions, h).value;
    if v.storage.Delta? {
      WalkRebuilds(c, st, content, v.base.value, k - 1);
      assert Represents(c, st, content, h);
      ChainBaseCons(v, Walk(st.versions, v.base.value, k - 1).value);
    } else if k > 0 {
      ChainBaseCons(v, []);
      assert Walk(st.versions, h, k).value == [v] + [];
    }
  }

  lemma {:induction false} OriginIsFull(vs: seq<Version>, h: Hash, k: nat)
    requires DepthAtMost(vs, h, k)
    ensures var o := First(vs, Origin(vs, h, k)); o.Some? && !o.value.storage.Delta?
    decreases k
  {
    var v := First(vs, h).value;
    if v.storage.Delta? {
      OriginIsFull(vs, v.base.value, k - 1);
    }
  }

  /** A walk of k hops, k positive, rebuilds any blob at most k deltas deep. */
  lemma RebuildsWithin(c: Codec, st: Store, content: map<Hash, Bytes>, h: Hash, k: nat)
    requires Refines(c, st, content) && DepthAtMost(st.versions, h, k) && k > 0
    ensures h in content && Rebuild(c, st, h, k) == Ok(content[h])
  {
    WalkRebuilds(c, st, content, h, k);
    OriginIsFull(st.versions, h, k);
    var o := Origin(st.versions, h, k);
    assert Represents(c, st, content, o);
    assert BaseBytes(c, st, o) == content[o];
  }

  /** Up to and including 10 deltas over a raw or compressed blob, reconstruction gives the original bytes. */
  lemma ReconstructRebuilds(c: Codec, st: Store, content: map<Hash, Bytes>, h: Hash)
    requires Refines(c, st, content) && DepthAtMost(st.versions, h, MAX_DELTA_CHAIN_DEPTH)
    ensures h in content && Reconstruct(c, st, h) == Ok(content[h])
  {
    RebuildsWithin(c, st, content, h, MAX_DELTA_CHAIN_DEPTH);
  }

  /** GET and HEAD answer from the map. */
  lemma ReadsAreFaithful(c: Codec, st: Store, content: map<Hash, Bytes>, h: Hash)
    requires Refines(c, st, content) && Reachable(st)
    ensures Get(c, st, h) == if h in content then Some(content[h]) else None
    ensures Head(st, h) == if h in content then Some(|content[h]|) else None
  {
    if h in content {
      assert Represents(c, st, content, h);
      if First(st.versions, h).Some? {
        ReconstructRebuilds(c, st, content, h);
      }
    }
  }

  // ----- uploads -----

  /**
   When an upload keeps what the store means. What is refused here is accepted by the source:
   a compressed form without a record, a record for bytes stored without one, and a delta too
   small for the decoder's buffer.
   */
  predicate PutSound(c: Codec, lfsEnabled: bool, st: Store, h: Hash, data: Bytes, ctx: Context) {
    var form := ChooseForm(c, lfsEnabled, st, data, ctx);
    && Stowable(c, data)
    && if h in st.blobs then
         Recorded(lfsEnabled, ctx) && First(st.versions, h).None? ==> form.storage.Raw? && |data| == |st.blobs[h]|
       else
         && (!form.storage.Raw? ==> Recorded(lfsEnabled, ctx))
         && (form.storage.Delta? ==> ctx.base.Some? && DeltaFits(c, st, data, ctx.base.value))
  }

  predicate DeltaFits(c: Codec, st: Store, data: Bytes, base: Hash) {
    && BaseContent(c, st, base).Some? && DeltaAgainst(c, st, data, base).Some?
    && FitsBuffer(BaseContent(c, st, base).value, DeltaAgainst(c, st, data, base).value, data)
  }

  /** When it keeps the store readable as well: a new delta is not put on a base already 10 deltas deep. */
  predicate PutSafe(c: Codec, lfsEnabled: bool, st: Store, h: Hash, data: Bytes, ctx: Context) {
    && PutSound(c, lfsEnabled, st, h, data, ctx)
    && (h !in st.blobs && ChooseForm(c, lfsEnabled, st, data, ctx).storage.Delta? && ctx.base.Some? ==>
          DepthAtMost(st.versions, ctx.base.value, MAX_DELTA_CHAIN_DEPTH - 1))
  }

  /** The server reads the base of the upload, if it has one, as it was uploaded. */
  ghost predicate ReadsBase(c: Codec, st: Store, content: map<Hash, Bytes>, ctx: Context) {
    ctx.base.Some? && ctx.base.value in content ==> Get(c, st, ctx.base.value) == Some(content[ctx.base.value])
  }

  function PutContent(content: map<Hash, Bytes>, h: Hash, data: Bytes): map<Hash, Bytes> {
    if h in content then content else content[h := data]
  }

  lemma PutExtends(c: Codec, lfsEnabled: bool, st: Store, h: Hash, data: Bytes, ctx: Context, now: nat)
    ensures var st' := Put(c, lfsEnabled, st, h, data, ctx, now);
            && Extends(st.versions, st'.versions)
            && (forall x :: x != h ==> First(st'.versions, x) == First(st.versions, x))
            && (Recorded(lfsEnabled, ctx) && First(st.versions, h).None? ==>
                  First(st'.versions, h) ==
                  Some(NewVersion(st.versions, h, |data|, ChooseForm(c, lfsEnabled, st, data, ctx), ctx, now)))
            && (!Recorded(lfsEnabled, ctx) ==> st'.versions == st.versions)
  {
    if Recorded(lfsEnabled, ctx) {
      var v := NewVersion(st.versions, h, |data|, ChooseForm(c, lfsEnabled, st, data, ctx), ctx, now);
      forall x { FirstAppend(st.versions, v, x); }
    }
  }

  /** Only a worthwhile delta has a base. */
  lemma ChosenBase(c: Codec, lfsEnabled: bool, st: Store, data: Bytes, ctx: Context)
    ensures var form := ChooseForm(c, lfsEnabled, st, data, ctx);
            && (form.storage.Raw? ==> form.bytes == data)
            && (form.storage.Compressed? ==> form == FullForm(c, data))
            && (form.storage.Delta? ==> ctx.base.Some? && form.base == ctx.base
                                        && DeltaForm(c, st, data, ctx.base.value) == Some(form))
  {
  }

  /** A kept delta was encoded against the base's own bytes. */
  lemma DeltaIsOfBase(c: Codec, st: Store, content: map<Hash, Bytes>, data: Bytes, b: Hash)
    requires Lawful(c) && Refines(c, st, content)
    requires DeltaForm(c, st, data, b).Some? && DeltaFits(c, st, data, b)
    requires b in content ==> Get(c, st, b) == Some(content[b])
    ensures b in content && First(st.versions, b).Some?
    ensures var delta := Unzip(c, DeltaForm(c, st, data, b).value.bytes);
            c.encodeDelta(content[b], data) == Some(delta) && c.decodeDelta(content[b], delta) == Some(data)
  {
    assert BaseContent(c, st, b) == Some(content[b]);
    var delta := DeltaAgainst(c, st, data, b).value;
    assert Unzip(c, DeltaForm(c, st, data, b).value.bytes) == delta;
  }

  lemma PutStores(c: Codec, lfsEnabled: bool, st: Store, h: Hash, data: Bytes, ctx: Context, now: nat)
    requires h !in st.index
    ensures var st' := Put(c, lfsEnabled, st, h, data, ctx, now);
            h in st'.blobs && st'.blobs[h] == ChooseForm(c, lfsEnabled, st, data, ctx).bytes
  {
  }

  /** The uploaded blob itself is represented. */
  lemma PutRepresents(c: Codec, lfsEnabled: bool, st: Store, content: map<Hash, Bytes>, h: Hash, data: Bytes,
                      ctx: Context, now: nat)
    requires Lawful(c) && Refines(c, st, content) && PutSound(c, lfsEnabled, st, h, data, ctx)
    requires h !in content && ReadsBase(c, st, content, ctx)
    ensures var st' := Put(c, lfsEnabled, st, h, data, ctx, now);
            h in st'.blobs && Represents(c, st', PutContent(content, h, data), h)
  {
    PutStores(c, lfsEnabled, st, h, data, ctx, now);
    var form := ChooseForm(c, lfsEnabled, st, data, ctx);
    if form.storage.Delta? {
      PutRepresentsDelta(c, lfsEnabled, st, content, h, data, ctx, now);
    } else {
      PutExtends(c, lfsEnabled, st, h, data, ctx, now);
      ChosenBase(c, lfsEnabled, st, data, ctx);
      if Recorded(lfsEnabled, ctx) {
        assert First(Put(c, lfsEnabled, st, h, data, ctx, now).versions, h).value.storage == form.storage;
      }
    }
  }

  lemma PutRepresentsDelta(c: Codec, lfsEnabled: bool, st: Store, content: map<Hash, Bytes>, h: Hash, data: Bytes,
                           ctx: Context, now: nat)
    requires Lawful(c) && Refines(c, st, content) && PutSound(c, lfsEnabled, st, h, data, ctx)
    requires h !in content && ReadsBase(c, st, content, ctx) && ChooseForm(c, lfsEnabled, st, data, ctx).storage.Delta?
    ensures var st' := Put(c, lfsEnabled, st, h, data, ctx, now);
            h in st'.blobs && Represents(c, st', PutContent(content, h, data), h)
  {
    PutExtends(c, lfsEnabled, st, h, data, ctx, now);
    PutStores(c, lfsEnabled, st, h, data, ctx, now);
    ChosenBase(c, lfsEnabled, st, data, ctx);
    DeltaIsOfBase(c, st, content, data, ctx.base.value);
  }

  /** Blobs stored before are still represented. */
  lemma PutKeeps(c: Codec, lfsEnabled: bool, st: Store, content: map<Hash, Bytes>, h: Hash, data: Bytes,
                 ctx: Context, now: nat, x: Hash)
    requires Refines(c, st, content) && PutSound(c, lfsEnabled, st, h, data, ctx) && x in content
    ensures var st' := Put(c, lfsEnabled, st, h, data, ctx, now);
            x in st'.blobs && Represents(c, st', PutContent(content, h, data), x)
  {
    PutExtends(c, lfsEnabled, st, h, data, ctx, now);
    var st' := Put(c, lfsEnabled, st, h, data, ctx, now);
    assert Represents(c, st, content, x);
    if First(st'.versions, x) == First(st.versions, x) {
      RepresentsFrame(c, st, content, st', PutContent(content, h, data), x);
    }
  }

  lemma PutDepth(c: Codec, lfsEnabled: bool, st: Store, h: Hash, data: Bytes, ctx: Context, now: nat, x: Hash)
    requires Reachable(st) && PutSafe(c, lfsEnabled, st, h, data, ctx)
    requires First(Put(c, lfsEnabled, st, h, data, ctx, now).versions, x).Some?
    ensures DepthAtMost(Put(c, lfsEnabled, st, h, data, ctx, now).versions, x, MAX_DELTA_CHAIN_DEPTH)
  {
    PutExtends(c, lfsEnabled, st, h, data, ctx, now);
    var ws := Put(c, lfsEnabled, st, h, data, ctx, now).versions;
    if First(st.versions, x).Some? {
      ExtendsDepth(st.versions, ws, x, MAX_DELTA_CHAIN_DEPTH);
    } else {
      ChosenBase(c, lfsEnabled, st, data, ctx);
      if First(ws, x).value.storage.Delta? {
        ExtendsDepth(st.versions, ws, ctx.base.value, MAX_DELTA_CHAIN_DEPTH - 1);
      }
    }
  }

  lemma PutReachable(c: Codec, lfsEnabled: bool, st: Store, h: Hash, data: Bytes, ctx: Context, now: nat)
    requires Reachable(st) && PutSafe(c, lfsEnabled, st, h, data, ctx)
    ensures Reachable(Put(c, lfsEnabled, st, h, data, ctx, now))
  {
    forall x | First(Put(c, lfsEnabled, st, h, data, ctx, now).versions, x).Some?
      ensures DepthAtMost(Put(c, lfsEnabled, st, h, data, ctx, now).versions, x, MAX_DELTA_CHAIN_DEPTH)
    {
      PutDepth(c, lfsEnabled, st, h, data, ctx, now, x);
    }
  }

  lemma PutKeys(c: Codec, lfsEnabled: bool, st: Store, content: map<Hash, Bytes>, h: Hash, data: Bytes,
                ctx: Context, now: nat)
    requires Refines(c, st, content)
    ensures var st', content' := Put(c, lfsEnabled, st, h, data, ctx, now), PutContent(content, h, data);
            && st'.blobs.Keys == content'.Keys && st'.index.Keys == content'.Keys
            && forall x :: First(st'.versions, x).Some? ==> x in content'
  {
    PutExtends(c, lfsEnabled, st, h, data, ctx, now);
  }

  /** Whatever the depth of its base, a sound upload adds the blob to what the store means and changes nothing else. */
  lemma PutKeepsMeaning(c: Codec, lfsEnabled: bool, st: Store, content: map<Hash, Bytes>, h: Hash, data: Bytes,
                        ctx: Context, now: nat)
    requires Lawful(c) && Refines(c, st, content) && PutSound(c, lfsEnabled, st, h, data, ctx)
    requires ReadsBase(c, st, content, ctx)
    ensures Refines(c, Put(c, lfsEnabled, st, h, data, ctx, now), PutContent(content, h, data))
  {
    PutKeys(c, lfsEnabled, st, content, h, data, ctx, now);
    var st', content' := Put(c, lfsEnabled, st, h, data, ctx, now), PutContent(content, h, data);
    forall x | x in content'
      ensures x in st'.blobs && Represents(c, st', content', x) && Stowable(c, content'[x])
    {
      if x in content {
        PutKeeps(c, lfsEnabled, st, content, h, data, ctx, now, x);
      } else {
        PutRepresents(c, lfsEnabled, st, content, h, data, ctx, now);
      }
    }
  }

  /** A safe upload also leaves everything within reach. */
  lemma PutRefines(c: Codec, lfsEnabled: bool, st: Store, content: map<Hash, Bytes>, h: Hash, data: Bytes,
                   ctx: Context, now: nat)
    requires Lawful(c) && Refines(c, st, content) && Reachable(st) && PutSafe(c, lfsEnabled, st, h, data, ctx)
    ensures Refines(c, Put(c, lfsEnabled, st, h, data, ctx, now), PutContent(content, h, data))
    ensures Reachable(Put(c, lfsEnabled, st, h, data, ctx, now))
  {
    if ctx.base.Some? {
      ReadsAreFaithful(c, st, content, ctx.base.value);
    }
    PutReachable(c, lfsEnabled, st, h, data, ctx, now);
    PutKeepsMeaning(c, lfsEnabled, st, content, h, data, ctx, now);
  }

  // ----- deletes -----

  /** ws differs from vs only in first records made full. */
  ghost predicate Settles(vs: seq<Version>, ws: seq<Version>) {
    forall h :: First(ws, h) == First(vs, h)
                || (First(vs, h).Some? && First(ws, h).Some? && !First(ws, h).value.storage.Delta?)
  }

  /** Rebasing a recorded blob stores its own bytes in full. */
  lemma RebaseOneIs(c: Codec, st: Store, content: map<Hash, Bytes>, v: Version)
    requires Refines(c, st, content) && Reachable(st) && First(st.versions, v.sha).Some?
    ensures v.sha in content
    ensures var st' := RebaseOne(c, st, v);
            && st'.blobs == st.blobs[v.sha := Zip(c, content[v.sha])]
            && st'.index.Keys == st.index.Keys
            && (forall x :: x != v.sha ==> First(st'.versions, x) == First(st.versions, x))
            && First(st'.versions, v.sha).Some? && First(st'.versions, v.sha).value.storage.Compressed?
            && First(st'.versions, v.sha).value.originalSize == First(st.versions, v.sha).value.originalSize
  {
    ReconstructRebuilds(c, st, content, v.sha);
    forall x { FirstUpdate(st.versions, v.sha, Compressed, None, |content[v.sha]|, x); }
  }

  lemma RebaseOneRepresents(c: Codec, st: Store, content: map<Hash, Bytes>, v: Version, x: Hash)
    requires Refines(c, st, content) && Reachable(st) && First(st.versions, v.sha).Some? && x in content
    ensures x in RebaseOne(c, st, v).blobs && Represents(c, RebaseOne(c, st, v), content, x)
  {
    RebaseOneIs(c, st, content, v);
    assert Represents(c, st, content, x) && Stowable(c, content[x]);
    if x != v.sha {
      RepresentsFrame(c, st, content, RebaseOne(c, st, v), content, x);
    }
  }

  lemma RebaseOneRefines(c: Codec, st: Store, content: map<Hash, Bytes>, v: Version)
    requires Refines(c, st, content) && Reachable(st) && First(st.versions, v.sha).Some?
    ensures Refines(c, RebaseOne(c, st, v), content)
  {
    RebaseOneIs(c, st, content, v);
    forall x | x in content
      ensures x in RebaseOne(c, st, v).blobs && Represents(c, RebaseOne(c, st, v), content, x)
    {
      RebaseOneRepresents(c, st, content, v, x);
    }
    assert RebaseOne(c, st, v).blobs.Keys == content.Keys;
  }

  lemma RebaseOneKeeps(c: Codec, st: Store, content: map<Hash, Bytes>, v: Version)
    requires Refines(c, st, content) && Reachable(st) && First(st.versions, v.sha).Some?
    ensures Refines(c, RebaseOne(c, st, v), content) && Reachable(RebaseOne(c, st, v))
    ensures Flattens(st.versions, RebaseOne(c, st, v).versions, v.sha)
    ensures NoLonger(st.versions, RebaseOne(c, st, v).versions)
  {
    RebaseOneIs(c, st, content, v);
    RebaseOneRefines(c, st, content, v);
    forall x, k: nat | DepthAtMost(st.versions, x, k)
      ensures DepthAtMost(RebaseOne(c, st, v).versions, x, k)
    {
      FlattensDepth(st.versions, RebaseOne(c, st, v).versions, v.sha, x, k);
    }
  }

  ghost predicate IsFull(vs: seq<Version>, h: Hash) {
    First(vs, h).Some? && !First(vs, h).value.storage.Delta?
  }

  /** Rewriting deltas one by one keeps every blob's meaning and lengthens no chain. */
  lemma {:induction false} RebaseAllKeeps(c: Codec, st: Store, content: map<Hash, Bytes>, deltas: seq<Version>)
    requires Refines(c, st, content) && Reachable(st)
    requires forall v :: v in deltas ==> First(st.versions, v.sha).Some?
    ensures Refines(c, RebaseAll(c, st, deltas), content) && Reachable(RebaseAll(c, st, deltas))
    ensures NoLonger(st.versions, RebaseAll(c, st, deltas).versions)
    ensures Settles(st.versions, RebaseAll(c, st, deltas).versions)
    ensures var ws := RebaseAll(c, st, deltas).versions; forall v :: v in deltas ==> IsFull(ws, v.sha)
    decreases |deltas|
  {
    if deltas != [] {
      var mid := RebaseOne(c, st, deltas[0]);
      RebaseOneKeeps(c, st, content, deltas[0]);
      assert IsFull(mid.versions, deltas[0].sha);
      RebaseAllKeeps(c, mid, content, deltas[1..]);
      SettlesTransitive(st.versions, mid.versions, RebaseAll(c, mid, deltas[1..]).versions, deltas[0].sha);
      forall v | v in deltas
        ensures IsFull(RebaseAll(c, mid, deltas[1..]).versions, v.sha)
      {
        if v != deltas[0] { assert v in deltas[1..]; }
      }
    }
  }

  lemma SettlesTransitive(us: seq<Version>, vs: seq<Version>, ws: seq<Version>, s: Hash)
    requires Flattens(us, vs, s) && First(us, s).Some? && Settles(vs, ws)
    ensures Settles(us, ws) && IsFull(ws, s)
  {
  }

  lemma EraseFirst(st: Store, h: Hash)
    requires First(st.versions, h).Some? ==> h in st.index
    ensures forall x :: First(Erase(st, h).versions, x) == if x == h then None else First(st.versions, x)
  {
    forall x { FirstRemove(st.versions, h, x); }
  }

  lemma EraseRepresents(c: Codec, st: Store, content: map<Hash, Bytes>, h: Hash, x: Hash)
    requires Refines(c, st, content) && NoDeltaOn(st.versions, h) && x in content && x != h
    ensures x in Erase(st, h).blobs && Represents(c, Erase(st, h), content - {h}, x)
  {
    EraseFirst(st, h);
    assert Represents(c, st, content, x);
    RepresentsFrame(c, st, content, Erase(st, h), content - {h}, x);
  }

  /** Once nothing is a delta on it, erasing a blob leaves the rest as it was. */
  lemma EraseKeeps(c: Codec, st: Store, content: map<Hash, Bytes>, h: Hash)
    requires Refines(c, st, content) && Reachable(st) && NoDeltaOn(st.versions, h)
    ensures Refines(c, Erase(st, h), content - {h}) && Reachable(Erase(st, h)) && NoDeltaOn(Erase(st, h).versions, h)
    ensures forall x, k: nat :: x != h && DepthAtMost(st.versions, x, k) ==> DepthAtMost(Erase(st, h).versions, x, k)
  {
    EraseFirst(st, h);
    forall x, k: nat | x != h && DepthAtMost(st.versions, x, k)
      ensures DepthAtMost(Erase(st, h).versions, x, k)
    {
      WithoutDepth(st.versions, Erase(st, h).versions, h, x, k);
    }
    forall x | x in content - {h}
      ensures x in Erase(st, h).blobs && Represents(c, Erase(st, h), content - {h}, x)
      ensures Stowable(c, (content - {h})[x])
    {
      EraseRepresents(c, st, content, h, x);
    }
    assert Erase(st, h).blobs.Keys == (content - {h}).Keys && Erase(st, h).index.Keys == (content - {h}).Keys;
  }

  /**
   Deleting a blob first rewrites the deltas on it: every other blob keeps its bytes, no
   first record is a delta on the deleted blob, and no chain is longer than before.
   */
  lemma RemoveRefines(c: Codec, st: Store, content: map<Hash, Bytes>, h: Hash)
    requires Refines(c, st, content) && Reachable(st)
    ensures Refines(c, Remove(c, st, h), content - {h}) && Reachable(Remove(c, st, h))
    ensures NoDeltaOn(Remove(c, st, h).versions, h)
    ensures forall x, k: nat ::
              x != h && DepthAtMost(st.versions, x, k) ==> DepthAtMost(Remove(c, st, h).versions, x, k)
  {
    var deltas := DeltasFor(st.versions, h);
    DeltasForAll(st.versions, h);
    RebaseAllKeeps(c, st, content, deltas);
    var st' := RebaseAll(c, st, deltas);
    forall x | First(st'.versions, x).Some? && First(st'.versions, x).value.storage.Delta?
      ensures First(st'.versions, x).value.base != Some(h)
    {
      assert First(st'.versions, x) == First(st.versions, x);
    }
    EraseKeeps(c, st', content, h);
  }
}
