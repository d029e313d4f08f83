/**
 Uploads that write a blob again in place (mirror and NIP-96), whatever its version record says: exactly when it,
 and the blobs built on it, still read the same.
 */
module LfsOverwrite {
  import opened Prelude
  import opened LfsStore
  import opened LfsFaithful
  import opened LfsExact

  /** The bytes and the size under h written anew; the records stay. */
  function Overwrite(st: Store, h: Hash, data: Bytes): Store {
    st.(blobs := st.blobs[h := data], index := st.index[h := |data|])
  }

  // ----- reading one record at a time -----

  /** What a chain makes of h when k hops are left: with none the stored bytes are taken for a full blob. */
  function ReadAt(c: Codec, st: Store, h: Hash, k: nat): Result<Bytes, Failure> {
    if k > 0 then Rebuild(c, st, h, k)
    else if h in st.blobs then Ok(BaseBytes(c, st, h))
    else Err(BaseMissing)
  }

  lemma ApplyCons(c: Codec, blobs: map<Hash, Bytes>, v: Version, rest: seq<Version>, start: Bytes)
    ensures Apply(c, blobs, [v] + rest, start) == ApplyTo(c, blobs, v, Apply(c, blobs, rest, start))
  {
    assert ([v] + rest)[1..] == rest;
  }

  /** A delta is applied to what the hops left make of its base. */
  lemma ReadAtDelta(c: Codec, st: Store, h: Hash, v: Version, k: nat)
    requires First(st.versions, h) == Some(v) && v.storage.Delta? && v.base.Some? && k > 0
    ensures ReadAt(c, st, h, k) == ApplyTo(c, st.blobs, v, ReadAt(c, st, v.base.value, k - 1))
  {
    var rest := Walk(st.versions, v.base.value, k - 1);
    if rest.Some? {
      ChainBaseCons(v, rest.value);
      assert Walk(st.versions, h, k) == Some([v] + rest.value);
      assert k > 1 ==> rest.value != [];
      var b := ChainBase([v] + rest.value);
      if b.Some? && b.value in st.blobs {
        ApplyCons(c, st.blobs, v, rest.value, BaseBytes(c, st, b.value));
      }
    }
  }

  lemma ReadAtFull(c: Codec, st: Store, h: Hash, v: Version, k: nat)
    requires First(st.versions, h) == Some(v) && !(v.storage.Delta? && v.base.Some?) && k > 0
    ensures ReadAt(c, st, h, k) ==
            if v.storage.Delta? then Err(NoBase)
            else if h in st.blobs then Ok(BaseBytes(c, st, h))
            else Err(BaseMissing)
  {
    assert Walk(st.versions, h, k) == Some([v]);
    if h in st.blobs {
      assert [v] == [v] + [];
      ApplyCons(c, st.blobs, v, [], BaseBytes(c, st, h));
    }
  }

  // ----- where a walk meets a hash -----

  /** The hops left when the walk back from x comes to h, if it does. */
  function Meets(vs: seq<Version>, x: Hash, h: Hash, k: nat): (j: Option<nat>)
    ensures j.Some? ==> j.value < k
    decreases k
  {
    if k == 0 then None
    else
      match First(vs, x)
      case None => None
      case Some(v) =>
        if !v.storage.Delta? || v.base.None? then None
        else if v.base == Some(h) then Some(k - 1)
        else Meets(vs, v.base.value, h, k - 1)
  }

  lemma {:induction false} MeetsSooner(vs: seq<Version>, x: Hash, h: Hash, k: nat, j: nat)
    requires Meets(vs, x, h, k).None? && j <= k
    ensures Meets(vs, x, h, j).None?
    decreases k
  {
    if j > 0 && First(vs, x).Some? {
      var v := First(vs, x).value;
      if v.storage.Delta? && v.base.Some? {
        MeetsSooner(vs, v.base.value, h, k - 1, j - 1);
      }
    }
  }

  lemma {:induction false} MeetsShallower(vs: seq<Version>, x: Hash, h: Hash, j: nat, k: nat)
    requires Meets(vs, x, h, j).Some? && DepthAtMost(vs, x, k)
    ensures k > 0 && DepthAtMost(vs, h, k - 1)
    decreases k
  {
    var v := First(vs, x).value;
    if v.base != Some(h) {
      MeetsShallower(vs, v.base.value, h, j - 1, k - 1);
      DepthGrows(vs, h, k - 2, k - 1);
    }
  }

  /** A chain that ends at a full blob does not come back to where it started. */
  lemma {:induction false} NotOnOwnChain(vs: seq<Version>, h: Hash, j: nat, k: nat)
    requires DepthAtMost(vs, h, k)
    ensures Meets(vs, h, h, j).None?
    decreases k
  {
    if Meets(vs, h, h, j).Some? {
      MeetsShallower(vs, h, h, j, k);
      NotOnOwnChain(vs, h, j, k - 1);
    }
  }

  /** The deltas from x down to h, applied to r in place of h. */
  function Through(c: Codec, st: Store, x: Hash, h: Hash, k: nat, r: Result<Bytes, Failure>): Result<Bytes, Failure>
    requires Meets(st.versions, x, h, k).Some?
    decreases k
  {
    var v := First(st.versions, x).value;
    ApplyTo(c, st.blobs, v, if v.base == Some(h) then r else Through(c, st, v.base.value, h, k - 1, r))
  }

  /** Stores that differ in the bytes under h at most. */
  ghost predicate SameBut(st: Store, st': Store, h: Hash) {
    && st'.versions == st.versions
    && forall x {:trigger x in st.blobs} {:trigger x in st'.blobs} ::
         x != h ==> (x in st'.blobs <==> x in st.blobs) && (x in st.blobs ==> st'.blobs[x] == st.blobs[x])
  }

  lemma {:induction false} ReadAtMeets(c: Codec, st: Store, st': Store, x: Hash, h: Hash, k: nat)
    requires SameBut(st, st', h) && x != h && Meets(st.versions, x, h, k).Some?
    ensures ReadAt(c, st', x, k) == Through(c, st, x, h, k, ReadAt(c, st', h, Meets(st.versions, x, h, k).value))
    decreases k
  {
    var v := First(st.versions, x).value;
    ReadAtDelta(c, st', x, v, k);
    if v.base != Some(h) {
      ReadAtMeets(c, st, st', v.base.value, h, k - 1);
    }
  }

  lemma {:induction false} ReadAtStays(c: Codec, st: Store, st': Store, x: Hash, h: Hash, k: nat)
    requires SameBut(st, st', h) && x != h && Meets(st.versions, x, h, k).None?
    ensures ReadAt(c, st', x, k) == ReadAt(c, st, x, k)
    decreases k
  {
    if k > 0 && First(st.versions, x).Some? {
      var v := First(st.versions, x).value;
      if v.storage.Delta? && v.base.Some? {
        ReadAtDelta(c, st, x, v, k);
        ReadAtDelta(c, st', x, v, k);
        ReadAtStays(c, st, st', v.base.value, h, k - 1);
      } else {
        ReadAtFull(c, st, x, v, k);
        ReadAtFull(c, st', x, v, k);
      }
    }
  }

  // ----- the blob written -----

  /** What a chain makes of h, with k hops left, once data is stored under it. */
  function Reread(c: Codec, st: Store, h: Hash, data: Bytes, k: nat): Result<Bytes, Failure> {
    match First(st.versions, h)
    case None => if k == 0 then Ok(data) else Err(ChainBroken)
    case Some(v) =>
      match v.storage
      case Raw => Ok(data)
      case Compressed => Ok(Unzip(c, data))
      case Delta =>
        if k == 0 then Ok(data)
        else if v.base.None? then Err(NoBase)
        else
          match ReadAt(c, st, v.base.value, k - 1)
          case Err(e) => Err(e)
          case Ok(before) =>
            match c.decodeDelta(before, Unzip(c, data))
            case None => Err(DecodeFailed)
            case Some(x) => Ok(x)
  }

  lemma RereadIs(c: Codec, st: Store, h: Hash, data: Bytes, k: nat)
    requires Meets(st.versions, h, h, k).None?
    ensures ReadAt(c, Overwrite(st, h, data), h, k) == Reread(c, st, h, data, k)
  {
    var after := Overwrite(st, h, data);
    if k > 0 && First(st.versions, h).Some? {
      var v := First(st.versions, h).value;
      if v.storage.Delta? && v.base.Some? {
        ReadAtDelta(c, after, h, v, k);
        ReadAtStays(c, st, after, v.base.value, h, k - 1);
      } else {
        ReadAtFull(c, after, h, v, k);
      }
    }
  }

  /** When an upload that overwrites reads back: a test on the record and the store before it. */
  predicate OverwriteReadsBack(c: Codec, st: Store, h: Hash, data: Bytes) {
    match First(st.versions, h)
    case None => true
    case Some(v) =>
      match v.storage
      case Raw => true
      case Compressed => Unzip(c, data) == data
      case Delta =>
        v.base.Some? ==>
          DecodesTo(c, ReadAt(c, st, v.base.value, MAX_DELTA_CHAIN_DEPTH - 1), Unzip(c, data), data, true)
  }

  /** A blob that is not on its own chain reads back what was written over it exactly when its record lets it. */
  lemma OverwriteReadsIff(c: Codec, st: Store, h: Hash, data: Bytes)
    requires Meets(st.versions, h, h, MAX_DELTA_CHAIN_DEPTH).None?
    ensures Get(c, Overwrite(st, h, data), h) == Some(data) <==> OverwriteReadsBack(c, st, h, data)
  {
    RereadIs(c, st, h, data, MAX_DELTA_CHAIN_DEPTH);
  }

  // ----- the blobs built on it -----

  function OrStored(r: Result<Bytes, Failure>, stored: Bytes): Bytes {
    match r
    case Ok(data) => data
    case Err(_) => stored
  }

  /** Whether x still reads the same: its walk does not come to h, or makes the same of both. */
  ghost predicate OverwriteKeeps(c: Codec, st: Store, h: Hash, data: Bytes, x: Hash)
    requires x in st.blobs
  {
    match Meets(st.versions, x, h, MAX_DELTA_CHAIN_DEPTH)
    case None => true
    case Some(j) =>
      OrStored(Through(c, st, x, h, MAX_DELTA_CHAIN_DEPTH, Reread(c, st, h, data, j)), st.blobs[x]) ==
      OrStored(Through(c, st, x, h, MAX_DELTA_CHAIN_DEPTH, ReadAt(c, st, h, j)), st.blobs[x])
  }

  lemma GetIs(c: Codec, st: Store, x: Hash)
    requires x in st.blobs && First(st.versions, x).Some? && First(st.versions, x).value.storage.Delta?
    ensures Get(c, st, x) == Some(OrStored(ReadAt(c, st, x, MAX_DELTA_CHAIN_DEPTH), st.blobs[x]))
  {
  }

  lemma OverwriteReadsOthersIff(c: Codec, st: Store, h: Hash, data: Bytes, x: Hash)
    requires x != h && x in st.blobs && Meets(st.versions, h, h, MAX_DELTA_CHAIN_DEPTH).None?
    ensures Get(c, Overwrite(st, h, data), x) == Get(c, st, x) <==> OverwriteKeeps(c, st, h, data, x)
  {
    var after, k := Overwrite(st, h, data), MAX_DELTA_CHAIN_DEPTH;
    if First(st.versions, x).Some? && First(st.versions, x).value.storage.Delta? {
      GetIs(c, st, x);
      GetIs(c, after, x);
      match Meets(st.versions, x, h, k)
      case None => ReadAtStays(c, st, after, x, h, k);
      case Some(j) =>
        ReadAtMeets(c, st, st, x, h, k);
        ReadAtMeets(c, st, after, x, h, k);
        MeetsSooner(st.versions, h, h, k, j);
        RereadIs(c, st, h, data, j);
    }
  }
}
