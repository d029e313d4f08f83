/** A run of twelve uploads, each a delta on the one before: the twelfth does not read back. */
module LfsDeepChain {
  import opened Prelude
  import opened LfsStore
  import opened LfsFaithful
  import opened LfsExact

  // A small lawful codec: compression prefixes a zero, a delta replaces the last byte.

  function TagZero(x: Bytes): Option<Bytes> {
    Some([0] + x)
  }

  function Untag(x: Bytes): Option<Bytes> {
    if x != [] && x[0] == 0 then Some(x[1..]) else None
  }

  function LastByte(base: Bytes, x: Bytes): Option<Bytes> {
    if |base| == |x| > 0 && base[..|base| - 1] == x[..|x| - 1] then Some([x[|x| - 1]]) else None
  }

  function ReplaceLast(base: Bytes, delta: Bytes): Option<Bytes> {
    if |delta| == 1 && |base| > 0 then Some(base[..|base| - 1] + delta) else None
  }

  const CODEC := Codec(TagZero, Untag, LastByte, ReplaceLast)

  lemma TagRoundTrip(x: Bytes)
    ensures Untag([0] + x) == Some(x)
  {
    assert ([0] + x)[1..] == x;
  }

  lemma LastByteRoundTrip(base: Bytes, x: Bytes)
    requires LastByte(base, x).Some?
    ensures ReplaceLast(base, LastByte(base, x).value) == Some(x)
  {
    assert x == x[..|x| - 1] + [x[|x| - 1]];
  }

  lemma CodecIsLawful()
    ensures Lawful(CODEC)
  {
    forall x ensures Untag(TagZero(x).value) == Some(x) { TagRoundTrip(x); }
    forall b, x | LastByte(b, x).Some?
      ensures ReplaceLast(b, LastByte(b, x).value) == Some(x)
    {
      LastByteRoundTrip(b, x);
    }
  }

  function Data(i: nat): Bytes
    requires i < 12
  {
    [1, i]
  }

  function Name(i: nat): Hash
    requires i < 12
  {
    [('A' as int + i) as char]
  }

  function Tags(i: nat): Context
    requires i < 12
  {
    Context(true, Some("path"), Some("repo"), if i == 0 then None else Some(Name(i - 1)), false)
  }

  /** The store after the first n uploads. */
  function Uploaded(n: nat): Store
    requires n <= 12
  {
    if n == 0 then EMPTY else Next(Uploaded(n - 1), n - 1)
  }

  function Contents(n: nat): map<Hash, Bytes>
    requires n <= 12
  {
    if n == 0 then map[] else PutContent(Contents(n - 1), Name(n - 1), Data(n - 1))
  }

  /** Upload i is stored compressed if it is the first, and else as a delta on upload i - 1. */
  ghost predicate Linked(st: Store, i: nat)
    requires i < 12
  {
    && Name(i) in st.blobs
    && First(st.versions, Name(i)).Some?
    && var v := First(st.versions, Name(i)).value;
       if i == 0 then v.storage.Compressed?
       else v.storage.Delta? && v.base == Some(Name(i - 1)) && st.blobs[Name(i)] == [0, i]
  }

  lemma {:induction false} ContentsAt(n: nat, i: nat)
    requires n <= 12 && i < 12
    ensures i < n <==> Name(i) in Contents(n)
    ensures i < n ==> Contents(n)[Name(i)] == Data(i)
  {
    if n > 0 {
      ContentsAt(n - 1, i);
    }
  }

  function Next(st: Store, n: nat): Store
    requires n < 12
  {
    Put(CODEC, true, st, Name(n), Data(n), Tags(n), 0)
  }

  /** The server reads the base, finds the one-byte delta worthwhile, and stores it compressed. */
  lemma NextForm(st: Store, content: map<Hash, Bytes>, n: nat)
    requires 0 < n < 12 && Refines(CODEC, st, content) && Reachable(st)
    requires First(st.versions, Name(n - 1)).Some? && Name(n - 1) in content && content[Name(n - 1)] == Data(n - 1)
    ensures BaseContent(CODEC, st, Name(n - 1)) == Some(Data(n - 1))
    ensures DeltaAgainst(CODEC, st, Data(n), Name(n - 1)) == Some([n])
    ensures ChooseForm(CODEC, true, st, Data(n), Tags(n)) == Form([0, n], Delta, Some(Name(n - 1)))
  {
    ReadsAreFaithful(CODEC, st, content, Name(n - 1));
    assert Data(n)[..1] == Data(n - 1)[..1] == [1];
    assert CODEC.encodeDelta(Data(n - 1), Data(n)) == Some([n]);
    assert [0] + [n] == [0, n];
    assert CODEC.compress([n]) == Some([0, n]);
  }

  lemma NewIsLinked(st: Store, content: map<Hash, Bytes>, n: nat)
    requires n < 12 && Refines(CODEC, st, content) && Reachable(st) && Name(n) !in content
    requires n > 0 ==> First(st.versions, Name(n - 1)).Some?
    requires n > 0 ==> Name(n - 1) in content && content[Name(n - 1)] == Data(n - 1)
    ensures Linked(Next(st, n), n)
  {
    PutExtends(CODEC, true, st, Name(n), Data(n), Tags(n), 0);
    if n > 0 {
      NextForm(st, content, n);
    }
  }

  lemma OldStayLinked(st: Store, n: nat, i: nat)
    requires i < n < 12 && Linked(st, i) && st.index.Keys == st.blobs.Keys
    ensures Linked(Next(st, n), i)
  {
    assert Name(i) != Name(n);
    PutExtends(CODEC, true, st, Name(n), Data(n), Tags(n), 0);
  }

  lemma NextLinked(st: Store, content: map<Hash, Bytes>, n: nat)
    requires n < 12 && Refines(CODEC, st, content) && Reachable(st) && Name(n) !in content
    requires n > 0 ==> Name(n - 1) in content && content[Name(n - 1)] == Data(n - 1)
    requires forall i :: 0 <= i < n ==> Linked(st, i)
    ensures forall i :: 0 <= i < n + 1 ==> Linked(Next(st, n), i)
  {
    if n > 0 {
      assert Linked(st, n - 1);
    }
    NewIsLinked(st, content, n);
    forall i | 0 <= i < n
      ensures Linked(Next(st, n), i)
    {
      OldStayLinked(st, n, i);
    }
  }

  lemma NextSound(st: Store, content: map<Hash, Bytes>, n: nat)
    requires n < 12 && Refines(CODEC, st, content) && Reachable(st) && Name(n) !in content
    requires n > 0 ==> Name(n - 1) in content && content[Name(n - 1)] == Data(n - 1)
    requires n > 0 ==> First(st.versions, Name(n - 1)).Some?
    ensures PutSound(CODEC, true, st, Name(n), Data(n), Tags(n))
  {
    CodecIsLawful();
    CompressibleIsStowable(CODEC, Data(n));
    if n > 0 {
      NextForm(st, content, n);
    }
  }

  /** All that is needed of the store after n uploads. */
  ghost predicate Good(st: Store, content: map<Hash, Bytes>, n: nat)
    requires n <= 12
  {
    && Refines(CODEC, st, content) && Reachable(st)
    && (forall i :: 0 <= i < n ==> Linked(st, i))
    && (n > 0 ==> DepthAtMost(st.versions, Name(n - 1), n - 1))
  }

  lemma NextDepth(st: Store, n: nat)
    requires n < 12 && Linked(Next(st, n), n)
    requires n > 0 ==> DepthAtMost(st.versions, Name(n - 1), n - 1)
    ensures DepthAtMost(Next(st, n).versions, Name(n), n)
  {
    if n > 0 {
      PutExtends(CODEC, true, st, Name(n), Data(n), Tags(n), 0);
      ExtendsDepth(st.versions, Next(st, n).versions, Name(n - 1), n - 1);
    }
  }

  lemma NextGood(st: Store, content: map<Hash, Bytes>, n: nat)
    requires n < 11 && Good(st, content, n) && Name(n) !in content
    requires n > 0 ==> Name(n - 1) in content && content[Name(n - 1)] == Data(n - 1)
    ensures Good(Next(st, n), PutContent(content, Name(n), Data(n)), n + 1)
  {
    CodecIsLawful();
    if n > 0 {
      DepthGrows(st.versions, Name(n - 1), n - 1, MAX_DELTA_CHAIN_DEPTH - 1);
    }
    NextLinked(st, content, n);
    NextDepth(st, n);
    NextSound(st, content, n);
    PutRefines(CODEC, true, st, content, Name(n), Data(n), Tags(n), 0);
  }

  /** Up to the eleventh upload, ten deltas over a full blob, everything reads back. */
  lemma {:induction false} FirstEleven(n: nat)
    requires n <= 11
    ensures Good(Uploaded(n), Contents(n), n)
  {
    if n > 0 {
      FirstEleven(n - 1);
      ContentsAt(n - 1, n - 1);
      if n > 1 {
        ContentsAt(n - 1, n - 2);
      }
      NextGood(Uploaded(n - 1), Contents(n - 1), n - 1);
    }
  }

  lemma ApplyLink(st: Store, i: nat, before: Bytes)
    requires 0 < i < 12 && Linked(st, i) && |before| == 2
    ensures ApplyOne(CODEC, st.blobs, First(st.versions, Name(i)).value, before) == Ok([before[0], i])
  {
    assert Unzip(CODEC, [0, i]) == [i];
    assert before[..1] + [i] == [before[0], i];
  }

  /** Walked back k deltas onto another delta, its stored bytes are taken for a full blob. */
  lemma {:induction false} WalkBack(st: Store, i: nat, k: nat)
    requires k < i < 12 && forall j :: i - k <= j <= i ==> Linked(st, j)
    ensures Deep(st.versions, Name(i), k) && WalkBytes(CODEC, st, Name(i), k) == Ok([0, i])
    decreases k
  {
    assert Linked(st, i);
    if k > 0 {
      WalkBack(st, i - 1, k - 1);
      ApplyLink(st, i, [0, i - 1]);
    }
  }

  /** The first byte stays wrong at every step. */
  lemma {:induction false} NoChance(st: Store, content: map<Hash, Bytes>, i: nat, k: nat)
    requires k < i < 12 && forall j :: i - k <= j <= i ==> Linked(st, j)
    requires forall j {:trigger Name(j)} :: i - k <= j <= i ==> Name(j) in content && content[Name(j)] == Data(j)
    ensures Deep(st.versions, Name(i), k) && !Chances(CODEC, st, content, Name(i), k)
    decreases k
  {
    WalkBack(st, i, k);
    assert Linked(st, i) && Data(i)[0] == 1;
    if k > 0 {
      NoChance(st, content, i - 1, k - 1);
      WalkBack(st, i - 1, k - 1);
      ApplyLink(st, i, [0, i - 1]);
    }
  }

  /** Eleven deltas over a full blob: the store still means what was uploaded, and the newest is beyond reach. */
  lemma LastUpload(st: Store, content: map<Hash, Bytes>)
    requires Good(st, content, 11) && Name(11) !in content && Name(10) in content && content[Name(10)] == Data(10)
    ensures Refines(CODEC, Next(st, 11), PutContent(content, Name(11), Data(11)))
    ensures forall i :: 0 <= i < 12 ==> Linked(Next(st, 11), i)
  {
    CodecIsLawful();
    assert Linked(st, 10);
    NextLinked(st, content, 11);
    NextSound(st, content, 11);
    ReadsAreFaithful(CODEC, st, content, Name(10));
    PutKeepsMeaning(CODEC, true, st, content, Name(11), Data(11), Tags(11), 0);
  }

  /** What a chain of more than ten such deltas reads as, and by the exact condition that this is wrong. */
  lemma DeepReadsWrong(st: Store, content: map<Hash, Bytes>, i: nat)
    requires MAX_DELTA_CHAIN_DEPTH < i < 12 && Refines(CODEC, st, content)
    requires forall j :: 0 <= j <= i ==> Linked(st, j)
    requires forall j {:trigger Name(j)} :: 0 <= j <= i ==> Name(j) in content && content[Name(j)] == Data(j)
    ensures Get(CODEC, st, Name(i)) != Some(content[Name(i)])
    ensures Get(CODEC, st, Name(i)) == Some([0, i])
  {
    assert Linked(st, i);
    WalkBack(st, i, MAX_DELTA_CHAIN_DEPTH);
    NoChance(st, content, i, MAX_DELTA_CHAIN_DEPTH);
    DeepIsNotShallow(st.versions, Name(i), MAX_DELTA_CHAIN_DEPTH);
    ReadableIffShallow(CODEC, st, content, Name(i));
    DeepRebuild(CODEC, st, Name(i), MAX_DELTA_CHAIN_DEPTH);
  }

  lemma TwelveContents(i: nat)
    requires i < 12
    ensures Name(i) in Contents(12) && Contents(12)[Name(i)] == Data(i)
  {
    ContentsAt(12, i);
  }

  /** The twelfth upload is accepted and stored, and GET answers other bytes than were uploaded. */
  lemma TwelfthReadsWrong()
    ensures Name(11) in Contents(12) && Contents(12)[Name(11)] == [1, 11]
    ensures Get(CODEC, Uploaded(12), Name(11)) == Some([0, 11])
  {
    FirstEleven(11);
    ContentsAt(11, 10);
    ContentsAt(11, 11);
    LastUpload(Uploaded(11), Contents(11));
    forall i | 0 <= i < 12
      ensures Name(i) in Contents(12) && Contents(12)[Name(i)] == Data(i)
    {
      TwelveContents(i);
    }
    DeepReadsWrong(Uploaded(12), Contents(12), 11);
  }
}
