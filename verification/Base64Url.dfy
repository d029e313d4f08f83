/** base64url text without padding (src/protocol.rs; section 5 of RFC 4648). */
module Base64Url {
  import opened Prelude

  datatype DecodeError = InvalidLength | InvalidCharacter

  const PAD: Byte := 61 // '='

  // ----- the alphabet -----

  /** The standard base64 character of a six-bit value. */
  function Standard(v: int): Byte
    requires 0 <= v < 64
  {
    if v < 26 then 65 + v else if v < 52 then 71 + v else if v < 62 then v - 4 else if v == 62 then 43 else 47
  }

  /** '+' and '/' become '-' and '_'. */
  function ToUrl(b: Byte): Byte {
    if b == 43 then 45 else if b == 47 then 95 else b
  }

  /** '-' and '_' become '+' and '/'. */
  function FromUrl(b: Byte): Byte {
    if b == 45 then 43 else if b == 95 then 47 else b
  }

  /** The value of a standard base64 character; padding counts as zero. */
  function Value(b: Byte): (v: Option<int>)
    ensures v.Some? ==> 0 <= v.value < 64
  {
    if 65 <= b <= 90 then Some(b - 65)
    else if 97 <= b <= 122 then Some(b - 71)
    else if 48 <= b <= 57 then Some(b + 4)
    else if b == 43 then Some(62)
    else if b == 47 then Some(63)
    else if b == PAD then Some(0)
    else None
  }

  predicate IsUrlSafe(b: Byte) {
    65 <= b <= 90 || 97 <= b <= 122 || 48 <= b <= 57 || b == 45 || b == 95
  }

  function Mapped(f: Byte -> Byte, s: Bytes): (t: Bytes)
    ensures |t| == |s| && forall i :: 0 <= i < |s| ==> t[i] == f(s[i])
  {
    seq(|s|, i requires 0 <= i < |s| => f(s[i]))
  }

  lemma StandardFacts(v: int)
    requires 0 <= v < 64
    ensures Value(Standard(v)) == Some(v) && Standard(v) != PAD
    ensures FromUrl(ToUrl(Standard(v))) == Standard(v)
    ensures IsUrlSafe(ToUrl(Standard(v)))
  {
  }

  // ----- encoding -----

  /** The four six-bit groups of three bytes. */
  function Group(a: Byte, b: Byte, c: Byte): (g: seq<int>)
    ensures |g| == 4 && forall i :: 0 <= i < 4 ==> 0 <= g[i] < 64
  {
    [a / 4, a % 4 * 16 + b / 16, b % 16 * 4 + c / 64, c % 64]
  }

  /** Six-bit groups: three bytes make four; one or two left over make two or three. */
  function Sextets(data: Bytes): (s: seq<int>)
    ensures forall i :: 0 <= i < |s| ==> 0 <= s[i] < 64
  {
    if data == [] then []
    else if |data| == 1 then Group(data[0], 0, 0)[..2]
    else if |data| == 2 then Group(data[0], data[1], 0)[..3]
    else Group(data[0], data[1], data[2]) + Sextets(data[3..])
  }

  /** How many characters a remainder of zero, one or two bytes adds. */
  function Tail(n: nat): nat {
    if n % 3 == 0 then 0 else n % 3 + 1
  }

  lemma {:induction false} SextetsLength(data: Bytes)
    ensures |Sextets(data)| == 4 * (|data| / 3) + Tail(|data|)
  {
    if |data| >= 3 {
      SextetsLength(data[3..]);
    }
  }

  function StandardText(s: seq<int>): (t: Bytes)
    requires forall i :: 0 <= i < |s| ==> 0 <= s[i] < 64
    ensures |t| == |s| && forall i :: 0 <= i < |s| ==> t[i] == Standard(s[i])
  {
    seq(|s|, i requires 0 <= i < |s| => Standard(s[i]))
  }

  function Encode(data: Bytes): Bytes {
    Mapped(ToUrl, StandardText(Sextets(data)))
  }

  /** The encoding uses only the URL-safe alphabet, and its length is never 1 modulo 4. */
  lemma EncodeIsUrlSafe(data: Bytes)
    ensures forall i :: 0 <= i < |Encode(data)| ==> IsUrlSafe(Encode(data)[i])
    ensures |Encode(data)| % 4 != 1 && |Encode(data)| == 4 * (|data| / 3) + Tail(|data|)
  {
    var s := Sextets(data);
    SextetsLength(data);
    forall i | 0 <= i < |s|
      ensures IsUrlSafe(ToUrl(Standard(s[i])))
    {
      StandardFacts(s[i]);
    }
  }

  /** The character of a six-bit value: A to Z, a to z, 0 to 9, hyphen and underscore. */
  ghost predicate Spells(b: Byte, v: int) {
    b == if v < 26 then 'A' as int + v else if v < 52 then 'a' as int + (v - 26)
         else if v < 62 then '0' as int + (v - 52) else if v == 62 then '-' as int else '_' as int
  }

  /** Every character of an encoding spells its group. */
  lemma EncodeSpells(data: Bytes, i: nat)
    requires i < |Sextets(data)|
    ensures |Encode(data)| == |Sextets(data)| && Spells(Encode(data)[i], Sextets(data)[i])
  {
  }

  /** Four groups and the three bytes they stand for are the same number, high bits first. */
  lemma {:induction false} GroupsAreBits(data: Bytes, j: nat)
    requires 3 * j + 3 <= |data|
    ensures 4 * j + 4 <= |Sextets(data)|
    ensures var s := Sextets(data);
            s[4 * j] * 262144 + s[4 * j + 1] * 4096 + s[4 * j + 2] * 64 + s[4 * j + 3] ==
            data[3 * j] as int * 65536 + data[3 * j + 1] as int * 256 + data[3 * j + 2]
    decreases j
  {
    if j == 0 {
      SameNumber(data[0], data[1], data[2]);
    } else {
      GroupsAreBits(data[3..], j - 1);
    }
  }

  /** One byte left over is followed by four zero bits, two by two. */
  ghost predicate EndsWith(s: seq<int>, data: Bytes) {
    var n := |data|;
    if n % 3 == 1 then |s| >= 2 && s[|s| - 2] * 64 + s[|s| - 1] == data[n - 1] as int * 16
    else n % 3 == 2 ==>
           && |s| >= 3
           && s[|s| - 3] * 4096 + s[|s| - 2] * 64 + s[|s| - 1] == data[n - 2] as int * 1024 + data[n - 1] as int * 4
  }

  lemma OneOver(a: Byte)
    ensures a / 4 * 64 + a % 4 * 16 == a as int * 16
  {
  }

  lemma TwoOver(a: Byte, b: Byte)
    ensures a / 4 * 4096 + (a % 4 * 16 + b / 16) * 64 + b % 16 * 4 == a as int * 1024 + b as int * 4
  {
  }

  lemma LongerEndsWith(g: seq<int>, s: seq<int>, data: Bytes)
    requires |data| >= 3 && EndsWith(s, data[3..])
    ensures EndsWith(g + s, data)
  {
  }

  lemma {:induction false} LastBits(data: Bytes)
    ensures EndsWith(Sextets(data), data)
  {
    if |data| == 1 {
      OneOver(data[0]);
    } else if |data| == 2 {
      TwoOver(data[0], data[1]);
    } else if |data| >= 3 {
      LastBits(data[3..]);
      LongerEndsWith(Group(data[0], data[1], data[2]), Sextets(data[3..]), data);
    }
  }

  // ----- decoding -----

  /** The three bytes of four six-bit groups. */
  function Ungroup(a: int, b: int, c: int, d: int): Bytes
    requires 0 <= a < 64 && 0 <= b < 64 && 0 <= c < 64 && 0 <= d < 64
  {
    [a * 4 + b / 16, b % 16 * 16 + c / 4, c % 4 * 64 + d]
  }

  /** The bytes of one group of four characters: the third and fourth may be padding, each dropping its byte. */
  function Quad(q: Bytes): Option<Bytes>
    requires |q| == 4
  {
    if Value(q[0]).None? || Value(q[1]).None? || Value(q[2]).None? || Value(q[3]).None? then None
    else Some(Kept(Ungroup(Value(q[0]).value, Value(q[1]).value, Value(q[2]).value, Value(q[3]).value),
                   q[2] != PAD, q[3] != PAD))
  }

  function Kept(bytes: Bytes, second: bool, third: bool): Bytes
    requires |bytes| == 3
  {
    [bytes[0]] + (if second then [bytes[1]] else []) + (if third then [bytes[2]] else [])
  }

  function DecodeQuads(text: Bytes): Result<Bytes, DecodeError> {
    if |text| < 4 then Ok([])
    else
      match Quad(text[..4])
      case None => Err(InvalidCharacter)
      case Some(bytes) =>
        match DecodeQuads(text[4..])
        case Err(e) => Err(e)
        case Ok(rest) => Ok(bytes + rest)
  }

  function Padding(n: nat): Bytes {
    if n % 4 == 2 then [PAD, PAD] else if n % 4 == 3 then [PAD] else []
  }

  function Decode(s: Bytes): Result<Bytes, DecodeError> {
    if |s| % 4 == 1 then Err(InvalidLength)
    else DecodeQuads(Mapped(FromUrl, s) + Padding(|s|))
  }

  lemma UngroupGroup(a: Byte, b: Byte, c: Byte)
    ensures var g := Group(a, b, c); Ungroup(g[0], g[1], g[2], g[3]) == [a, b, c]
  {
  }

  /** Four characters decode to the bytes of their values, less one byte for each padding. */
  lemma QuadOfChars(g: seq<int>, pads: nat)
    requires |g| == 4 && (forall i :: 0 <= i < 4 ==> 0 <= g[i] < 64)
    requires pads <= 2 && (pads >= 1 ==> g[3] == 0) && (pads == 2 ==> g[2] == 0)
    ensures Quad(Padded(g, pads)) == Some(Ungroup(g[0], g[1], g[2], g[3])[..3 - pads])
  {
    StandardFacts(g[0]);
    StandardFacts(g[1]);
    StandardFacts(g[2]);
    StandardFacts(g[3]);
    var u := Ungroup(g[0], g[1], g[2], g[3]);
    assert Kept(u, pads < 2, pads < 1) == u[..3 - pads];
  }

  function Padded(g: seq<int>, pads: nat): Bytes
    requires |g| == 4 && (forall i :: 0 <= i < 4 ==> 0 <= g[i] < 64) && pads <= 2
  {
    [Standard(g[0]), Standard(g[1]), if pads == 2 then PAD else Standard(g[2]),
     if pads >= 1 then PAD else Standard(g[3])]
  }

  lemma DecodeQuadsCons(q: Bytes, rest: Bytes)
    requires |q| == 4
    ensures DecodeQuads(q + rest) == match Quad(q)
                                     case None => Err(InvalidCharacter)
                                     case Some(bytes) =>
                                       match DecodeQuads(rest) case Err(e) => Err(e) case Ok(r) => Ok(bytes + r)
  {
    assert (q + rest)[..4] == q && (q + rest)[4..] == rest;
  }

  lemma LastText(g: seq<int>, pads: nat)
    requires |g| == 4 && (forall i :: 0 <= i < 4 ==> 0 <= g[i] < 64) && 1 <= pads <= 2
    ensures StandardText(g[..4 - pads]) + Padding(4 - pads) == Padded(g, pads) + []
  {
    if pads == 1 {
      assert StandardText(g[..3]) == [Standard(g[0]), Standard(g[1]), Standard(g[2])];
    } else {
      assert StandardText(g[..2]) == [Standard(g[0]), Standard(g[1])];
    }
  }

  lemma GroupZeros(a: Byte, b: Byte)
    ensures Group(a, b, 0)[3] == 0 && Group(a, 0, 0)[2] == 0
  {
  }

  /** A last group of one or two bytes. */
  lemma LastGroup(g: seq<int>, pads: nat)
    requires |g| == 4 && (forall i :: 0 <= i < 4 ==> 0 <= g[i] < 64)
    requires 1 <= pads <= 2 && g[3] == 0 && (pads == 2 ==> g[2] == 0)
    ensures DecodeQuads(StandardText(g[..4 - pads]) + Padding(4 - pads)) ==
            Ok(Ungroup(g[0], g[1], g[2], g[3])[..3 - pads])
  {
    LastText(g, pads);
    QuadOfChars(g, pads);
    var bytes := Ungroup(g[0], g[1], g[2], g[3])[..3 - pads];
    DecodeQuadsCons(Padded(g, pads), []);
    assert bytes + [] == bytes;
  }

  lemma FullText(g: seq<int>, rest: seq<int>)
    requires |g| == 4 && (forall i :: 0 <= i < 4 ==> 0 <= g[i] < 64)
    requires forall i :: 0 <= i < |rest| ==> 0 <= rest[i] < 64
    ensures forall i :: 0 <= i < |g + rest| ==> 0 <= (g + rest)[i] < 64
    ensures StandardText(g + rest) + Padding(|g + rest|) == Padded(g, 0) + (StandardText(rest) + Padding(|rest|))
  {
    assert Padding(|g + rest|) == Padding(|rest|);
    assert StandardText(g + rest) == Padded(g, 0) + StandardText(rest);
  }

  lemma FullGroup(g: seq<int>, rest: seq<int>, tail: Bytes)
    requires |g| == 4 && (forall i :: 0 <= i < 4 ==> 0 <= g[i] < 64)
    requires forall i :: 0 <= i < |rest| ==> 0 <= rest[i] < 64
    requires DecodeQuads(StandardText(rest) + Padding(|rest|)) == Ok(tail)
    ensures forall i :: 0 <= i < |g + rest| ==> 0 <= (g + rest)[i] < 64
    ensures DecodeQuads(StandardText(g + rest) + Padding(|g + rest|)) == Ok(Ungroup(g[0], g[1], g[2], g[3]) + tail)
  {
    FullText(g, rest);
    QuadOfChars(g, 0);
    assert Ungroup(g[0], g[1], g[2], g[3])[..3] == Ungroup(g[0], g[1], g[2], g[3]);
    DecodeQuadsCons(Padded(g, 0), StandardText(rest) + Padding(|rest|));
  }

  /** The padded standard text of some data decodes to it. */
  ghost predicate Decodes(data: Bytes, s: seq<int>)
    requires forall i :: 0 <= i < |s| ==> 0 <= s[i] < 64
  {
    DecodeQuads(StandardText(s) + Padding(|s|)) == Ok(data)
  }

  lemma {:induction false} QuadsRoundTrip(data: Bytes)
    ensures Decodes(data, Sextets(data))
  {
    if |data| == 0 {
    } else if |data| == 1 {
      OneLeft(data[0]);
      assert data == [data[0]] && Sextets(data) == Group(data[0], 0, 0)[..2];
    } else if |data| == 2 {
      TwoLeft(data[0], data[1]);
      assert data == [data[0], data[1]] && Sextets(data) == Group(data[0], data[1], 0)[..3];
    } else {
      QuadsRoundTrip(data[3..]);
      ThreeMore(data[0], data[1], data[2], Sextets(data[3..]), data[3..]);
      assert data == [data[0], data[1], data[2]] + data[3..];
      assert Sextets(data) == Group(data[0], data[1], data[2]) + Sextets(data[3..]);
    }
  }

  lemma OneLeft(a: Byte)
    ensures Decodes([a], Group(a, 0, 0)[..2])
  {
    GroupZeros(a, 0);
    UngroupGroup(a, 0, 0);
    LastGroup(Group(a, 0, 0), 2);
    assert [a, 0, 0][..1] == [a];
  }

  lemma TwoLeft(a: Byte, b: Byte)
    ensures Decodes([a, b], Group(a, b, 0)[..3])
  {
    GroupZeros(a, b);
    UngroupGroup(a, b, 0);
    LastGroup(Group(a, b, 0), 1);
    assert [a, b, 0][..2] == [a, b];
  }

  lemma ThreeMore(a: Byte, b: Byte, c: Byte, rest: seq<int>, tail: Bytes)
    requires forall i :: 0 <= i < |rest| ==> 0 <= rest[i] < 64
    requires Decodes(tail, rest)
    ensures var s := Group(a, b, c) + rest;
            (forall i :: 0 <= i < |s| ==> 0 <= s[i] < 64) && Decodes([a, b, c] + tail, s)
  {
    UngroupGroup(a, b, c);
    FullGroup(Group(a, b, c), rest, tail);
  }

  lemma UrlTextBack(s: seq<int>)
    requires forall i :: 0 <= i < |s| ==> 0 <= s[i] < 64
    ensures Mapped(FromUrl, Mapped(ToUrl, StandardText(s))) == StandardText(s)
  {
    forall i | 0 <= i < |s|
      ensures FromUrl(ToUrl(Standard(s[i]))) == Standard(s[i])
    {
      StandardFacts(s[i]);
    }
  }

  lemma MappedConcat(s: Bytes, n: nat)
    ensures Mapped(FromUrl, s + Padding(n)) == Mapped(FromUrl, s) + Padding(n)
  {
  }

  /** Padding a text that lacks it does not change what it decodes to. */
  lemma PaddedDecodes(s: Bytes)
    requires |s| % 4 != 1
    ensures Decode(s + Padding(|s|)) == Decode(s)
  {
    MappedConcat(s, |s|);
    var padded := s + Padding(|s|);
    assert |padded| % 4 == 0;
    assert Mapped(FromUrl, padded) + [] == Mapped(FromUrl, padded);
  }

  /** Decoding an encoding gives the bytes back, with or without its padding. */
  lemma RoundTrip(data: Bytes)
    ensures Decode(Encode(data)) == Ok(data)
    ensures Decode(Encode(data) + Padding(|Encode(data)|)) == Ok(data)
  {
    UrlTextBack(Sextets(data));
    QuadsRoundTrip(data);
    EncodeIsUrlSafe(data);
    PaddedDecodes(Encode(data));
  }

  predicate IsKnown(b: Byte) {
    IsUrlSafe(b) || b == 43 || b == 47 || b == PAD
  }

  ghost predicate HasNoValue(text: Bytes) {
    exists i :: 0 <= i < |text| && Value(text[i]).None?
  }

  lemma NoValueIn(a: Bytes, b: Bytes)
    ensures HasNoValue(a + b) <==> HasNoValue(a) || HasNoValue(b)
  {
    if HasNoValue(a) {
      var i :| 0 <= i < |a| && Value(a[i]).None?;
      assert (a + b)[i] == a[i];
    }
    if HasNoValue(b) {
      var i :| 0 <= i < |b| && Value(b[i]).None?;
      assert (a + b)[|a| + i] == b[i];
    }
  }

  lemma QuadFails(q: Bytes)
    requires |q| == 4
    ensures Quad(q).None? <==> HasNoValue(q)
  {
    if HasNoValue(q) {
      var i :| 0 <= i < 4 && Value(q[i]).None?;
    }
  }

  lemma {:induction false} QuadsFail(text: Bytes)
    requires |text| % 4 == 0
    ensures DecodeQuads(text).Err? <==> HasNoValue(text)
    ensures DecodeQuads(text).Err? ==> DecodeQuads(text).error == InvalidCharacter
  {
    if text != [] {
      QuadsFail(text[4..]);
      QuadFails(text[..4]);
      NoValueIn(text[..4], text[4..]);
      assert text == text[..4] + text[4..];
    }
  }

  lemma UnknownHasNoValue(s: Bytes)
    ensures HasNoValue(Mapped(FromUrl, s)) <==> exists i :: 0 <= i < |s| && !IsKnown(s[i])
  {
    var text := Mapped(FromUrl, s);
    assert forall i :: 0 <= i < |s| ==> text[i] == FromUrl(s[i]) && (Value(text[i]).None? <==> !IsKnown(s[i]));
    if HasNoValue(text) {
      var i :| 0 <= i < |text| && Value(text[i]).None?;
      assert !IsKnown(s[i]);
    }
  }

  /** Decoding fails exactly on a length of 1 modulo 4 and on a character of neither alphabet nor padding. */
  lemma DecodeFailsIff(s: Bytes)
    ensures Decode(s) == Err(InvalidLength) <==> |s| % 4 == 1
    ensures Decode(s) == Err(InvalidCharacter) <==> |s| % 4 != 1 && exists i :: 0 <= i < |s| && !IsKnown(s[i])
  {
    if |s| % 4 != 1 {
      QuadsFail(Mapped(FromUrl, s) + Padding(|s|));
      NoValueIn(Mapped(FromUrl, s), Padding(|s|));
      UnknownHasNoValue(s);
    }
  }

  // ----- the loops of the source -----

  /** Shifts and masks by fixed amounts: quotient and remainder of q * d + r are q and r. */
  lemma Shift6(q: nat, r: nat)
    requires r < 64
    ensures (q * 64 + r) / 64 == q && (q * 64 + r) % 64 == r
  {
  }

  lemma Shift8(q: nat, r: nat)
    requires r < 256
    ensures (q * 256 + r) / 256 == q && (q * 256 + r) % 256 == r
  {
  }

  lemma Shift12(q: nat, r: nat)
    requires r < 4096
    ensures (q * 4096 + r) / 4096 == q
  {
  }

  lemma Shift16(q: nat, r: nat)
    requires r < 65536
    ensures (q * 65536 + r) / 65536 == q
  {
  }

  lemma Shift18(q: nat, r: nat)
    requires r < 262144
    ensures (q * 262144 + r) / 262144 == q
  {
  }

  lemma Digits64(v: nat, w: nat, x: nat, y: nat)
    requires v < 64 && w < 64 && x < 64 && y < 64
    ensures var t := v * 262144 + w * 4096 + x * 64 + y;
            t / 262144 % 64 == v && t / 4096 % 64 == w && t / 64 % 64 == x && t % 64 == y
  {
    Shift18(v, w * 4096 + x * 64 + y);
    Shift12(v * 64 + w, x * 64 + y);
    Shift6(v, w);
    Shift6(v * 4096 + w * 64 + x, y);
    Shift6(v * 64 + w, x);
  }

  lemma Digits256(x: nat, y: nat, z: nat)
    requires x < 256 && y < 256 && z < 256
    ensures var t := x * 65536 + y * 256 + z; t / 65536 % 256 == x && t / 256 % 256 == y && t % 256 == z
  {
    Shift16(x, y * 256 + z);
    Shift8(x * 256 + y, z);
    Shift8(x, y);
  }

  /** Four groups of six bits and three bytes are the same number. */
  lemma SameNumber(a: Byte, b: Byte, c: Byte)
    ensures var g := Group(a, b, c); a * 65536 + b * 256 + c == g[0] * 262144 + g[1] * 4096 + g[2] * 64 + g[3]
  {
    assert a == a / 4 * 4 + a % 4;
    assert b == b / 16 * 16 + b % 16;
    assert c == c / 64 * 64 + c % 64;
  }

  lemma SameNumberBack(a: int, b: int, c: int, d: int)
    ensures a * 262144 + b * 4096 + c * 64 + d ==
            (a * 4 + b / 16) * 65536 + (b % 16 * 16 + c / 4) * 256 + (c % 4 * 64 + d)
  {
    assert b == b / 16 * 16 + b % 16;
    assert c == c / 4 * 4 + c % 4;
  }

  /** The source gathers three bytes in one number and shifts six bits out at a time. */
  lemma TripleSextets(a: Byte, b: Byte, c: Byte)
    ensures var t := a * 65536 + b * 256 + c;
            [t / 262144 % 64, t / 4096 % 64, t / 64 % 64, t % 64] == Group(a, b, c)
  {
    var g := Group(a, b, c);
    SameNumber(a, b, c);
    Digits64(g[0], g[1], g[2], g[3]);
    assert g == [g[0], g[1], g[2], g[3]];
  }

  /** And shifts eight bits at a time out of four six-bit groups. */
  lemma TripleBytes(a: int, b: int, c: int, d: int)
    requires 0 <= a < 64 && 0 <= b < 64 && 0 <= c < 64 && 0 <= d < 64
    ensures var t := a * 262144 + b * 4096 + c * 64 + d;
            [t / 65536 % 256, t / 256 % 256, t % 256] == Ungroup(a, b, c, d)
  {
    SameNumberBack(a, b, c, d);
    Digits256(a * 4 + b / 16, b % 16 * 16 + c / 4, c % 4 * 64 + d);
  }

  /** The groups of a text are those of its first chunk and those of the rest. */
  lemma NextChunk(data: Bytes, i: nat, n: nat)
    requires i < |data| && n == Min(3, |data| - i)
    ensures Sextets(data[i..]) == Sextets(data[i..i + n]) + Sextets(data[i + n..])
  {
    var rest, chunk := data[i..], data[i..i + n];
    assert rest[n..] == data[i + n..] && chunk == rest[..n];
    if n < 3 {
      assert chunk == rest && data[i + n..] == [];
    } else {
      assert chunk[3..] == [];
    }
  }

  lemma Regroup(a: seq<int>, b: seq<int>, c: seq<int>)
    ensures a + (b + c) == a + b + c
  {
  }

  /** One step of the decoding loop. */
  method DecodeQuad(q: Bytes) returns (bytes: Option<Bytes>)
    requires |q| == 4
    ensures bytes == Quad(q)
  {
    if Value(q[0]).None? || Value(q[1]).None? || Value(q[2]).None? || Value(q[3]).None? {
      return None;
    }
    var a, b, c, d := Value(q[0]).value, Value(q[1]).value, Value(q[2]).value, Value(q[3]).value;
    var triple := a * 262144 + b * 4096 + c * 64 + d;
    TripleBytes(a, b, c, d);
    var all := [triple / 65536 % 256, triple / 256 % 256, triple % 256];
    return Some(Kept(all, q[2] != PAD, q[3] != PAD));
  }

  /** One step of the encoding loop. */
  method EncodeChunk(chunk: Bytes) returns (group: seq<int>)
    requires 1 <= |chunk| <= 3
    ensures group == Sextets(chunk)
  {
    var b0: Byte, b1: Byte, b2: Byte := chunk[0], if |chunk| > 1 then chunk[1] else 0,
      if |chunk| > 2 then chunk[2] else 0;
    var triple: int := b0 * 65536 + b1 * 256 + b2;
    TripleSextets(b0, b1, b2);
    group := [triple / 262144 % 64, triple / 4096 % 64];
    if |chunk| > 1 {
      group := group + [triple / 64 % 64];
    }
    if |chunk| > 2 {
      group := group + [triple % 64];
      assert chunk[3..] == [];
    }
  }

  method EncodeText(data: Bytes) returns (text: Bytes)
    ensures text == Encode(data)
  {
    var sextets: seq<int> := [];
    var i := 0;
    while i < |data|
      invariant 0 <= i <= |data| && sextets + Sextets(data[i..]) == Sextets(data)
      decreases |data| - i
    {
      var n := Min(3, |data| - i);
      var group := EncodeChunk(data[i..i + n]);
      NextChunk(data, i, n);
      Regroup(sextets, group, Sextets(data[i + n..]));
      sextets := sextets + group;
      i := i + n;
    }
    assert sextets + [] == sextets;
    text := Mapped(ToUrl, StandardText(sextets));
  }

  lemma NextQuad(text: Bytes, i: nat)
    requires i + 4 <= |text|
    ensures DecodeQuads(text[i..]) == if Quad(text[i..i + 4]).None? then Err(InvalidCharacter)
                                      else Prepend(Quad(text[i..i + 4]).value, DecodeQuads(text[i + 4..]))
  {
    assert text[i..] == text[i..i + 4] + text[i + 4..];
    DecodeQuadsCons(text[i..i + 4], text[i + 4..]);
  }

  method DecodeGroups(text: Bytes) returns (r: Result<Bytes, DecodeError>)
    requires |text| % 4 == 0
    ensures r == DecodeQuads(text)
  {
    var out: Bytes := [];
    var n := |text| / 4;
    PrependNothing(text);
    for k := 0 to n
      invariant DecodeQuads(text) == Prepend(out, DecodeQuads(text[4 * k..]))
    {
      NextQuad(text, 4 * k);
      var bytes := DecodeQuad(text[4 * k..4 * k + 4]);
      if bytes.None? {
        return Err(InvalidCharacter);
      }
      PrependTwice(out, bytes.value, DecodeQuads(text[4 * k + 4..]));
      out := out + bytes.value;
    }
    PrependEnd(text, 4 * n, out);
    return Ok(out);
  }

  lemma PrependEnd(text: Bytes, i: nat, out: Bytes)
    requires i == |text|
    ensures Prepend(out, DecodeQuads(text[i..])) == Ok(out)
  {
    assert text[i..] == [];
    assert out + [] == out;
  }

  method DecodeText(s: Bytes) returns (r: Result<Bytes, DecodeError>)
    ensures r == Decode(s)
  {
    if |s| % 4 == 1 {
      return Err(InvalidLength);
    }
    r := DecodeGroups(Mapped(FromUrl, s) + Padding(|s|));
  }

  lemma PrependNothing(text: Bytes)
    ensures DecodeQuads(text) == Prepend([], DecodeQuads(text[0..]))
  {
    assert text[0..] == text;
    if DecodeQuads(text).Ok? {
      assert [] + DecodeQuads(text).value == DecodeQuads(text).value;
    }
  }

  ghost function Prepend(out: Bytes, r: Result<Bytes, DecodeError>): Result<Bytes, DecodeError> {
    if r.Ok? then Ok(out + r.value) else r
  }

  lemma PrependTwice(a: Bytes, b: Bytes, r: Result<Bytes, DecodeError>)
    ensures Prepend(a, Prepend(b, r)) == Prepend(a + b, r)
  {
    if r.Ok? {
      assert a + (b + r.value) == (a + b) + r.value;
    }
  }
}
