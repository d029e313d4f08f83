/** The pkt-line parser for receive-pack ref updates (blossom-nip34/src/git_server/pktline.rs). */
module PktLine {
  import opened Prelude

  /** UTF-8 validation and whitespace trimming, left abstract. */
  datatype Text = Text(valid: Bytes -> bool, trim: Bytes -> Bytes)

  ghost predicate AcceptsAscii(t: Text) {
    forall s: Bytes :: (forall i :: 0 <= i < |s| ==> s[i] < 128) ==> t.valid(s)
  }

  datatype RefUpdate = RefUpdate(oldOid: Bytes, newOid: Bytes, refname: Bytes, capabilities: Option<Bytes>)

  datatype ParseError = LengthNotText | LengthNotHex | LengthTooShort | BeyondBody | NotText | MissingNewOid
                      | MissingRefname | InvalidOldOid | InvalidNewOid | NotARef

  const SPACE: Byte := 32
  const NEWLINE: Byte := 10
  const NUL: Byte := 0
  const PLUS: Byte := 43
  const REFS: Bytes := [114, 101, 102, 115, 47] // "refs/"

  // ----- lines -----

  function HexDigit(b: Byte): Option<int> {
    if 48 <= b <= 57 then Some(b - 48)
    else if 97 <= b <= 102 then Some(b - 87)
    else if 65 <= b <= 70 then Some(b - 55)
    else None
  }

  function HexNumber(s: Bytes, acc: nat): Option<nat> {
    if s == [] then Some(acc)
    else
      match HexDigit(s[0])
      case None => None
      case Some(d) => HexNumber(s[1..], acc * 16 + d)
  }

  /** Four characters as a base-16 number; a leading plus sign is accepted. */
  function ParseLength(t: Text, s: Bytes): Result<nat, ParseError>
    requires |s| == 4
  {
    if !t.valid(s) then Err(LengthNotText)
    else
      match HexNumber(if s[0] == PLUS then s[1..] else s, 0)
      case None => Err(LengthNotHex)
      case Some(n) => Ok(n)
  }

  predicate IsSha1(s: Bytes) {
    |s| == 40 && forall i :: 0 <= i < 40 ==> HexDigit(s[i]).Some?
  }

  /** What comes before the first separator, and what comes after it if there is one. */
  function SplitOnce(s: Bytes, sep: Byte): (Bytes, Option<Bytes>) {
    if s == [] then ([], None)
    else if s[0] == sep then ([], Some(s[1..]))
    else
      var (head, tail) := SplitOnce(s[1..], sep);
      ([s[0]] + head, tail)
  }

  function StripNewline(s: Bytes): Bytes {
    if s != [] && s[|s| - 1] == NEWLINE then s[..|s| - 1] else s
  }

  function ParseRefUpdate(t: Text, line: Bytes): Result<RefUpdate, ParseError> {
    var payload := StripNewline(line);
    if !t.valid(payload) then Err(NotText)
    else
      var (oldOid, afterOld) := SplitOnce(payload, SPACE);
      if afterOld.None? then Err(MissingNewOid)
      else
        var (newOid, afterNew) := SplitOnce(afterOld.value, SPACE);
        if afterNew.None? then Err(MissingRefname)
        else
          var (refname, caps) := SplitOnce(afterNew.value, NUL);
          if !IsSha1(oldOid) then Err(InvalidOldOid)
          else if !IsSha1(newOid) then Err(InvalidNewOid)
          else if !(REFS <= refname) then Err(NotARef)
          else Ok(RefUpdate(oldOid, newOid, refname, if caps.Some? then Some(t.trim(caps.value)) else None))
  }

  /** Whether a line starts with two object ids; other lines are skipped. */
  predicate LooksLikeUpdate(t: Text, payload: Bytes) {
    var (first, rest) := SplitOnce(payload, SPACE);
    t.valid(payload) && IsSha1(first) && rest.Some? && IsSha1(SplitOnce(rest.value, SPACE).0)
  }

  function Parse(t: Text, body: Bytes): Result<seq<RefUpdate>, ParseError>
    decreases |body|
  {
    if |body| < 4 then Ok([])
    else
      match ParseLength(t, body[..4])
      case Err(e) => Err(e)
      case Ok(len) =>
        if len <= 2 then Ok([])
        else if len < 4 then Err(LengthTooShort)
        else if len > |body| then Err(BeyondBody)
        else ParseLine(t, body[4..len], Parse(t, body[len..]))
  }

  /** One line and the outcome of the lines after it. */
  function ParseLine(t: Text, payload: Bytes, rest: Result<seq<RefUpdate>, ParseError>)
    : Result<seq<RefUpdate>, ParseError>
  {
    if !LooksLikeUpdate(t, payload) then rest
    else
      match ParseRefUpdate(t, payload)
      case Err(e) => Err(e)
      case Ok(u) => if rest.Err? then rest else Ok([u] + rest.value)
  }

  // ----- the loop of the source -----

  method ParseRefUpdates(t: Text, body: Bytes) returns (r: Result<seq<RefUpdate>, ParseError>)
    ensures r == Parse(t, body)
  {
    var updates: seq<RefUpdate> := [];
    var pos := 0;
    AfterNone(Parse(t, body));
    assert body[0..] == body;
    while pos + 4 <= |body|
      invariant 0 <= pos <= |body|
      invariant Parse(t, body) == After(updates, Parse(t, body[pos..]))
      decreases |body| - pos
    {
      TailSlices(body, pos, 4);
      var length := ParseLength(t, body[pos..pos + 4]);
      if length.Err? {
        return Err(length.error);
      }
      var len := length.value;
      if len <= 2 {
        break;
      }
      if len < 4 {
        return Err(LengthTooShort);
      }
      if pos + len > |body| {
        return Err(BeyondBody);
      }
      var payload := body[pos + 4..pos + len];
      TailSlices(body, pos, len);
      if LooksLikeUpdate(t, payload) {
        var update := ParseRefUpdate(t, payload);
        if update.Err? {
          return Err(update.error);
        }
        AfterTwice(updates, update.value, Parse(t, body[pos + len..]));
        updates := updates + [update.value];
      }
      pos := pos + len;
    }
    assert Parse(t, body[pos..]) == Ok([]);
    assert updates + [] == updates;
    return Ok(updates);
  }

  /** Slices of what is left are slices of the whole. */
  lemma TailSlices(body: Bytes, pos: nat, len: nat)
    requires 4 <= len && pos + len <= |body|
    ensures body[pos..][..4] == body[pos..pos + 4] && body[pos..][4..len] == body[pos + 4..pos + len]
    ensures body[pos..][len..] == body[pos + len..]
  {
  }

  ghost function After(updates: seq<RefUpdate>, rest: Result<seq<RefUpdate>, ParseError>)
    : Result<seq<RefUpdate>, ParseError>
  {
    if rest.Ok? then Ok(updates + rest.value) else rest
  }

  lemma AfterNone(rest: Result<seq<RefUpdate>, ParseError>)
    ensures After([], rest) == rest
  {
    if rest.Ok? {
      assert [] + rest.value == rest.value;
    }
  }

  lemma AfterTwice(updates: seq<RefUpdate>, u: RefUpdate, rest: Result<seq<RefUpdate>, ParseError>)
    ensures After(updates, After([u], rest)) == After(updates + [u], rest)
  {
    if rest.Ok? {
      assert updates + ([u] + rest.value) == (updates + [u]) + rest.value;
    }
  }

  // ----- printing -----

  function HexChar(d: int): Byte
    requires 0 <= d < 16
  {
    if d < 10 then 48 + d else 87 + d
  }

  function PrintLength(n: nat): Bytes
    requires n < 65536
  {
    [HexChar(n / 16 / 16 / 16), HexChar(n / 16 / 16 % 16), HexChar(n / 16 % 16), HexChar(n % 16)]
  }

  function PrintUpdate(u: RefUpdate): Bytes {
    u.oldOid + [SPACE] + (u.newOid + [SPACE] +
      (u.refname + (match u.capabilities case Some(caps) => [NUL] + caps case None => [])))
  }

  /** A line of a request: a ref update, with or without a final newline, or some other payload. */
  datatype Item = Update(update: RefUpdate, newline: bool) | Other(bytes: Bytes)

  function Payload(i: Item): Bytes {
    match i
    case Update(u, newline) => PrintUpdate(u) + (if newline then [NEWLINE] else [])
    case Other(bytes) => bytes
  }

  predicate Fits(i: Item) {
    |Payload(i)| + 4 < 65536
  }

  /** Items that can be told apart once printed. */
  ghost predicate Printable(t: Text, i: Item) {
    && Fits(i)
    && match i
       case Other(bytes) => !LooksLikeUpdate(t, bytes)
       case Update(u, newline) =>
         && WellFormed(u)
         && (u.capabilities.Some? ==> t.trim(u.capabilities.value) == u.capabilities.value)
         && t.valid(PrintUpdate(u)) && t.valid(Payload(i))
         && (!newline ==> StripNewline(PrintUpdate(u)) == PrintUpdate(u))
  }

  function PrintLine(i: Item): Bytes
    requires Fits(i)
  {
    PrintLength(|Payload(i)| + 4) + Payload(i)
  }

  function Print(items: seq<Item>): Bytes
    requires forall k :: 0 <= k < |items| ==> Fits(items[k])
  {
    if items == [] then [] else PrintLine(items[0]) + Print(items[1..])
  }

  function Updates(items: seq<Item>): seq<RefUpdate> {
    if items == [] then []
    else if items[0].Update? then [items[0].update] + Updates(items[1..])
    else Updates(items[1..])
  }

  // ----- round trip -----

  lemma HexCharDigit(d: int)
    requires 0 <= d < 16
    ensures HexDigit(HexChar(d)) == Some(d) && HexChar(d) != PLUS && HexChar(d) < 128
  {
  }

  lemma HexStep(s: Bytes, acc: nat)
    requires s != [] && HexDigit(s[0]).Some?
    ensures HexNumber(s, acc) == HexNumber(s[1..], acc * 16 + HexDigit(s[0]).value)
  {
  }

  lemma HexFour(a: int, b: int, c: int, d: int)
    requires 0 <= a < 16 && 0 <= b < 16 && 0 <= c < 16 && 0 <= d < 16
    ensures HexNumber([HexChar(a), HexChar(b), HexChar(c), HexChar(d)], 0) == Some(a * 4096 + b * 256 + c * 16 + d)
  {
    HexCharDigit(a);
    HexCharDigit(b);
    HexCharDigit(c);
    HexCharDigit(d);
    var s := [HexChar(a), HexChar(b), HexChar(c), HexChar(d)];
    assert s[1..] == [HexChar(b), HexChar(c), HexChar(d)];
    assert s[2..] == [HexChar(c), HexChar(d)] && s[3..] == [HexChar(d)];
    HexStep(s, 0);
    HexStep(s[1..], a);
    HexStep(s[2..], a * 16 + b);
    HexStep(s[3..], (a * 16 + b) * 16 + c);
  }

  lemma LengthRoundTrip(t: Text, n: nat)
    requires n < 65536 && AcceptsAscii(t)
    ensures ParseLength(t, PrintLength(n)) == Ok(n)
  {
    var q := n / 16;
    var r := q / 16;
    HexCharDigit(r / 16);
    HexCharDigit(r % 16);
    HexCharDigit(q % 16);
    HexCharDigit(n % 16);
    HexFour(r / 16, r % 16, q % 16, n % 16);
    assert t.valid(PrintLength(n));
  }

  lemma {:induction false} SplitAtFirst(a: Bytes, sep: Byte, b: Bytes)
    requires sep !in a
    ensures SplitOnce(a + [sep] + b, sep) == (a, Some(b))
    ensures SplitOnce(a, sep) == (a, None)
  {
    if a == [] {
      assert (a + [sep] + b)[0] == sep && (a + [sep] + b)[1..] == b;
    } else {
      SplitAtFirst(a[1..], sep, b);
      assert (a + [sep] + b)[1..] == a[1..] + [sep] + b;
      assert a == [a[0]] + a[1..];
    }
  }

  lemma Sha1HasNoSpace(s: Bytes)
    requires IsSha1(s)
    ensures SPACE !in s
  {
    assert HexDigit(SPACE).None?;
  }

  /** The three parts of a printed update, whatever follows the second space. */
  lemma SplitUpdate(oldOid: Bytes, newOid: Bytes, rest: Bytes)
    requires IsSha1(oldOid) && IsSha1(newOid)
    ensures SplitOnce(oldOid + [SPACE] + (newOid + [SPACE] + rest), SPACE) == (oldOid, Some(newOid + [SPACE] + rest))
    ensures SplitOnce(newOid + [SPACE] + rest, SPACE) == (newOid, Some(rest))
  {
    Sha1HasNoSpace(oldOid);
    Sha1HasNoSpace(newOid);
    SplitAtFirst(oldOid, SPACE, newOid + [SPACE] + rest);
    SplitAtFirst(newOid, SPACE, rest);
  }

  function RefText(u: RefUpdate): Bytes {
    u.refname + (match u.capabilities case Some(caps) => [NUL] + caps case None => [])
  }

  lemma SplitRefText(u: RefUpdate)
    requires NUL !in u.refname
    ensures SplitOnce(RefText(u), NUL) == (u.refname, u.capabilities)
  {
    match u.capabilities {
      case None =>
        SplitAtFirst(u.refname, NUL, []);
        assert RefText(u) == u.refname;
      case Some(caps) =>
        SplitAtFirst(u.refname, NUL, caps);
        assert RefText(u) == u.refname + [NUL] + caps;
    }
  }

  lemma StripPrinted(t: Text, i: Item)
    requires i.Update? && Printable(t, i)
    ensures StripNewline(Payload(i)) == PrintUpdate(i.update)
  {
    if i.newline {
      var p := PrintUpdate(i.update);
      assert (p + [NEWLINE])[..|p|] == p;
    } else {
      assert PrintUpdate(i.update) + [] == PrintUpdate(i.update);
    }
  }

  lemma UpdateRoundTrip(t: Text, i: Item)
    requires i.Update? && Printable(t, i)
    ensures LooksLikeUpdate(t, Payload(i)) && ParseRefUpdate(t, Payload(i)) == Ok(i.update)
  {
    var u := i.update;
    StripPrinted(t, i);
    SplitUpdate(u.oldOid, u.newOid, RefText(u));
    SplitRefText(u);
    var tail := if i.newline then [NEWLINE] else [];
    SplitUpdate(u.oldOid, u.newOid, RefText(u) + tail);
    assert Payload(i) == u.oldOid + [SPACE] + (u.newOid + [SPACE] + (RefText(u) + tail));
  }

  /** One printed line in front of anything. */
  lemma LineThenRest(t: Text, i: Item, rest: Bytes)
    requires AcceptsAscii(t) && Fits(i)
    ensures Parse(t, PrintLine(i) + rest) == ParseLine(t, Payload(i), Parse(t, rest))
  {
    var p := Payload(i);
    var n := |p| + 4;
    var body := PrintLine(i) + rest;
    LengthRoundTrip(t, n);
    assert body[..4] == PrintLength(n) && body[4..n] == p && body[n..] == rest;
  }

  lemma ItemThenRest(t: Text, i: Item, rest: Bytes)
    requires AcceptsAscii(t) && Fits(i) && Printable(t, i) && Parse(t, rest).Ok?
    ensures Parse(t, PrintLine(i) + rest) == Ok((if i.Update? then [i.update] else []) + Parse(t, rest).value)
  {
    LineThenRest(t, i, rest);
    if i.Update? {
      UpdateRoundTrip(t, i);
    } else {
      assert [] + Parse(t, rest).value == Parse(t, rest).value;
    }
  }

  lemma StopThenRest(t: Text, stop: nat, rest: Bytes)
    requires AcceptsAscii(t) && stop <= 2
    ensures Parse(t, PrintLength(stop) + rest) == Ok([])
  {
    LengthRoundTrip(t, stop);
    assert (PrintLength(stop) + rest)[..4] == PrintLength(stop);
  }

  /** A length of three is too short for a line, and one beyond the end of the body is refused. */
  lemma BadLength(t: Text, n: nat, rest: Bytes)
    requires AcceptsAscii(t) && 3 <= n < 65536
    ensures n == 3 ==> Parse(t, PrintLength(n) + rest) == Err(LengthTooShort)
    ensures n > 4 + |rest| ==> Parse(t, PrintLength(n) + rest) == Err(BeyondBody)
  {
    LengthRoundTrip(t, n);
    assert (PrintLength(n) + rest)[..4] == PrintLength(n);
  }

  /** A line of two object ids and nothing that names a ref is refused. */
  lemma BadRef(t: Text, oldOid: Bytes, newOid: Bytes, name: Bytes, rest: Result<seq<RefUpdate>, ParseError>)
    requires IsSha1(oldOid) && IsSha1(newOid) && NUL !in name && StripNewline(name) == name
    ensures var line := oldOid + [SPACE] + newOid;
            t.valid(line) ==> ParseLine(t, line, rest) == Err(MissingRefname)
    ensures var line := oldOid + [SPACE] + (newOid + [SPACE] + name);
            t.valid(line) && !(REFS <= name) ==> ParseLine(t, line, rest) == Err(NotARef)
  {
    NoName(t, oldOid, newOid);
    if !(REFS <= name) {
      WrongName(t, oldOid, newOid, name);
    }
  }

  lemma NoName(t: Text, oldOid: Bytes, newOid: Bytes)
    requires IsSha1(oldOid) && IsSha1(newOid)
    ensures var line := oldOid + [SPACE] + newOid;
            t.valid(line) ==> LooksLikeUpdate(t, line) && ParseRefUpdate(t, line) == Err(MissingRefname)
  {
    var line := oldOid + [SPACE] + newOid;
    Sha1HasNoSpace(oldOid);
    Sha1HasNoSpace(newOid);
    SplitAtFirst(oldOid, SPACE, newOid);
    SplitNowhere(newOid, SPACE);
    assert line[|line| - 1] == newOid[39];
  }

  lemma WrongName(t: Text, oldOid: Bytes, newOid: Bytes, name: Bytes)
    requires IsSha1(oldOid) && IsSha1(newOid) && NUL !in name && StripNewline(name) == name && !(REFS <= name)
    ensures var line := oldOid + [SPACE] + (newOid + [SPACE] + name);
            t.valid(line) ==> LooksLikeUpdate(t, line) && ParseRefUpdate(t, line) == Err(NotARef)
  {
    var line := oldOid + [SPACE] + (newOid + [SPACE] + name);
    Sha1HasNoSpace(oldOid);
    Sha1HasNoSpace(newOid);
    SplitAtFirst(oldOid, SPACE, newOid + [SPACE] + name);
    SplitAtFirst(newOid, SPACE, name);
    SplitNowhere(name, NUL);
    assert name == [] ==> line[|line| - 1] == SPACE;
    assert name != [] ==> line[|line| - 1] == name[|name| - 1];
  }

  lemma {:induction false} SplitNowhere(s: Bytes, sep: Byte)
    requires sep !in s
    ensures SplitOnce(s, sep) == (s, None)
  {
    if s != [] {
      SplitNowhere(s[1..], sep);
      assert s == [s[0]] + s[1..];
    }
  }

  /** A hexadecimal digit of either case, by its character. */
  ghost predicate IsHexByte(b: Byte) {
    || '0' as int <= b <= '9' as int
    || 'a' as int <= b <= 'f' as int
    || 'A' as int <= b <= 'F' as int
  }

  /** Forty hexadecimal digits. */
  ghost predicate IsOid(s: Bytes) {
    |s| == 40 && forall i :: 0 <= i < 40 ==> IsHexByte(s[i])
  }

  lemma OidIff(s: Bytes)
    ensures IsSha1(s) <==> IsOid(s)
  {
    assert forall b: Byte :: HexDigit(b).Some? <==> IsHexByte(b);
  }

  /** Two object ids with a space between them, and then the end or another space. */
  ghost predicate StartsWithOids(s: Bytes) {
    && |s| >= 81 && IsOid(s[..40]) && s[40] == 32 && IsOid(s[41..81])
    && (|s| > 81 ==> s[81] == 32)
  }

  lemma {:induction false} SplitParts(s: Bytes, sep: Byte)
    ensures var (head, tail) := SplitOnce(s, sep);
            && sep !in head
            && (if tail.Some? then s == head + [sep] + tail.value else s == head)
  {
    if s != [] && s[0] != sep {
      SplitParts(s[1..], sep);
      assert s == [s[0]] + s[1..];
    }
  }

  lemma OidsSplit(s: Bytes)
    requires StartsWithOids(s)
    ensures SplitOnce(s, SPACE) == (s[..40], Some(s[41..])) && SplitOnce(s[41..], SPACE).0 == s[41..81]
  {
    var rest := s[41..];
    OidIff(s[..40]);
    OidIff(s[41..81]);
    Sha1HasNoSpace(s[..40]);
    Sha1HasNoSpace(s[41..81]);
    assert s == s[..40] + [SPACE] + rest;
    SplitAtFirst(s[..40], SPACE, rest);
    assert rest[..40] == s[41..81];
    if |s| == 81 {
      assert rest == s[41..81];
      SplitNowhere(rest, SPACE);
    } else {
      assert rest == rest[..40] + [SPACE] + rest[41..];
      SplitAtFirst(rest[..40], SPACE, rest[41..]);
    }
  }

  lemma SplitsIntoOids(s: Bytes, rest: Bytes)
    requires SplitOnce(s, SPACE).1 == Some(rest)
    requires IsSha1(SplitOnce(s, SPACE).0) && IsSha1(SplitOnce(rest, SPACE).0)
    ensures StartsWithOids(s)
  {
    var first, second := SplitOnce(s, SPACE).0, SplitOnce(rest, SPACE).0;
    OidIff(first);
    OidIff(second);
    SplitParts(s, SPACE);
    SplitParts(rest, SPACE);
    assert s[..40] == first && s[41..] == rest;
    assert s[41..81] == rest[..40] == second;
  }

  /** Exactly the lines that start with two object ids are taken for ref updates; all others are skipped. */
  lemma UpdateIff(t: Text, payload: Bytes, rest: Result<seq<RefUpdate>, ParseError>)
    ensures LooksLikeUpdate(t, payload) <==> t.valid(payload) && StartsWithOids(payload)
    ensures !(t.valid(payload) && StartsWithOids(payload)) ==> ParseLine(t, payload, rest) == rest
  {
    if StartsWithOids(payload) {
      OidsSplit(payload);
      OidIff(payload[..40]);
      OidIff(payload[41..81]);
    }
    if LooksLikeUpdate(t, payload) {
      SplitsIntoOids(payload, SplitOnce(payload, SPACE).1.value);
    }
  }

  lemma {:induction false} NotHex(s: Bytes, acc: nat, i: nat)
    requires i < |s| && !IsHexByte(s[i])
    ensures HexNumber(s, acc).None?
  {
    assert HexDigit(s[0]).Some? <==> IsHexByte(s[0]);
    if i > 0 && HexDigit(s[0]).Some? {
      NotHex(s[1..], acc * 16 + HexDigit(s[0]).value, i - 1);
    }
  }

  /** A length that is no text or no hexadecimal number is refused; a plus sign may come before three digits. */
  lemma LengthRefused(t: Text, s: Bytes, i: nat)
    requires |s| == 4 && i < 4
    ensures !t.valid(s) ==> ParseLength(t, s) == Err(LengthNotText)
    ensures t.valid(s) && !IsHexByte(s[i]) && !(i == 0 && s[0] == 43) ==> ParseLength(t, s) == Err(LengthNotHex)
  {
    if !IsHexByte(s[i]) && !(i == 0 && s[0] == 43) {
      if s[0] == PLUS {
        NotHex(s[1..], 0, i - 1);
      } else {
        NotHex(s, 0, i);
      }
    }
  }

  lemma PlusIsAllowed(t: Text, a: int, b: int, c: int)
    requires AcceptsAscii(t) && 0 <= a < 16 && 0 <= b < 16 && 0 <= c < 16
    ensures ParseLength(t, [43, HexChar(a), HexChar(b), HexChar(c)]) == Ok(a * 256 + b * 16 + c)
  {
    HexCharDigit(a);
    HexCharDigit(b);
    HexCharDigit(c);
    HexCharDigit(0);
    HexFour(0, a, b, c);
    var s, z := [43, HexChar(a), HexChar(b), HexChar(c)], [HexChar(0), HexChar(a), HexChar(b), HexChar(c)];
    assert s[1..] == z[1..];
    HexStep(z, 0);
    assert t.valid(s);
  }

  lemma Concat(a: Bytes, b: Bytes, c: Bytes)
    ensures (a + b) + c == a + (b + c)
  {
  }

  lemma PrintFirst(items: seq<Item>, rest: Bytes)
    requires items != [] && forall k :: 0 <= k < |items| ==> Fits(items[k])
    ensures Print(items) + rest == PrintLine(items[0]) + (Print(items[1..]) + rest)
  {
    Concat(PrintLine(items[0]), Print(items[1..]), rest);
  }

  lemma UpdatesFirst(items: seq<Item>, found: seq<RefUpdate>)
    requires items != []
    ensures Updates(items) + found ==
            (if items[0].Update? then [items[0].update] else []) + (Updates(items[1..]) + found)
  {
  }

  /** Printed lines in front of anything that parses. */
  lemma {:induction false} ItemsThenRest(t: Text, items: seq<Item>, rest: Bytes)
    requires AcceptsAscii(t) && Parse(t, rest).Ok?
    requires forall k :: 0 <= k < |items| ==> Fits(items[k]) && Printable(t, items[k])
    ensures Parse(t, Print(items) + rest) == Ok(Updates(items) + Parse(t, rest).value)
  {
    var found := Parse(t, rest).value;
    if items == [] {
      assert Print(items) + rest == rest && Updates(items) + found == found;
    } else {
      ItemsThenRest(t, items[1..], rest);
      ItemThenRest(t, items[0], Print(items[1..]) + rest);
      PrintFirst(items, rest);
      UpdatesFirst(items, found);
    }
  }

  /** Printed lines followed by a packet that stops the parser, and then by anything, parse to exactly their updates. */
  lemma RoundTrip(t: Text, items: seq<Item>, stop: nat, tail: Bytes)
    requires AcceptsAscii(t) && stop <= 2
    requires forall k :: 0 <= k < |items| ==> Fits(items[k]) && Printable(t, items[k])
    ensures Parse(t, Print(items) + (PrintLength(stop) + tail)) == Ok(Updates(items))
  {
    StopThenRest(t, stop, tail);
    ItemsThenRest(t, items, PrintLength(stop) + tail);
    assert Updates(items) + [] == Updates(items);
  }

  // ----- nothing else is accepted -----

  predicate WellFormed(u: RefUpdate) {
    IsSha1(u.oldOid) && IsSha1(u.newOid) && REFS <= u.refname && NUL !in u.refname
  }

  lemma {:induction false} HeadHasNoSeparator(s: Bytes, sep: Byte)
    ensures sep !in SplitOnce(s, sep).0
  {
    if s != [] && s[0] != sep {
      HeadHasNoSeparator(s[1..], sep);
    }
  }

  lemma ParsedIsWellFormed(t: Text, line: Bytes)
    requires ParseRefUpdate(t, line).Ok?
    ensures WellFormed(ParseRefUpdate(t, line).value)
  {
    var afterOld := SplitOnce(StripNewline(line), SPACE).1.value;
    HeadHasNoSeparator(SplitOnce(afterOld, SPACE).1.value, NUL);
  }

  /** Every update a body yields names two object ids and a ref. */
  lemma {:induction false} OnlyWellFormed(t: Text, body: Bytes)
    requires Parse(t, body).Ok?
    ensures forall u :: u in Parse(t, body).value ==> WellFormed(u)
    decreases |body|
  {
    if |body| >= 4 && ParseLength(t, body[..4]).value > 2 {
      var len := ParseLength(t, body[..4]).value;
      OnlyWellFormed(t, body[len..]);
      if LooksLikeUpdate(t, body[4..len]) {
        ParsedIsWellFormed(t, body[4..len]);
      }
    }
  }

  // ----- nothing after the stop packet matters -----

  /** Where the first stopping packet ends, if the lines before it are well delimited. */
  function StopEnd(t: Text, body: Bytes): Option<nat>
    decreases |body|
  {
    if |body| < 4 || ParseLength(t, body[..4]).Err? then None
    else
      var len := ParseLength(t, body[..4]).value;
      if len <= 2 then Some(4)
      else if len < 4 || len > |body| then None
      else
        match StopEnd(t, body[len..])
        case None => None
        case Some(end) => Some(len + end)
  }

  /** The outcome depends only on the bytes up to the first stopping packet. */
  lemma {:induction false} IgnoresTail(t: Text, body: Bytes, other: Bytes)
    requires StopEnd(t, body).Some?
    ensures StopEnd(t, body).value <= |body|
    ensures Parse(t, body[..StopEnd(t, body).value] + other) == Parse(t, body)
    decreases |body|
  {
    var len := ParseLength(t, body[..4]).value;
    if len <= 2 {
      assert (body[..4] + other)[..4] == body[..4];
    } else {
      var end := StopEnd(t, body[len..]).value;
      IgnoresTail(t, body[len..], other);
      Slices(body, len, end, other);
      ParseFirst(t, body, len);
      ParseFirst(t, body[..len + end] + other, len);
    }
  }

  lemma ParseFirst(t: Text, body: Bytes, len: nat)
    requires 4 <= len <= |body| && ParseLength(t, body[..4]) == Ok(len)
    ensures Parse(t, body) == ParseLine(t, body[4..len], Parse(t, body[len..]))
  {
  }

  lemma Slices(body: Bytes, len: nat, end: nat, other: Bytes)
    requires 4 <= len && len + end <= |body|
    ensures var changed := body[..len + end] + other;
            && changed[..4] == body[..4] && changed[4..len] == body[4..len]
            && changed[len..] == body[len..][..end] + other
  {
  }
}
