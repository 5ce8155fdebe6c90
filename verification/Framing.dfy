/**
  `frameJournal` of packages/verify/src/verify.ts: finding the journal of a bincode-encoded receipt from
  its end, without decoding what comes before it.
*/
module Framing {
  import opened Encoding
  import opened Json
  import opened Preimages
  import opened Wrappers

  // ------------------------------------------------------------ UTF-8 decoding

  /**
    The scalar value the bytes under this lead byte would spell; ill-formed sequences are caught by encoding it
    again.
  */
  function Spelled(b: Bytes): nat
    requires b != []
  {
    if b[0] < 0x80 || |b| < 2 then b[0]
    else if b[0] < 0xE0 || |b| < 3 then b[0] % 0x20 * 0x40 + b[1] % 0x40
    else if b[0] < 0xF0 || |b| < 4 then (b[0] % 0x10 * 0x40 + b[1] % 0x40) * 0x40 + b[2] % 0x40
    else ((b[0] % 0x8 * 0x40 + b[1] % 0x40) * 0x40 + b[2] % 0x40) * 0x40 + b[3] % 0x40
  }

  predicate IsScalar(n: nat) {
    n < 0xD800 || 0xE000 <= n < 0x11_0000
  }

  /** UTF-8 text as Rust reads it: ill-formed bytes are refused, nothing is dropped. */
  function Utf8Decode(b: Bytes): Option<string> {
    if b == [] then Some("")
    else if !IsScalar(Spelled(b)) then None
    else
      var c := Spelled(b) as char;
      if !(Utf8Units(c) <= b) then None
      else
        match Utf8Decode(b[|Utf8Units(c)|..])
        case None => None
        case Some(s) => Some([c] + s)
  }

  lemma {:induction false} DecodedEncodes(b: Bytes)
    requires Utf8Decode(b).Some?
    ensures Utf8Of(Utf8Decode(b).value) == b
  {
    if b != [] {
      var c := Spelled(b) as char;
      DecodedEncodes(b[|Utf8Units(c)|..]);
      assert b == Utf8Units(c) + b[|Utf8Units(c)|..];
    }
  }

  lemma SpelledIsEncoded(c: char, rest: Bytes)
    ensures Spelled(Utf8Units(c) + rest) == c as nat
  {
    var n, u := c as nat, Utf8Units(c);
    var b := u + rest;
    assert b[0] == u[0];
    if n >= 0x80 { assert b[1] == u[1]; TwoBytes(n); }
    if n >= 0x800 { assert b[2] == u[2]; ThreeBytes(n); }
    if n >= 0x1_0000 { assert b[3] == u[3]; FourBytes(n); }
  }

  lemma TwoBytes(n: nat)
    requires 0x80 <= n < 0x11_0000
    ensures n < 0x800 ==> 0xC0 <= Utf8Bytes(n)[0] < 0xE0 && Utf8Bytes(n)[0] % 0x20 * 0x40 + Utf8Bytes(n)[1] % 0x40 == n
  {}

  lemma ThreeBytes(n: nat)
    requires 0x800 <= n < 0x11_0000
    ensures n < 0x1_0000 ==> 0xE0 <= Utf8Bytes(n)[0] < 0xF0
    ensures n < 0x1_0000 ==>
            (Utf8Bytes(n)[0] % 0x10 * 0x40 + Utf8Bytes(n)[1] % 0x40) * 0x40 + Utf8Bytes(n)[2] % 0x40 == n
  {
    if n < 0x1_0000 {
      assert n / 0x40 / 0x40 < 0x10;
      Digits(0xE0, n / 0x40 / 0x40, n / 0x40 % 0x40, n % 0x40);
    }
  }

  lemma FourBytes(n: nat)
    requires 0x1_0000 <= n < 0x11_0000
    ensures 0xF0 <= Utf8Bytes(n)[0]
    ensures ((Utf8Bytes(n)[0] % 0x8 * 0x40 + Utf8Bytes(n)[1] % 0x40) * 0x40 + Utf8Bytes(n)[2] % 0x40) * 0x40
            + Utf8Bytes(n)[3] % 0x40 == n
  {
    assert n / 0x40 / 0x40 / 0x40 < 8;
    Digits(0xF0, n / 0x40 / 0x40 / 0x40, n / 0x40 / 0x40 % 0x40, n / 0x40 % 0x40);
  }

  lemma Digits(mark: nat, a: nat, b: nat, c: nat)
    requires mark == 0xE0 || (mark == 0xF0 && a < 8)
    requires a < 0x10 && b < 0x40 && c < 0x40
    ensures (mark + a) % 0x10 == a && (mark == 0xF0 ==> (mark + a) % 8 == a)
    ensures (0x80 + b) % 0x40 == b && (0x80 + c) % 0x40 == c
  {}

  lemma {:induction false} EncodedDecodes(s: string)
    ensures Utf8Decode(Utf8Of(s)) == Some(s)
  {
    if s != "" {
      EncodedDecodes(s[1..]);
      SpelledIsEncoded(s[0], Utf8Of(s[1..]));
      assert Utf8Of(s)[|Utf8Units(s[0])|..] == Utf8Of(s[1..]);
      assert s == [s[0]] + s[1..];
    }
  }

  const BYTE_ORDER_MARK: char := '\U{FEFF}'

  predicate StartsWithMark(s: string) {
    s != "" && s[0] == BYTE_ORDER_MARK
  }

  /** `TextDecoder("utf-8", { fatal: true })`, which drops one leading byte order mark. */
  function TextDecode(b: Bytes): Option<string> {
    match Utf8Decode(b)
    case None => None
    case Some(s) => Some(if StartsWithMark(s) then s[1..] else s)
  }

  /** Rust's decoding is the inverse of encoding. */
  lemma Utf8DecodesExactlyWhen(b: Bytes, s: string)
    ensures Utf8Decode(b) == Some(s) <==> b == Utf8Of(s)
  {
    if Utf8Decode(b) == Some(s) { DecodedEncodes(b); }
    EncodedDecodes(s);
  }

  /** JavaScript's decoding is the inverse of encoding but for one byte order mark at the start. */
  lemma TextDecodesExactlyWhen(b: Bytes, s: string)
    ensures TextDecode(b) == Some(s) <==> (b == Utf8Of(s) && !StartsWithMark(s)) || b == Utf8Of([BYTE_ORDER_MARK] + s)
  {
    var marked := [BYTE_ORDER_MARK] + s;
    Utf8DecodesExactlyWhen(b, s);
    Utf8DecodesExactlyWhen(b, marked);
    assert StartsWithMark(marked) && marked[1..] == s;
    if TextDecode(b) == Some(s) && StartsWithMark(Utf8Decode(b).value) {
      assert Utf8Decode(b).value == marked;
    }
  }

  lemma BraceIsBrace(t: string)
    requires t != ""
    ensures Utf8Of(t) != [] && (Utf8Of(t)[0] == '{' as nat ==> t[0] == '{')
  {
    assert Utf8Of(t) == Utf8Units(t[0]) + Utf8Of(t[1..]);
  }

  /** Bytes that start with a brace are read alike. */
  lemma BracedTextDecodes(b: Bytes)
    requires b != [] && b[0] == '{' as nat
    ensures TextDecode(b) == Utf8Decode(b)
  {
    if Utf8Decode(b).Some? && Utf8Decode(b).value != "" {
      DecodedEncodes(b);
      BraceIsBrace(Utf8Decode(b).value);
    }
  }

  lemma {:induction false} NulByteIsNulCharacter(s: string)
    ensures 0 in Utf8Of(s) <==> '\0' in s
  {
    if s != "" {
      NulByteIsNulCharacter(s[1..]);
      assert s == [s[0]] + s[1..];
      assert Utf8Of(s) == Utf8Units(s[0]) + Utf8Of(s[1..]);
    }
  }

  // ------------------------------------------------------------ the frame

  const META_LEN := 32
  const MAX_JOURNAL := 65536

  /** Four bytes, least significant first: the bytes of the original's shifts never overlap, so its `|` is a sum. */
  function ReadU32LE(b: Bytes, at: nat): nat
    requires at + 4 <= |b|
  {
    b[at] + 0x100 * b[at + 1] + 0x1_0000 * b[at + 2] + 0x100_0000 * b[at + 3]
  }

  predicate U64LEEquals(b: Bytes, at: nat, expected: nat)
    requires at + 8 <= |b|
  {
    ReadU32LE(b, at + 4) == 0 && ReadU32LE(b, at) == expected
  }

  /** How the bytes between the braces are read; the scan's results hold for any reading that accepts no NUL byte. */
  type Reader = Bytes -> Option<Json>

  ghost predicate RefusesNul(read: Reader) {
    forall body :: read(body).Some? ==> 0 !in body
  }

  /** Decoding, then `JSON.parse`. */
  function ReadJournal(body: Bytes): Option<Json> {
    match TextDecode(body)
    case None => None
    case Some(text) => ParseText(false, text)
  }

  lemma JournalsRefuseNul()
    ensures RefusesNul(ReadJournal)
  {
    forall body | ReadJournal(body).Some? ensures 0 !in body {
      JournalHasNoNul(body, Utf8Decode(body).value);
    }
  }

  lemma JournalHasNoNul(body: Bytes, t: string)
    requires Utf8Decode(body) == Some(t) && ReadJournal(body).Some?
    ensures 0 !in body
  {
    var text := TextDecode(body).value;
    DecodedEncodes(body);
    JsonHasNoNul(false, text);
    assert t == text || t == [BYTE_ORDER_MARK] + text;
    NulByteIsNulCharacter(t);
  }

  /** What the `len` bytes that end 32 bytes before the end read as. */
  function TextAt(read: Reader, b: Bytes, len: nat): Option<Json>
    requires len + META_LEN <= |b|
  {
    read(b[|b| - META_LEN - len..|b| - META_LEN])
  }

  /** The journal is an object, and the receipt is long enough to hold one. */
  predicate Closes(b: Bytes) {
    |b| >= META_LEN + 8 + 2 && b[|b| - META_LEN - 1] == '}' as nat
  }

  /** Where a journal of `len` bytes would start there is a brace, and before it the length. */
  predicate StartsAt(b: Bytes, len: nat)
    requires len + 8 + META_LEN <= |b|
  {
    b[|b| - META_LEN - len] == '{' as nat && U64LEEquals(b, |b| - META_LEN - len - 8, len)
  }

  /** A journal of `len` bytes, with its length before it and the metadata digest after it. */
  predicate Frames(read: Reader, b: Bytes, len: nat) {
    && Closes(b)
    && 2 <= len <= MAX_JOURNAL && len + 8 + META_LEN <= |b|
    && StartsAt(b, len)
    && TextAt(read, b, len).Some?
  }

  datatype Framed = Framed(innerTag: nat, journal: Json)

  function FrameRead(read: Reader, b: Bytes, len: nat): Framed
    requires Frames(read, b, len)
  {
    Framed(ReadU32LE(b, 0), TextAt(read, b, len).value)
  }

  /** The scan over candidate lengths finds whatever frames, and fails only where nothing does. */
  method Scan(read: Reader, b: Bytes) returns (r: Option<Framed>)
    requires RefusesNul(read)
    ensures forall len :: Frames(read, b, len) ==> r == Some(FrameRead(read, b, len))
    ensures r.Some? ==> exists len :: Frames(read, b, len)
  {
    if !Closes(b) { return None; }
    var innerTag := ReadU32LE(b, 0);
    var journalEnd := |b| - META_LEN;
    var maxLen := if MAX_JOURNAL < journalEnd - 8 then MAX_JOURNAL else journalEnd - 8;
    for len := 2 to maxLen + 1
      invariant forall k :: 2 <= k < len ==> !Frames(read, b, k)
    {
      if StartsAt(b, len) {
        var journal := TextAt(read, b, len);
        if journal.Some? {
          OnlyFrame(read, b, len);
          r := Some(Framed(innerTag, journal.value));
          assert Frames(read, b, len) && r == Some(FrameRead(read, b, len));
          return;
        }
      }
      assert !Frames(read, b, len);
    }
    return None;
  }

  /** `frameJournal`: the scan, with bodies read as JSON. */
  method FrameJournal(b: Bytes) returns (r: Option<Framed>)
    ensures forall len :: Frames(ReadJournal, b, len) ==> r == Some(FrameRead(ReadJournal, b, len))
    ensures r.Some? ==> exists len :: Frames(ReadJournal, b, len)
  {
    JournalsRefuseNul();
    r := Scan(ReadJournal, b);
  }

  lemma BodyHasNoNul(read: Reader, b: Bytes, len: nat, i: nat)
    requires RefusesNul(read) && len + META_LEN <= |b| && TextAt(read, b, len).Some?
    requires |b| - META_LEN - len <= i < |b| - META_LEN
    ensures b[i] != 0
  {
    var body := b[|b| - META_LEN - len..|b| - META_LEN];
    assert b[i] == body[i - (|b| - META_LEN - len)];
  }

  /** The last four bytes before a journal are zero. */
  lemma LengthEndsInZeros(read: Reader, b: Bytes, len: nat, k: nat)
    requires Frames(read, b, len) && 1 <= k <= 4
    ensures b[|b| - META_LEN - len - k] == 0
  {}

  /** A body longer than a framed one holds the zero bytes before it. */
  lemma LongerHoldsZero(read: Reader, b: Bytes, k: nat, len: nat)
    requires Frames(read, b, k) && k < len && len + META_LEN <= |b|
    ensures 0 in b[|b| - META_LEN - len..|b| - META_LEN]
  {
    LengthEndsInZeros(read, b, k, 1);
    assert b[|b| - META_LEN - len..|b| - META_LEN][len - k - 1] == 0;
  }

  /**
    Whatever the bytes are, at most one length frames: the longer journal would hold the zero bytes before the
    shorter one.
  */
  lemma AtMostOneFrame(b: Bytes, k: nat, len: nat)
    requires Frames(ReadJournal, b, k) && Frames(ReadJournal, b, len)
    ensures k == len
  {
    JournalsRefuseNul();
    OneFrameByAnyReading(ReadJournal, b, k, len);
  }

  lemma OneFrameByAnyReading(read: Reader, b: Bytes, k: nat, len: nat)
    requires RefusesNul(read) && Frames(read, b, k) && Frames(read, b, len)
    ensures k == len
  {
    if k < len {
      LongerHoldsZero(read, b, k, len);
    } else if len < k {
      LongerHoldsZero(read, b, len, k);
    }
  }

  lemma OnlyFrame(read: Reader, b: Bytes, len: nat)
    requires RefusesNul(read) && Frames(read, b, len)
    ensures forall k :: Frames(read, b, k) ==> k == len
  {
    forall k | Frames(read, b, k) ensures k == len {
      OneFrameByAnyReading(read, b, k, len);
    }
  }

  // ------------------------------------------------------------ laid-out receipts

  function LE64(n: nat): Bytes
    requires n < 0x1_0000_0000
  {
    [n % 0x100, n / 0x100 % 0x100, n / 0x1_0000 % 0x100, n / 0x100_0000, 0, 0, 0, 0]
  }

  /** `Receipt { inner, journal, metadata }` with fixed-width integers. */
  function LayOut(inner: Bytes, body: Bytes, metadata: Bytes): Bytes
    requires |body| < 0x1_0000_0000
  {
    inner + LE64(|body|) + body + metadata
  }

  /** A JSON text in braces, of a length the scan reaches. */
  predicate IsJournalText(text: string, journal: Json) {
    && text != "" && text[0] == '{' && text[|text| - 1] == '}'
    && 2 <= |Utf8Of(text)| <= 65536
    && ParseText(false, text) == Some(journal)
  }

  lemma LE64Reads(n: nat, b: Bytes, at: nat)
    requires n < 0x1_0000_0000 && at + 8 <= |b| && b[at..at + 8] == LE64(n)
    ensures U64LEEquals(b, at, n)
  {
    var s := b[at..at + 8];
    assert forall i :: 0 <= i < 8 ==> b[at + i] == s[i];
    assert n / 0x100 == n / 0x1_0000 * 0x100 + n / 0x100 % 0x100;
    assert n / 0x1_0000 == n / 0x100_0000 * 0x100 + n / 0x1_0000 % 0x100;
  }

  lemma {:induction false} EndsOfText(s: string)
    requires s != ""
    ensures Utf8Of(s) != []
    ensures s[0] as nat < 0x80 ==> Utf8Of(s)[0] == s[0] as nat
    ensures s[|s| - 1] as nat < 0x80 ==> Utf8Of(s)[|Utf8Of(s)| - 1] == s[|s| - 1] as nat
  {
    var rest := Utf8Of(s[1..]);
    assert Utf8Of(s) == Utf8Units(s[0]) + rest;
    if |s| > 1 {
      EndsOfText(s[1..]);
      assert s[|s| - 1] == s[1..][|s[1..]| - 1];
      assert Utf8Of(s)[|Utf8Of(s)| - 1] == rest[|rest| - 1];
    }
  }

  /** Bytes in braces, of a length the scan reaches. */
  predicate Braced(body: Bytes) {
    2 <= |body| <= 65536 && body[0] == '{' as nat && body[|body| - 1] == '}' as nat
  }

  lemma LayOutParts(inner: Bytes, body: Bytes, metadata: Bytes)
    requires |body| < 0x1_0000_0000 && |metadata| == 32
    ensures var b, end := LayOut(inner, body, metadata), |inner| + 8 + |body|;
            && |b| - META_LEN == end && b[end - |body|..end] == body
            && b[|inner|..|inner| + 8] == LE64(|body|) && b[end - |body| - 1] == 0
  {
    var b, end := LayOut(inner, body, metadata), |inner| + 8 + |body|;
    assert b[|inner|..|inner| + 8] == LE64(|body|);
    assert b[|inner|..|inner| + 8][7] == 0;
  }

  lemma BodyFrames(read: Reader, inner: Bytes, body: Bytes, metadata: Bytes, journal: Json)
    requires Braced(body) && |metadata| == 32 && read(body) == Some(journal)
    ensures var b := LayOut(inner, body, metadata);
            Frames(read, b, |body|) && TextAt(read, b, |body|) == Some(journal)
  {
    LayOutParts(inner, body, metadata);
    var b, at := LayOut(inner, body, metadata), |inner|;
    LE64Reads(|body|, b, at);
    EndsOfSlice(b, at + 8, body);
  }

  lemma EndsOfSlice(b: Bytes, start: nat, body: Bytes)
    requires start + |body| <= |b| && b[start..start + |body|] == body && body != []
    ensures b[start] == body[0] && b[start + |body| - 1] == body[|body| - 1]
  {}

  /** Text between braces is read alike by Rust and by JavaScript. */
  lemma ReadsText(body: Bytes, text: string)
    requires body != [] && body[0] == '{' as nat && Utf8Decode(body) == Some(text)
    ensures ReadJournal(body) == ParseText(false, text)
  {
    BracedTextDecodes(body);
  }

  /**
    Whatever `inner` holds, copies of the journal included, the scan returns exactly the journal that was
    laid out before the 32 bytes of metadata.
  */
  lemma LaidOutFrames(inner: Bytes, text: string, journal: Json, metadata: Bytes)
    requires IsJournalText(text, journal) && |metadata| == 32
    ensures var b, len := LayOut(inner, Utf8Of(text), metadata), |Utf8Of(text)|;
            Frames(ReadJournal, b, len) && TextAt(ReadJournal, b, len) == Some(journal)
  {
    EndsOfText(text);
    EncodedDecodes(text);
    ReadsText(Utf8Of(text), text);
    BodyFrames(ReadJournal, inner, Utf8Of(text), metadata, journal);
  }

  lemma JsonBytesHaveNoNul(body: Bytes, text: string)
    requires Utf8Decode(body) == Some(text) && ParseText(true, text).Some?
    ensures forall i :: 0 <= i < |body| ==> body[i] != 0
  {
    DecodedEncodes(body);
    JsonHasNoNul(true, text);
    NulByteIsNulCharacter(text);
    assert forall i :: 0 <= i < |body| ==> body[i] in body;
  }

  /** Nothing else frames in a laid-out receipt, and the journal itself only in braces and within the scan's reach. */
  lemma OnlyTheJournalFrames(read: Reader, inner: Bytes, body: Bytes, metadata: Bytes, len: nat)
    requires RefusesNul(read) && |body| < 0x1_0000_0000 && |metadata| == 32
             && forall i :: 0 <= i < |body| ==> body[i] != 0
    requires Frames(read, LayOut(inner, body, metadata), len)
    ensures len == |body| && Braced(body)
  {
    LayOutParts(inner, body, metadata);
    FramedBody(read, LayOut(inner, body, metadata), body, len);
  }

  lemma FramedBody(read: Reader, b: Bytes, body: Bytes, len: nat)
    requires RefusesNul(read) && Frames(read, b, len) && |b| > 32 + |body|
    requires b[|b| - 32 - |body|..|b| - 32] == body && b[|b| - 32 - |body| - 1] == 0
    requires forall i :: 0 <= i < |body| ==> body[i] != 0
    ensures len == |body| && Braced(body)
  {
    var end := |b| - META_LEN;
    if len < |body| {
      ShorterDoesNotFrame(read, b, body, len);
    } else if len > |body| {
      BodyHasNoNul(read, b, len, end - |body| - 1);
    } else {
      EndsOfSlice(b, end - |body|, body);
    }
  }

  lemma ShorterDoesNotFrame(read: Reader, b: Bytes, body: Bytes, len: nat)
    requires len < |body| && |b| > 32 + |body|
    requires b[|b| - 32 - |body|..|b| - 32] == body && body[|body| - len - 1] != 0
    ensures !Frames(read, b, len)
  {
    assert b[|b| - META_LEN - len - 1] == body[|body| - len - 1];
  }

  // ------------------------------------------------------------ appended bytes

  /** Whether a length frames is decided by the journal, its length field and what follows it. */
  lemma FrameIsLocal(read: Reader, prefix: Bytes, b: Bytes, len: nat)
    requires 2 <= len && len + 8 + 32 <= |b|
    ensures Frames(read, prefix + b, len) == Frames(read, b, len)
  {
    var c := prefix + b;
    var at := |b| - META_LEN - len - 8;
    assert c[|c| - META_LEN - len..|c| - META_LEN] == b[|b| - META_LEN - len..|b| - META_LEN];
    assert c[|prefix| + at..|prefix| + at + 8] == b[at..at + 8];
    assert c[|c| - META_LEN - 1] == b[|b| - META_LEN - 1] && c[|c| - META_LEN - len] == b[|b| - META_LEN - len];
    SameField(b, at, c, |prefix| + at, len);
  }

  lemma SameField(b: Bytes, i: nat, c: Bytes, j: nat, len: nat)
    requires i + 8 <= |b| && j + 8 <= |c| && b[i..i + 8] == c[j..j + 8]
    ensures U64LEEquals(b, i, len) == U64LEEquals(c, j, len)
  {
    LengthField(b, i, len);
    LengthField(c, j, len);
  }

  lemma LengthField(b: Bytes, at: nat, len: nat)
    requires at + 8 <= |b|
    ensures U64LEEquals(b, at, len) == U64LEEquals(b[at..at + 8], 0, len)
  {}

  lemma ZeroInside(b: Bytes, len: nat, i: nat)
    requires len + 32 <= |b|
    ensures |b| - 32 - len <= i < |b| - 32 && b[i] == 0 ==> 0 in b[|b| - 32 - len..|b| - 32]
  {
    if |b| - META_LEN - len <= i < |b| - META_LEN {
      assert b[i] == b[|b| - META_LEN - len..|b| - META_LEN][i - (|b| - META_LEN - len)];
    }
  }

  /**
    After bytes were appended to a framed receipt, a frame has its journal and four bytes of its length in what
    follows the old journal.
  */
  lemma AppendedFrameIsNew(read: Reader, b: Bytes, prior: nat, extra: Bytes, len: nat)
    requires RefusesNul(read) && Frames(read, b, prior) && extra != [] && Frames(read, b + extra, len)
    ensures len + 4 <= |extra|
  {
    var c := b + extra;
    var end, start := |b| - META_LEN, |c| - META_LEN - len;
    var before: nat := end - prior - 1;
    ZeroInside(c, len, before);
    LengthEndsInZeros(read, b, prior, 1);
    if start == end - prior {
      LengthIsRead(read, b, c, prior, len);
    } else if end - prior < start < end + 4 {
      var k := if start > end then start - end + 1 else 1;
      assert c[start - k] == b[start - k];
      ZeroInside(b, prior, start - k);
      LengthEndsInZeros(read, c, len, k);
    }
  }

  lemma LengthIsRead(read: Reader, b: Bytes, c: Bytes, k: nat, len: nat)
    requires Frames(read, b, k) && Frames(read, c, len) && b <= c && |c| - len == |b| - k
    ensures k == len
  {
    var at := |b| - META_LEN - k - 8;
    assert c[at..at + 8] == b[at..at + 8];
    LengthField(b, at, k);
    LengthField(c, at, len);
  }

  /**
    The comment on `frameJournal` says that appended bytes are rejected. They are rejected exactly when they do
    not form a frame themselves, together with the last 36 bytes of the receipt they were appended to.
  */
  lemma AppendedBytesFrameExactlyWhen(b: Bytes, prior: nat, extra: Bytes, len: nat)
    requires Frames(ReadJournal, b, prior) && extra != []
    ensures Frames(ReadJournal, b + extra, len)
       <==> len + 4 <= |extra| && Frames(ReadJournal, b[|b| - 36..] + extra, len)
  {
    JournalsRefuseNul();
    AppendedBytesByAnyReading(ReadJournal, b, prior, extra, len);
  }

  lemma AppendedBytesByAnyReading(read: Reader, b: Bytes, prior: nat, extra: Bytes, len: nat)
    requires RefusesNul(read) && Frames(read, b, prior) && extra != []
    ensures Frames(read, b + extra, len) <==> len + 4 <= |extra| && Frames(read, b[|b| - 36..] + extra, len)
  {
    var cut := |b| - 36;
    assert b + extra == b[..cut] + (b[cut..] + extra);
    if 2 <= len && len + 4 <= |extra| {
      FrameIsLocal(read, b[..cut], b[cut..] + extra, len);
    } else if Frames(read, b + extra, len) {
      AppendedFrameIsNew(read, b, prior, extra, len);
    }
  }

  /** An instance: appending a length, a journal and 32 bytes to any receipt, or to any bytes, replaces its journal. */
  lemma AppendedJournalReplaces(b: Bytes, text: string, journal: Json, metadata: Bytes)
    requires IsJournalText(text, journal) && |metadata| == 32
    ensures var body := Utf8Of(text);
            var c := b + (LE64(|body|) + body + metadata);
            Frames(ReadJournal, c, |body|) && TextAt(ReadJournal, c, |body|) == Some(journal)
  {
    LaidOutFrames(b, text, journal, metadata);
    Regrouped(b, LE64(|Utf8Of(text)|), Utf8Of(text), metadata);
  }

  lemma Regrouped(a: Bytes, b: Bytes, c: Bytes, d: Bytes)
    ensures a + (b + c + d) == a + b + c + d
  {}
}
