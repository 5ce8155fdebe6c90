/**
  What is hashed. The digests of packages/protocol/src/crypto.ts and prover/policy-core/src/policy_id.rs are
  taken over raw concatenations, so what each digest commits to is decided by how those concatenations decode.
  SHA-256 itself is not part of this model: every statement is about its input.
*/
module Preimages {
  import opened Canonical
  import opened Canonicalizers
  import opened Encoding
  import opened Json
  import opened Wrappers

  type Bytes = seq<nat>

  /** The bytes a string is hashed as. */
  function Utf8Of(text: string): Bytes {
    Encode(Utf8, text)
  }

  // ------------------------------------------------------------ no canonical object is a prefix of another

  lemma CanonicalObjectEnds(nfc: Nfc, v: Value, rest: string)
    requires v.VObj? && JsCanonical(nfc, v).Some?
    ensures TreeOf(nfc, v).Some?
    ensures ParseValue(false, JsCanonical(nfc, v).value + rest) == Some(Parsed(TreeOf(nfc, v).value, rest))
  {
    PrintsTheTree(nfc, v);
    PrintRoundTrip(false, TreeOf(nfc, v).value, rest);
  }

  lemma CanonicalObjectsArePrefixFree(nfc: Nfc, v: Value, w: Value)
    requires v.VObj? && w.VObj? && JsCanonical(nfc, v).Some? && JsCanonical(nfc, w).Some?
    requires JsCanonical(nfc, v).value <= JsCanonical(nfc, w).value
    ensures JsCanonical(nfc, v) == JsCanonical(nfc, w) && TreeOf(nfc, v) == TreeOf(nfc, w)
  {
    var a, b := JsCanonical(nfc, v).value, JsCanonical(nfc, w).value;
    CanonicalObjectEnds(nfc, v, b[|a|..]);
    CanonicalObjectEnds(nfc, w, "");
    assert a + b[|a|..] == b && b + "" == b;
  }

  /**
    `canonical_manifest ‖ rules_bytes` determines the canonical manifest, what it parses to, and the rules
    bytes, whatever bytes the rules are.
  */
  lemma PolicyIdPreimageDecodes(nfc: Nfc, v: Value, rules: Bytes, w: Value, rules': Bytes)
    requires v.VObj? && w.VObj? && JsCanonical(nfc, v).Some? && JsCanonical(nfc, w).Some?
    requires Utf8Of(JsCanonical(nfc, v).value) + rules == Utf8Of(JsCanonical(nfc, w).value) + rules'
    ensures JsCanonical(nfc, v) == JsCanonical(nfc, w) && TreeOf(nfc, v) == TreeOf(nfc, w) && rules == rules'
  {
    var a, b := JsCanonical(nfc, v).value, JsCanonical(nfc, w).value;
    var x, y := Utf8Of(a), Utf8Of(b);
    Utf8SelfSynchronizing();
    assert x == (x + rules)[..|x|] && y == (x + rules)[..|y|];
    if |x| <= |y| {
      assert x <= y;
      PrefixOfUnits(Utf8, b, a);
      CanonicalObjectsArePrefixFree(nfc, v, w);
    } else {
      assert y <= x;
      PrefixOfUnits(Utf8, a, b);
      CanonicalObjectsArePrefixFree(nfc, w, v);
    }
    assert rules == (x + rules)[|x|..] && rules' == (y + rules')[|y|..];
  }

  // ------------------------------------------------------------ domain-separated digests

  const REQUEST_DOMAIN := "CTN_REQUEST_V1"
  const INTENT_DOMAIN := "CTN_INTENT_V1"
  const ZK_RECEIPT_DOMAIN := "CTN_ZK_RECEIPT_V1"
  const DECISION_RECEIPT_DOMAIN := "CTN_DECISION_RECEIPT_V1"
  const NONCE_BYTES := 32

  /** A digest's kind and what it is taken over. */
  datatype Preimage =
    | Request(canonical: Bytes, nonce: Bytes)
    | Intent(publicIntent: Bytes)
    | ZkReceipt(receipt: Bytes)
    | DecisionReceipt(receipt: Bytes)

  /** The bytes each digest is taken over. */
  function Concatenation(p: Preimage): Bytes {
    match p
    case Request(canonical, nonce) => Utf8Of(REQUEST_DOMAIN) + canonical + nonce
    case Intent(publicIntent) => Utf8Of(INTENT_DOMAIN) + publicIntent
    case ZkReceipt(receipt) => Utf8Of(ZK_RECEIPT_DOMAIN) + receipt
    case DecisionReceipt(receipt) => Utf8Of(DECISION_RECEIPT_DOMAIN) + receipt
  }

  lemma {:induction false} AsciiBytes(s: string)
    requires forall c <- s :: c as nat < 0x80
    ensures Utf8Of(s) == CodePoints(s)
  {
    if s != "" {
      assert s[0] in s && forall c <- s[1..] :: c in s;
      AsciiBytes(s[1..]);
      assert CodePoints(s) == [s[0] as nat] + CodePoints(s[1..]);
    }
  }

  /** Each digest is taken over its label in ASCII and then its parts, in this order and with nothing between them. */
  lemma LabelThenParts(p: Preimage)
    ensures Concatenation(p)
            == match p
               case Request(canonical, nonce) => CodePoints("CTN_REQUEST_V1") + canonical + nonce
               case Intent(publicIntent) => CodePoints("CTN_INTENT_V1") + publicIntent
               case ZkReceipt(receipt) => CodePoints("CTN_ZK_RECEIPT_V1") + receipt
               case DecisionReceipt(receipt) => CodePoints("CTN_DECISION_RECEIPT_V1") + receipt
  {
    match p
    case Request(_, _) => AsciiBytes("CTN_REQUEST_V1");
    case Intent(_) => AsciiBytes("CTN_INTENT_V1");
    case ZkReceipt(_) => AsciiBytes("CTN_ZK_RECEIPT_V1");
    case DecisionReceipt(_) => AsciiBytes("CTN_DECISION_RECEIPT_V1");
  }

  /** The four labels agree on "CTN_" and differ in the letter after it. */
  lemma LabelLetter(p: Preimage)
    ensures |Concatenation(p)| > 4
    ensures Concatenation(p)[4]
            == (match p case Request(_, _) => 'R' case Intent(_) => 'I' case ZkReceipt(_) => 'Z'
              case DecisionReceipt(_) => 'D') as nat
  {
    match p
    case Request(_, _) => AsciiBytes(REQUEST_DOMAIN);
    case Intent(_) => AsciiBytes(INTENT_DOMAIN);
    case ZkReceipt(_) => AsciiBytes(ZK_RECEIPT_DOMAIN);
    case DecisionReceipt(_) => AsciiBytes(DECISION_RECEIPT_DOMAIN);
  }

  /**
    With request nonces of 32 bytes, the bytes of a digest determine its kind and every part of what it is taken
    over.
  */
  lemma ConcatenationInjective(p: Preimage, q: Preimage)
    requires p.Request? ==> |p.nonce| == 32
    requires q.Request? ==> |q.nonce| == 32
    requires Concatenation(p) == Concatenation(q)
    ensures p == q
  {
    LabelLetter(p);
    LabelLetter(q);
    var bytes := Concatenation(p);
    match p
    case Request(canonical, nonce) =>
      var d := |Utf8Of(REQUEST_DOMAIN)|;
      assert canonical == bytes[d..|bytes| - NONCE_BYTES] && nonce == bytes[|bytes| - NONCE_BYTES..];
      assert q.canonical == bytes[d..|bytes| - NONCE_BYTES] && q.nonce == bytes[|bytes| - NONCE_BYTES..];
    case Intent(x) =>
      assert x == bytes[|Utf8Of(INTENT_DOMAIN)|..] && q.publicIntent == bytes[|Utf8Of(INTENT_DOMAIN)|..];
    case ZkReceipt(x) =>
      assert x == bytes[|Utf8Of(ZK_RECEIPT_DOMAIN)|..] && q.receipt == bytes[|Utf8Of(ZK_RECEIPT_DOMAIN)|..];
    case DecisionReceipt(x) =>
      assert x == bytes[|Utf8Of(DECISION_RECEIPT_DOMAIN)|..] && q.receipt == bytes[|Utf8Of(DECISION_RECEIPT_DOMAIN)|..];
  }

  // ------------------------------------------------------------ hexadecimal

  /** `b.toString(16).padStart(2, "0")` for bytes, high nibble first. */
  function ToHex(bytes: Bytes): string {
    if bytes == [] then "" else [HexDigit(bytes[0] / 16 % 16), HexDigit(bytes[0] % 16)] + ToHex(bytes[1..])
  }

  predicate AllHex(s: string) {
    forall i :: 0 <= i < |s| ==> HexValue(s[i]).Some?
  }

  /** `parseInt` of two hexadecimal digits. */
  function PairValue(hi: char, lo: char): nat {
    match (HexValue(hi), HexValue(lo))
    case (Some(a), Some(b)) => 16 * a + b
    case _ => 0
  }

  function Pairs(clean: string): Bytes {
    seq(|clean| / 2, i requires 0 <= i < |clean| / 2 => PairValue(clean[2 * i], clean[2 * i + 1]))
  }

  /** An optional 0x and pairs of digits of either case; anything else is an error. */
  function FromHexSpec(hex: string): Option<Bytes> {
    var clean := if "0x" <= hex then hex[2..] else hex;
    if |clean| % 2 == 0 && AllHex(clean) then Some(Pairs(clean)) else None
  }

  /** `fromHex`: the output buffer is filled byte by byte. */
  method FromHex(hex: string) returns (ok: bool, out: array<nat>)
    ensures ok == FromHexSpec(hex).Some?
    ensures ok ==> out[..] == FromHexSpec(hex).value
  {
    var clean := if "0x" <= hex then hex[2..] else hex;
    if |clean| % 2 != 0 || !AllHex(clean) {
      out := new nat[0];
      return false, out;
    }
    out := new nat[|clean| / 2];
    for i := 0 to out.Length
      invariant forall k :: 0 <= k < i ==> out[k] == PairValue(clean[2 * k], clean[2 * k + 1])
    {
      out[i] := PairValue(clean[2 * i], clean[2 * i + 1]);
    }
    ok := true;
  }

  lemma PairsCons(hi: char, lo: char, rest: string)
    requires |rest| % 2 == 0
    ensures Pairs([hi, lo] + rest) == [PairValue(hi, lo)] + Pairs(rest)
  {
    var t := [hi, lo] + rest;
    forall i | 0 < i < |t| / 2 ensures Pairs(t)[i] == Pairs(rest)[i - 1] {
      assert t[2 * i] == rest[2 * (i - 1)] && t[2 * i + 1] == rest[2 * (i - 1) + 1];
    }
  }

  lemma AllHexCons(hi: char, lo: char, rest: string)
    requires HexValue(hi).Some? && HexValue(lo).Some? && AllHex(rest)
    ensures AllHex([hi, lo] + rest)
  {}

  /** Two digits of a byte. */
  lemma HexOfByte(b: nat)
    requires b < 0x100
    ensures HexValue(HexDigit(b / 16 % 16)).Some? && HexValue(HexDigit(b % 16)).Some?
    ensures PairValue(HexDigit(b / 16 % 16), HexDigit(b % 16)) == b
  {
    HexDigitValue(b / 16 % 16);
    HexDigitValue(b % 16);
  }

  lemma {:induction false} PairsOfHex(bytes: Bytes)
    requires forall i :: 0 <= i < |bytes| ==> bytes[i] < 0x100
    ensures |ToHex(bytes)| == 2 * |bytes| && AllHex(ToHex(bytes)) && Pairs(ToHex(bytes)) == bytes
  {
    if bytes != [] {
      var b, rest := bytes[0], ToHex(bytes[1..]);
      PairsOfHex(bytes[1..]);
      HexOfByte(b);
      AllHexCons(HexDigit(b / 16 % 16), HexDigit(b % 16), rest);
      PairsCons(HexDigit(b / 16 % 16), HexDigit(b % 16), rest);
      assert bytes == [b] + bytes[1..];
    }
  }

  lemma HexHasNoMarker(t: string)
    requires AllHex(t)
    ensures !("0x" <= t)
  {
    assert HexValue('x').None?;
    if |t| >= 2 { assert HexValue(t[1]).Some?; }
  }

  /** Hex of any bytes, with or without the 0x that digests carry, reads back as the bytes. */
  lemma HexRoundTrips(bytes: Bytes)
    requires forall i :: 0 <= i < |bytes| ==> bytes[i] < 0x100
    ensures FromHexSpec(ToHex(bytes)) == Some(bytes) && FromHexSpec("0x" + ToHex(bytes)) == Some(bytes)
  {
    PairsOfHex(bytes);
    HexHasNoMarker(ToHex(bytes));
    assert ("0x" + ToHex(bytes))[2..] == ToHex(bytes);
  }

  // ------------------------------------------------------------ filling the buffers

  /** `buf.set(part, at)`. */
  method SetPart(buf: array<nat>, part: Bytes, at: nat)
    requires at + |part| <= buf.Length
    modifies buf
    ensures buf[..] == old(buf[..at]) + part + old(buf[at + |part|..])
  {
    forall i | 0 <= i < |part| {
      buf[at + i] := part[i];
    }
  }

  /** `requestCommitment` up to the hash: the nonce is read first, and must have 32 bytes. */
  method RequestCommitmentInput(canonical: Bytes, nonceHex: string) returns (ok: bool, buf: array<nat>)
    ensures ok == (FromHexSpec(nonceHex).Some? && |FromHexSpec(nonceHex).value| == 32)
    ensures ok ==> buf[..] == Utf8Of("CTN_REQUEST_V1") + canonical + FromHexSpec(nonceHex).value
  {
    var nonce;
    ok, nonce := FromHex(nonceHex);
    if !ok || nonce.Length != NONCE_BYTES {
      buf := new nat[0];
      return false, buf;
    }
    var domain := Utf8Of(REQUEST_DOMAIN);
    buf := new nat[|domain| + |canonical| + nonce.Length];
    SetPart(buf, domain, 0);
    assert buf[..|domain|] == domain;
    SetPart(buf, canonical, |domain|);
    assert buf[..|domain| + |canonical|] == domain + canonical;
    SetPart(buf, nonce[..], |domain| + |canonical|);
  }

  /** The other digests up to the hash: a label and one part. */
  method LabelledInput(domainLabel: string, part: Bytes) returns (buf: array<nat>)
    ensures buf[..] == Utf8Of(domainLabel) + part
  {
    var domain := Utf8Of(domainLabel);
    buf := new nat[|domain| + |part|];
    SetPart(buf, domain, 0);
    assert buf[..|domain|] == domain;
    SetPart(buf, part, |domain|);
  }

  /** Request commitments are taken over the same bytes only for the same canonical bytes and the same nonce. */
  lemma CommitmentInputsDetermine(canonical: Bytes, nonceHex: string, canonical': Bytes, nonceHex': string)
    requires FromHexSpec(nonceHex).Some? && |FromHexSpec(nonceHex).value| == 32
    requires FromHexSpec(nonceHex').Some? && |FromHexSpec(nonceHex').value| == 32
    requires Concatenation(Request(canonical, FromHexSpec(nonceHex).value))
             == Concatenation(Request(canonical', FromHexSpec(nonceHex').value))
    ensures canonical == canonical' && FromHexSpec(nonceHex) == FromHexSpec(nonceHex')
  {
    ConcatenationInjective(Request(canonical, FromHexSpec(nonceHex).value),
                           Request(canonical', FromHexSpec(nonceHex').value));
  }
}
