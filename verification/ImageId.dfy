/** ImageIDs: eight 32-bit words, rendered as 64 lowercase hexadecimal digits. */
module ImageId {
  import opened Canonical
  import opened Json
  import opened Wrappers

  predicate IsLowerHex(s: string) {
    forall i :: 0 <= i < |s| ==> '0' <= s[i] <= '9' || 'a' <= s[i] <= 'f'
  }

  predicate IsImageIdHex(s: string) {
    |s| == 64 && IsLowerHex(s)
  }

  function DigitValue(c: char): nat {
    if '0' <= c <= '9' then (c - '0') as nat else if 'a' <= c <= 'f' then (c - 'a') as nat + 10 else 0
  }

  /** `u32::from_str_radix(_, 16)` on digits. */
  function HexNumber(s: string): nat {
    if s == "" then 0 else 16 * HexNumber(s[..|s| - 1]) + DigitValue(s[|s| - 1])
  }

  lemma DigitRendersBack(c: char)
    requires '0' <= c <= '9' || 'a' <= c <= 'f'
    ensures DigitValue(c) < 16 && HexDigit(DigitValue(c)) == c
  {}

  lemma LastDigit(n: nat, d: nat)
    requires d < 16
    ensures (16 * n + d) / 16 == n && (16 * n + d) % 16 == d
  {}

  lemma RenderOneMore(n: nat, c: char, width: nat)
    requires '0' <= c <= '9' || 'a' <= c <= 'f'
    ensures RenderHex(16 * n + DigitValue(c), width + 1) == RenderHex(n, width) + [c]
  {
    DigitRendersBack(c);
    LastDigit(n, DigitValue(c));
  }

  lemma Snoc(init: string, c: char, text: string, m: nat, n: nat)
    requires ('0' <= c <= '9' || 'a' <= c <= 'f') && text == init + [c]
    requires n == 16 * m + DigitValue(c) && RenderHex(m, |init|) == init
    ensures RenderHex(n, |text|) == text
  {
    RenderOneMore(m, c, |init|);
  }

  lemma {:induction false} HexRendersBack(s: string)
    requires IsLowerHex(s)
    ensures RenderHex(HexNumber(s), |s|) == s
  {
    if s != "" {
      var init, c := s[..|s| - 1], s[|s| - 1];
      assert s == init + [c];
      HexRendersBack(init);
      Snoc(init, c, s, HexNumber(init), HexNumber(s));
    }
  }

  /** `image_id_from_hex`, and `image_id_hex` of a list of words. */
  function ImageWords(hex: string): Option<seq<nat>> {
    if IsImageIdHex(hex) then Some(seq(8, i requires 0 <= i < 8 => HexNumber(hex[8 * i..8 * i + 8]))) else None
  }

  function RenderWords(words: seq<nat>): string {
    if words == [] then "" else RenderHex(words[0], 8) + RenderWords(words[1..])
  }

  /** The words are filled one by one. */
  method ImageIdFromHex(hex: string) returns (ok: bool, words: array<nat>)
    ensures ok == ImageWords(hex).Some?
    ensures ok ==> words[..] == ImageWords(hex).value
  {
    words := new nat[8];
    if !IsImageIdHex(hex) { return false, words; }
    for i := 0 to 8
      invariant forall k :: 0 <= k < i ==> words[k] == HexNumber(hex[8 * k..8 * k + 8])
    {
      words[i] := HexNumber(hex[8 * i..8 * i + 8]);
    }
    ok := true;
  }

  lemma {:induction false} WordsRender(hex: string, words: seq<nat>)
    requires IsLowerHex(hex) && |hex| == 8 * |words|
    requires forall i :: 0 <= i < |words| ==> words[i] == HexNumber(hex[8 * i..8 * i + 8])
    ensures RenderWords(words) == hex
  {
    if words != [] {
      var head, rest := hex[..8], hex[8..];
      forall i | 0 <= i < |words| - 1 ensures words[1..][i] == HexNumber(rest[8 * i..8 * i + 8]) {
        assert rest[8 * i..8 * i + 8] == hex[8 * (i + 1)..8 * (i + 1) + 8];
      }
      assert hex[8 * 0..8 * 0 + 8] == head && hex == head + rest;
      HexRendersBack(head);
      WordsRender(rest, words[1..]);
    }
  }

  lemma {:induction false} NumberFits(s: string)
    requires IsLowerHex(s)
    ensures HexNumber(s) < Pow16(|s|)
  {
    if s != "" {
      NumberFits(s[..|s| - 1]);
      DigitRendersBack(s[|s| - 1]);
    }
  }

  lemma DigitReadsBack(n: nat)
    requires n < 16
    ensures ('0' <= HexDigit(n) <= '9' || 'a' <= HexDigit(n) <= 'f') && DigitValue(HexDigit(n)) == n
  {}

  lemma {:induction false} HexReadsBack(n: nat, width: nat)
    requires n < Pow16(width)
    ensures IsLowerHex(RenderHex(n, width)) && HexNumber(RenderHex(n, width)) == n
  {
    if width > 0 {
      var s, init := RenderHex(n, width), RenderHex(n / 16, width - 1);
      HexReadsBack(n / 16, width - 1);
      DigitReadsBack(n % 16);
      assert s == init + [HexDigit(n % 16)] && s[..|s| - 1] == init;
    }
  }

  lemma EightDigits()
    ensures Pow16(8) == 0x1_0000_0000
  {
    assert Pow16(1) == 16 && Pow16(2) == 0x100 && Pow16(3) == 0x1000 && Pow16(4) == 0x1_0000;
    assert Pow16(5) == 0x10_0000 && Pow16(6) == 0x100_0000 && Pow16(7) == 0x1000_0000;
  }

  ghost predicate AreWords(words: seq<nat>) {
    forall i :: 0 <= i < |words| ==> words[i] < 0x1_0000_0000
  }

  lemma {:induction false} RenderedWords(words: seq<nat>)
    requires AreWords(words)
    ensures var hex := RenderWords(words);
            && |hex| == 8 * |words| && IsLowerHex(hex)
            && forall i :: 0 <= i < |words| ==> HexNumber(hex[8 * i..8 * i + 8]) == words[i]
  {
    if words != [] {
      var rest := RenderWords(words[1..]);
      RenderedWords(words[1..]);
      EightDigits();
      HexReadsBack(words[0], 8);
      var hex := RenderHex(words[0], 8) + rest;
      forall i | 0 <= i < |words| ensures HexNumber(hex[8 * i..8 * i + 8]) == words[i] {
        if i == 0 {
          assert hex[8 * 0..8 * 0 + 8] == RenderHex(words[0], 8);
        } else {
          assert hex[8 * i..8 * i + 8] == rest[8 * (i - 1)..8 * (i - 1) + 8] && words[i] == words[1..][i - 1];
        }
      }
    }
  }

  /** Eight words of 32 bits, rendered, read back as these words: no two ids are rendered alike. */
  lemma WordsRoundTrip(words: seq<nat>)
    requires |words| == 8 && AreWords(words)
    ensures IsImageIdHex(RenderWords(words)) && ImageWords(RenderWords(words)) == Some(words)
  {
    var hex := RenderWords(words);
    RenderedWords(words);
    forall i | 0 <= i < 8 ensures ImageWords(hex).value[i] == words[i] {
      assert HexNumber(hex[8 * i..8 * i + 8]) == words[i];
    }
    assert ImageWords(hex).value == words;
  }

  /** And 64 lowercase digits read as eight such words, which render as the digits: no digit is lost. */
  lemma ImageIdRoundTrips(hex: string)
    requires IsImageIdHex(hex)
    ensures ImageWords(hex).Some? && |ImageWords(hex).value| == 8 && AreWords(ImageWords(hex).value)
    ensures RenderWords(ImageWords(hex).value) == hex
  {
    var words := ImageWords(hex).value;
    WordsRender(hex, words);
    EightDigits();
    forall i | 0 <= i < 8 ensures words[i] < 0x1_0000_0000 { NumberFits(hex[8 * i..8 * i + 8]); }
  }
}
