/** The inference tag of `inference/src/lib.rs`: how a miner prints it into a coinbase and how a node finds it again. */
module Opoi {
  import opened Options

  type Byte = b: nat | b < 256
  type Nonce = n: nat | n < 0x1_0000_0000_0000_0000

  const HEADER_LENGTH: nat := 19
  const SLASH: nat := 47

  /** `/ai:v1:`. */
  const MARKER: seq<nat> := [47, 97, 105, 58, 118, 49, 58]

  // ---------- hexadecimal ----------

  function HexChar(d: nat): (c: nat)
    requires d < 16
  {
    if d < 10 then 48 + d else 87 + d
  }

  /** The digit of an ASCII hexadecimal character of either case. */
  function HexDigit(c: nat): (r: Option<nat>)
    ensures r.Some? ==> r.value < 16
  {
    if 48 <= c <= 57 then Some(c - 48)
    else if 97 <= c <= 102 then Some(c - 87)
    else if 65 <= c <= 70 then Some(c - 55)
    else None
  }

  /** Sixteen characters of either case, each for its place, and no others. */
  lemma HexDigitIs(c: nat, v: nat)
    requires v < 16
    ensures HexDigit(c) == Some(v) <==> c == "0123456789abcdef"[v] as nat || c == "0123456789ABCDEF"[v] as nat
    ensures HexChar(v) == "0123456789abcdef"[v] as nat
  {
  }

  predicate AllHex(s: seq<nat>) {
    forall i :: 0 <= i < |s| ==> HexDigit(s[i]).Some?
  }

  lemma MarkerIs()
    ensures |MARKER| == 7 && forall i :: 0 <= i < 7 ==> MARKER[i] == "/ai:v1:"[i] as nat
  {
  }

  /** `{:0width$x}` for a number that fits. */
  function PadHex(n: nat, width: nat): (s: seq<nat>)
    ensures |s| == width && AllHex(s)
  {
    if width == 0 then [] else PadHex(n / 16, width - 1) + [HexChar(n % 16)]
  }

  function Power16(k: nat): nat {
    if k == 0 then 1 else 16 * Power16(k - 1)
  }

  /** `from_str_radix(s, 16)`. */
  function ReadHex(s: seq<nat>): nat
    requires AllHex(s)
  {
    if s == [] then 0 else ReadHex(s[..|s| - 1]) * 16 + HexDigit(s[|s| - 1]).value
  }

  lemma {:induction false} ReadPadHex(n: nat, width: nat)
    requires n < Power16(width)
    ensures ReadHex(PadHex(n, width)) == n
    decreases width
  {
    if width > 0 {
      ReadPadHex(n / 16, width - 1);
      var s := PadHex(n, width);
      assert s[..width - 1] == PadHex(n / 16, width - 1);
    }
  }

  lemma {:induction false} ReadHexBound(s: seq<nat>)
    requires AllHex(s)
    ensures ReadHex(s) < Power16(|s|)
  {
    if s != [] {
      ReadHexBound(s[..|s| - 1]);
    }
  }

  lemma NonceFits()
    ensures Power16(16) == 0x1_0000_0000_0000_0000
  {
    assert Power16(4) == 0x1_0000;
    assert Power16(8) == 0x1_0000_0000;
    assert Power16(12) == 0x1_0000_0000_0000;
  }

  /** `hex::encode`. */
  function EncodeHex(bytes: seq<Byte>): (s: seq<nat>)
    ensures |s| == 2 * |bytes| && AllHex(s)
  {
    if bytes == [] then []
    else PadHex(bytes[0], 2) + EncodeHex(bytes[1..])
  }

  /** Every character is the one its digit is printed as: no upper-case letter. */
  predicate LowerHex(s: seq<nat>) {
    forall i :: 0 <= i < |s| ==> HexDigit(s[i]).Some? && s[i] == HexChar(HexDigit(s[i]).value)
  }

  lemma LowerHexMeans(s: seq<nat>)
    ensures LowerHex(s) <==> forall i :: 0 <= i < |s| ==> 48 <= s[i] <= 57 || 97 <= s[i] <= 102
  {
  }

  lemma {:induction false} PadHexLower(n: nat, width: nat)
    ensures LowerHex(PadHex(n, width))
  {
    if width > 0 {
      PadHexLower(n / 16, width - 1);
    }
  }

  /** Two digits a byte, in order, each pair reading back as its byte. */
  ghost predicate Spells(s: seq<nat>, bytes: seq<Byte>) {
    |s| == 2 * |bytes| && AllHex(s) && forall i :: 0 <= i < |bytes| ==> ReadHex(s[2 * i..2 * i + 2]) == bytes[i]
  }

  lemma {:induction false} EncodeHexSpells(bytes: seq<Byte>)
    ensures Spells(EncodeHex(bytes), bytes) && LowerHex(EncodeHex(bytes))
  {
    if bytes != [] {
      var first, rest := PadHex(bytes[0], 2), EncodeHex(bytes[1..]);
      EncodeHexSpells(bytes[1..]);
      PadHexLower(bytes[0], 2);
      assert Power16(2) == 256;
      ReadPadHex(bytes[0], 2);
      forall i | 0 <= i < |bytes|
        ensures ReadHex(EncodeHex(bytes)[2 * i..2 * i + 2]) == bytes[i]
      {
        if i == 0 {
          assert EncodeHex(bytes)[0..2] == first;
        } else {
          assert EncodeHex(bytes)[2 * i..2 * i + 2] == rest[2 * (i - 1)..2 * (i - 1) + 2];
        }
      }
    }
  }

  /** The digits determine the bytes. */
  lemma SpellsOnce(s: seq<nat>, a: seq<Byte>, b: seq<Byte>)
    requires Spells(s, a) && Spells(s, b)
    ensures a == b
  {
    forall i | 0 <= i < |a|
      ensures a[i] == b[i]
    {
      assert ReadHex(s[2 * i..2 * i + 2]) == a[i];
    }
  }

  // ---------- printing ----------

  /** The first eight bytes of the fixed-point model's output for a salted nonce. */
  type Model = Nonce -> seq<Byte>

  ghost predicate EightBytes(model: Model) {
    forall n: Nonce :: |model(n)| == 8
  }

  /** `/{nonce:016x}/ai:v1:{tag}`. */
  function ExtraData(model: Model, nonce: Nonce): seq<nat> {
    [SLASH] + PadHex(nonce, 16) + MARKER + EncodeHex(model(nonce))
  }

  // ---------- parsing ----------

  predicate MarkerAt(payload: seq<nat>, i: nat) {
    i + 7 <= |payload| && payload[i..i + 7] == MARKER
  }

  /** The first marker at or after `from`. */
  function FindMarker(payload: seq<nat>, from: nat): (r: Option<nat>)
    ensures r.Some? ==> r.value >= from && MarkerAt(payload, r.value)
    ensures forall i: nat :: from <= i && (r.Some? ==> i < r.value) ==> !MarkerAt(payload, i)
    decreases |payload| - from
  {
    if from + 7 > |payload| then None
    else if MarkerAt(payload, from) then Some(from)
    else FindMarker(payload, from + 1)
  }

  datatype Tag = Tag(nonce: nat, hex: seq<nat>)

  function ParseOpoi(payload: seq<nat>): Option<Tag> {
    var start := if HEADER_LENGTH < |payload| then HEADER_LENGTH else |payload|;
    var at := FindMarker(payload, start);
    if at.None? then None
    else
      var tagStart := at.value + 7;
      if |payload| < tagStart + 16 || !AllHex(payload[tagStart..tagStart + 16]) then None
      else if at.value < 17 then None
      else
        var slash := at.value - 17;
        if payload[slash] != SLASH || !AllHex(payload[slash + 1..at.value]) then None
        else Some(Tag(ReadHex(payload[slash + 1..at.value]), payload[tagStart..tagStart + 16]))
  }

  // ---------- the round trip ----------

  ghost predicate NoMarker(payload: seq<nat>, from: nat) {
    forall i: nat :: from <= i ==> !MarkerAt(payload, i)
  }

  /** The whole payload, position by position. */
  lemma Layout(model: Model, nonce: Nonce, prefix: seq<nat>, suffix: seq<nat>)
    requires EightBytes(model)
    ensures var p, n := prefix + ExtraData(model, nonce) + suffix, |prefix|;
            && |p| == n + 40 + |suffix| && p[..n] == prefix && p[n] == SLASH && p[n + 1..n + 17] == PadHex(nonce, 16)
            && p[n + 17..n + 24] == MARKER && p[n + 24..n + 40] == EncodeHex(model(nonce))
  {
    LayoutOf(prefix, PadHex(nonce, 16), EncodeHex(model(nonce)), suffix, prefix + ExtraData(model, nonce) + suffix);
  }

  lemma LayoutOf(prefix: seq<nat>, hex: seq<nat>, tag: seq<nat>, suffix: seq<nat>, p: seq<nat>)
    requires |hex| == |tag| == 16 && p == prefix + ([SLASH] + hex + MARKER + tag) + suffix
    ensures var n := |prefix|;
            && |p| == n + 40 + |suffix| && p[..n] == prefix && p[n] == SLASH && p[n + 1..n + 17] == hex
            && p[n + 17..n + 24] == MARKER && p[n + 24..n + 40] == tag
  {
    Slice(p, prefix, [SLASH], hex + MARKER + tag + suffix);
    Slice(p, prefix + [SLASH], hex, MARKER + tag + suffix);
    Slice(p, prefix + [SLASH] + hex, MARKER, tag + suffix);
    Slice(p, prefix + [SLASH] + hex + MARKER, tag, suffix);
  }

  lemma Slice(p: seq<nat>, before: seq<nat>, piece: seq<nat>, after: seq<nat>)
    requires p == before + piece + after
    ensures p[..|before|] == before && p[|before|..|before| + |piece|] == piece
  {
  }

  /** No marker begins before the printed one: not inside the prefix, not across the join, not in the nonce. */
  lemma NothingEarlier(prefix: seq<nat>, payload: seq<nat>, i: nat)
    requires |prefix| + 24 <= |payload| && payload[..|prefix|] == prefix && payload[|prefix|] == SLASH
    requires AllHex(payload[|prefix| + 1..|prefix| + 17])
    requires i < |prefix| + 17 && (i < |prefix| ==> !MarkerAt(prefix, i))
    ensures !MarkerAt(payload, i)
  {
    var n := |prefix|;
    if i + 7 <= n {
      assert prefix[i..i + 7] == payload[i..i + 7];
    } else if i < n {
      MarkerChar(payload, i, n - i);
    } else if i == n {
      MarkerChar(payload, i, 2);
      assert payload[n + 2] == payload[n + 1..n + 17][1];
    } else {
      MarkerChar(payload, i, 0);
      assert payload[i] == payload[n + 1..n + 17][i - n - 1];
    }
  }

  lemma MarkerChar(payload: seq<nat>, i: nat, k: nat)
    requires k < 7
    ensures MarkerAt(payload, i) ==> payload[i + k] == MARKER[k]
  {
    if MarkerAt(payload, i) {
      assert payload[i..i + 7][k] == MARKER[k];
    }
  }

  /**
   A printed tag is read back, whatever follows it, after any prefix of two bytes or more that shows no marker where
   the parser looks.
   */
  lemma ParseAfterPrint(model: Model, nonce: Nonce, prefix: seq<nat>, suffix: seq<nat>)
    requires EightBytes(model) && |prefix| >= 2 && NoMarker(prefix, HEADER_LENGTH)
    ensures ParseOpoi(prefix + ExtraData(model, nonce) + suffix) == Some(Tag(nonce, EncodeHex(model(nonce))))
    ensures Spells(EncodeHex(model(nonce)), model(nonce)) && LowerHex(EncodeHex(model(nonce)))
  {
    var p, n := prefix + ExtraData(model, nonce) + suffix, |prefix|;
    Layout(model, nonce, prefix, suffix);
    assert MarkerAt(p, n + 17);
    forall i: nat | HEADER_LENGTH <= i < n + 17
      ensures !MarkerAt(p, i)
    {
      NothingEarlier(prefix, p, i);
    }
    assert FindMarker(p, HEADER_LENGTH) == Some(n + 17);
    NonceFits();
    ReadPadHex(nonce, 16);
    EncodeHexSpells(model(nonce));
  }

  /** A printed tag is accepted for the bytes it was printed from and for no others. */
  lemma TagsDecide(model: Model, other: Model, nonce: Nonce, prefix: seq<nat>, suffix: seq<nat>)
    requires EightBytes(model) && EightBytes(other) && |prefix| >= 2 && NoMarker(prefix, HEADER_LENGTH)
    ensures ParseOpoi(prefix + ExtraData(model, nonce) + suffix) == Some(Tag(nonce, EncodeHex(other(nonce)))) <==> other(nonce) == model(nonce)
  {
    ParseAfterPrint(model, nonce, prefix, suffix);
    EncodeHexSpells(other(nonce));
    if EncodeHex(other(nonce)) == EncodeHex(model(nonce)) {
      SpellsOnce(EncodeHex(model(nonce)), model(nonce), other(nonce));
    }
  }

  /** With nothing after it, the tag is found exactly when two bytes or more come before. */
  lemma ParseIffRoom(model: Model, nonce: Nonce, prefix: seq<nat>)
    requires EightBytes(model) && NoMarker(prefix, HEADER_LENGTH)
    ensures ParseOpoi(prefix + ExtraData(model, nonce)) == Some(Tag(nonce, EncodeHex(model(nonce)))) <==> |prefix| >= 2
  {
    var p := prefix + ExtraData(model, nonce);
    assert p + [] == p;
    if |prefix| >= 2 {
      ParseAfterPrint(model, nonce, prefix, []);
    } else {
      Layout(model, nonce, prefix, []);
      forall i: nat | HEADER_LENGTH <= i
        ensures !MarkerAt(p, i)
      {
        PastMarker(p, |prefix|, i);
      }
    }
  }

  /** Past the printed marker there are only hexadecimal characters and no slash. */
  lemma PastMarker(p: seq<nat>, n: nat, i: nat)
    requires n < 2 && |p| == n + 40 && p[n + 17..n + 24] == MARKER && AllHex(p[n + 24..n + 40]) && i >= HEADER_LENGTH
    ensures !MarkerAt(p, i)
  {
    MarkerChar(p, i, 0);
    if n + 24 <= i < |p| {
      assert p[i] == p[n + 24..n + 40][i - n - 24];
    } else if i < |p| {
      assert p[i] == p[n + 17..n + 24][i - n - 17];
    }
  }

  /** Whatever is parsed stands in the payload as printed: slash, sixteen digits of the nonce, first marker, tag. */
  lemma ParsedIsThere(payload: seq<nat>)
    requires ParseOpoi(payload).Some?
    ensures var tag := ParseOpoi(payload).value;
            exists at: nat :: FirstMarker(payload, at) && at >= 19 && at + 23 <= |payload| && payload[at - 17] == SLASH
              && AllHex(payload[at - 16..at]) && ReadHex(payload[at - 16..at]) == tag.nonce < 0x1_0000_0000_0000_0000
              && payload[at + 7..at + 23] == tag.hex && AllHex(tag.hex)
  {
    var start := if HEADER_LENGTH < |payload| then HEADER_LENGTH else |payload|;
    var at := FindMarker(payload, start).value;
    assert FirstMarker(payload, at);
    NonceFits();
    ReadHexBound(payload[at - 16..at]);
  }

  ghost predicate FirstMarker(payload: seq<nat>, at: nat) {
    MarkerAt(payload, at) && forall i: nat :: HEADER_LENGTH <= i < at ==> !MarkerAt(payload, i)
  }
}
