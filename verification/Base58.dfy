/**
 Base58 with the Bitcoin alphabet: the encoder of `inference/src/ai_payload.rs` and the decoder of `src/ipfs.rs`, two
 programs that are proved to undo each other.
 */
module Base58 {
  import opened Options
  import opened Radix

  type Byte = b: nat | b < 256

  /** Figures without 0, then letters without `I`, `O` and `l`. */
  const ALPHABET: string :=
    "123456789" + "ABCDEFGH" + "JKLMN" + "PQRSTUVWXYZ" + "abcdefghijk" + "mnopqrstuvwxyz"

  // ---------- the alphabet ----------

  /** The character code of a digit, run by run. */
  function Code(d: nat): nat
    requires d < 58
  {
    if d < 9 then d + 49
    else if d < 17 then d + 56
    else if d < 22 then d + 57
    else if d < 33 then d + 58
    else if d < 44 then d + 64
    else d + 65
  }

  lemma Figures(i: nat)
    requires i < 9
    ensures "123456789"[i] as nat == i + 49
  {
  }

  lemma Capitals(i: nat)
    ensures i < 8 ==> "ABCDEFGH"[i] as nat == i + 65
    ensures i < 5 ==> "JKLMN"[i] as nat == i + 74
    ensures i < 11 ==> "PQRSTUVWXYZ"[i] as nat == i + 80
  {
  }

  lemma Smalls(i: nat)
    ensures i < 11 ==> "abcdefghijk"[i] as nat == i + 97
    ensures i < 14 ==> "mnopqrstuvwxyz"[i] as nat == i + 109
  {
  }

  lemma AlphabetCode(d: nat)
    requires d < 58
    ensures |ALPHABET| == 58 && ALPHABET[d] as nat == Code(d)
  {
    if d < 9 {
      Figures(d);
    } else if d < 17 {
      Capitals(d - 9);
    } else if d < 22 {
      Capitals(d - 17);
    } else if d < 33 {
      Capitals(d - 22);
    } else if d < 44 {
      Smalls(d - 33);
    } else {
      Smalls(d - 44);
    }
  }

  /** The digit a character code stands for. */
  function Digit(c: nat): (r: Option<nat>)
    ensures r.Some? ==> r.value < 58 && Code(r.value) == c
    ensures forall d: nat {:trigger Code(d)} :: d < 58 && Code(d) == c ==> r == Some(d)
  {
    if 49 <= c < 58 then Some(c - 49)
    else if 65 <= c < 73 then Some(c - 56)
    else if 74 <= c < 79 then Some(c - 57)
    else if 80 <= c < 91 then Some(c - 58)
    else if 97 <= c < 108 then Some(c - 64)
    else if 109 <= c < 123 then Some(c - 65)
    else None
  }

  ghost predicate Filled(table: seq<nat>, n: nat) {
    |table| == 128
    && forall c: nat :: c < 128 ==> table[c] == if Digit(c).Some? && Digit(c).value < n then Digit(c).value else 0xFF
  }

  /** The decoder's table after its filling loop: 255 where no digit stands. */
  method BuildTable() returns (table: seq<nat>)
    ensures Filled(table, 58)
  {
    AlphabetCode(0);
    table := seq(128, _ => 0xFF);
    for i := 0 to |ALPHABET|
      invariant Filled(table, i)
    {
      AlphabetCode(i);
      table := table[ALPHABET[i] as nat := i];
    }
  }

  function Text(ds: seq<nat>): (s: string)
    requires Digits(ds, 58)
    ensures |s| == |ds|
  {
    AlphabetCode(0);
    seq(|ds|, i requires 0 <= i < |ds| => ALPHABET[ds[i]])
  }

  predicate IsText(s: string) {
    forall i :: 0 <= i < |s| ==> Digit(s[i] as nat).Some?
  }

  function Values(s: string): (ds: seq<nat>)
    requires IsText(s)
    ensures |ds| == |s| && Digits(ds, 58)
  {
    seq(|s|, i requires 0 <= i < |s| => Digit(s[i] as nat).value)
  }

  lemma ValuesOfText(ds: seq<nat>)
    requires Digits(ds, 58)
    ensures IsText(Text(ds)) && Values(Text(ds)) == ds
  {
    forall i | 0 <= i < |ds|
      ensures Digit(Text(ds)[i] as nat) == Some(ds[i])
    {
      AlphabetCode(ds[i]);
    }
  }

  lemma TextOfValues(s: string)
    requires IsText(s)
    ensures Text(Values(s)) == s
  {
    forall i | 0 <= i < |s|
      ensures Text(Values(s))[i] == s[i]
    {
      AlphabetCode(Values(s)[i]);
    }
  }

  // ---------- what the two programs compute ----------

  /** The text of a byte string. */
  function Encoded(input: seq<nat>): string
    requires Digits(input, 256)
  {
    ConvertDigits(input, 256, 58);
    Text(Convert(input, 256, 58))
  }

  /** The bytes of a text, if all its characters are in the alphabet. */
  function Decoded(input: string): Option<seq<nat>> {
    if IsText(input) then Some(Convert(Values(input), 58, 256)) else None
  }

  lemma ConvertDigits(xs: seq<nat>, from: nat, to: nat)
    requires from > 1 && to > 1
    ensures Digits(Convert(xs, from, to), to)
  {
    FoldIs(xs, from, to);
  }

  // ---------- the encoder ----------

  lemma EncodeCell(r: seq<nat>, ds: seq<nat>, i: nat, carry: nat)
    requires i < |ds| && i <= |r|
    ensures var c := carry + ds[i] * 256;
            r[..i] + MulAdd(ds[i..], 58, 256, carry) == (r[..i] + [c % 58]) + MulAdd(ds[i + 1..], 58, 256, c / 58)
  {
    assert ds[i..][1..] == ds[i + 1..];
  }

  /** Scale the digit vector in place; the carry stays below 256 between digits. */
  method ScaleDigits(digits: seq<nat>, b: Byte) returns (r: seq<nat>, carry: nat)
    requires Digits(digits, 58)
    ensures MulAdd(digits, 58, 256, b) == r + Spill(carry, 58)
  {
    r, carry := digits, b;
    for i := 0 to |digits|
      invariant |r| == |digits| && r[i..] == digits[i..] && carry < 256
      invariant MulAdd(digits, 58, 256, b) == r[..i] + MulAdd(digits[i..], 58, 256, carry)
    {
      EncodeCell(r, digits, i, carry);
      assert r[i] == digits[i];
      ghost var was := r;
      carry := carry + r[i] * 256;
      r := r[i := carry % 58];
      assert r[..i + 1] == was[..i] + [carry % 58];
      carry := carry / 58;
    }
    assert r[..|digits|] == r && digits[|digits|..] == [];
  }

  lemma SpillStep(r: seq<nat>, carry: nat, base: nat)
    requires carry > 0 && base > 1
    ensures r + Spill(carry, base) == (r + [carry % base]) + Spill(carry / base, base)
  {
  }

  /** One byte into the digit vector. */
  method AbsorbByte(digits: seq<nat>, b: Byte) returns (r: seq<nat>)
    requires Digits(digits, 58)
    ensures r == MulAdd(digits, 58, 256, b)
  {
    var carry: nat;
    r, carry := ScaleDigits(digits, b);
    while carry > 0
      invariant MulAdd(digits, 58, 256, b) == r + Spill(carry, 58)
    {
      SpillStep(r, carry, 58);
      r := r + [carry % 58];
      carry := carry / 58;
    }
  }

  method CountLeadingZeros(input: seq<nat>) returns (n: nat)
    ensures n == LeadingZeros(input)
  {
    n := 0;
    while n < |input| && input[n] == 0
      invariant n <= |input| && LeadingZeros(input) == n + LeadingZeros(input[n..])
    {
      assert input[n..][1..] == input[n + 1..];
      n := n + 1;
    }
  }

  lemma FoldStep(xs: seq<nat>, i: nat, from: nat, to: nat)
    requires i < |xs| && from > 1 && to > 1
    ensures Fold(xs[..i + 1], from, to) == MulAdd(Fold(xs[..i], from, to), to, from, xs[i])
    ensures Digits(Fold(xs[..i], from, to), to)
  {
    assert xs[..i + 1][..i] == xs[..i];
    FoldIs(xs[..i], from, to);
  }

  method DigitsOf(input: seq<Byte>) returns (digits: seq<nat>)
    ensures digits == Fold(input, 256, 58)
  {
    digits := [0];
    for i := 0 to |input|
      invariant digits == Fold(input[..i], 256, 58)
    {
      FoldStep(input, i, 256, 58);
      digits := AbsorbByte(digits, input[i]);
    }
    assert input[..|input|] == input;
  }

  /** Leading ones, then the digits from the top. */
  method Render(leadingZeros: nat, digits: seq<nat>) returns (out: string)
    requires Digits(digits, 58)
    ensures Digits(Zeros(leadingZeros) + Reverse(digits), 58) && out == Text(Zeros(leadingZeros) + Reverse(digits))
  {
    AlphabetCode(0);
    out := seq(leadingZeros, _ => '1');
    for i := |digits| downto 0
      invariant |out| == leadingZeros + |digits| - i
      invariant forall j :: 0 <= j < leadingZeros ==> out[j] == '1'
      invariant forall j {:trigger out[j]} :: leadingZeros <= j < |out| ==> out[j] == ALPHABET[digits[|digits| - 1 - (j - leadingZeros)]]
    {
      out := out + [ALPHABET[digits[i]]];
    }
  }

  method Encode(input: seq<Byte>) returns (out: string)
    ensures out == Encoded(input)
  {
    var digits := DigitsOf(input);
    FoldIs(input, 256, 58);
    var leadingZeros := CountLeadingZeros(input);
    out := Render(leadingZeros, digits);
  }

  // ---------- the decoder ----------

  lemma DecodeCell(r: seq<nat>, ds: seq<nat>, i: nat, carry: nat)
    requires i < |ds| && i <= |r|
    ensures var c := carry + ds[i] * 58;
            r[..i] + MulAdd(ds[i..], 256, 58, carry) == (r[..i] + [c % 256]) + MulAdd(ds[i + 1..], 256, 58, c / 256)
  {
    assert ds[i..][1..] == ds[i + 1..];
  }

  /** Scale the byte vector in place; the carry stays below 58 between bytes. */
  method ScaleBytes(bytes: seq<nat>, d: nat) returns (r: seq<nat>, carry: nat)
    requires d < 58 && Digits(bytes, 256)
    ensures MulAdd(bytes, 256, 58, d) == r + Spill(carry, 256)
  {
    r, carry := bytes, d;
    for i := 0 to |bytes|
      invariant |r| == |bytes| && r[i..] == bytes[i..] && carry < 58
      invariant MulAdd(bytes, 256, 58, d) == r[..i] + MulAdd(bytes[i..], 256, 58, carry)
    {
      DecodeCell(r, bytes, i, carry);
      assert r[i] == bytes[i];
      ghost var was := r;
      carry := carry + r[i] * 58;
      r := r[i := carry % 256];
      assert r[..i + 1] == was[..i] + [carry % 256];
      carry := carry / 256;
    }
    assert r[..|bytes|] == r && bytes[|bytes|..] == [];
  }

  /** One digit into the byte vector. */
  method AbsorbDigit(bytes: seq<nat>, d: nat) returns (r: seq<nat>)
    requires d < 58 && Digits(bytes, 256)
    ensures r == MulAdd(bytes, 256, 58, d)
  {
    var carry: nat;
    r, carry := ScaleBytes(bytes, d);
    while carry > 0
      invariant MulAdd(bytes, 256, 58, d) == r + Spill(carry, 256)
    {
      SpillStep(r, carry, 256);
      r := r + [carry % 256];
      carry := carry / 256;
    }
  }

  method CountLeadingOnes(input: string) returns (n: nat)
    requires IsText(input)
    ensures n == LeadingZeros(Values(input))
  {
    n := 0;
    ghost var ds := Values(input);
    while n < |input| && input[n] == '1'
      invariant n <= |input| && LeadingZeros(ds) == n + LeadingZeros(ds[n..])
    {
      assert ds[n] == 0 && ds[n..][1..] == ds[n + 1..];
      n := n + 1;
    }
    if n < |input| {
      assert Code(ds[n]) == input[n] as nat;
      assert ds[n] != 0;
    }
  }

  /** The byte vector of a text, least significant first, or nothing at the first foreign character. */
  method BytesOf(input: string) returns (out: Option<seq<nat>>)
    ensures out == if IsText(input) then Some(Fold(Values(input), 58, 256)) else None
  {
    var table := BuildTable();
    var result: seq<nat> := [0];
    for i := 0 to |input|
      invariant IsText(input[..i]) && result == Fold(Values(input[..i]), 58, 256)
    {
      var c := input[i] as nat;
      if c >= 128 || table[c] == 0xFF {
        assert Digit(c).None?;
        return None;
      }
      ValuesStep(input, i);
      FoldStep(Values(input[..i + 1]), i, 58, 256);
      result := AbsorbDigit(result, table[c]);
    }
    assert input[..|input|] == input;
    return Some(result);
  }

  lemma ValuesStep(s: string, i: nat)
    requires i < |s| && IsText(s[..i]) && Digit(s[i] as nat).Some?
    ensures IsText(s[..i + 1]) && Values(s[..i + 1])[..i] == Values(s[..i])
    ensures Values(s[..i + 1])[..i + 1] == Values(s[..i + 1]) && Values(s[..i + 1])[i] == Digit(s[i] as nat).value
  {
  }

  method Assemble(leadingZeros: nat, result: seq<nat>) returns (bytes: seq<nat>)
    ensures bytes == Zeros(leadingZeros) + Reverse(result)
  {
    bytes := seq(leadingZeros, _ => 0);
    for i := |result| downto 0
      invariant |bytes| == leadingZeros + |result| - i
      invariant forall j :: 0 <= j < leadingZeros ==> bytes[j] == 0
      invariant forall j {:trigger bytes[j]} :: leadingZeros <= j < |bytes| ==> bytes[j] == result[|result| - 1 - (j - leadingZeros)]
    {
      bytes := bytes + [result[i]];
    }
  }

  method Decode(input: string) returns (out: Option<seq<nat>>)
    ensures out == Decoded(input)
  {
    var result := BytesOf(input);
    if result.None? {
      return None;
    }
    var leadingZeros := CountLeadingOnes(input);
    var bytes := Assemble(leadingZeros, result.value);
    return Some(bytes);
  }

  // ---------- the two together ----------

  lemma ThereAndBack(x: seq<nat>)
    requires Digits(x, 256)
    ensures Decoded(Encoded(x)) == Some(Convert(Convert(x, 256, 58), 58, 256))
  {
    ConvertDigits(x, 256, 58);
    ValuesOfText(Convert(x, 256, 58));
  }

  /** Decoding what was encoded gives the input back exactly when the input has a nonzero byte. */
  lemma DecodeAfterEncode(x: seq<nat>)
    requires Digits(x, 256)
    ensures Decoded(Encoded(x)) == Some(x) <==> exists i :: 0 <= i < |x| && x[i] != 0
  {
    ThereAndBack(x);
    RoundTripIff(x, 256, 58);
    if !HasNonzero(x) {
      NoNonzeroIsZeros(x);
    }
  }

  lemma ZerosTwice(n: nat, from: nat, to: nat)
    requires from > 1 && to > 1
    ensures Convert(Convert(Zeros(n), from, to), to, from) == Zeros(n + 2)
  {
    ZerosGrow(n, from, to);
    ZerosGrow(n + 1, to, from);
  }

  /** A string of zero bytes, the empty one included, comes back two bytes longer. */
  lemma ZerosComeBackLonger(n: nat)
    ensures Digits(Zeros(n), 256) && Decoded(Encoded(Zeros(n))) == Some(Zeros(n + 2))
  {
    ThereAndBack(Zeros(n));
    ZerosTwice(n, 256, 58);
  }

  /** Every text with a character other than `1` is the encoding of what it decodes to. */
  lemma EncodeAfterDecode(s: string)
    requires IsText(s) && exists i :: 0 <= i < |s| && s[i] != '1'
    ensures Decoded(s).Some? && Digits(Decoded(s).value, 256) && Encoded(Decoded(s).value) == s
  {
    var ds := Values(s);
    ConvertDigits(ds, 58, 256);
    var i :| 0 <= i < |s| && s[i] != '1';
    assert Code(ds[i]) == s[i] as nat;
    assert ds[i] != 0;
    if !HasNonzero(ds) {
      NoNonzeroIsZeros(ds);
    }
    RoundTrip(ds, 58, 256);
    TextOfValues(s);
  }

  /** A sha2-256 multihash is the code, the length and 32 bytes of digest. */
  lemma IsMultihashIff(bytes: seq<nat>)
    ensures IsMultihash(bytes) <==> exists digest: seq<nat> :: |digest| == 32 && bytes == [18, 32] + digest
  {
    if IsMultihash(bytes) {
      assert bytes == [18, 32] + bytes[2..];
    }
  }

  predicate IsMultihash(bytes: seq<nat>) {
    |bytes| == 34 && bytes[0] == 0x12 && bytes[1] == 0x20
  }

  /** The decoded multihash of a version-0 CID. */
  function Multihash(cid: string): Option<seq<nat>> {
    if Decoded(cid).Some? && IsMultihash(Decoded(cid).value) then Decoded(cid) else None
  }

  method CidV0ToMultihash(cid: string) returns (out: Option<seq<nat>>)
    ensures out == Multihash(cid)
  {
    out := Decode(cid);
    if out.Some? && !IsMultihash(out.value) {
      out := None;
    }
  }

  /** A CID stands for one multihash and a multihash has one CID: accepted texts are exactly the encodings. */
  lemma CidIffEncoding(cid: string, m: seq<nat>)
    requires Digits(m, 256)
    ensures Multihash(cid) == Some(m) <==> IsMultihash(m) && cid == Encoded(m)
  {
    if IsMultihash(m) && cid == Encoded(m) {
      assert m[0] != 0;
      DecodeAfterEncode(m);
    }
    if Multihash(cid) == Some(m) {
      if forall i :: 0 <= i < |cid| ==> cid[i] == '1' {
        OnesDecodeToZeros(cid);
      } else {
        EncodeAfterDecode(cid);
      }
    }
  }

  lemma OnesDecodeToZeros(s: string)
    requires forall i :: 0 <= i < |s| ==> s[i] == '1'
    ensures Decoded(s) == Some(Zeros(|s| + 1))
  {
    assert IsText(s);
    assert Values(s) == Zeros(|s|);
    ZerosGrow(|s|, 58, 256);
  }
}
