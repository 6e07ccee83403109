/** Turning a decrypted number back into plaintext bytes: GMP writes the number
    in binary without leading zeros, and the decoder pads that bit string to
    whole bytes and packs it eight bits at a time, most significant bit first.
    Both the padding rule the decoder uses and the rule it evidently intends
    are modelled; see `PackedAsWritten`. */
module BitPacker {
  import opened Text
  import opened Numerals

  /** The value of a byte string read most significant byte first. */
  function BigEndian(b: seq<byte>): nat
    decreases |b|
  {
    if b == [] then 0 else BigEndian(b[..|b| - 1]) * 256 + b[|b| - 1]
  }

  /** The binary digits `s[lo..hi]` collected one at a time, most significant
      first, as the packing loop collects them in `ch`. */
  function Bits(s: seq<byte>, lo: nat, hi: nat): nat
    requires Digits(s, 2) && lo <= hi <= |s|
    decreases hi
  {
    if hi == lo then 0 else 2 * Bits(s, lo, hi - 1) + (s[hi - 1] - ZERO)
  }

  /** Collecting bits one at a time computes the value of the digit string. */
  lemma {:induction false} BitsValue(s: seq<byte>, lo: nat, hi: nat)
    requires Digits(s, 2) && lo <= hi <= |s|
    ensures Bits(s, lo, hi) == Value(s[lo..hi], 2)
    decreases hi
  {
    if hi > lo {
      BitsValue(s, lo, hi - 1);
      assert s[lo..hi][..hi - 1 - lo] == s[lo..hi - 1];
    }
  }

  /** Eight collected bits fit in a byte. */
  lemma ByteBound(s: seq<byte>, lo: nat, hi: nat)
    requires Digits(s, 2) && lo <= hi <= |s| && hi - lo == 8
    ensures Bits(s, lo, hi) < 256
  {
    BitsValue(s, lo, hi);
    ValueBound(s[lo..hi], 2);
    assert Pow(2, 8) == 256;
  }

  /** The first `n` bytes packed from a bit string of at least `8 * n`
      digits: byte `k` holds digits `8 * k` to `8 * k + 7`. */
  function Octets(s: seq<byte>, n: nat): (r: seq<byte>)
    requires Digits(s, 2) && 8 * n <= |s|
    ensures |r| == n
    decreases n
  {
    if n == 0 then []
    else
      ByteBound(s, 8 * (n - 1), 8 * n);
      Octets(s, n - 1) + [Bits(s, 8 * (n - 1), 8 * n)]
  }

  /** Grouping into bytes keeps the value. */
  lemma {:induction false} OctetsValue(s: seq<byte>, n: nat)
    requires Digits(s, 2) && 8 * n <= |s|
    ensures BigEndian(Octets(s, n)) == Value(s[..8 * n], 2)
    decreases n
  {
    if n > 0 {
      var k := 8 * (n - 1);
      var r := Octets(s, n);
      OctetsValue(s, n - 1);
      assert r[..|r| - 1] == Octets(s, n - 1);
      BitsValue(s, k, 8 * n);
      ValueAppend(s[..k], s[k..8 * n], 2);
      assert s[..k] + s[k..8 * n] == s[..8 * n];
      assert Pow(2, 8) == 256;
    }
  }

  /** The first packed byte holds the first eight digits. */
  lemma {:induction false} OctetsFirst(s: seq<byte>, n: nat)
    requires Digits(s, 2) && 8 * n <= |s| && n >= 1
    ensures Octets(s, n)[0] == Bits(s, 0, 8)
    decreases n
  {
    if n > 1 {
      OctetsFirst(s, n - 1);
    }
  }

  /** The number of leading zero bits the decoder adds: `8 - bitLen % 8`,
      which is 8, not 0, for a bit length that is already a multiple of 8. */
  function MissingZerosAsWritten(bitLen: nat): (r: nat)
    ensures 1 <= r <= 8 && (bitLen + r) % 8 == 0
  {
    8 - bitLen % 8
  }

  /** The number of leading zero bits that rounds a bit length up to whole
      bytes, 0 when it is already a multiple of 8. */
  function MissingZeros(bitLen: nat): (r: nat)
    ensures r < 8 && (bitLen + r) % 8 == 0
  {
    (8 - bitLen % 8) % 8
  }

  /** The chunk the packing loop writes for `bits` and `remainder` leading
      zeros: `string_size` bytes, which are the bytes of the padded bit
      string. Zero bits are emitted only together with a digit, so when
      `remainder` is a whole byte (8) that byte of zeros is not emitted, and
      the last byte written is the NUL left behind the last emitted byte. */
  function Packed(bits: seq<byte>, remainder: nat): (chunk: seq<byte>)
    requires Digits(bits, 2) && remainder <= 8 && (|bits| + remainder) % 8 == 0
    ensures |chunk| == |bits| / 8 + if remainder != 0 then 1 else 0
  {
    var size := |bits| / 8 + if remainder != 0 then 1 else 0;
    ChunkLength(|bits|, remainder);
    if remainder == 8 then Octets(bits, size - 1) + [NUL]
    else
      ValueZeros(remainder, bits, 2);
      Octets(Zeros(remainder) + bits, size)
  }

  /** `string_size` bytes hold the bits and their `remainder` leading zeros
      exactly. */
  lemma ChunkLength(bitLen: nat, remainder: nat)
    requires remainder <= 8 && (bitLen + remainder) % 8 == 0
    ensures 8 * (bitLen / 8 + if remainder != 0 then 1 else 0) ==
      bitLen + remainder
  {
  }

  /** The chunk of one number as the decoder writes it: `string_size` bytes
      are allocated, the first set to NUL, and the packing loop fills them. */
  method PackChunk(bits: seq<byte>, remainder: nat) returns (chunk: seq<byte>)
    requires Digits(bits, 2) && |bits| > 0
    requires remainder <= 8 && (|bits| + remainder) % 8 == 0
    ensures chunk == Packed(bits, remainder)
  {
    var stringSize := |bits| / 8;
    if remainder != 0 {
      stringSize := stringSize + 1;
    }
    var charOutput := new byte[stringSize];
    ChunkLength(|bits|, remainder);
    charOutput[0] := NUL;
    PackBits(bits, remainder, charOutput);
    if remainder == 8 {
      assert Zeros(0) + bits == bits;
    }
    chunk := charOutput[..];
  }

  /** The packing loop of the decoder. `ch` collects bits most significant
      first, `location` counts the bits seen including the padding,
      `bitposition` is the place of the current bit in its byte, and
      `chlocation` is the next byte of `charOutput` to fill. The bits are
      the `q` leading zeros and then `bits`; a whole byte of padding
      (`remainder` 8) is counted in `location` but never emitted, and the
      NUL the last emitted byte leaves behind it then ends the chunk. */
  method PackBits(bits: seq<byte>, remainder: nat, charOutput: array<byte>)
    requires Digits(bits, 2) && |bits| > 0 && remainder <= 8
    requires charOutput.Length > 0 && charOutput[0] == NUL
    requires 8 * (charOutput.Length - if remainder == 8 then 1 else 0) ==
      |bits| + if remainder == 8 then 0 else remainder
    modifies charOutput
    ensures Digits(Zeros(if remainder == 8 then 0 else remainder) + bits, 2)
    ensures charOutput[..] ==
      Octets(Zeros(if remainder == 8 then 0 else remainder) + bits,
        charOutput.Length - if remainder == 8 then 1 else 0) +
      if remainder == 8 then [NUL] else []
  {
    var ch: nat, location: nat, chlocation: nat := 0, 0, 0;
    var rem := remainder;
    // The bits taken so far are `padded[..pos]`: `chlocation` bytes of them
    // packed and the rest collected in `ch`. The `skipped` byte of padding
    // counts in `location` only.
    ghost var q := if remainder == 8 then 0 else remainder;
    ghost var skipped := if remainder == 8 then 1 else 0;
    ghost var padded := Zeros(q) + bits;
    ghost var pos := q;
    PaddedBits(q, bits);
    for i := 0 to |bits|
      invariant i > 0 ==> rem == 0
      invariant rem == 0 || ch == 0
      invariant pos == q + i && location + rem == pos + 8 * skipped
      invariant Collected(charOutput[..], padded, pos, ch, chlocation)
    {
      PaddedAt(q, bits, i);
      ch, location, chlocation := PackDigit(charOutput, rem, bits[i] - ZERO, ch, location,
                                            chlocation, padded, pos, skipped);
      rem := 0;  // the leading zeros go in before the first digit only
      pos := pos + 1;
    }
    Finished(charOutput[..], padded, ch, chlocation, skipped);
  }

  /** The state of the packing loop once the digits `padded[..pos]` are
      taken: the `chlocation` whole bytes among them are stored in `out`,
      the byte after them is still NUL, and the remaining bits are in `ch`,
      already shifted to make room for the next one. */
  ghost predicate Collected(out: seq<byte>, padded: seq<byte>, pos: nat, ch: nat,
                            chlocation: nat)
  {
    Digits(padded, 2) && pos <= |padded| &&
    8 * chlocation <= pos < 8 * chlocation + 8 && chlocation <= |out| &&
    ch == 2 * Bits(padded, 8 * chlocation, pos) &&
    out[..chlocation] == Octets(padded, chlocation) &&
    (chlocation < |out| ==> out[chlocation] == NUL)
  }

  /** The loop body for one digit: the `rem` leading zeros (only before
      the first digit), then `ch |= digit`; the byte is stored when the digit
      is the last bit of it (`bitposition` 7), or else `ch` is shifted to
      make room for the next digit. */
  method PackDigit(charOutput: array<byte>, rem: nat, digit: nat, ch: nat, location: nat,
                   chlocation: nat, ghost padded: seq<byte>, ghost pos: nat, ghost skipped: nat)
    returns (ch': nat, location': nat, chlocation': nat)
    requires Collected(charOutput[..], padded, pos, ch, chlocation)
    requires pos < |padded| <= 8 * charOutput.Length
    requires digit == padded[pos] - ZERO
    requires location + rem == pos + 8 * skipped && (rem == 0 || ch == 0)
    modifies charOutput
    ensures location' == location + rem + 1
    ensures Collected(charOutput[..], padded, pos + 1, ch', chlocation')
    ensures chlocation + 2 <= charOutput.Length ==>
      charOutput[chlocation + 2..] == old(charOutput[chlocation + 2..])
  {
    NoShift(ch, rem);
    location', ch' := PadZeros(rem, location, ch);
    ModOfMultiple(location', chlocation + skipped, pos - 8 * chlocation);
    var bitposition := location' % 8;
    ch', chlocation' := ch' + digit, chlocation;  // ch is even, so `ch |= digit` adds it
    if bitposition == 7 {
      ghost var out := charOutput[..];
      ByteBound(padded, 8 * chlocation, pos + 1);
      Store(charOutput, chlocation, ch');
      EmitBit(out, charOutput[..], padded, pos, ch, chlocation);
      chlocation', ch' := chlocation + 1, 0;
    } else {
      KeepBit(charOutput[..], padded, pos, ch, chlocation);
      ch' := ch' * 2;
    }
    location' := location' + 1;
  }

  /** A digit that does not complete a byte stays in `ch`, shifted. */
  lemma KeepBit(out: seq<byte>, padded: seq<byte>, pos: nat, ch: nat, chlocation: nat)
    requires Collected(out, padded, pos, ch, chlocation)
    requires pos < |padded| && pos + 1 < 8 * chlocation + 8
    ensures Collected(out, padded, pos + 1, 2 * (ch + (padded[pos] - ZERO)), chlocation)
  {
  }

  /** A digit that completes a byte: the byte is stored at `chlocation`, the
      next one is NUL and `ch` starts again from 0. */
  lemma EmitBit(out: seq<byte>, out': seq<byte>, padded: seq<byte>, pos: nat, ch: nat,
                chlocation: nat)
    requires Collected(out, padded, pos, ch, chlocation)
    requires pos < |padded| && pos + 1 == 8 * chlocation + 8
    requires |out'| == |out| && chlocation < |out|
    requires out'[..chlocation + 1] == out[..chlocation] + [ch + (padded[pos] - ZERO)]
    requires chlocation + 1 < |out'| ==> out'[chlocation + 1] == NUL
    ensures Collected(out', padded, pos + 1, 0, chlocation + 1)
  {
    EmitByte(padded, chlocation, pos + 1);
  }

  /** `ch` shifted left by `k` places. */
  function Shifted(ch: nat, k: nat): nat
  {
    if k == 0 then ch else 2 * Shifted(ch, k - 1)
  }

  /** The padding loop: `rem` zero bits shifted into `ch`, each counted in
      `location`. */
  method PadZeros(rem: nat, location: nat, ch: nat) returns (location': nat, ch': nat)
    ensures location' == location + rem
    ensures ch' == Shifted(ch, rem)
  {
    location', ch' := location, ch;
    for j := 0 to rem
      invariant location' == location + j
      invariant ch' == Shifted(ch, j)
    {
      location' := location' + 1;
      ch' := ch' * 2;  // after `ch |= 0`, which leaves ch as it is
    }
  }

  /** Shifting by nothing, or shifting nothing, leaves `ch` as it is. */
  lemma NoShift(ch: nat, k: nat)
    requires ch == 0 || k == 0
    ensures Shifted(ch, k) == ch
  {
    if ch == 0 {
      ShiftedZero(k);
    }
  }

  /** Shifting moves no bits into an empty `ch`. */
  lemma {:induction false} ShiftedZero(k: nat)
    ensures Shifted(0, k) == 0
  {
    if k > 0 {
      ShiftedZero(k - 1);
    }
  }

  /** Store the finished byte at `chlocation` and terminate the output with
      a NUL after it, when there is room. */
  method Store(charOutput: array<byte>, chlocation: nat, ch: byte)
    requires chlocation < charOutput.Length
    modifies charOutput
    ensures charOutput[..chlocation + 1] == old(charOutput[..chlocation]) + [ch]
    ensures chlocation + 1 < charOutput.Length ==> charOutput[chlocation + 1] == NUL
    ensures chlocation + 2 <= charOutput.Length ==>
      charOutput[chlocation + 2..] == old(charOutput[chlocation + 2..])
  {
    charOutput[chlocation] := ch;
    if chlocation + 1 < charOutput.Length {
      charOutput[chlocation + 1] := NUL;
    }
  }

  /** The place of a bit in its byte. */
  lemma ModOfMultiple(x: nat, k: nat, p: nat)
    requires x == 8 * k + p && p < 8
    ensures x % 8 == p
  {
  }

  /** The zero-padded bit string, digit by digit. */
  lemma PaddedBits(q: nat, bits: seq<byte>)
    requires Digits(bits, 2)
    ensures Digits(Zeros(q) + bits, 2) && |Zeros(q) + bits| == q + |bits|
    ensures Bits(Zeros(q) + bits, 0, q) == 0
  {
    var s := Zeros(q) + bits;
    ValueZeros(q, [], 2);
    BitsValue(s, 0, q);
    assert s[0..q] == Zeros(q) + [];
  }

  lemma PaddedAt(q: nat, bits: seq<byte>, i: nat)
    requires i < |bits|
    ensures (Zeros(q) + bits)[q + i] == bits[i]
  {
  }

  /** When every digit is taken, the stored bytes are all the bytes of the
      padded bit string, followed by the NUL left after the last of them
      when a byte of padding was skipped. */
  lemma Finished(out: seq<byte>, padded: seq<byte>, ch: nat, chlocation: nat, skipped: nat)
    requires Collected(out, padded, |padded|, ch, chlocation)
    requires skipped <= 1 && skipped <= |out| && |padded| == 8 * (|out| - skipped)
    ensures out == Octets(padded, |out| - skipped) + if skipped == 1 then [NUL] else []
  {
    assert chlocation == |out| - skipped;
    assert padded[..8 * chlocation] == padded;
    if skipped == 1 {
      assert out == out[..chlocation] + [out[chlocation]];
    } else {
      assert out == out[..chlocation];
    }
  }

  /** Eight collected bits complete the next byte. */
  lemma EmitByte(s: seq<byte>, n: nat, hi: nat)
    requires Digits(s, 2) && hi == 8 * n + 8 <= |s|
    ensures Bits(s, 8 * n, hi) < 256
    ensures Octets(s, n + 1) == Octets(s, n) + [Bits(s, 8 * n, hi)]
    ensures Bits(s, 8 * (n + 1), hi) == 0
  {
    ByteBound(s, 8 * n, hi);
  }

  /** With the intended padding the chunk has `ceil(bitLen / 8)` bytes and
      reads back, most significant byte first, as the bit string's value. */
  lemma PackedValue(bits: seq<byte>)
    requires Digits(bits, 2)
    ensures |Packed(bits, MissingZeros(|bits|))| == (|bits| + 7) / 8
    ensures BigEndian(Packed(bits, MissingZeros(|bits|))) == Value(bits, 2)
  {
    var q := MissingZeros(|bits|);
    var size := (|bits| + 7) / 8;
    var padded := Zeros(q) + bits;
    PackedIntended(bits);
    OctetsValue(padded, size);
    assert padded[..8 * size] == padded;
    ValueZeros(q, bits, 2);
  }

  /** With the intended padding the chunk is every byte of the padded bit
      string. */
  lemma PackedIntended(bits: seq<byte>)
    requires Digits(bits, 2)
    ensures Digits(Zeros(MissingZeros(|bits|)) + bits, 2)
    ensures |Zeros(MissingZeros(|bits|)) + bits| == 8 * ((|bits| + 7) / 8)
    ensures Packed(bits, MissingZeros(|bits|)) ==
      Octets(Zeros(MissingZeros(|bits|)) + bits, (|bits| + 7) / 8)
  {
    var q := MissingZeros(|bits|);
    ChunkLength(|bits|, q);
    RoundUp(|bits|);
    ValueZeros(q, bits, 2);
  }

  lemma RoundUp(bitLen: nat)
    ensures (bitLen + 7) / 8 == bitLen / 8 + if MissingZeros(bitLen) != 0 then 1 else 0
  {
  }

  /** The decoder's padding rule agrees with the intended one unless the bit
      length is a multiple of 8; then the chunk carries one extra NUL byte
      after the right bytes. */
  lemma PackedAsWritten(bits: seq<byte>)
    requires Digits(bits, 2)
    ensures |bits| % 8 != 0 ==>
      Packed(bits, MissingZerosAsWritten(|bits|)) == Packed(bits, MissingZeros(|bits|))
    ensures |bits| % 8 == 0 ==>
      Packed(bits, MissingZerosAsWritten(|bits|)) == Packed(bits, MissingZeros(|bits|)) + [NUL]
  {
    var aw, q := MissingZerosAsWritten(|bits|), MissingZeros(|bits|);
    PaddingRules(|bits|);
    if aw == 8 {
      assert q == 0;
      assert Zeros(0) + bits == bits;
    }
  }

  /** The two padding rules differ only on whole bytes: 8 against 0. */
  lemma PaddingRules(bitLen: nat)
    ensures bitLen % 8 != 0 ==> MissingZerosAsWritten(bitLen) == MissingZeros(bitLen)
    ensures bitLen % 8 == 0 <==> MissingZerosAsWritten(bitLen) == 8
    ensures bitLen % 8 == 0 ==> MissingZeros(bitLen) == 0
  {
  }

  /** The chunk for one decrypted number, with the intended padding: the
      number in binary as GMP writes it, padded to whole bytes and packed. */
  function Pack(v: nat): seq<byte>
  {
    var bits := Render(v, 2);
    Packed(bits, MissingZeros(|bits|))
  }

  /** The padding rule the packer applies: the decoder's own
      (`MissingZerosAsWritten`, which pads a whole byte onto a bit length that
      is already a multiple of 8) or the corrected one (`MissingZeros`). */
  datatype Padding = AsWritten | Corrected

  /** The chunk for one decrypted number under `rule`. */
  function PackWith(rule: Padding, v: nat): seq<byte>
  {
    if rule == Corrected then Pack(v)
    else
      var bits := Render(v, 2);
      Packed(bits, MissingZerosAsWritten(|bits|))
  }

  /** The number's binary digit count is a multiple of 8, the case in which
      the two padding rules differ. */
  predicate Aligned(v: nat)
  {
    |Render(v, 2)| % 8 == 0
  }

  /** Under the decoder's own rule a number's chunk is its minimal bytes,
      followed by one 0x00 exactly when its bit length is a multiple of 8. */
  lemma PackWithAsWritten(v: nat)
    ensures !Aligned(v) ==> PackWith(AsWritten, v) == MinimalBytes(v)
    ensures Aligned(v) ==> PackWith(AsWritten, v) == MinimalBytes(v) + [NUL]
  {
    PackedAsWritten(Render(v, 2));
    PackIsMinimalBytes(v);
  }

  /** A byte string in minimal form: non-empty, and no leading zero byte
      unless it is the single byte 0. */
  predicate MinimalForm(b: seq<byte>)
  {
    |b| >= 1 && (b[0] == 0 ==> |b| == 1)
  }

  /** The shortest big-endian byte string of a number: the integer-to-octet
      conversion I2OSP of section 4.1 of RFC 8017 at the least length that
      holds the number, one byte for 0. */
  function MinimalBytes(v: nat): (b: seq<byte>)
    ensures MinimalForm(b)
    decreases v
  {
    if v < 256 then [v] else MinimalBytes(v / 256) + [v % 256]
  }

  lemma {:induction false} MinimalBytesValue(v: nat)
    ensures BigEndian(MinimalBytes(v)) == v
    decreases v
  {
    if v >= 256 {
      var b := MinimalBytes(v);
      assert b[..|b| - 1] == MinimalBytes(v / 256);
      MinimalBytesValue(v / 256);
      DivMod(v, 256);
    }
  }

  lemma {:induction false} BigEndianPositive(b: seq<byte>)
    requires |b| >= 1 && b[0] != 0
    ensures BigEndian(b) > 0
    decreases |b|
  {
    if |b| > 1 {
      BigEndianPositive(b[..|b| - 1]);
    }
  }

  /** Every byte string in minimal form is the minimal form of its value:
      `MinimalBytes` and `BigEndian` are inverse on minimal forms. */
  lemma {:induction false} MinimalBytesOfValue(b: seq<byte>)
    requires MinimalForm(b)
    ensures MinimalBytes(BigEndian(b)) == b
    decreases |b|
  {
    if |b| > 1 {
      var prefix := b[..|b| - 1];
      var p := BigEndian(prefix);
      var d := b[|b| - 1];
      BigEndianPositive(prefix);
      MinimalBytesOfValue(prefix);
      DivModUnique(BigEndian(b), 256, p, d);
      assert b == prefix + [d];
    }
  }

  /** A number's chunk starts with a zero byte only when it is the single
      byte 0: the padding never adds a whole byte of zeros. */
  lemma PackMinimalForm(v: nat)
    ensures MinimalForm(Pack(v))
  {
    var bits := Render(v, 2);
    var q := MissingZeros(|bits|);
    var padded := Zeros(q) + bits;
    var size := (|bits| + 7) / 8;
    PackedIntended(bits);
    if size > 1 {
      assert v > 0;
      OctetsFirst(padded, size);
      BitsValue(padded, 0, 8);
      var lead := bits[..8 - q];
      assert padded[0..8] == Zeros(q) + lead;
      ValueZeros(q, lead, 2);
      ValuePositive(lead, 2);
    }
  }

  /** The decoder's packing (with the intended padding) is exactly the minimal
      big-endian encoding of the number. */
  lemma PackIsMinimalBytes(v: nat)
    ensures Pack(v) == MinimalBytes(v)
  {
    var bits := Render(v, 2);
    PackedValue(bits);
    ValueOfRender(v, 2);
    PackMinimalForm(v);
    MinimalBytesOfValue(Pack(v));
  }

  /** The number 0 is written as the single byte 0x00. */
  lemma PackZero()
    ensures Pack(0) == [0]
  {
    PackIsMinimalBytes(0);
  }

  /** As written, the packer breaks the round trip for every number whose bit
      length is a multiple of 8: the chunk reads back as 256 times the
      number, because of the extra trailing NUL byte. */
  lemma AsWrittenAlignedChunk(v: nat)
    requires |Render(v, 2)| % 8 == 0
    ensures Packed(Render(v, 2), MissingZerosAsWritten(|Render(v, 2)|)) == Pack(v) + [NUL]
    ensures BigEndian(Packed(Render(v, 2), MissingZerosAsWritten(|Render(v, 2)|))) == 256 * v
  {
    var bits := Render(v, 2);
    PackedAsWritten(bits);
    PackedValue(bits);
    ValueOfRender(v, 2);
    var chunk := Pack(v) + [NUL];
    assert chunk[..|chunk| - 1] == Pack(v);
  }

  /** The byte 0x80 (bit string "10000000") decodes to the two bytes
      0x80 0x00 instead of the single byte 0x80. */
  lemma AsWrittenExample()
    ensures Pack(128) == [128]
    ensures Packed(Render(128, 2), MissingZerosAsWritten(|Render(128, 2)|)) == [128, 0]
  {
    PackIsMinimalBytes(128);
    assert |Render(128, 2)| == 8;
    AsWrittenAlignedChunk(128);
  }
}
