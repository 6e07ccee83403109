/** The decoder's main loop: split the ciphertext buffer into blocks, raise
    each block to the key's exponent modulo its modulus and write the result
    as bytes, block after block. */
module Pipeline {
  import opened Text
  import opened Numerals
  import opened Blocks
  import opened KeyFile
  import opened ModExp
  import opened BitPacker

  /** Why a run ends without output. */
  datatype Fault =
    | KeyRejected(reason: KeyError)  // `read_keyfile` exits
    | DivisionByZero                 // `mpz_powm` with a zero modulus

  /** The number one ciphertext block decrypts to: `c^e mod n`. */
  function Decrypted(key: PublicKey, block: seq<byte>): nat
    requires key.modulus > 0 && Digits(block, 10)
  {
    Pow(Value(block, 10), key.exponent) % key.modulus
  }

  /** The bytes written for one ciphertext block, packed under `rule`; the
      decoder itself packs `AsWritten`. */
  function DecryptBlock(rule: Padding, key: PublicKey, block: seq<byte>): seq<byte>
    requires key.modulus > 0 && Digits(block, 10)
  {
    PackWith(rule, Decrypted(key, block))
  }

  /** The bytes written for the blocks `ts`, in order. */
  function Plaintext(rule: Padding, key: PublicKey, ts: seq<seq<byte>>): seq<byte>
    requires key.modulus > 0
    requires forall i :: 0 <= i < |ts| ==> Digits(ts[i], 10)
  {
    if ts == [] then []
    else Plaintext(rule, key, ts[..|ts| - 1]) + DecryptBlock(rule, key, ts[|ts| - 1])
  }

  /** The output file for `buffer` under `key`: empty for an empty buffer,
      a fault at the first block when the modulus is 0, and otherwise the
      bytes of every block the scan finds, empty blocks included. */
  function Decryption(rule: Padding, key: PublicKey, buffer: seq<byte>): Result<seq<byte>, Fault>
    requires DecimalBlocks(buffer)
  {
    TokensAreDecimal(buffer);
    if buffer == [] then Success([])
    else if key.modulus == 0 then Failure(DivisionByZero)
    else Success(Plaintext(rule, key, Tokens(buffer)))
  }

  /** The whole run: the key is read first, and a refused key line ends it
      before the ciphertext is looked at. */
  function Decrypt(rule: Padding, keyText: seq<byte>, buffer: seq<byte>): Result<seq<byte>, Fault>
    requires KeyFieldsDecimal(keyText) && DecimalBlocks(buffer)
  {
    match ParseKey(keyText)
    case Failure(reason) => Failure(KeyRejected(reason))
    case Success(key) => Decryption(rule, key, buffer)
  }

  /** The block loop of `main`: scan one block, decrypt it and append its
      bytes to the output, until the buffer is used up. */
  method DecryptBlocks(key: PublicKey, buffer: seq<byte>)
    returns (r: Result<seq<byte>, Fault>)
    requires DecimalBlocks(buffer)
    ensures r == Decryption(AsWritten, key, buffer)
  {
    var plaintext: seq<byte> := [];
    ghost var done: seq<seq<byte>> := [];
    var i := 0;
    ScanStart(key, buffer);
    while i < |buffer|
      invariant Scanned(key, buffer, i, done, plaintext)
      decreases |buffer| + 1 - i
    {
      var start := i;
      var block;
      block, i := ScanBlock(buffer, start);
      BlockDecimal(buffer, start, i);
      if key.modulus == 0 {
        return Failure(DivisionByZero);
      }
      var chunk := DecryptOne(key, block);
      ScanAdvance(key, buffer, start, i, done, plaintext, chunk);
      plaintext, done := plaintext + chunk, done + [block];
      i := i + 1;
    }
    ScanDone(key, buffer, i, done, plaintext);
    if buffer == [] {
      return Success([]);
    }
    r := Success(plaintext);
  }

  /** The state of the block loop at scan position `i`: the blocks `done`
      are the ones `Tokens` finds before `i` (all of them once `i` is past
      the end), and `plaintext` holds their bytes. */
  ghost predicate Scanned(key: PublicKey, buffer: seq<byte>, i: nat, done: seq<seq<byte>>,
                          plaintext: seq<byte>)
  {
    DecimalBlocks(buffer) && i <= |buffer| + 1 &&
    (i <= |buffer| ==> Tokens(buffer) == done + Tokens(buffer[i..])) &&
    (i > |buffer| ==> Tokens(buffer) == done) &&
    (forall k :: 0 <= k < |done| ==> Digits(done[k], 10)) &&
    (done != [] ==> key.modulus > 0) &&
    (key.modulus > 0 ==> plaintext == Plaintext(AsWritten, key, done))
  }

  /** Before the first block nothing is scanned. */
  lemma ScanStart(key: PublicKey, buffer: seq<byte>)
    requires DecimalBlocks(buffer)
    ensures Scanned(key, buffer, 0, [], [])
  {
    assert buffer[0..] == buffer;
  }

  /** A scanned block holds digits only. */
  lemma BlockDecimal(buffer: seq<byte>, start: nat, stop: nat)
    requires DecimalBlocks(buffer) && start <= stop <= |buffer|
    requires forall j :: start <= j < stop ==> buffer[j] != NUL
    ensures Digits(buffer[start..stop], 10)
  {
    assert forall j :: start <= j < stop ==> IsDigit(buffer[j], 10);
  }

  /** One round of the block loop keeps `Scanned`. */
  lemma ScanAdvance(key: PublicKey, buffer: seq<byte>, start: nat, stop: nat,
                    done: seq<seq<byte>>, plaintext: seq<byte>, chunk: seq<byte>)
    requires Scanned(key, buffer, start, done, plaintext) && start < |buffer|
    requires start <= stop <= |buffer|
    requires forall j :: start <= j < stop ==> buffer[j] != NUL
    requires stop < |buffer| ==> buffer[stop] == NUL
    requires key.modulus > 0 && Digits(buffer[start..stop], 10)
    requires chunk == DecryptBlock(AsWritten, key, buffer[start..stop])
    ensures Scanned(key, buffer, stop + 1, done + [buffer[start..stop]], plaintext + chunk)
  {
    NextBlock(buffer, start, stop, done);
    PlaintextStep(AsWritten, key, done, buffer[start..stop]);
  }

  /** When the scan has passed the end, the output is the whole plaintext. */
  lemma ScanDone(key: PublicKey, buffer: seq<byte>, i: nat, done: seq<seq<byte>>,
                 plaintext: seq<byte>)
    requires Scanned(key, buffer, i, done, plaintext) && i >= |buffer|
    ensures buffer != [] ==> Decryption(AsWritten, key, buffer) == Success(plaintext)
  {
    if i == |buffer| {
      assert buffer[i..] == [];
      assert done + [] == done;
    }
    assert Tokens(buffer) == done;
    TokensEmpty(buffer);
  }

  /** The inner `while` of the block loop: copy bytes from `start` up to
      the next NUL or the end of the buffer, one at a time, as `strncat`
      appends them. */
  method ScanBlock(buffer: seq<byte>, start: nat) returns (block: seq<byte>, stop: nat)
    requires start <= |buffer|
    ensures start <= stop <= |buffer| && block == buffer[start..stop]
    ensures forall j :: start <= j < stop ==> buffer[j] != NUL
    ensures stop < |buffer| ==> buffer[stop] == NUL
  {
    block, stop := [], start;
    while stop < |buffer| && buffer[stop] != NUL
      invariant start <= stop <= |buffer|
      invariant block == buffer[start..stop]
      invariant forall j :: start <= j < stop ==> buffer[j] != NUL
    {
      block := block + [buffer[stop]];
      stop := stop + 1;
    }
  }

  /** The body of the block loop for one block: `mpz_set_str`, `mpz_powm`,
      `mpz_get_str` in base 2 and the bit packer. */
  method DecryptOne(key: PublicKey, block: seq<byte>) returns (chunk: seq<byte>)
    requires key.modulus > 0 && Digits(block, 10)
    ensures chunk == DecryptBlock(AsWritten, key, block)
  {
    var c := Value(block, 10);
    var m := ModPow(c, key.exponent, key.modulus);
    var bits := Render(m, 2);
    var remainder := MissingZerosAsWritten(|bits|);
    chunk := PackChunk(bits, remainder);
  }

  /** Appending one block's bytes extends the output by that block. */
  lemma PlaintextStep(rule: Padding, key: PublicKey, done: seq<seq<byte>>, block: seq<byte>)
    requires key.modulus > 0 && Digits(block, 10)
    requires forall k :: 0 <= k < |done| ==> Digits(done[k], 10)
    ensures forall k :: 0 <= k < |done + [block]| ==> Digits((done + [block])[k], 10)
    ensures Plaintext(rule, key, done + [block]) ==
      Plaintext(rule, key, done) + DecryptBlock(rule, key, block)
  {
    assert (done + [block])[..|done|] == done;
  }

  /** The scan step of `DecryptBlocks`: the block from `start` to the NUL
      at `stop` (or the buffer end) is the next one `Tokens` finds. */
  lemma NextBlock(buffer: seq<byte>, start: nat, stop: nat, done: seq<seq<byte>>)
    requires start <= stop <= |buffer| && start < |buffer|
    requires forall j :: start <= j < stop ==> buffer[j] != NUL
    requires stop < |buffer| ==> buffer[stop] == NUL
    requires Tokens(buffer) == done + Tokens(buffer[start..])
    ensures stop < |buffer| ==>
      Tokens(buffer) == done + [buffer[start..stop]] + Tokens(buffer[stop + 1..])
    ensures stop == |buffer| ==> Tokens(buffer) == done + [buffer[start..stop]]
  {
    ScanStep(buffer, start, stop);
    var block := buffer[start..stop];
    if stop < |buffer| {
      var rest := Tokens(buffer[stop + 1..]);
      assert done + ([block] + rest) == done + [block] + rest;
    }
  }

  /** `main` after the ciphertext is read: the key first, then the blocks. */
  method DecryptFiles(keyText: seq<byte>, buffer: seq<byte>)
    returns (r: Result<seq<byte>, Fault>)
    requires KeyFieldsDecimal(keyText) && DecimalBlocks(buffer)
    ensures r == Decrypt(AsWritten, keyText, buffer)
  {
    var key := ReadKeyFile(keyText);
    if key.Failure? {
      return Failure(KeyRejected(key.error));
    }
    r := DecryptBlocks(key.value, buffer);
  }

  /** With the corrected padding each block is written as the minimal
      big-endian bytes of the number `c^e mod n`: a leading zero byte never
      survives, and the bytes read back as a number below `n`. */
  lemma DecryptBlockIsMinimal(key: PublicKey, block: seq<byte>)
    requires key.modulus > 0 && Digits(block, 10)
    ensures DecryptBlock(Corrected, key, block) == MinimalBytes(Decrypted(key, block))
    ensures BigEndian(DecryptBlock(Corrected, key, block)) < key.modulus
  {
    var m := Decrypted(key, block);
    PackIsMinimalBytes(m);
    MinimalBytesValue(m);
  }

  /** As the decoder writes it, a block is its corrected bytes followed by
      one 0x00 exactly when `c^e mod n` has a bit length that is a multiple
      of 8. */
  lemma DecryptBlockAsWritten(key: PublicKey, block: seq<byte>)
    requires key.modulus > 0 && Digits(block, 10)
    ensures !Aligned(Decrypted(key, block)) ==>
      DecryptBlock(AsWritten, key, block) == DecryptBlock(Corrected, key, block)
    ensures Aligned(Decrypted(key, block)) ==>
      DecryptBlock(AsWritten, key, block) == DecryptBlock(Corrected, key, block) + [NUL]
  {
    var m := Decrypted(key, block);
    PackWithAsWritten(m);
    PackIsMinimalBytes(m);
  }

  /** The number of blocks among `ts` whose decrypted number has a bit
      length that is a multiple of 8. */
  function AlignedBlocks(key: PublicKey, ts: seq<seq<byte>>): nat
    requires key.modulus > 0
    requires forall i :: 0 <= i < |ts| ==> Digits(ts[i], 10)
  {
    if ts == [] then 0
    else AlignedBlocks(key, ts[..|ts| - 1]) + if Aligned(Decrypted(key, ts[|ts| - 1])) then 1 else 0
  }

  /** The decoder's output is one byte longer than the corrected output for
      each aligned block, and the same bytes when no block is aligned. */
  lemma {:induction false} PlaintextAsWritten(key: PublicKey, ts: seq<seq<byte>>)
    requires key.modulus > 0
    requires forall i :: 0 <= i < |ts| ==> Digits(ts[i], 10)
    ensures |Plaintext(AsWritten, key, ts)| ==
      |Plaintext(Corrected, key, ts)| + AlignedBlocks(key, ts)
    ensures AlignedBlocks(key, ts) == 0 ==>
      Plaintext(AsWritten, key, ts) == Plaintext(Corrected, key, ts)
    decreases |ts|
  {
    if ts != [] {
      PlaintextAsWritten(key, ts[..|ts| - 1]);
      DecryptBlockAsWritten(key, ts[|ts| - 1]);
    }
  }

  /** The output is the blocks' bytes one after another: decrypting a
      buffer made of two framed parts gives the two outputs concatenated. */
  lemma {:induction false} PlaintextAppend(rule: Padding, key: PublicKey, xs: seq<seq<byte>>,
                                           ys: seq<seq<byte>>)
    requires key.modulus > 0
    requires forall i :: 0 <= i < |xs| ==> Digits(xs[i], 10)
    requires forall i :: 0 <= i < |ys| ==> Digits(ys[i], 10)
    ensures Plaintext(rule, key, xs + ys) == Plaintext(rule, key, xs) + Plaintext(rule, key, ys)
    decreases |ys|
  {
    if ys == [] {
      assert xs + ys == xs;
    } else {
      var ys', y := ys[..|ys| - 1], ys[|ys| - 1];
      assert ys == ys' + [y];
      assert xs + ys == (xs + ys') + [y];
      assert forall i :: 0 <= i < |xs + ys'| ==> Digits((xs + ys')[i], 10) by {
        forall i | 0 <= i < |xs + ys'|
          ensures Digits((xs + ys')[i], 10)
        {
          if i >= |xs| { assert (xs + ys')[i] == ys[i - |xs|]; }
        }
      }
      PlaintextAppend(rule, key, xs, ys');
      PlaintextStep(rule, key, xs + ys', y);
      PlaintextStep(rule, key, ys', y);
      var a, b, c := Plaintext(rule, key, xs), Plaintext(rule, key, ys'),
        DecryptBlock(rule, key, y);
      AppendAssoc(a, b, c);
    }
  }

  lemma AppendAssoc(a: seq<byte>, b: seq<byte>, c: seq<byte>)
    ensures (a + b) + c == a + (b + c)
  {
  }

  /** An empty ciphertext file gives an empty output, whatever the key. */
  lemma EmptyFile(rule: Padding, key: PublicKey)
    ensures DecimalBlocks([])
    ensures Decryption(rule, key, []) == Success([])
  {
  }

  /** A file holding a single NUL is one empty block: it reads as 0, and
      the output is the one byte `0^e mod n`, which is 0x00 for `e > 0`. */
  lemma SingleNulFile(rule: Padding, key: PublicKey)
    requires key.modulus > 0 && key.exponent > 0
    ensures DecimalBlocks([NUL])
    ensures Decryption(rule, key, [NUL]) == Success([0])
  {
    var empty: seq<byte> := [];
    SingleNulBlocks();
    assert Plaintext(rule, key, [empty]) ==
      Plaintext(rule, key, []) + DecryptBlock(rule, key, empty);
    EmptyBlock(rule, key);
  }

  /** The scan finds one empty block in a single NUL. */
  lemma SingleNulBlocks()
    ensures Tokens([NUL]) == [[]]
  {
    var b: seq<byte> := [NUL];
    TokensFirst(b, 0);
    assert b[..0] == [] && b[1..] == [];
  }

  /** An empty block reads as 0 and is written as the byte `0^e mod n`,
      under either padding rule. */
  lemma EmptyBlock(rule: Padding, key: PublicKey)
    requires key.modulus > 0 && key.exponent > 0
    ensures DecryptBlock(rule, key, []) == [0]
  {
    var empty: seq<byte> := [];
    var c := Value(empty, 10);
    assert c == 0;
    PowZero(key.exponent);
    DivModUnique(0, key.modulus, 0, 0);
    assert Decrypted(key, empty) == 0;
    DecryptBlockIsMinimal(key, empty);
    DecryptBlockAsWritten(key, empty);
    assert MinimalBytes(0) == [0];
    assert Render(0, 2) == [ZERO];
  }

  lemma PowZero(e: nat)
    requires e > 0
    ensures Pow(0, e) == 0
  {
  }

  /** A zero modulus stops the run at the first block. */
  lemma ZeroModulus(rule: Padding, key: PublicKey, buffer: seq<byte>)
    requires DecimalBlocks(buffer) && key.modulus == 0
    ensures Decryption(rule, key, buffer).Failure? <==> buffer != []
  {
  }

  /** The decoder's padding on a concrete run: under the key `e = 1`,
      `n = 1000` the ciphertext block "128" decrypts to 128, bits
      "10000000"; the decoder writes 0x80 0x00 where the corrected rule
      writes 0x80. */
  lemma AsWrittenRun()
    ensures DecimalBlocks([49, 50, 56, NUL])
    ensures Decryption(AsWritten, PublicKey(1, 1000), [49, 50, 56, NUL]) == Success([128, 0])
    ensures Decryption(Corrected, PublicKey(1, 1000), [49, 50, 56, NUL]) == Success([128])
  {
    var block: seq<byte> := [49, 50, 56];
    var key := PublicKey(1, 1000);
    RunBlocks();
    RunChunks();
    PlaintextStep(AsWritten, key, [], block);
    PlaintextStep(Corrected, key, [], block);
    assert [] + [block] == [block];
    assert Plaintext(AsWritten, key, [block]) == [128, 0];
    assert Plaintext(Corrected, key, [block]) == [128];
  }

  /** The block "128" is written as 0x80 0x00 by the decoder and as 0x80
      with the corrected padding. */
  lemma RunChunks()
    ensures Digits([49, 50, 56], 10)
    ensures DecryptBlock(AsWritten, PublicKey(1, 1000), [49, 50, 56]) == [128, 0]
    ensures DecryptBlock(Corrected, PublicKey(1, 1000), [49, 50, 56]) == [128]
  {
    RunValue();
    AsWrittenExample();
  }

  /** The buffer "128" NUL is the one block "128". */
  lemma RunBlocks()
    ensures DecimalBlocks([49, 50, 56, NUL])
    ensures Tokens([49, 50, 56, NUL]) == [[49, 50, 56]]
  {
    var buffer: seq<byte> := [49, 50, 56, NUL];
    FirstIndexUnique(buffer, NUL, 3);
    TokensFirst(buffer, 3);
    assert buffer[..3] == [49, 50, 56] && buffer[4..] == [];
  }

  /** The block "128" decrypts to 128 under `e = 1`, `n = 1000`. */
  lemma RunValue()
    ensures Digits([49, 50, 56], 10)
    ensures Decrypted(PublicKey(1, 1000), [49, 50, 56]) == 128
  {
    var one: seq<byte>, two: seq<byte>, three: seq<byte> := [49], [49, 50], [49, 50, 56];
    assert one[..0] == [] && Value(one, 10) == 1;
    assert two[..1] == one && Value(two, 10) == 12;
    assert three[..2] == two && Value(three, 10) == 128;
    assert Pow(128, 1) == 128;
    DivModUnique(128, 1000, 0, 128);
  }

  /** A plaintext block the decoder gets back from its ciphertext under
      the private exponent `d`: in minimal form, its number `m` below `n`,
      and `m^(d*e) == m (mod n)`, which holds for every `m < n` when `d`
      matches the key. */
  predicate Recoverable(key: PublicKey, d: nat, p: seq<byte>)
  {
    key.modulus > 0 && MinimalForm(p) && BigEndian(p) < key.modulus &&
    Pow(BigEndian(p), d * key.exponent) % key.modulus == BigEndian(p)
  }

  /** The ciphertext blocks an encryptor with the private exponent `d`
      writes for the plaintext blocks `ps`: each block's number `m` becomes
      `m^d mod n`, in decimal. */
  function Encrypted(n: nat, d: nat, ps: seq<seq<byte>>): (ts: seq<seq<byte>>)
    requires n > 0
    ensures |ts| == |ps|
    ensures forall i :: 0 <= i < |ts| ==> Digits(ts[i], 10)
  {
    if ps == [] then []
    else Encrypted(n, d, ps[..|ps| - 1]) + [Render(Pow(BigEndian(ps[|ps| - 1]), d) % n, 10)]
  }

  /** All the plaintext blocks, one after another. */
  function Concat(ps: seq<seq<byte>>): seq<byte>
  {
    if ps == [] then [] else Concat(ps[..|ps| - 1]) + ps[|ps| - 1]
  }

  /** The bytes written for a recovered plaintext block `p` under `rule`:
      the block itself, followed, under the decoder's own rule, by a 0x00
      when its number's bit length is a multiple of 8. */
  function Delivered(rule: Padding, p: seq<byte>): seq<byte>
  {
    if rule == AsWritten && Aligned(BigEndian(p)) then p + [NUL] else p
  }

  /** The bytes written for the recovered plaintext blocks `ps`, in order. */
  function Received(rule: Padding, ps: seq<seq<byte>>): seq<byte>
  {
    if ps == [] then [] else Received(rule, ps[..|ps| - 1]) + Delivered(rule, ps[|ps| - 1])
  }

  /** With the corrected padding the blocks come back exactly; with the
      decoder's own padding they do too when no block's number has a bit
      length that is a multiple of 8. */
  lemma {:induction false} ReceivedBlocks(ps: seq<seq<byte>>)
    ensures Received(Corrected, ps) == Concat(ps)
    ensures (forall i :: 0 <= i < |ps| ==> !Aligned(BigEndian(ps[i]))) ==>
      Received(AsWritten, ps) == Concat(ps)
    decreases |ps|
  {
    if ps != [] {
      ReceivedBlocks(ps[..|ps| - 1]);
    }
  }

  /** One block of the round trip: the decimal ciphertext of a recoverable
      block decrypts to the block's number and is written as
      `Delivered(rule, p)`. */
  lemma BlockRoundTrip(rule: Padding, key: PublicKey, d: nat, p: seq<byte>)
    requires Recoverable(key, d, p)
    ensures Decrypted(key, Render(Pow(BigEndian(p), d) % key.modulus, 10)) == BigEndian(p)
    ensures DecryptBlock(rule, key, Render(Pow(BigEndian(p), d) % key.modulus, 10)) ==
      Delivered(rule, p)
  {
    var n, e, m := key.modulus, key.exponent, BigEndian(p);
    var c := Pow(m, d) % n;
    ValueOfRender(c, 10);
    PowModBase(Pow(m, d), e, n);
    PowMul(m, d, e);
    assert Decrypted(key, Render(c, 10)) == m;
    PackIsMinimalBytes(m);
    PackWithAsWritten(m);
    MinimalBytesOfValue(p);
  }

  /** The decrypted ciphertext blocks are the plaintext blocks, as
      `Received` writes them. */
  lemma {:induction false} PlaintextRoundTrip(rule: Padding, key: PublicKey, d: nat,
                                              ps: seq<seq<byte>>)
    requires key.modulus > 0
    requires forall i :: 0 <= i < |ps| ==> Recoverable(key, d, ps[i])
    ensures Plaintext(rule, key, Encrypted(key.modulus, d, ps)) == Received(rule, ps)
    decreases |ps|
  {
    if ps != [] {
      var n := key.modulus;
      var ps' := ps[..|ps| - 1];
      var ts, ts' := Encrypted(n, d, ps), Encrypted(n, d, ps');
      assert ts[..|ts| - 1] == ts';
      PlaintextRoundTrip(rule, key, d, ps');
      BlockRoundTrip(rule, key, d, ps[|ps| - 1]);
    }
  }

  /** Textbook RSA round trip: recoverable plaintext blocks, encrypted with
      `d` and written in decimal each followed by a NUL, are decrypted by
      the block loop to `Received(rule, ps)`: the same bytes with the
      corrected padding (`ReceivedBlocks`), and with the decoder's own
      padding the same bytes plus a 0x00 after each block whose number's
      bit length is a multiple of 8. */
  lemma RoundTrip(rule: Padding, key: PublicKey, d: nat, ps: seq<seq<byte>>)
    requires key.modulus > 0
    requires forall i :: 0 <= i < |ps| ==> Recoverable(key, d, ps[i])
    ensures DecimalBlocks(Join(Encrypted(key.modulus, d, ps)))
    ensures Decryption(rule, key, Join(Encrypted(key.modulus, d, ps))) ==
      Success(Received(rule, ps))
  {
    var ts := Encrypted(key.modulus, d, ps);
    PlaintextRoundTrip(rule, key, d, ps);
    JoinDecimal(ts);
    forall i | 0 <= i < |ts|
      ensures NUL !in ts[i]
    {
      assert forall j :: 0 <= j < |ts[i]| ==> IsDigit(ts[i][j], 10);
    }
    TokensOfJoin(ts);
    if ps != [] {
      assert Join(ts) != [];
    }
  }

  /** The whole run end to end: a key file holding `e, n` on its first line
      and a ciphertext file of blocks encrypted with `d` give back the
      plaintext blocks, as `Received` writes them. */
  lemma DecryptRoundTrip(rule: Padding, e: nat, n: nat, d: nat, rest: seq<byte>,
                         ps: seq<seq<byte>>)
    requires n > 0 && (rest == [] || rest[0] == NEWLINE)
    requires forall i :: 0 <= i < |ps| ==> Recoverable(PublicKey(e, n), d, ps[i])
    ensures KeyFieldsDecimal(Render(e, 10) + [COMMA, SPACE] + Render(n, 10) + rest)
    ensures DecimalBlocks(Join(Encrypted(n, d, ps)))
    ensures Decrypt(rule, Render(e, 10) + [COMMA, SPACE] + Render(n, 10) + rest,
                    Join(Encrypted(n, d, ps))) == Success(Received(rule, ps))
  {
    ReadsBackWrittenKey(e, n, rest);
    RoundTrip(rule, PublicKey(e, n), d, ps);
  }
}
