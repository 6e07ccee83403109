# asymmetrickey_decr — block decoder model

A Dafny model of the decoding core of `asymmetrickey_decr`. This is a
command-line demonstrator of textbook RSA. It reads a public key line
`<e>, <n>` from a key file. It splits a ciphertext file into NUL-terminated
decimal blocks. It raises each block to `e` modulo `n` with GMP's `mpz_powm`,
then renders the result in binary with `mpz_get_str`. A bit packer regroups
those bits into bytes, left-padding the first byte with zero bits, and the
bytes of all blocks are written one after another.

The model is split into these modules:

- `Text` (text.dfy): bytes, the fatal-exit `Result`, and the search primitives
  (`strlen`, the first newline, the last comma).
- `Numerals` (numerals.dfy): the digit strings GMP reads (`mpz_set_str`,
  `Value`) and writes (`mpz_get_str`, `Render`), in any base from 2 to 10.
  The decoder uses base 10 and base 2.
- `KeyFile` (keyfile.dfy): `read_keyfile`. The byte loop is a method, and the
  split into exponent and modulus is checked against the function `ParseKey`.
- `Blocks` (blocks.dfy): the block scan as the function `Tokens`. Its partner,
  the NUL framing `Join`, writes blocks back.
- `ModExp` (modexp.dfy): `mpz_powm` as a square-and-multiply method proved to
  compute `c^e mod n`.
- `BitPacker` (bitpacker.dfy): the packing loop over a real `array` (the
  `char_output` buffer). It is proved equal to the function `Packed` for any
  padding count. Two padding rules are modelled side by side: the decoder's
  own (`MissingZerosAsWritten`, the rule the program runs) and a corrected
  one (`MissingZeros`). With the corrected rule, `Pack` is proved to be the
  minimal big-endian encoding of the number (I2OSP at the least length,
  section 4.1 of RFC 8017). With the decoder's rule, a number whose bit
  length is a multiple of 8 gets one extra 0x00 byte (see Findings).
- `Pipeline` (pipeline.dfy): the block loop of `main`, and the textbook-RSA
  round trip through the whole decoder. Its specification functions take the
  padding rule as a parameter. The methods that model the program
  (`DecryptOne`, `DecryptBlocks`, `DecryptFiles`) are proved against the
  decoder's own rule, `AsWritten`.

Some behaviours of the code a reader may not expect:

- **Single-NUL file.** A file holding one NUL byte yields one empty block,
  which GMP reads as 0. The output is then the one byte `0^e mod n`: 0x00 for
  `e > 0`, not an empty file (`Pipeline.SingleNulFile`). Every empty block
  between two NULs is processed the same way; none is skipped.
- **Leading zero bytes.** A plaintext block's leading zero bytes do not
  survive the round trip. With the corrected padding each block comes back in
  minimal form (`Pipeline.DecryptBlockIsMinimal`). With the decoder's own
  padding it comes back in minimal form followed by a 0x00 when its number's
  bit length is a multiple of 8 (`Pipeline.DecryptBlockAsWritten`). Either
  way `Pipeline.RoundTrip` requires minimal-form blocks.
- **Aligned blocks.** A decrypted number whose bit length is a multiple of 8
  is written with one extra 0x00 byte after it. For example, the block "128"
  under `e = 1`, `n = 1000` is written as 0x80 0x00 (`Pipeline.AsWrittenRun`).
- **The byte after the comma.** The modulus field starts two bytes after the
  comma, whatever that byte is, not only after a space
  (`KeyFile.AcceptsWellFormedLine`).
- **Where the delimiter is taken.** The exponent field ends at the last comma
  of the line, not the first (`KeyFile.DelimiterIndex`).
- **A zero modulus.** It is not refused when the key is read. It faults at
  the first block, in `mpz_powm`, and an empty ciphertext file still succeeds
  (`Pipeline.ZeroModulus`).

## Model

| member | source | states |
|---|---|---|
| Text.FirstIndex | src/asymmetrickey_decr.c:304 | `strlen` and the first-newline search: every byte before the returned index differs from the sought byte, and the byte at it (if any) is that byte |
| Numerals.Render | src/asymmetrickey_decr.c:144 | `mpz_get_str` output is a non-empty digit string whose first digit is '0' exactly when the number is 0 |
| Numerals.ValueOfRender | src/asymmetrickey_decr.c:144 | reading back the digits GMP writes gives the number again |
| Numerals.RenderOfValue | src/asymmetrickey_decr.c:130 | every canonical digit string is what GMP writes for its value (the two conversions are inverse bijections) |
| Numerals.ValueZeros | src/asymmetrickey_decr.c:177-182 | prepending zero digits does not change the value, so the padding bits are harmless |
| KeyFile.FirstLine | src/asymmetrickey_decr.c:278-297 | the key line is a prefix of the file with no newline, and it stops exactly at the first newline |
| KeyFile.DelimiterIndex | src/asymmetrickey_decr.c:286-290 | `e_length` is the index of the last comma of the line, or 0 when no comma stands past the first byte |
| KeyFile.ReadKeyLine | src/asymmetrickey_decr.c:278-297 | the copy loop stores exactly the first line, and `e_length` ends as the last comma's index |
| KeyFile.ReadKeyFile | src/asymmetrickey_decr.c:278-323 | `read_keyfile` returns the key `ParseKey` defines: a refusal without a delimiter, a refusal when the modulus field has negative length, otherwise both fields read in decimal |
| KeyFile.RejectsWithoutDelimiter | src/asymmetrickey_decr.c:299-302 | the line is refused for want of a delimiter exactly when no comma stands past its first byte (both directions) |
| KeyFile.SplitWellFormed | src/asymmetrickey_decr.c:316-317 | in `<e-digits>,<sep><n-digits>` the delimiter is found after the exponent digits, `strlen` is the line length, and the two copies are exactly the digit fields |
| KeyFile.AcceptsWellFormedLine | src/asymmetrickey_decr.c:304-323 | a well-formed line with anything after its newline yields exactly the two numbers written |
| KeyFile.ReadsBackWrittenKey | src/asymmetrickey_decr.c:316-323 | the key text `"<e>, <n>"` written by GMP reads back as the key `(e, n)` |
| KeyFile.FirstLineOnly | src/asymmetrickey_decr.c:282-284 | whatever follows the first newline does not change the key |
| Blocks.TokensEmpty | src/asymmetrickey_decr.c:113 | the scan finds no block exactly when the buffer is empty |
| Blocks.TokensHaveNoNul | src/asymmetrickey_decr.c:117-120 | no scanned block contains a NUL |
| Blocks.TokensAreDecimal | src/asymmetrickey_decr.c:117-130 | in a buffer of digits and NULs, every block is a decimal digit string (possibly empty) |
| Blocks.JoinTokens | src/asymmetrickey_decr.c:113-120 | the blocks, each followed by a NUL, rebuild the buffer: all of it when it ends in NUL, else with one NUL added |
| Blocks.CountTokens | src/asymmetrickey_decr.c:113-120 | there is one block per NUL (empty ones included), plus one for an unterminated tail |
| Blocks.TokensOfJoin | src/asymmetrickey_decr.c:113-120 | scanning a NUL-framed buffer gives back exactly the framed blocks (the scan inverts the framing) |
| Blocks.ScanStep | src/asymmetrickey_decr.c:115-120 | one round of the scan: the block runs from the scan position to the next NUL or the buffer end, and the scan resumes one past that NUL |
| ModExp.ModPow | src/asymmetrickey_decr.c:136 | `mpz_powm` by square-and-multiply returns `c^e mod n` for every modulus `n > 0` |
| ModExp.PowMul | src/asymmetrickey_decr.c:136 | `(m^d)^e == m^(d*e)`, the identity the textbook-RSA round trip rests on |
| BitPacker.OctetsValue | src/asymmetrickey_decr.c:174-206 | the bytes cut from a bit string, eight bits each, read big-endian as the bit string's value |
| BitPacker.MissingZerosAsWritten | src/asymmetrickey_decr.c:153 | the padding rule as written gives 1 to 8 zero bits, and the padded length is a multiple of 8 |
| BitPacker.MissingZeros | src/asymmetrickey_decr.c:153 | the corrected padding rule gives fewer than 8 zero bits, and the padded length is a multiple of 8 |
| BitPacker.PaddingRules | src/asymmetrickey_decr.c:153 | the two rules agree except on whole bytes, where the code's rule gives 8 and the corrected rule 0 (both directions) |
| BitPacker.Packed | src/asymmetrickey_decr.c:156-160 | the chunk has `string_size` bytes: `binary_length / 8`, plus one when the remainder is non-zero |
| BitPacker.PackChunk | src/asymmetrickey_decr.c:156-206 | the packing loop over a fresh `string_size`-byte array leaves exactly `Packed(bits, remainder)` in it, for either padding rule |
| BitPacker.PackBits | src/asymmetrickey_decr.c:172-206 | after the digit loop the buffer holds the bytes of the zero-padded bit string; with a remainder of 8 the last byte stays NUL |
| BitPacker.PackDigit | src/asymmetrickey_decr.c:177-204 | one digit step keeps the loop state: the stored bytes are the completed bytes of the padded string, and `ch` holds the pending bits shifted once; no byte past `chlocation + 1` changes |
| BitPacker.PadZeros | src/asymmetrickey_decr.c:177-182 | the padding loop advances `location` by `remainder` and shifts `ch` left `remainder` times |
| BitPacker.Store | src/asymmetrickey_decr.c:197-198 | a completed byte is stored at `chlocation`, the next byte (when in the buffer) becomes NUL, and every byte after that is unchanged |
| BitPacker.KeepBit | src/asymmetrickey_decr.c:201-203 | a digit that does not complete a byte stays in `ch`, shifted |
| BitPacker.EmitBit | src/asymmetrickey_decr.c:195-200 | a digit that completes a byte sends the byte to the output and restarts `ch` from 0 |
| BitPacker.EmitByte | src/asymmetrickey_decr.c:195-197 | eight collected bits form a byte below 256, appended to the bytes already cut |
| BitPacker.Finished | src/asymmetrickey_decr.c:210 | when the digits are used up, the `string_size` bytes written are the padded string's bytes, plus the trailing NUL under the as-written rule on whole bytes |
| BitPacker.PackedIntended | src/asymmetrickey_decr.c:153-160 | under the corrected rule the chunk is every byte of the padded bit string, which is `8 * ceil(bitLen / 8)` bits long |
| BitPacker.PackedValue | src/asymmetrickey_decr.c:153-206 | under the corrected rule the chunk has `ceil(bitLen / 8)` bytes and reads back big-endian as the bit string's value |
| BitPacker.PackedAsWritten | src/asymmetrickey_decr.c:153-160 | the as-written chunk equals the corrected one except on whole bytes, where it has one extra trailing 0x00 |
| BitPacker.PackMinimalForm | src/asymmetrickey_decr.c:142-206 | a decrypted number's chunk never starts with a 0x00 byte unless it is the single byte 0x00 |
| BitPacker.PackIsMinimalBytes | src/asymmetrickey_decr.c:142-206 | the rendered-and-packed chunk of a number is exactly its minimal big-endian encoding (I2OSP at least length) |
| BitPacker.PackZero | src/asymmetrickey_decr.c:142-206 | the number 0 is written as the single byte 0x00 |
| BitPacker.AsWrittenAlignedChunk | src/asymmetrickey_decr.c:153-160 | as written, a number whose bit length is a multiple of 8 gets an extra 0x00 byte and reads back as 256 times itself |
| BitPacker.AsWrittenExample | src/asymmetrickey_decr.c:153-160 | the number 128 (bits "10000000") is written as 0x80 0x00 instead of 0x80 |
| BitPacker.PackWithAsWritten | src/asymmetrickey_decr.c:142-210 | under the decoder's own padding a number is written as its minimal big-endian bytes, followed by one 0x00 exactly when its bit length is a multiple of 8 |
| Pipeline.DecryptBlocks | src/asymmetrickey_decr.c:113-215 | the block loop returns `Decryption(AsWritten, key, buffer)`: nothing for an empty buffer, a fault at the first block for a zero modulus, otherwise the bytes of every scanned block in order, packed with the decoder's own padding |
| Pipeline.ScanBlock | src/asymmetrickey_decr.c:115-120 | the `strncat` loop collects the bytes from the scan position up to the next NUL or the buffer end, and stops on that NUL |
| Pipeline.DecryptOne | src/asymmetrickey_decr.c:127-210 | one block is read in decimal, raised with `ModPow`, rendered in binary and packed with `remainder = 8 - binary_length % 8`, giving `DecryptBlock(AsWritten, key, block)` |
| Pipeline.ScanAdvance | src/asymmetrickey_decr.c:113-210 | one round of the block loop extends the scanned blocks by the next block, and the output by that block's bytes |
| Pipeline.ScanDone | src/asymmetrickey_decr.c:113 | once the scan is past the end of a non-empty buffer, the output is the decryption of the whole buffer |
| Pipeline.NextBlock | src/asymmetrickey_decr.c:113-120 | the block just scanned is the next block `Tokens` finds after the ones already done |
| Pipeline.PlaintextStep | src/asymmetrickey_decr.c:210 | writing one more block's bytes extends the output by exactly that block |
| Pipeline.DecryptFiles | src/asymmetrickey_decr.c:51-210 | a whole run returns `Decrypt(AsWritten, keyText, buffer)`: a refused key line ends it, otherwise the blocks are decrypted and packed with the decoder's own padding |
| Pipeline.DecryptBlockIsMinimal | src/asymmetrickey_decr.c:127-210 | with the corrected padding, each block is written as the minimal big-endian bytes of `c^e mod n`, a number below `n` |
| Pipeline.DecryptBlockAsWritten | src/asymmetrickey_decr.c:127-210 | as the decoder writes it, a block is its corrected bytes followed by one 0x00 exactly when `c^e mod n` has a bit length that is a multiple of 8 |
| Pipeline.PlaintextAsWritten | src/asymmetrickey_decr.c:113-210 | the decoder's output is one byte longer than the corrected output per aligned block, and the same bytes when no block is aligned |
| Pipeline.AsWrittenRun | src/asymmetrickey_decr.c:113-210 | a whole run on the block "128" under `e = 1`, `n = 1000` writes 0x80 0x00 with the decoder's padding and 0x80 with the corrected one |
| Pipeline.PlaintextAppend | src/asymmetrickey_decr.c:210 | the output of two runs of blocks is the two outputs concatenated, under either padding rule |
| Pipeline.EmptyFile | src/asymmetrickey_decr.c:113 | an empty ciphertext file gives an empty output, whatever the key and padding rule |
| Pipeline.SingleNulFile | src/asymmetrickey_decr.c:113-130 | a file holding a single NUL is one empty block, and the output is the single byte 0x00 when `e > 0`, under either padding rule |
| Pipeline.EmptyBlock | src/asymmetrickey_decr.c:127-136 | an empty block reads as 0 and is written as the byte 0x00 when `e > 0`, under either padding rule |
| Pipeline.ZeroModulus | src/asymmetrickey_decr.c:136 | with a zero modulus the run faults exactly when the buffer is non-empty |
| Pipeline.ReceivedBlocks | src/asymmetrickey_decr.c:153-210 | with the corrected padding the recovered blocks are exactly the plaintext blocks concatenated; with the decoder's padding they are too when no block's number has a bit length that is a multiple of 8 |
| Pipeline.BlockRoundTrip | src/asymmetrickey_decr.c:127-210 | a minimal-form plaintext block `m < n` with `m^(d*e) == m (mod n)`, encrypted with `d` and written in decimal, decrypts to `m`; it is written back as itself with the corrected padding, and with the decoder's padding as itself plus a 0x00 when `m`'s bit length is a multiple of 8 |
| Pipeline.PlaintextRoundTrip | src/asymmetrickey_decr.c:113-210 | the decrypted ciphertext blocks of such plaintext blocks are those blocks as `BlockRoundTrip` writes them, concatenated, under either padding rule |
| Pipeline.RoundTrip | src/asymmetrickey_decr.c:113-210 | textbook RSA: such plaintext blocks, encrypted with `d` and framed with NULs, are decrypted by the block loop to the same bytes with the corrected padding, and with a 0x00 after each aligned block with the decoder's own padding |
| Pipeline.DecryptRoundTrip | src/asymmetrickey_decr.c:236-323 | end to end: a key file whose first line is `"<e>, <n>"` and a ciphertext of such blocks encrypted with `d` decrypt to the bytes `RoundTrip` states, under either padding rule |

## Left out

- Command-line handling (`getopt`, `-h`, the missing-argument messages), the
  diagnostics printed with `printf` and `gmp_printf`, and the exit codes are
  not modelled.
- File I/O is not modelled. Opening, sizing and reading the key file and the
  ciphertext file are replaced by their contents as parameters. Writing the
  output file is replaced by the returned byte string. The failures to open
  or allocate are not modelled.
- The key file's read loop runs over the `ftell` size of the file, so it
  stops at the first newline or after the file's last byte; its end-of-file
  branch cannot be reached for a regular file. The model reads the file's
  contents up to the first newline, which is the same line. When a key file has no newline, the source leaves `keybuffer` without its
  terminating NUL (undefined behaviour in `strlen`). The model takes the
  whole text as the line.
- KeyFile.ReadKeyFile: when the modulus field would have negative length
  (`keylength - e_length - 2 < 0`), the source copies with a huge count. That
  is undefined behaviour, and the model refuses the line (`ModulusMissing`).
- `strncpy` leaves the exponent and modulus copies without a terminating NUL
  (src/asymmetrickey_decr.c:316-317). What GMP then reads past them is
  undefined behaviour. The model reads exactly the copied field bytes.
- GMP's parsing of digit strings is modelled for strings of digits only: the
  key fields and the ciphertext blocks are required to be decimal digits. An
  empty field or block reads as 0, because GMP rejects it and leaves the
  initialised 0. GMP's acceptance of white space and signs, and its refusal
  of other characters, are not modelled.
- The scan writes each block into a fixed buffer of `max_blocksize` bytes
  (half the modulus bit length). Overflowing that buffer is undefined
  behaviour and is not modelled; `block` is an unbounded sequence.
- When the ciphertext file does not end in NUL, the source's scan reads
  `buffer[fileLen]`, a byte it never wrote. The model ends the last block at
  the end of the buffer.
- BitPacker.Store: the source also writes the NUL after the last byte of
  `char_output`, one byte past its end. That is undefined behaviour; the
  model makes this write only when it is inside the buffer.
- The pending byte `ch` is a C `char`. It is modelled as a natural number,
  proved below 256 whenever it is stored, so the platform's signedness of
  `char` does not enter.
- Pipeline.RoundTrip: RSA correctness itself (`m^(d*e) == m (mod n)` for a
  matching key pair, by Euler's theorem) is taken as a precondition, not
  proved. Plaintext blocks with leading zero bytes are excluded because the
  decoder drops those bytes. The lemma gives the output under either padding
  rule, so with the decoder's own rule the plaintext comes back only up to
  the extra 0x00 bytes of the Findings row.
- `mpz_powm` faults on a zero modulus; this is modelled as the
  `DivisionByZero` failure, not as a crash.

## Findings

| source | as written | input that shows it | evidently intended | confidence | as-written member | corrected member |
|---|---|---|---|---|---|---|
| src/asymmetrickey_decr.c:153-160 | `remainder = 8 - binary_length % 8` is 8 when the bit length is a multiple of 8. `string_size` then gets one byte too many, and that last byte stays 0x00 in the output. | a block that decrypts to 128 (bits "10000000") is written as 0x80 0x00 | `remainder = (8 - binary_length % 8) % 8`: one 0x80 byte, and in general the minimal big-endian bytes of the number | high (proved about the model; not executed) | Pipeline.AsWrittenRun | BitPacker.PackIsMinimalBytes |
