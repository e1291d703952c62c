# phpbb-pwhash in Dafny

A model of `phpbb-pwhash`, a Rust crate that checks a password against a
phpBB3 "portable" salted hash. A hash is 34 bytes: the type tag `$H$`, one
symbol giving the number of rounds as a power of two, an 8-byte salt, and a
22-symbol field. The field is a phpass-style base64 encoding of an MD5
digest. To check a password, the crate:

1. refuses passwords longer than 4096 bytes;
2. parses the hash (`parse_hash`);
3. decodes the digest field (`decode64`);
4. computes `MD5(salt ++ password)`, then `rounds` times `MD5(previous ++ password)`;
5. compares the result with the decoded digest.

The files:

- `common.dfy` holds bytes, the `Option`/`Result` wrappers, sequence reversal and powers of two.
- `alphabet.dfy` holds the 64-symbol alphabet `./0-9A-Za-z`, `str::find` on it, and the value of a symbol.
- `decoder.dfy` holds `decode64` as written:
  - filler `.` symbols, then the field reversed;
  - the crypt base64 engine, which reads big-endian groups of four symbols;
  - the output reversed, then truncated to 16 bytes.

  Next to it is phpass's own reading of the field, with little-endian groups. The file also has phpass's encoder `_hash_encode64` as `Encode64`, which is the partner of `decode64`. Lemmas prove that the pipeline equals the phpass reading, and that decoding and encoding are inverse to each other.
- `parser.dfy` holds `parse_hash`.
- `verifier.dfy` holds `check_hash`:
  - `CheckHash` is a method with the source's loop;
  - it is proved equal to the function `Verdict`;
  - the lemmas about `Verdict` state what a result means.

Strings are modelled as their bytes (`seq<Byte>`). MD5 is the parameter `md5`, which can be any function from bytes to 16 bytes. Every property below therefore holds whatever MD5 computes.

`decode64` always pads: it adds `3 - len % 3` filler symbols, so 1 to 3 of them, even when the field length is already a multiple of 3. `Padded` follows the code.

## Model

| member | source | states |
|---|---|---|
| Alphabet.AlphabetSpelled | src/lib.rs:50 | the 64 alphabet bytes are exactly the bytes of the literal `./0123456789A…Za…z`, position by position |
| Alphabet.IndexOf | src/lib.rs:82 | `find` returns the first position holding the byte, and None exactly when the byte does not occur |
| Alphabet.Value | src/lib.rs:50 | a symbol's value is below 64, and the alphabet holds that symbol at that position |
| Alphabet.ValueIsIndex | src/lib.rs:50-82 | `find` on the alphabet returns the symbol's value for `.`, `/`, digits and ASCII letters, and None for every other byte |
| Decoder.Padded | src/lib.rs:106-112 | the engine input has the field's length plus 1 to 3 filler symbols and is a multiple of 3 long; it is the fillers followed by the field reversed |
| Decoder.CryptDecode | src/lib.rs:107-114 | the engine fails exactly when some byte is not a symbol, and otherwise gives 3 bytes per group of 4 symbols |
| Decoder.CryptDecodeAt | src/lib.rs:107-114 | output bytes 3g..3g+2 are the big-endian bytes of symbol group g |
| Decoder.Decode64 | src/lib.rs:104-123 | a 22-symbol field decodes exactly when every byte is a symbol, and then gives 16 bytes |
| Decoder.Decode64IsPhpassDecode | src/lib.rs:104-123 | the reverse, pad, decode, reverse, take-16 pipeline gives phpass's little-endian reading of the field |
| Decoder.DecodeEncode | src/lib.rs:100-123 | every 16-byte digest decodes back from its phpass encoding |
| Decoder.EncodeCanonical | src/lib.rs:100-123 | phpass's encoding of any digest puts a value below 4 in the last symbol |
| Decoder.EncodeDecode | src/lib.rs:100-123 | a canonical field decodes, and re-encoding the digest gives the field back |
| Decoder.PhpassDecodeLastByte | src/lib.rs:104-123 | digest byte 15 depends only on symbol 20 and on the low two bits of symbol 21 |
| Decoder.Decode64IgnoresHighBits | src/lib.rs:104-123 | two fields equal up to the top four bits of the last symbol decode alike: the same digest, or both an error |
| Parser.ParseHash | src/lib.rs:69-98 | see below |
| Parser.RoundsInRange | src/lib.rs:82-86 | accepted rounds lie between 128 and 2^30 |
| Parser.RoundsOfNine | src/lib.rs:59-66 | rounds symbol `9` is offset 11 and gives 2048 rounds, with salt bytes 4..12 and field bytes 12.. |
| Parser.RoundsOfOne | src/lib.rs:82-84 | rounds symbol `1` is found at offset 3, which is below 7, so the hash is rejected with InvalidRounds |
| Verifier.CheckHash | src/lib.rs:126-166 | see below |
| Verifier.StretchIsRounds | src/lib.rs:145-157 | the final digest is the initial `MD5(salt ++ password)` followed by exactly `rounds` further rounds of `MD5(digest ++ password)` |
| Verifier.PasswordLengthFirst | src/lib.rs:126-130 | the result is PasswordTooLong exactly when the password has more than 4096 bytes, whatever the hash |
| Verifier.MalformedHash | src/lib.rs:134-138 | a bad length, a wrong tag or a rounds symbol outside `5`-`9`/`A`-`S` is reported through InvalidHash with that reason, in that priority |
| Verifier.BadDigestField | src/lib.rs:140-144 | for a parsable hash, the result is InvalidHash(InvalidBase64) exactly when the digest field holds a non-symbol |
| Verifier.ValidIff | src/lib.rs:160-165 | see below |
| Verifier.ValidAsPhpbb | src/lib.rs:160-165 | for a canonical field, Valid is the same as phpBB's test: re-encode the stretched digest and compare the whole hash string |
| Verifier.VerdictIgnoresHighBits | src/lib.rs:140-165 | hashes equal up to the top four bits of the last symbol get the same result |
| Verifier.RejectedTooLong | src/lib.rs:202-206 | the 36-byte test hash gives InvalidHash(BadLength), for any MD5 |
| Verifier.RejectedHashType | src/lib.rs:207-211 | the `$X$` test hash gives InvalidHash(UnsupportedHashType), for any MD5 |
| Verifier.RejectedRounds | src/lib.rs:212-216 | the test hash with rounds symbol `1` gives InvalidHash(InvalidRounds), for any MD5 |
| Verifier.ExampleParses | src/lib.rs:11-15 | the documented hash parses to 2048 rounds with salt `/O41.qQj`, and its field is canonical |
| Verifier.DocumentedExample | src/lib.rs:11-19 | the documented hash is Valid for a password exactly when phpass's encoding of the stretched digest is `QNlleivjbckbSNpfS4xgh0` |

Details of the longer rows:

- `Parser.ParseHash`: the checks run in order. The result is BadLength exactly when the length is not 34. It is UnsupportedHashType exactly when the length is 34 and the first three bytes are not `$H$`. It is InvalidRounds exactly when the first two checks pass and byte 3 is not one of `5`-`9` or `A`-`S`. It is never InvalidBase64. On success:
  - the tag is `$H$`;
  - the salt is bytes 4..12 (8 bytes);
  - the field is bytes 12.. (22 bytes);
  - tag ++ [byte 3] ++ salt ++ field is the input;
  - the rounds are 2 to the power of byte 3's value, and that value is in 7..30.
- `Verifier.CheckHash`: the method returns `Verdict`. Its loop invariant is that the digest after `i` iterations is `Stretch(i)`.
- `Verifier.ValidIff`: the result is Valid exactly when four things hold:
  - the password has at most 4096 bytes;
  - the hash parses;
  - the field is all symbols;
  - the stretched digest equals phpass's reading of the field.

  If the first three hold, the result is Valid or Invalid.

## Left out

- MD5 is not modelled. It is the parameter `md5`, so no digest value, and hence no `Valid` test vector, can be checked. The lemmas hold for every function.
- The payload of `base64::DecodeError` (offset and byte) is not kept. The model has a single error value, `InvalidByte`.
- Decoder.Decode64: modelled only for the 22-symbol field that `check_hash` passes, which is its only caller. For other lengths, the engine's handling of a trailing partial group is not modelled.
- Decoder.CryptDecode: treats `=` like any other non-symbol, i.e. as an error. The base64 crate gives `=` a special meaning as trailing padding, so a field starting with `=` may not be rejected by the crate the way the model rejects it.
- Strings are modelled as UTF-8 bytes. A non-ASCII hash can make the source's `&str` slicing panic on a character boundary; that is not modelled.
- Borrowing is not modelled: `PhpbbHash` holds owned sequences instead of `&str` slices.
- Buffer capacities are not modelled.
- Running time (up to 2^30 MD5 rounds) and constant-time comparison are out of scope.
