# Access authentication, verified

A Dafny model of the cryptographic and protocol core of the QTEC access-authentication system, with proofs.
`dafny verify dfyconfig.toml` checks all of it.

The system authenticates a device to a server over a challenge/response handshake in the shape of SCRAM: the client
sends its name and a nonce; the server answers with the device's salt, iteration count and a nonce of its own, and
remembers the exchange; the client proves that it knows the key; the server checks the proof and proves itself in turn;
both derive one session. Messages travel in frames with a CRC-32, in the clear or under AES-256-CBC. On the client side
there is also the C code behind it: a table-driven AES, its padding, a CRC-32, and the thread that reads reports from
the USB token.

## How the model is laid out

| files | what they hold |
|---|---|
| `Bytes`, `GF256` | bytes, words and integers; the field GF(2^8), the powers of 3 and discrete logarithms |
| `Fips197`, `BlockCipher` | the cipher, inverse cipher and equivalent inverse cipher of FIPS 197, and that each undoes the other |
| `AesExamples` | the S-box table, key expansions and cipher example that FIPS 197 publishes, computed from the definitions |
| `AesTables`, `AesKeys`, `AesBlock` | the program's tables, key schedules and T-table rounds, proved to be that cipher |
| `BlockModes`, `AesModes`, `Crypto` | CBC, CFB128 and CTR as functions; the loops over arrays; PKCS#7 padding and the two entry points |
| `Crc32` | the bit-serial CRC, the table-driven loops in C and Java, and what burst errors do |
| `JavaBytes`, `PassCryp`, `Algorithms` | what the Java sides share: encoders, hexadecimal keys, sub-arrays, the stored-column keystream |
| `Messages`, `ClientPackets`, `ServerPackets`, `Frames` | messages and frames, the two codecs, and the codecs against each other |
| `ClientProcessor`, `ServerProcessor`, `Handshake`, `BodyCipher` | the two processors, the handshake, and AES as the body cipher |
| `ServerRuns`, `ClientRuns`, `Wire` | runs of either side, and the handshake as bytes |
| `HidQueue`, `HidProtocol` | the linked list of reports, and the threads around it in every interleaving |

Code that works in place is modelled in place: arrays, buffers written byte by byte, objects with fields, a map field
that methods reassign, a list spliced through its nodes. Each such method is proved to compute a function of its inputs
and the old state; the theorems are about those functions. `Thrown` is an exception, `None` is null. SHA-256, HMAC and
PBKDF2 are any functions that return 32 bytes. The body cipher is any pair of functions where decryption undoes
encryption under the key at hand; `BodyCipher.AesServes` shows that the AES of this repository is one. Collision
freedom is never assumed in general, only for the two pairs of values that `Handshake.NoCollision` names.

## Findings

- The data-length byte is signed, so a frame is read only if its data fits in 127 bytes: requests up to 90 bytes of
  device id in the clear and 62 under AES, challenges up to 54 and 26. Ids of 5 to 25 bytes just fit
  (`Frames.ServerReadsClient`, `Frames.ClientReadsServer`).
- In the clear the client leaves the CRC behind the server nonce, and it reads the body length in the other byte order;
  neither reaches the session, which uses the first 32 bytes of the nonce only.
- `bigEndianAddShortToBytes` and `littleEndianToBytes` drop the high byte of negative values; for counts from 0 on they
  agree with the general encoders, and `JavaBytes.ShortsAgree` says exactly when.
- `toBigEndianBytes` and `toLittleEndianBytes` shift a long, so beyond eight bytes they repeat its low digits
  (`JavaBytes.ToBigEndianBytes`, with `JavaBytes.NineBytesOfOne`); the program asks for two or four.
- `parseBigEndianBytes` shifts ints, so beyond four bytes it is right only if the leading bytes are zero
  (`JavaBytes.ParseIff`); the program passes two or four.
- The server reads every algorithm byte other than 1 as plain text (`Frames.ServerReadsOtherModes`); the client writes
  and reads only 0 that way (`Frames.AcceptedIsWrapped`, `Frames.ClientRefusesOtherModes`).
- A proof longer than 32 bytes makes the server's exclusive-or throw before the stored challenge is removed;
  `ServerRuns.ProofsUseUpChallenges` gives the exact condition for every proof frame, and
  `ServerRuns.ChallengeOutlivesLongProof` runs in which it happens.
- The client hands out a session only after a server proof for the device was equal to the session key
  (`ClientRuns.SessionOnlyIfVerified`). It is always the session of the last challenge it answered; one that comes after
  the server's proof replaces the session without another check (`ClientRuns.LateChallengeReplaces`).
- When the server cannot encrypt its answer, the refusal carries the next message type, and the client ignores it
  (`Frames.UnencryptedIgnored`).
- The iteration count of a row travels in 16 bits. A device whose count is a multiple of 65536 cannot complete, because
  PBKDF2 refuses a count of 0; above 65535 the client derives its key with the low 16 bits and is accepted exactly if
  the key that the server recovers has the stored hash (`Handshake.Completeness`).
- The report queue keeps 32 reports; the comment at line 769 of `hid.c` speaks of 30.
- The result of the first `libusb_submit_transfer` is not looked at; `hid_close` can run to its end exactly if it
  succeeded, and otherwise stays in `pthread_join` (`HidProtocol.ClosingNeedsFirstSubmit`, `HidProtocol.JoinsForEver`).
- The callback re-arms the transfer even after the shutdown. If the transfer ends otherwise while both cancels are
  pending, for instance by its timeout, nobody cancels it again: closing can then end only if the device goes away or
  libusb refuses the transfer (`HidProtocol.ClosesUnaidedIff`, `HidProtocol.RearmsForEver`).
- The queue signals only when it was empty, so wake-ups are never lost exactly when at most one thread reads
  (`HidProtocol.WakeupsIff`).

## Model

| member | source | states |
|---|---|---|
| `GF256.NoSmallerPeriod` | Authentication/AuthenticationClient/local/bin/src/aes.c:371-376 | 3 has order 255 in GF(2^8): no smaller positive power of it is 1 |
| `GF256.Pow3Surjective` | Authentication/AuthenticationClient/local/bin/src/aes.c:371-376 | the powers of 3 from 1 to 255 are all the nonzero bytes |
| `GF256.LogUnique` | Authentication/AuthenticationClient/local/bin/src/aes.c:371-376 | the exponent between 1 and 255 is unique, so a table of logarithms is well defined |
| `GF256.MulByLogs` | Authentication/AuthenticationClient/local/bin/src/aes.c:358 | a product of nonzero bytes is the power of 3 at the sum of their logarithms modulo 255 |
| `GF256.InverseUnique` | Authentication/AuthenticationClient/local/bin/src/aes.c:395 | the inverse that the S-box is built from is the only one, and an inverse of its inverse |
| `Fips197.AffineIsRotations` | Authentication/AuthenticationClient/local/bin/src/aes.c:397-401 | adding a byte to its four left rotations and 0x63 is the affine map of section 5.1.1 of FIPS 197, bit for bit |
| `Fips197.SubByteInverse` | Authentication/AuthenticationClient/local/bin/src/aes.c:403-404 | InvSubBytes and SubBytes undo each other on every byte |
| `Fips197.MixColumnOrderFour` | Authentication/AuthenticationClient/local/bin/src/aes.c:408-435 | MixColumns applied four times is the identity, and three times is InvMixColumns |
| `Fips197.InvMixColumnAdd` | Authentication/AuthenticationClient/local/bin/src/aes.c:574-595 | InvMixColumns distributes over adding round keys, which lets decryption transform its schedule |
| `BlockCipher.EqInvCipherCorrect` | Authentication/AuthenticationClient/local/bin/src/aes.c:574-595 | the equivalent inverse cipher of section 5.3.5 of FIPS 197 equals the inverse cipher, for every schedule, round count and block |
| `BlockCipher.DecryptUndoesEncrypt` | Authentication/AuthenticationClient/local/bin/src/aes.c:651-753 | for every 128-, 192- or 256-bit key and every block, decryption undoes encryption and conversely |
| `AesExamples.SboxRow0` | Authentication/AuthenticationClient/local/bin/src/aes.c:390-405 | the first row of the S-box table, Figure 7 of FIPS 197, computed from the definition; SboxRow1 to SboxRowF are the other rows |
| `AesExamples.RoundKey10` | Authentication/AuthenticationClient/local/bin/src/aes.c:477-491 | the last round key of Appendix A.1 of FIPS 197, through all ten round constants; RoundKey1 to RoundKey9 are the others |
| `AesExamples.Expanded192` | Authentication/AuthenticationClient/local/bin/src/aes.c:493-509 | the expanded words 6 to 12 of Appendix A.2 |
| `AesExamples.Expanded256` | Authentication/AuthenticationClient/local/bin/src/aes.c:511-535 | the expanded words 8 to 16 of Appendix A.3, through the middle SubWord and two round constants |
| `AesExamples.CipherExample` | Authentication/AuthenticationClient/local/bin/src/aes.c:651-753 | the ciphertext of Appendix B, through every round |
| `AesTables.MulByTables` | Authentication/AuthenticationClient/local/bin/src/aes.c:358 | the log/antilog macro is multiplication in the field, zero included |
| `AesTables.Inverted` | Authentication/AuthenticationClient/local/bin/src/aes.c:395 | the table lookup behind an S-box entry is the byte whose affine image is SubBytes of the index |
| `AesTables.RotateAndAdd` | Authentication/AuthenticationClient/local/bin/src/aes.c:397-401 | the four shifted copies of the inverse are the affine transformation |
| `AesTables.Tables.GenLogs` | Authentication/AuthenticationClient/local/bin/src/aes.c:371-376 | fills the power and logarithm tables for every exponent and every byte |
| `AesTables.Tables.GenRcon` | Authentication/AuthenticationClient/local/bin/src/aes.c:381-385 | fills the ten round constants of the key schedule |
| `AesTables.Tables.GenSboxes` | Authentication/AuthenticationClient/local/bin/src/aes.c:390-405 | fills both S-boxes: SubBytes and InvSubBytes of every byte |
| `AesTables.Tables.GenRoundTables` | Authentication/AuthenticationClient/local/bin/src/aes.c:410-435 | fills the eight round tables with the MixColumns and InvMixColumns contributions of every byte, rotated |
| `AesTables.ForwardSum` | Authentication/AuthenticationClient/local/bin/src/aes.c:602-623 | four lookups in FT0 to FT3 add up to MixColumns of SubBytes of a column |
| `AesTables.ReverseSum` | Authentication/AuthenticationClient/local/bin/src/aes.c:625-646 | four lookups in RT0 to RT3 add up to InvMixColumns of a column |
| `AesKeys.Expand128` | Authentication/AuthenticationClient/local/bin/src/aes.c:477-491 | the Nk = 4 loop writes 44 words of the recurrence of section 5.2 of FIPS 197, within the buffer |
| `AesKeys.Expand192` | Authentication/AuthenticationClient/local/bin/src/aes.c:493-509 | the Nk = 6 loop writes 54 words of the same recurrence, at least the 52 that are read, within the buffer |
| `AesKeys.Expand256` | Authentication/AuthenticationClient/local/bin/src/aes.c:511-535 | the Nk = 8 loop with its extra SubWord writes 64 words of the same recurrence, at least the 60 that are read |
| `AesKeys.SizeOfKey` | Authentication/AuthenticationClient/local/bin/src/aes.c:456-463 | the accepted sizes are those of FIPS 197, with 10, 12 and 14 rounds |
| `AesKeys.SetKeyEnc` | Authentication/AuthenticationClient/local/bin/src/aes.c:443-543 | for a valid key size the context holds the round count and the key expansion; otherwise the error code and no change |
| `AesKeys.InvMixLookupCorrect` | Authentication/AuthenticationClient/local/bin/src/aes.c:585-588 | RT at the S-box of the bytes of a word is InvMixColumns of that word |
| `AesKeys.ReverseSchedule` | Authentication/AuthenticationClient/local/bin/src/aes.c:574-595 | the backward walk stores round key nr - i under InvMixColumns for 0 < i < nr, and copies both ends |
| `AesKeys.DecScheduleCorrect` | Authentication/AuthenticationClient/local/bin/src/aes.c:574-595 | that schedule is what the equivalent inverse cipher asks for |
| `AesKeys.SetKeyDec` | Authentication/AuthenticationClient/local/bin/src/aes.c:548-600 | for a valid key size the context holds the decryption schedule of the key; otherwise the error code and no change |
| `AesBlock.ForwardRound` | Authentication/AuthenticationClient/local/bin/src/aes.c:602-623 | one unrolled round is AddRoundKey of MixColumns of ShiftRows of SubBytes |
| `AesBlock.ReverseRound` | Authentication/AuthenticationClient/local/bin/src/aes.c:625-646 | one unrolled reverse round is the transformed round of the equivalent inverse cipher |
| `AesBlock.EncryptWords` | Authentication/AuthenticationClient/local/bin/src/aes.c:671-745 | the doubled rounds and the last round are the cipher of section 5.1 of FIPS 197 for exactly nr rounds |
| `AesBlock.DecryptWords` | Authentication/AuthenticationClient/local/bin/src/aes.c:671-711 | the doubled reverse rounds and the last one are the equivalent inverse cipher for exactly nr rounds |
| `AesBlock.CryptEcb` | Authentication/AuthenticationClient/local/bin/src/aes.c:651-753 | writes the cipher or the equivalent inverse cipher of the input block, in place or not, and nothing else |
| `BlockModes.CbcIsChained` | Authentication/AuthenticationClient/local/bin/src/aes.c:783-814 | every ciphertext block is the cipher of its plaintext block added to the ciphertext block before it, the first to the iv |
| `BlockModes.CbcDecryptUndoesEncrypt` | Authentication/AuthenticationClient/local/bin/src/aes.c:783-814 | CBC decryption undoes CBC encryption on every whole number of blocks and every iv |
| `BlockModes.CbcEncryptUndoesDecrypt` | Authentication/AuthenticationClient/local/bin/src/aes.c:783-814 | and conversely |
| `AesModes.CryptCbc` | Authentication/AuthenticationClient/local/bin/src/aes.c:758-817 | the loops compute CBC in place or not, leave the last ciphertext block in iv, and refuse a partial block unchanged |
| `BlockModes.CfbDecryptUndoesEncrypt` | Authentication/AuthenticationClient/local/bin/src/aes.c:823-864 | CFB128 decryption undoes encryption and conversely, for every length and starting offset |
| `BlockModes.CfbAnyCuts` | Authentication/AuthenticationClient/local/bin/src/aes.c:823-864 | even when the two sides cut the stream into calls at different points |
| `BlockModes.CfbIsSegments` | Authentication/AuthenticationClient/local/bin/src/aes.c:823-864 | from offset 0 it is the segment-wise CFB of section 6.3 of NIST SP 800-38A |
| `AesModes.CryptCfb128` | Authentication/AuthenticationClient/local/bin/src/aes.c:823-864 | the byte loop computes CFB128 in place or not and leaves iv and iv_off for the next call |
| `BlockModes.IncrementAddsOne` | Authentication/AuthenticationClient/local/bin/src/aes.c:887-891 | the carry loop is addition of 1 modulo 256^n on the big-endian counter |
| `AesModes.BumpCounter` | Authentication/AuthenticationClient/local/bin/src/aes.c:887-891 | the loop with its early exit is that increment |
| `BlockModes.CtrIsCounterMode` | Authentication/AuthenticationClient/local/bin/src/aes.c:871-903 | byte j of the output is input byte j added to the cipher of counter + j / 16 modulo 2^128 |
| `BlockModes.CtrTwice` | Authentication/AuthenticationClient/local/bin/src/aes.c:871-903 | applying CTR twice from equal starting state restores the input |
| `BlockModes.CtrCallsAreOne` | Authentication/AuthenticationClient/local/bin/src/aes.c:871-903 | any splitting of a stream into calls that carry offset, counter and stream block gives the same bytes |
| `AesModes.CryptCtr` | Authentication/AuthenticationClient/local/bin/src/aes.c:871-903 | the byte loop computes CTR in place or not and leaves offset, counter and stream block for the next call |
| `Crypto.BlockFunctionsCorrect` | Authentication/AuthenticationClient/local/bin/src/aes.c:651-753 | under the two schedules, the block function is FIPS 197 encryption and decryption of the key |
| `Crypto.BlockFunctionsUndo` | Authentication/AuthenticationClient/local/bin/src/aes.c:548-753 | under the two schedules of any key, each mode of the block function undoes the other |
| `Crypto.PaddingData` | Authentication/AuthenticationClient/local/bin/src/crypto.c:5-14 | appends the PKCS#7 padding of section 6.3 of RFC 5652 in place |
| `Crypto.PadBytes` | Authentication/AuthenticationClient/local/bin/src/crypto.c:5-14 | one to sixteen bytes behind the message, each holding their number |
| `Crypto.CiphertextBlocks` | Authentication/AuthenticationClient/local/bin/src/crypto.c:24-44 | the first ciphertext block is FIPS 197 encryption of the first padded block itself, each other one of its padded block added to the ciphertext block before it |
| `Crypto.AesRoundTrip` | Authentication/AuthenticationClient/local/bin/src/crypto.c:24-65 | for every key and message, padding and CBC and back give the exact bytes and length; the ciphertext is the least multiple of 16 above the length |
| `Crypto.AesEncrypt` | Authentication/AuthenticationClient/local/bin/src/crypto.c:24-44 | writes that ciphertext and its length, or refuses and leaves the length |
| `Crypto.AesDecrypt` | Authentication/AuthenticationClient/local/bin/src/crypto.c:46-65 | writes the decrypted blocks and the length less the last byte, which is not checked; or refuses |
| `Crc32.TableStep` | Authentication/AuthenticationClient/local/bin/crc32/crc32.c:38-41 | one table step is eight steps of the bit-serial CRC |
| `Crc32.FillTable` | Authentication/AuthenticationClient/local/bin/crc32/crc32.c:5-29 | fills the table with eight zero steps from every byte; CRC32Util has the same loops |
| `Crc32.MakeCrc32` | Authentication/AuthenticationClient/local/bin/crc32/crc32.c:31-43 | the unsigned loop computes the bit-serial CRC on every byte string |
| `Crc32.CheckValue` | Authentication/AuthenticationClient/local/bin/crc32/crc32.c:31-43 | the check value of CRC-32/BZIP2: polynomial, initial register, complement and bit order |
| `Crc32.SignBitsDropOut` | Authentication/AuthenticationClient/src/main/java/cn/qtec/qkcl/access/auth/client/utils/CRC32Util.java:40 | the sign bits of the arithmetic shift and of a Java byte are masked away before the lookup |
| `Crc32.GetCRC32` | Authentication/AuthenticationClient/src/main/java/cn/qtec/qkcl/access/auth/client/utils/CRC32Util.java:36-43 | the signed Java loop computes the same CRC on every byte string |
| `Crc32.BitStepInjective` | Authentication/AuthenticationClient/local/bin/crc32/crc32.c:38-41 | the state step is a bijection of the register |
| `Crc32.BurstDetected` | Authentication/AuthenticationClient/src/main/java/cn/qtec/qkcl/access/auth/client/utils/CRC32Util.java:36-43 | two equal-length bit strings that differ only inside 32 consecutive bits leave different registers |
| `Crc32.FourBytesDetected` | Authentication/AuthenticationClient/src/main/java/cn/qtec/qkcl/access/auth/client/utils/CRC32Util.java:36-43 | two equal-length messages that differ only inside four consecutive bytes have different CRCs |
| `Crc32.SealedIffResidue` | Authentication/AuthenticationClient/src/main/java/cn/qtec/qkcl/access/auth/client/utils/CRC32Util.java:36-43 | a byte string ends with the CRC of what precedes it exactly when it leaves one fixed register |
| `Crc32.BurstUnseals` | Authentication/AuthenticationClient/src/main/java/cn/qtec/qkcl/access/auth/client/utils/CRC32Util.java:36-43 | damage within 32 consecutive bits, the CRC field included, is always seen |
| `JavaBytes.ToBigEndianBytes` | Authentication/AuthenticationServer/src/main/java/cn/qtec/qkcl/access/auth/server/utils/HexUtil.java:57-63 | each byte as Java shifts it, the distance modulo 64; these are the low bytes of the value, most significant first, up to eight and beyond exactly if the repeated digits are the sign |
| `JavaBytes.NineBytesOfOne` | Authentication/AuthenticationServer/src/main/java/cn/qtec/qkcl/access/auth/server/utils/HexUtil.java:57-63 | an input where they are not: nine bytes of 1 begin with 1 |
| `JavaBytes.ToBeValue` | Authentication/AuthenticationServer/src/main/java/cn/qtec/qkcl/access/auth/server/utils/HexUtil.java:57-78 | read back, the big-endian bytes are the value modulo 256^n |
| `JavaBytes.ToBeOfValue` | Authentication/AuthenticationServer/src/main/java/cn/qtec/qkcl/access/auth/server/utils/HexUtil.java:57-78 | encoding what was parsed gives the bytes back |
| `JavaBytes.ToLittleEndianBytes` | Authentication/AuthenticationServer/src/main/java/cn/qtec/qkcl/access/auth/server/utils/HexUtil.java:80-86 | the same loop from the other end, with the same exact condition |
| `JavaBytes.ParseBigEndianBytes` | Authentication/AuthenticationServer/src/main/java/cn/qtec/qkcl/access/auth/server/utils/HexUtil.java:70-78 | the sum of shifted unsigned bytes, which is the big-endian value up to four bytes |
| `JavaBytes.ParseIff` | Authentication/AuthenticationServer/src/main/java/cn/qtec/qkcl/access/auth/server/utils/HexUtil.java:70-78 | beyond four bytes, it is the big-endian value exactly when only zeros lead |
| `JavaBytes.ShortsAgree` | Authentication/AuthenticationServer/src/main/java/cn/qtec/qkcl/access/auth/server/utils/HexUtil.java:33-55 | the two-byte encoders agree with the general ones exactly when the value is not negative or has no high byte |
| `JavaBytes.BytesToHexString` | Authentication/AuthenticationServer/src/main/java/cn/qtec/qkcl/access/auth/server/utils/HexUtil.java:10-22 | the lower-case hexadecimal string used for map keys |
| `JavaBytes.HexIsLower` | Authentication/AuthenticationServer/src/main/java/cn/qtec/qkcl/access/auth/server/utils/HexUtil.java:10-22 | every digit of it is 0 to 9 or a to f |
| `JavaBytes.HexStringToBytes` | Authentication/AuthenticationServer/src/main/java/cn/qtec/qkcl/access/auth/server/utils/HexUtil.java:24-31 | the loop reads two digits for each byte and ignores an odd last one |
| `JavaBytes.DigitsInEitherCase` | Authentication/AuthenticationServer/src/main/java/cn/qtec/qkcl/access/auth/server/utils/HexUtil.java:28 | digits are read in either case, and anything else as -1 |
| `JavaBytes.HexInjective` | Authentication/AuthenticationServer/src/main/java/cn/qtec/qkcl/access/auth/server/utils/HexUtil.java:10-22 | different byte strings have different keys |
| `JavaBytes.UnhexHex` | Authentication/AuthenticationServer/src/main/java/cn/qtec/qkcl/access/auth/server/utils/HexUtil.java:24-31 | hexStringToBytes undoes bytesToHexString |
| `JavaBytes.SubarrayAt` | Authentication/AuthenticationServer/src/main/java/cn/qtec/qkcl/access/auth/server/utils/PacketUtil.java:259-274 | a slice holds the bytes at the indices asked for that the array has, for every start and end, negative ones included |
| `PassCryp.PassCrypInPlace` | Authentication/AuthenticationServer/src/main/java/cn/qtec/qkcl/access/auth/server/security/CrypUtils.java:12-39 | adds the keystream of the four keys in place, at every length |
| `PassCryp.KeyAt` | Authentication/AuthenticationServer/src/main/java/cn/qtec/qkcl/access/auth/server/security/CrypUtils.java:18-31 | which key a position uses, by its residues modulo 10 and 6, with the index modulo 37 |
| `PassCryp.Key0Bytes` | Authentication/AuthenticationServer/src/main/java/cn/qtec/qkcl/access/auth/server/security/CrypUtils.java:14 | the 37 characters in use, by their codes; Key1Bytes to Key3Bytes are those of the other keys |
| `PassCryp.KeystreamRepeats` | Authentication/AuthenticationServer/src/main/java/cn/qtec/qkcl/access/auth/server/security/CrypUtils.java:18-35 | the keystream repeats after 1110 bytes |
| `PassCryp.CryptedTwice` | Authentication/AuthenticationServer/src/main/java/cn/qtec/qkcl/access/auth/server/security/CrypUtils.java:12-39 | passCryp is its own inverse at every length |
| `Messages.CrcMatchesIff` | Authentication/AuthenticationServer/src/main/java/cn/qtec/qkcl/access/auth/server/utils/PacketUtil.java:205-212 | the comparison of the two numbers holds exactly when the frame ends with its CRC |
| `ServerPackets.UnwrapAuthMessage` | Authentication/AuthenticationServer/src/main/java/cn/qtec/qkcl/access/auth/server/utils/PacketUtil.java:172-291 | builds the result object step by step as specified, for every byte array, exceptions included |
| `ServerPackets.WrapAuthMessage` | Authentication/AuthenticationServer/src/main/java/cn/qtec/qkcl/access/auth/server/utils/PacketUtil.java:113-164 | builds the frame, or the refusal when the root key is missing or the cipher fails |
| `ServerPackets.WrapMessageStatus` | Authentication/AuthenticationServer/src/main/java/cn/qtec/qkcl/access/auth/server/utils/PacketUtil.java:297-306 | the four status bytes |
| `ServerPackets.SealingIsFrame` | Authentication/AuthenticationServer/src/main/java/cn/qtec/qkcl/access/auth/server/utils/PacketUtil.java:113-164 | for the request ids that are read off frames, the server's frame has the same layout as the client's |
| `ClientPackets.PacketUtil.WrapAuthMessage` | Authentication/AuthenticationClient/src/main/java/cn/qtec/qkcl/access/auth/client/utils/PacketUtil.java:38-131 | builds the frame through the buffers, and registers the root key of an encrypted request |
| `ClientPackets.PacketUtil.UnwrapBinaryToAuthMessage` | Authentication/AuthenticationClient/src/main/java/cn/qtec/qkcl/access/auth/client/utils/PacketUtil.java:163-234 | parses every byte array as specified: a message, null or an exception |
| `Frames.ServerReadsClient` | Authentication/AuthenticationServer/src/main/java/cn/qtec/qkcl/access/auth/server/utils/PacketUtil.java:172-291 | every request or proof of the client, in either mode, is read back exactly if the length fits, and refused otherwise |
| `Frames.ClientReadsServer` | Authentication/AuthenticationClient/src/main/java/cn/qtec/qkcl/access/auth/client/utils/PacketUtil.java:163-287 | every success frame of the server passes the checks if the length fits; the client parses the body that was sent, with the CRC behind it in the clear |
| `Frames.ChallengeReadBack` | Authentication/AuthenticationClient/src/main/java/cn/qtec/qkcl/access/auth/client/utils/PacketUtil.java:212-227 | parsing a challenge gives the name, salt and nonce that were put in, and the count, from 0 on, modulo 65536 |
| `Frames.ProofReadBack` | Authentication/AuthenticationClient/src/main/java/cn/qtec/qkcl/access/auth/client/utils/PacketUtil.java:228-230 | parsing a server proof gives the name and proof that were put in |
| `Frames.ClientHeader` | Authentication/AuthenticationClient/src/main/java/cn/qtec/qkcl/access/auth/client/utils/PacketUtil.java:167-184 | what the client reads off the header, its length field in the other byte order |
| `Frames.UnencryptedIgnored` | Authentication/AuthenticationServer/src/main/java/cn/qtec/qkcl/access/auth/server/utils/PacketUtil.java:124-137 | without its root key or its cipher the server sends four bytes under the next message type, which the client ignores |
| `Frames.ClientSendsNull` | Authentication/AuthenticationClient/src/main/java/cn/qtec/qkcl/access/auth/client/utils/PacketUtil.java:62-110 | wrapping gives null exactly under an unknown algorithm, without the root key, or when the cipher fails |
| `Frames.ServerThrowsIff` | Authentication/AuthenticationServer/src/main/java/cn/qtec/qkcl/access/auth/server/utils/PacketUtil.java:172-291 | reading throws exactly on the empty array, on at most six bytes that pass every check they are long enough for, and on an empty body |
| `Frames.ClientThrowsIff` | Authentication/AuthenticationClient/src/main/java/cn/qtec/qkcl/access/auth/client/utils/PacketUtil.java:163-287 | the same for the client, where a body in the clear keeps its CRC |
| `Frames.ServerNoticesBurst` | Authentication/AuthenticationServer/src/main/java/cn/qtec/qkcl/access/auth/server/utils/PacketUtil.java:205-212 | damage to an accepted frame within 32 consecutive bits is never accepted by the server |
| `Frames.ClientNoticesBurst` | Authentication/AuthenticationClient/src/main/java/cn/qtec/qkcl/access/auth/client/utils/PacketUtil.java:278-284 | nor by the client |
| `Frames.ClientAcceptsSealed` | Authentication/AuthenticationClient/src/main/java/cn/qtec/qkcl/access/auth/client/utils/PacketUtil.java:163-287 | what the client takes for a message is a whole success frame of version 1 with the right CRC, of a type and mode it knows |
| `Frames.AcceptedIsEncrypted` | Authentication/AuthenticationServer/src/main/java/cn/qtec/qkcl/access/auth/server/utils/PacketUtil.java:172-291 | an accepted encrypted frame is the client's frame around its ciphertext, which decrypts under the named key to the client's body for what was read |
| `Frames.AcceptedIsWrapped` | Authentication/AuthenticationServer/src/main/java/cn/qtec/qkcl/access/auth/server/utils/PacketUtil.java:220-290 | a frame read without decryption is byte for byte what the client builds for what was read, exactly if the algorithm byte is 0, the name whole and 32 bytes follow it |
| `Frames.ServerReadsOtherModes` | Authentication/AuthenticationServer/src/main/java/cn/qtec/qkcl/access/auth/server/utils/PacketUtil.java:220-290 | under every algorithm byte but 1 the server reads a request or proof as plain text |
| `Frames.ClientRefusesOtherModes` | Authentication/AuthenticationClient/src/main/java/cn/qtec/qkcl/access/auth/client/utils/PacketUtil.java:186-210 | the client makes nothing of the server's answer under an algorithm byte other than 0 and 1 |
| `Algorithms.ArrayCopy` | Authentication/AuthenticationServer/src/main/java/cn/qtec/qkcl/access/auth/server/process/AuthenticationProcessor.java:106-114 | System.arraycopy into a byte array at an offset, with its bounds |
| `ServerProcessor.AuthenticationProcessor.ProcessAuthencaition` | Authentication/AuthenticationServer/src/main/java/cn/qtec/qkcl/access/auth/server/process/AuthenticationProcessor.java:55-74 | answers one message and updates AUTH_ASSIST_MAP as specified; the message object is untouched when it throws |
| `ServerProcessor.AuthenticationProcessor.GenerateAuthResponseMessage` | Authentication/AuthenticationServer/src/main/java/cn/qtec/qkcl/access/auth/server/process/AuthenticationProcessor.java:76-117 | the challenge, or the refusal of an unknown device |
| `ServerProcessor.AuthenticationProcessor.AppendAuthInfo` | Authentication/AuthenticationServer/src/main/java/cn/qtec/qkcl/access/auth/server/process/AuthenticationProcessor.java:190-211 | five copies at a moving offset build the stored record; nothing is stored when one throws |
| `ServerProcessor.AuthenticationProcessor.FixedLayout` | Authentication/AuthenticationServer/src/main/java/cn/qtec/qkcl/access/auth/server/process/AuthenticationProcessor.java:101-114 | the copies of the challenge body give the wire layout, reserved bytes zero |
| `ServerProcessor.AuthenticationProcessor.GenerateServerProofMessage` | Authentication/AuthenticationServer/src/main/java/cn/qtec/qkcl/access/auth/server/process/AuthenticationProcessor.java:119-155 | the proof and session, or the refusal; the record goes in both cases and stays when it throws |
| `ServerProcessor.AuthenticationProcessor.CheckClientAuthentication` | Authentication/AuthenticationServer/src/main/java/cn/qtec/qkcl/access/auth/server/process/AuthenticationProcessor.java:157-188 | the check of a client proof against the stored record and password |
| `ClientProcessor.LocalAuthProcessor.GenerateStartAuthRequest` | Authentication/AuthenticationClient/src/main/java/cn/qtec/qkcl/access/auth/client/process/impl/LocalAuthProcessor.java:54-122 | refuses bad lengths; otherwise restarts the entry and wraps the request |
| `ClientProcessor.LocalAuthProcessor.Checked` | Authentication/AuthenticationClient/src/main/java/cn/qtec/qkcl/access/auth/client/process/impl/LocalAuthProcessor.java:67-102 | the nested argument checks accept exactly names of 5 to 25, keys of 6 to 128 and, under AES, root keys of 16 and 32 bytes |
| `ClientProcessor.LocalAuthProcessor.ProcessAuthencaition` | Authentication/AuthenticationClient/src/main/java/cn/qtec/qkcl/access/auth/client/process/impl/LocalAuthProcessor.java:124-150 | answers one message and updates the assist map as specified; other devices' objects are untouched |
| `ClientProcessor.LocalAuthProcessor.CalculateClientProof` | Authentication/AuthenticationClient/src/main/java/cn/qtec/qkcl/access/auth/client/process/impl/LocalAuthProcessor.java:165-192 | the proof, and the session stored in the entry; neither when a copy throws |
| `ClientProcessor.LocalAuthProcessor.AppendAuthInfo` | Authentication/AuthenticationClient/src/main/java/cn/qtec/qkcl/access/auth/client/process/impl/LocalAuthProcessor.java:194-212 | five copies build the client's record |
| `ClientProcessor.LocalAuthProcessor.CheckServerProof` | Authentication/AuthenticationClient/src/main/java/cn/qtec/qkcl/access/auth/client/process/impl/LocalAuthProcessor.java:226-247 | success, latch and session exactly when the proof equals the stored session key |
| `ClientProcessor.LocalAuthProcessor.GetSessionInfo` | Authentication/AuthenticationClient/src/main/java/cn/qtec/qkcl/access/auth/client/process/impl/LocalAuthProcessor.java:152-163 | the session of a verified entry, which is removed |
| `Handshake.InfoInjective` | Authentication/AuthenticationClient/src/main/java/cn/qtec/qkcl/access/auth/client/process/impl/LocalAuthProcessor.java:194-212 | the concatenated record determines name, nonces, salt and count |
| `Handshake.SameSession` | Authentication/AuthenticationServer/src/main/java/cn/qtec/qkcl/access/auth/server/process/AuthenticationProcessor.java:213-219 | from one record and one key, both sides derive the same session id and key |
| `Handshake.Agreement` | Authentication/AuthenticationServer/src/main/java/cn/qtec/qkcl/access/auth/server/process/AuthenticationProcessor.java:157-219 | if the server accepts a proof made with the enrolled key, both used the same name, nonces, salt and 16-bit count and hold the same session |
| `Handshake.Completeness` | Authentication/AuthenticationClient/src/main/java/cn/qtec/qkcl/access/auth/client/process/impl/LocalAuthProcessor.java:54-247 | for every enrolled device, salt, count from 0 on, nonces and mode, the delivered handshake ends exactly if the count modulo 65536 is not 0 and the server's test of the recovered key succeeds; if both counts give the stored hash, as below 65536, it does, with one session on both sides, success marked and the challenge consumed |
| `Wire.ExchangeOnWire` | Authentication/AuthenticationClient/src/main/java/cn/qtec/qkcl/access/auth/client/process/impl/LocalAuthProcessor.java:54-247 | for every enrolled device, either mode and every count that fits: the four frames byte for byte, the record, both proofs, the session id as the first halves of the nonces added, and each side's answer to each frame |
| `Handshake.RefusalIgnored` | Authentication/AuthenticationClient/src/main/java/cn/qtec/qkcl/access/auth/client/utils/PacketUtil.java:246-269 | a refusal of the server changes nothing at the client and yields nothing |
| `Handshake.UnknownDeviceRefused` | Authentication/AuthenticationServer/src/main/java/cn/qtec/qkcl/access/auth/server/process/AuthenticationProcessor.java:84-90 | the request of a device without a row, in either mode, stores nothing and is refused |
| `Handshake.UnknownRootKeyRefused` | Authentication/AuthenticationServer/src/main/java/cn/qtec/qkcl/access/auth/server/utils/PacketUtil.java:237-241 | so is an encrypted request that names a root key the server does not have |
| `BodyCipher.AesServes` | Authentication/AuthenticationClient/src/main/java/cn/qtec/qkcl/access/auth/client/security/impl/SecurityImpl.java:14-39 | AES-256 in CBC mode with PKCS#7 padding and a zero iv with the padding checked in full, meets what the handshake asks of the body cipher, for every AES key |
| `ServerRuns.OtherDeviceUntouched` | Authentication/AuthenticationServer/src/main/java/cn/qtec/qkcl/access/auth/server/process/AuthenticationProcessor.java:56-155 | a step for one device id leaves the entry of every other device id alone |
| `ServerRuns.StepLocal` | Authentication/AuthenticationServer/src/main/java/cn/qtec/qkcl/access/auth/server/process/AuthenticationProcessor.java:56-155 | what a step answers and leaves for its device depends on that device's entry alone |
| `ServerRuns.NonInterference` | Authentication/AuthenticationServer/src/main/java/cn/qtec/qkcl/access/auth/server/process/AuthenticationProcessor.java:56-155 | in every interleaving a device gets the answers and the entry that its own frames alone would give |
| `ServerRuns.CompletenessAmong` | Authentication/AuthenticationServer/src/main/java/cn/qtec/qkcl/access/auth/server/process/AuthenticationProcessor.java:56-155 | the handshake of an enrolled device completes under the same condition with any frames of other devices between its own; both sides hold the one session, and the others have the entries they would have without it |
| `ServerRuns.GrantsBounded` | Authentication/AuthenticationServer/src/main/java/cn/qtec/qkcl/access/auth/server/process/AuthenticationProcessor.java:119-155 | over every run, sessions are granted only by settling challenges, and the challenges settled for a device with its pending one never exceed those stored for it |
| `ServerRuns.ChallengeOrigin` | Authentication/AuthenticationServer/src/main/java/cn/qtec/qkcl/access/auth/server/process/AuthenticationProcessor.java:190-211 | in every reachable state the record of a device is that of its last request to be challenged: name and nonce of that frame, salt and count of its row, nonce drawn for it |
| `ServerRuns.ChallengeUsedUp` | Authentication/AuthenticationServer/src/main/java/cn/qtec/qkcl/access/auth/server/process/AuthenticationProcessor.java:119-188 | a proof is answered and removes its challenge exactly if the password is unknown, or the proof is at most 32 bytes, no empty key is used, and it fails the test or the name is as long as its length byte says; otherwise it throws and the challenge stays |
| `ServerRuns.ProofsUseUpChallenges` | Authentication/AuthenticationServer/src/main/java/cn/qtec/qkcl/access/auth/server/process/AuthenticationProcessor.java:119-188 | the same for every proof frame the server reads in a reachable state |
| `ServerRuns.LongProofKeepsChallenge` | Authentication/AuthenticationServer/src/main/java/cn/qtec/qkcl/access/auth/server/process/AuthenticationProcessor.java:171 | every frame with a longer proof that fits throws and leaves the challenge |
| `ServerRuns.ChallengeOutlivesLongProof` | Authentication/AuthenticationServer/src/main/java/cn/qtec/qkcl/access/auth/server/process/AuthenticationProcessor.java:171 | after any run and the request of an enrolled device, each such frame for its name throws and leaves the challenge of that request pending |
| `ServerRuns.ReplyFields` | Authentication/AuthenticationServer/src/main/java/cn/qtec/qkcl/access/auth/server/process/AuthenticationProcessor.java:56-155 | the type of every answer; a session and a session id only when one is granted, the id 16 bytes long and the session's in hexadecimal |
| `ServerRuns.RefusalOnWire` | Authentication/AuthenticationServer/src/main/java/cn/qtec/qkcl/access/auth/server/utils/PacketUtil.java:297-306 | every refusal is the type of the answer, the request id as it came, and 101 |
| `ServerRuns.ChallengedIff` | Authentication/AuthenticationServer/src/main/java/cn/qtec/qkcl/access/auth/server/process/AuthenticationProcessor.java:76-117 | a request of a device with a row is challenged exactly if its name is whole and nonce and salt have 32 bytes; otherwise it throws and nothing is stored |
| `ServerRuns.ProofWithoutChallenge` | Authentication/AuthenticationServer/src/main/java/cn/qtec/qkcl/access/auth/server/process/AuthenticationProcessor.java:157-162 | a proof without a stored challenge is refused and changes nothing |
| `ClientRuns.MarkedIff` | Authentication/AuthenticationClient/src/main/java/cn/qtec/qkcl/access/auth/client/process/impl/LocalAuthProcessor.java:226-247 | in every run since its request, an entry is marked and its latch open exactly if some server proof was equal to the session key |
| `ClientRuns.SessionOnlyIfVerified` | Authentication/AuthenticationClient/src/main/java/cn/qtec/qkcl/access/auth/client/process/impl/LocalAuthProcessor.java:152-163 | in every run since the request, a session is handed out exactly if some server proof was equal to the session key, and it is that session unless a further challenge was answered after it |
| `ClientRuns.LastChallengeStays` | Authentication/AuthenticationClient/src/main/java/cn/qtec/qkcl/access/auth/client/process/impl/LocalAuthProcessor.java:165-192 | the session in the entry is that of the last challenge |
| `ClientRuns.LateChallengeReplaces` | Authentication/AuthenticationClient/src/main/java/cn/qtec/qkcl/access/auth/client/process/impl/LocalAuthProcessor.java:165-192 | a run in which a challenge after the server's proof replaces the session that was verified |
| `ClientRuns.CollectedOnce` | Authentication/AuthenticationClient/src/main/java/cn/qtec/qkcl/access/auth/client/process/impl/LocalAuthProcessor.java:152-163 | a session is handed out once, and the entries of other devices stay |
| `ClientRuns.ServerProofAnswered` | Authentication/AuthenticationClient/src/main/java/cn/qtec/qkcl/access/auth/client/process/impl/LocalAuthProcessor.java:226-247 | a server proof gives the session if it is equal to the session key, a failure if not, and throws without an entry or session |
| `ServerRuns.AcceptedProofAgrees` | Authentication/AuthenticationServer/src/main/java/cn/qtec/qkcl/access/auth/server/process/AuthenticationProcessor.java:157-219 | agreement after any run of a server that started empty, with the exchange of the device's last challenged request: its name, client nonce and drawn nonce |
| `HidQueue.HidDevice.ReturnData` | Authentication/AuthenticationClient/local/bin/src/hid.c:1063-1075 | unlinks and frees the first node once, after copying at most the given length |
| `HidQueue.HidDevice.Attach` | Authentication/AuthenticationClient/local/bin/src/hid.c:743-776 | appends at the end of the list; the oldest is dropped, and its node freed, exactly when 32 were waiting; signals only an empty list |
| `HidQueue.HidDevice.Drain` | Authentication/AuthenticationClient/local/bin/src/hid.c:1265-1270 | terminates with the list empty and every node freed once |
| `HidProtocol.InvAlways` | Authentication/AuthenticationClient/local/bin/src/hid.c:738-873 | the invariant of flags, thread positions, queue and sleepers holds in every interleaving of every run |
| `HidProtocol.CancelledMeansIdle` | Authentication/AuthenticationClient/local/bin/src/hid.c:778-801 | outside the callback, `cancelled` holds exactly when no transfer is in flight, and implies `shutdown_thread` |
| `HidProtocol.FreedSafely` | Authentication/AuthenticationClient/local/bin/src/hid.c:1243-1257 | the buffer and the transfer are freed once, after the thread ended with nothing in flight, and not used afterwards |
| `HidProtocol.ClosingNeedsFirstSubmit` | Authentication/AuthenticationClient/local/bin/src/hid.c:823-873 | once the first submission has been made, closing can run to its end from every reachable state exactly if it succeeded |
| `HidProtocol.ClosesUnaidedIff` | Authentication/AuthenticationClient/local/bin/src/hid.c:778-801 | with the device in place and no submission refused, closing can run to its end exactly if, besides, the transfer has not been re-armed behind both cancels |
| `HidProtocol.RearmsForEver` | Authentication/AuthenticationClient/local/bin/src/hid.c:788-801 | a run in which it has: a timeout and a submission lead back to the same state, any number of times |
| `HidProtocol.ClosingMustEnd` | Authentication/AuthenticationClient/local/bin/src/hid.c:1243-1273 | after the call of hid_close its end is certain, with a bound on the steps of both threads and one of them always able to move, exactly when the callback has met a cancelled transfer, a lost device or a refused submission |
| `HidProtocol.HonouredNeverAbandoned` | Authentication/AuthenticationClient/local/bin/src/hid.c:848-853 | if a transfer with a cancel pending only ends as cancelled or with the device, no run re-arms it behind both cancels, and in the drain loop its next ending makes closing end |
| `HidProtocol.MainLoopLeft` | Authentication/AuthenticationClient/local/bin/src/hid.c:828-846 | the main loop is left exactly by a fatal error or by a shutdown that its test sees, and then for good |
| `HidProtocol.ReadTakesOldest` | Authentication/AuthenticationClient/local/bin/src/hid.c:1097-1127 | a reader takes the oldest report, even after a shutdown; without one it sleeps exactly if it may wait and there was no shutdown |
| `HidProtocol.OnlyBlockingReadsSleep` | Authentication/AuthenticationClient/local/bin/src/hid.c:1112-1160 | in every run, a reader that sleeps has asked for a blocking read |
| `HidProtocol.JoinsForEver` | Authentication/AuthenticationClient/local/bin/src/hid.c:1249-1253 | a run in which it failed: the closing thread is in the join and stays there in every continuation |
| `HidProtocol.DroppedOnlyWhenFull` | Authentication/AuthenticationClient/local/bin/src/hid.c:751-776 | arrivals are removals followed by the queue; a drop happens only at 32, and the newest 32 stay |
| `HidProtocol.WakeupsIff` | Authentication/AuthenticationClient/local/bin/src/hid.c:1112-1160 | no reader sleeps while a report waits, in every run, exactly when there is at most one reader |
| `HidProtocol.SleepsOn` | Authentication/AuthenticationClient/local/bin/src/hid.c:754-776 | a run in which the second of two readers sleeps on with a report queued |

## Left out

- Netty bootstraps and handlers, Spring, Hibernate, JNI and the message objects of the shared library: MessageObject,
  EMessageType, SessionInfo and the network stack are not part of this model beyond the fields that the processors set.
- `isExistSession` (AuthenticationProcessor.java, lines 221-237): it closes channels in an external cache and does not
  touch the state modelled here.
- Randomness and clocks: nonces are parameters; the wait in `getSessionInfo` and the time of `hid_read_timeout` are not
  modelled, a timeout can happen at any moment.
- SHA-256, HMAC and PBKDF2 themselves, beyond the empty HMAC key and the count of 0 that they refuse.
- `Character.digit` on digits outside ASCII; the strings that are read back are the program's own.
- Null keys of the Java byte arrays are covered where the program can meet them; logging and its formatting are not.
- The ROM-table and PadLock branches and the self test of aes.c; the tables are generated at the first key setup.
- The temporaries of `aes_gen_tables` are bytes here; the program masks them with 0xFF. The `rk` pointer is the start of
  the context buffer, and clearing the temporary context in `aes_setkey_dec` has no effect on the result.
- The `Encrypt` and `Decrypt` dispatchers of crypto.c, which only choose the cipher.
- Overlapping input and output in the modes, other than in place or with the output at or before the input.
- The rest of hid.c: enumeration, strings, feature and output reports. In `HidProtocol` a stretch of code under the
  mutex is one step, libusb may end a transfer in any way at any time, as cancelled only after a cancel, and readers
  start only while the device is open; whether a reader is still inside when the device object itself is freed is left
  to the caller, as the library documents it.
- `QShieldAuthProcessor`, `HidTrans.c`, `Qkey.c`, `QkeyFile.c`: what they compute happens inside the token.
- `CRC32Local.c`, an unfinished file with another polynomial.
- Frames.AcceptedIsEncrypted: leaves the ciphertext as it is in the frame, since two ciphertexts may decrypt alike.
- The callback runs only in the read thread's own event handling in `HidProtocol`. A synchronous transfer of another
  thread on the shared `usb_context` could run it there; such transfers are not part of this model.
- HidProtocol.ClosingMustEnd: bounds the steps of the threads; that a thread which can move is scheduled, and that
  libusb ends a transfer at all, is not promised.
- Handshake.Agreement: holds under no collision between the values of the run at hand; secrecy is not considered.
