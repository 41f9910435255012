# pboted: a verified model

This project models, in Dafny, the parts of pboted and of its bundled libi2pd whose
correctness is hardest to see from the code, and proves what they promise.

- **Authenticated encryption** (`Poly1305`, `ChaCha20`, `ChaChaLaws`, `Aead`): Poly1305 on 17 byte
  limbs with lazy reduction and a leftover buffer, ChaCha20 with a mid-block offset, and the
  single- and multi-buffer constructions on them. The methods work on arrays as the source does;
  they are proved equal to integer arithmetic and to the composition of RFC 8439.
- **Curve and ElGamal arithmetic** (`Groups`, `Edwards`, `ScalarMul`, `Ed25519`, `SquareRoots`,
  `PointDecoding`, `SignatureLaws`, `X25519`, `Montgomery`, `Fermat`, `ElGamal`): extended Edwards
  coordinates, fixed-base multiplication with signed digits, signing and verifying, decoding of
  points by square roots modulo q, the lazily swapping Montgomery ladder and what it computes in
  the group of the curve, and the table of Montgomery powers. Each fast form is proved equal to a
  simple one. Fermat's little theorem, on which ElGamal decryption rests, is proved from the
  binomial theorem.
- **Codecs** (`BitStrings`, `Base32`, `Base64`): both are regroupings of one bit string; the Base32
  accumulator is modelled with its 32-bit wrap-around.
- **Email parts** (`PlainPacket`, `EncryptedPacket`, `Email`, `Incomplete`): splitting, the two
  packet formats, encryption fields, storing nodes, arrival in any order among other mails,
  grouping by message id, restoring.
- **The DHT node** (`Closest`, `Storage`, `StorageLaws`, `Lookup`): selection of the closest nodes,
  the life of stored packets over whole runs of requests, and the request loop of a lookup.

`Num`, `Bits`, `BigEndian`, `Modular` and `ModPowers` hold the arithmetic the others share. Bytes
are integers from 0 to 255, and every width and every truncation is written out. And, Or and Xor
are defined bit by bit on natural numbers. A shift alone is a product or a quotient and a cast a
remainder; where a mask, a rotation or an Or is written as arithmetic, a lemma gives its bitwise
form (`Bits.LowMasks`, `ChaCha20.RotlIsShifts`, `ChaCha20.LoadWordIsShifts`,
`ChaCha20.StoreWordIsMasks`, `X25519.ClampIsMasks`, `Ed25519.EncodePointSetsBit`,
`PointDecoding.DecodePointMasks`, `Poly1305.HighByte`). SHA-256, SHA-512, the ciphers and
`BN_mod_inverse` are function parameters. A file system is a map from names to contents; a clock, a
random draw and the success of opening or removing a file are parameters of the call.

Where the code does less than its name or comment says, the model follows the code and a lemma
states exactly when it does what is expected:

- `Email::split` fails when the length is a multiple of 28768 (`Email.Email.Split`,
  `Email.FullPartFails`).
- `ElGamalDecrypt` with a private key x of p or more finds m g^(2kx) modulo p in place of the
  message m. It returns the data exactly if that number has the 254 low bytes of m, or is too long
  for the buffer and the buffer held those bytes (`ElGamal.LargeKeyDecrypts`,
  `ElGamal.LargeKeyExample`).
- The quota is checked against the packet received, while a shorter email packet is stored as 73
  bytes (`Storage.FitsIff`); and the record of a deletion is one byte longer than such a packet,
  which a request that names zeros for key and hash can delete (`Storage.DeleteFitsIff`).
- A message whose packets disagree on its count can be reported full without being so
  (`Incomplete.FullReport`, `Incomplete.FalseFullExample`).
- `ByteStreamToBase32` reads a byte of an empty input (`Base32.Encode`, `Base32.RoundTripIff`).
- An email stored again after its deletion cannot be deleted with the same authorisation
  (`Storage.DeletedOnce`, `Storage.DeletedOnceExample`, `Storage.RemovedIff`).
- X25519 on byte strings does not clear the top bit of the u-coordinate, as RFC 7748 would
  (`X25519.ScalarMulBytes`, `X25519.TopBitAdds`, `X25519.TopBitExample`).
- An encrypted packet longer than 65535 bytes loses its payload on the way
  (`EncryptedPacket.Survives`).
- `PacketBatch::remain` counts repeated responses (`Lookup.RemainIsOpen`,
  `Lookup.RepeatedResponse`).
- `Base64ToByteStream` writes one byte past its result exactly when it gives a result and the
  number of trailing padding signs is a non-zero multiple of three; the byte is past the buffer
  exactly when the result fills the buffer (`Base64.Decode`, `Base64.TouchesPast`,
  `Base64.TouchesPastExample`).

To verify: `dafny verify dfyconfig.toml`.

## Model

| member | source | states |
|---|---|---|
| Poly1305.AddTo | lib/libi2pd/Poly1305.h:51-62 | limb addition is addition of the two 17-limb values modulo 2^136; the final carry is dropped |
| Poly1305.CarryPass | lib/libi2pd/Poly1305.h:66-73 | the first carry pass keeps the value of the sixteen low columns, and the carry stays below 1.4 million |
| Poly1305.AddPass | lib/libi2pd/Poly1305.h:78-83 | the second pass adds the folded carry to the value, without overflow of the top limb |
| Poly1305.Reduce | lib/libi2pd/Poly1305.h:64-85 | `%=` turns columns of value t into limbs of value t mod 2^130 + 5 (t div 2^130), so the residue modulo 2^130 - 5 is kept, and the result is below 2^130 + 2^33 |
| Poly1305.Select | lib/libi2pd/Poly1305.h:105-107 | the masked loop selects the original limbs for mask 255 and the new ones for mask 0 |
| Poly1305.Freeze | lib/libi2pd/Poly1305.h:93-110 | `~` leaves the unique residue modulo 2^130 - 5 of any value below twice that |
| Poly1305.FreezeValue | lib/libi2pd/Poly1305.h:103-107 | after adding 2^136 - p, the top bit tells whether the value was below p, and what is then selected is the residue |
| Poly1305.MulRows | lib/libi2pd/Poly1305.h:205-217 | the nested limb loops compute every column sum; each fits 32 bits (bound 353,736,000) |
| Poly1305.RowsValue | lib/libi2pd/Poly1305.h:205-217 | after m rows the columns have the value of the first m limbs of h times r, up to a multiple of 2^130 - 5: wrapped columns come back times 320 |
| Poly1305.BlockValue | lib/libi2pd/Poly1305.h:201-219 | adding a block, multiplying and partially reducing is one step (acc + block) r modulo 2^130 - 5 |
| Poly1305.AbsorbBlock | lib/libi2pd/Poly1305.h:198-222 | one turn of `Blocks` keeps the accumulator below 2^130 + 2^33 (hence below 2 p) and steps its residue |
| Poly1305.ClampKey | lib/libi2pd/Poly1305.h:112-132 | the byte masks clamp the first half of the key as the 128-bit mask of section 2.5 of RFC 8439 does |
| Poly1305.PadKey | lib/libi2pd/Poly1305.h:134-139 | the second half of the key is copied with its value |
| Poly1305.AccumulateIsPolynomial | lib/libi2pd/Poly1305.h:195-223 | reducing after every block gives the message polynomial at r, modulo 2^130 - 5 |
| Poly1305.AbsorbIsAccumulate | lib/libi2pd/Poly1305.h:195-223 | absorbing n further blocks on top of a whole number of blocks is accumulating the concatenation |
| Poly1305.Authenticator.constructor | lib/libi2pd/Poly1305.h:155-162 | a fresh object holds the clamped and copied key and an empty message |
| Poly1305.HighByte | lib/libi2pd/Poly1305.h:197 | the high byte of a block is the final flag Xor one |
| Bits.LowMasks | lib/libi2pd/Poly1305.h:58-81 | the masks 0xff and 0x03 of the carry loops keep the low eight and two bits |
| Poly1305.Authenticator.Blocks | lib/libi2pd/Poly1305.h:195-223 | over any data, the residue of the accumulator is that of all whole blocks under the high byte in force; the bound is kept |
| Poly1305.Authenticator.TopUp | lib/libi2pd/Poly1305.h:167-178 | filling the leftover buffer keeps the bytes received in order, and absorbs it exactly when full |
| Poly1305.Authenticator.Update | lib/libi2pd/Poly1305.h:164-193 | the bytes received so far are extended by the buffer, however they were split before |
| Poly1305.Authenticator.FinishBlock | lib/libi2pd/Poly1305.h:228-236 | the partial last block with its 0x01 byte accumulates as the standard's short block |
| Poly1305.Authenticator.Finish | lib/libi2pd/Poly1305.h:225-244 | the digest is the tag of all bytes received: (polynomial mod p + s) mod 2^128 |
| Poly1305.FinalTag | lib/libi2pd/Poly1305.h:238-243 | adding the pad to a frozen accumulator cannot wrap 17 limbs, and the low sixteen bytes are the tag |
| Poly1305.Mac | lib/libi2pd/Poly1305.h:256 | for every key and every sequence of pieces, the digest is the tag of their concatenation |
| Poly1305.TagValue | lib/libi2pd/Poly1305.h:225-244 | for every message and key, the tag is the message polynomial at r modulo 2^130 - 5 plus the second half of the key, modulo 2^128; r is given by its bytes: 3, 7, 11 and 15 keep four bits, 4, 8 and 12 lose two, the others are those of the key |
| Poly1305.TagPowers | lib/libi2pd/Poly1305.h:93-104 | the two moduli are 2^130 - 5 and 2^128 |
| Poly1305.PolynomialBlock | lib/libi2pd/Poly1305.h:195-223 | a last block, with a one above it, is added to the polynomial before the multiplication by r |
| ChaCha20.QuarterRound | lib/libi2pd/ChaCha20.cpp:46-52 | in-place quarter round: the four words become those of the quarter round function, all others stay |
| ChaCha20.QuarterUndo | lib/libi2pd/ChaCha20.cpp:46-52 | the quarter round is a permutation of four words: it can be undone |
| ChaCha20.RotlIsShifts | lib/libi2pd/ChaCha20.cpp:41-44 | rotation is Or of the two shifted words |
| ChaCha20.LoadWordIsShifts | lib/libi2pd/ChaCha20.cpp:30-39 | loading a word shifts in its bytes from the top |
| ChaCha20.StoreWordIsMasks | lib/libi2pd/ChaCha20.cpp:22-28 | the four bytes of a word by shifts and masks |
| ChaChaLaws.QuarterLines | lib/libi2pd/ChaCha20.cpp:46-52 | the quarter round is its four lines, with rotations by 16, 12, 8 and 7 as Or of shifts |
| ChaChaLaws.SweepIs | lib/libi2pd/ChaCha20.cpp:68-78 | the eight quarter rounds are a round on the columns of the four-by-four matrix, and one between rotations of its rows 1, 2 and 3 by 1, 2 and 3 |
| ChaChaLaws.BlockIs | lib/libi2pd/ChaCha20.cpp:62-81 | for every state, the block is the serial form of ten such double rounds plus the state |
| ChaChaLaws.SerialAt | lib/libi2pd/ChaCha20.cpp:55-60 | a word is four bytes, the lowest first |
| ChaChaLaws.InitialState | lib/libi2pd/ChaCha20.cpp:83-97 | the initial state is the text `expand 32-byte k`, the key, the counter and the nonce |
| ChaChaLaws.StreamBlocks | lib/libi2pd/ChaCha20.cpp:103-133 | byte j of a message is combined with byte j mod 64 of the block whose counter is j div 64 further, modulo 2^32 |
| ChaCha20.RunRounds | lib/libi2pd/ChaCha20.cpp:68-78 | the loop performs ten double rounds of the column and diagonal schedule |
| ChaCha20.AddWords | lib/libi2pd/ChaCha20.cpp:79 | the input is added back word by word modulo 2^32 |
| ChaCha20.Cipher.constructor | lib/libi2pd/ChaCha20.cpp:83-95 | the state holds constants, key, counter and nonce, at the start of the key stream |
| ChaCha20.Cipher.SetCounter | lib/libi2pd/ChaCha20.cpp:97-101 | the position in the key stream becomes the start of the given block |
| ChaCha20.Cipher.NextBlock | lib/libi2pd/ChaCha20.cpp:62-81 | the block buffer gets the serialised block of the state, and the counter advances by one modulo 2^32 |
| ChaCha20.Cipher.Consume | lib/libi2pd/ChaCha20.cpp:105-116 | bytes left of the last block are used first, and the offset returns to zero at its end |
| ChaCha20.Cipher.EncryptBlocks | lib/libi2pd/ChaCha20.cpp:117-130 | whole and partial blocks are XORed with the stream from the current position; a partial block leaves its offset |
| ChaCha20.Cipher.Encrypt | lib/libi2pd/ChaCha20.cpp:103-131 | from any state the buffer is XORed with the key stream from the current position, which advances by its length; counter and offset follow from the position |
| ChaCha20.CryptChunks | lib/libi2pd/ChaCha20.cpp:103-131 | encrypting chunk after chunk gives the encryption of the concatenation |
| ChaCha20.CryptConcat | lib/libi2pd/ChaCha20.cpp:103-131 | encryption of a concatenation is that of its parts, the second from where the first ended |
| ChaCha20.CryptTwice | lib/libi2pd/ChaCha20.cpp:103-131 | a second pass from the same position restores the message |
| Aead.Setup | lib/libi2pd/Crypto.cpp:1141-1148 | block 0 gives the one-time key; the cipher is then at block 1 |
| Aead.StartHash | lib/libi2pd/Crypto.cpp:1149-1161 | the associated data is hashed with its zero padding, and nothing is when it is absent |
| Aead.FinishHash | lib/libi2pd/Crypto.cpp:1177-1187 | the message padding and the two lengths complete the authenticated data |
| Aead.EncryptInto | lib/libi2pd/Crypto.cpp:1163-1191 | in encrypt mode the buffer becomes ciphertext and tag |
| Aead.DecryptInto | lib/libi2pd/Crypto.cpp:1171-1198 | in decrypt mode the buffer becomes the decrypted text, and success is equality of the tags |
| Aead.AeadSingle | lib/libi2pd/Crypto.cpp:1141-1200 | the single-buffer form computes sealing, or opening with its verdict, as section 2.8 of RFC 8439 composes them |
| Aead.OpenOfSeal | lib/libi2pd/Crypto.cpp:1141-1200 | opening what was sealed with the same key, nonce and associated data succeeds and returns the message |
| Aead.PaddingFills | lib/libi2pd/Crypto.cpp:1154-1180 | padding makes a multiple of sixteen with fewer than sixteen zeros |
| Aead.MacDataInjective | lib/libi2pd/Crypto.cpp:1149-1187 | different associated data or ciphertexts are authenticated as different strings |
| Aead.OneTimeKeyIs | lib/libi2pd/Crypto.cpp:1141-1148 | the one-time key is the block of counter 0 |
| Aead.SealedBytes | lib/libi2pd/Crypto.cpp:1141-1191 | the sealed bytes are the text combined with the blocks from counter 1 on, and the tag of the padded data and lengths under the block of counter 0 |
| Aead.OneAuthentic | lib/libi2pd/Crypto.cpp:1188-1198 | for given ciphertext and associated data only one tag is authentic |
| Aead.EncryptOne | lib/libi2pd/Crypto.cpp:1228-1233 | one buffer is encrypted in place and hashed; the other buffers stay |
| Aead.EncryptAll | lib/libi2pd/Crypto.cpp:1226-1233 | all buffers hold the chunked encryption of what they held, which is also what was hashed |
| Aead.AeadMulti | lib/libi2pd/Crypto.cpp:1218-1249 | for every non-empty list of buffers, ciphertext and tag are those of the single-buffer form with no associated data on the concatenation |
| Edwards.DoubleIsSum | lib/libi2pd/Ed25519.cpp:255-291 | the shorter doubling formulas give every coordinate of the sum of a point with itself |
| Edwards.SumOnQuadric | lib/libi2pd/Ed25519.cpp:202-253 | every sum satisfies x y = z t |
| Edwards.SumRep | lib/libi2pd/Ed25519.cpp:202-253 | the projective sum stands for the affine twisted Edwards sum, whichever of z and t are absent |
| Edwards.NegOnCurve | lib/libi2pd/Ed25519.cpp:358-374 | negation stays on the curve |
| Edwards.AddNeg | lib/libi2pd/Ed25519.cpp:202-253 | a point plus its negative is the neutral point |
| Edwards.AddZero | lib/libi2pd/Ed25519.cpp:202-253 | the neutral point is neutral |
| Edwards.AddOnCurve | lib/libi2pd/Ed25519.cpp:202-253 | the sum of two points on the curve is on the curve |
| Edwards.DenominatorsNonZero | lib/libi2pd/Ed25519.cpp:36-52 | the denominators of the law never vanish, because minus one has a square root modulo q and d has none |
| Edwards.CurveIsAbelian | lib/libi2pd/Ed25519.cpp:202-291 | points on the curve are an abelian group; only associativity is assumed of the addition law |
| ScalarMul.BaseTable.constructor | lib/libi2pd/Ed25519.cpp:63-73 | in any abelian group, entry j of row i is (j + 1) 256^i times the base, and the carry point is 256^32 times it |
| ScalarMul.BaseTable.FillRow | lib/libi2pd/Ed25519.cpp:67-72 | one row from its first point; other rows stay, and the carry point moves to the next power |
| ScalarMul.BaseTable.AddDigit | lib/libi2pd/Ed25519.cpp:329-338 | a digit above 128 subtracts its complement and hands on a carry of 256 |
| ScalarMul.BaseTable.AddByte | lib/libi2pd/Ed25519.cpp:318-338 | after byte i, the result plus the pending carry is the multiple by the first i + 1 bytes |
| ScalarMul.BaseTable.MulB | lib/libi2pd/Ed25519.cpp:310-342 | for all 32-byte strings the signed-digit loop gives the little-endian multiple of the base |
| ScalarMul.Mul | lib/libi2pd/Ed25519.cpp:293-308 | double-and-add gives the multiple by any number, zero included |
| Ed25519.PointsAreSound | lib/libi2pd/Ed25519.cpp:202-291 | the operations on projective points represent those of the curve group |
| Ed25519.NormalizeStands | lib/libi2pd/Ed25519.cpp:344-356 | normalising gives the affine point that was represented, whatever the representative |
| Ed25519.EncoderExists | lib/libi2pd/Ed25519.cpp:426-431 | the multiples of a point on the curve have the encodings that signing is stated with |
| Ed25519.EncodePointSetsBit | lib/libi2pd/Ed25519.cpp:426-431 | the parity of x is set by Or with 0x80 |
| Ed25519.EncodeMultiple | lib/libi2pd/Ed25519.cpp:146 | the encoding of a table multiple is that of the group element |
| Ed25519.Sign | lib/libi2pd/Ed25519.cpp:132-162 | the signature is R and S with R the encoding of r B and S = (r + h a) mod l in 32 bytes |
| Ed25519.Verify | lib/libi2pd/Ed25519.cpp:112-130 | accepts exactly if the encoding of S B - (h mod l) A equals the first half of the signature |
| Ed25519.SignatureEquation | lib/libi2pd/Ed25519.cpp:112-162 | S B - (h mod l) a B = r B for every base of order dividing l |
| Ed25519.SignatureAccepted | lib/libi2pd/Ed25519.cpp:112-162 | every signature made is accepted for the matching public key |
| SignatureLaws.OneR | lib/libi2pd/Ed25519.cpp:112-130 | for a given S and digest only one R is accepted |
| SignatureLaws.AcceptedIff | lib/libi2pd/Ed25519.cpp:112-130 | a signature is accepted exactly if it encodes a point R of the curve with S B = R + h A |
| SignatureLaws.AcceptedScalars | lib/libi2pd/Ed25519.cpp:112-130 | for a base of order l and a given R and digest, the accepted S are one residue class modulo l |
| SignatureLaws.AcceptedExactly | lib/libi2pd/Ed25519.cpp:112-162 | under the key a B and with R = r B, exactly the S that are h a + r modulo l are accepted |
| SignatureLaws.SignAndAlter | lib/libi2pd/Ed25519.cpp:112-162 | a signature made by `Sign` with its R replaced is accepted exactly if R was not changed |
| SignatureLaws.EncodeInjective | lib/libi2pd/Ed25519.cpp:426-431 | different points have different encodings |
| SignatureLaws.NonceOfMessage | lib/libi2pd/Ed25519.cpp:136-144 | the nonce is the start of the hash of the second half of the expanded key and the message; two messages share it only by a collision |
| SignatureLaws.SignatureHalves | lib/libi2pd/Ed25519.cpp:132-162 | R is the encoding of r B and S is r + h a modulo l, where h hashes R, the public key and the message |
| SquareRoots.FindsRoot | lib/libi2pd/Ed25519.cpp:386-393 | for a prime q = 8 e - 3 and a root I of -1, the power e, times I if its square is not the number, is a root of every square |
| SquareRoots.ConstantRoot | lib/libi2pd/Ed25519.cpp:44-51 | 2^((q-1)/4) is a root of -1 if -1 has any |
| PointDecoding.ConstantsDecode | lib/libi2pd/Ed25519.cpp:22-51 | q = 2^255 - 19, 2^252 - 2 and 2^((q-1)/4) are constants that decoding works with |
| PointDecoding.InvertibleDenominator | lib/libi2pd/Ed25519.cpp:381-383 | d y^2 + 1 has an inverse for every y |
| PointDecoding.RecoverXIff | lib/libi2pd/Ed25519.cpp:376-399 | for every y, the abscissa recovered satisfies the curve equation exactly if any number does |
| PointDecoding.RecoversX | lib/libi2pd/Ed25519.cpp:376-399 | for a point of the curve, the even one of x and q - x is recovered |
| PointDecoding.DecodeOfEncode | lib/libi2pd/Ed25519.cpp:401-431 | decoding inverts encoding on every point of the curve, and what is decoded stands for it |
| PointDecoding.EncodeOfDecode | lib/libi2pd/Ed25519.cpp:401-431 | every 32 bytes are the encoding of what they are decoded to, on the curve or not |
| PointDecoding.DecodePointMasks | lib/libi2pd/Ed25519.cpp:410-412 | the test and clearing of the highest bit as masks |
| PointDecoding.Decode | lib/libi2pd/Ed25519.cpp:401-424 | the loop that turns the bytes round, the sign bit and the choice of x compute the decoded point |
| PointDecoding.VerifyBytes | lib/libi2pd/Signature.cpp:49-68 | with the bytes of a public key, acceptance is the group equation of the point encoded |
| PointDecoding.SignAndVerify | lib/libi2pd/Signature.cpp:49-94 | a signature made with a private key is accepted by whoever has the bytes of the public key |
| X25519.Step | lib/libi2pd/Ed25519.cpp:484-501 | the register-reusing body computes the ladder step of RFC 7748, with 121666 and BB in place of 121665 and AA |
| X25519.AdvanceIs | lib/libi2pd/Ed25519.cpp:484-501 | for all registers, the step is the doubling and the differential sum of v^2 = u^3 + 486662 u^2 + u on projective u-coordinates |
| X25519.LadderMul | lib/libi2pd/Ed25519.cpp:461-513 | the lazily swapping loop from the top bit set computes the ladder, and x2/z2 when z2 is invertible |
| X25519.LazySwaps | lib/libi2pd/Ed25519.cpp:474-507 | the conditional-swap ladder of section 5 of RFC 7748 reaches the points of the ladder without swaps |
| X25519.ClampedScalar | lib/libi2pd/Ed25519.cpp:518-521 | a clamped scalar has exactly 255 bits, so starting at its top bit skips nothing |
| X25519.ScalarMulBytes | lib/libi2pd/Ed25519.cpp:515-525 | the result bytes are those of 255 steps of the conditional-swap ladder of section 5 of RFC 7748 on the clamped scalar; the u-coordinate is the one the standard reads if its top bit is clear, and 19 more if it is set |
| X25519.TopBitAdds | lib/libi2pd/Ed25519.cpp:515-517 | for q = 2^255 - 19, a set top bit adds 19 to the u-coordinate of RFC 7748; the coordinate used is that of the standard exactly if the bit is clear |
| X25519.TopBitExample | lib/libi2pd/Ed25519.cpp:515-517 | the coordinate 0 with the top bit set is taken for 19 |
| X25519.LadderResidues | lib/libi2pd/Ed25519.cpp:461-507 | the ladder depends on the residue of the u-coordinate alone |
| X25519.ClampIsMasks | lib/libi2pd/Ed25519.cpp:518-520 | the clamped bytes are those of the three masks |
| Montgomery.DoubleShows | lib/libi2pd/Ed25519.cpp:484-501 | what shows the coordinate of a point becomes what shows that of its double, for every point of the curve |
| Montgomery.SumShows | lib/libi2pd/Ed25519.cpp:484-501 | what shows two points whose difference has the coordinate u becomes what shows their sum, for u other than zero |
| Montgomery.LadderShows | lib/libi2pd/Ed25519.cpp:461-507 | after the bits of k above i the ladder holds n P and (n + 1) P, where n is the number those bits make |
| Montgomery.LadderIsMultiple | lib/libi2pd/Ed25519.cpp:461-513 | for a point P of the curve of Ed25519 with coordinate u = (1 + y)/(1 - y) other than zero, the result is the coordinate of k P; the last division fails exactly if k P is neutral |
| Montgomery.ZeroCoordinate | lib/libi2pd/Ed25519.cpp:461-513 | with the coordinate zero the last division fails for every k |
| Montgomery.KeyAgreement | lib/libi2pd/Ed25519.cpp:515-525 | both sides of an exchange compute the same 32 bytes |
| Montgomery.BaseCoordinate | lib/libi2pd/Ed25519.cpp:527-530 | the coordinate 9 is that of the base of Ed25519, whose ordinate is 4/5 |
| Fermat.LittleTheorem | lib/libi2pd/Crypto.cpp:461-469 | a^(p-1) = 1 modulo a prime p, which `ElGamalDecrypt` rests on |
| Fermat.PrimeHasInverses | lib/libi2pd/Ed25519.cpp:344-356 | modulo a prime every residue but zero has an inverse, as `BN_mod_inverse` is taken to give |
| ElGamal.MontProduct | lib/libi2pd/Crypto.cpp:190-207 | a Montgomery product of two images is the image of the product |
| ElGamal.ElggTable.constructor | lib/libi2pd/Crypto.cpp:184-210 | entry j of row i is the Montgomery form of g^((j+1) 256^i) |
| ElGamal.ElggTable.FirstPower | lib/libi2pd/Crypto.cpp:197-201 | the first entry of a row is the product of the last and first of the row before |
| ElGamal.ElggTable.PowBytes | lib/libi2pd/Crypto.cpp:223-241 | table lookup over big-endian bytes is modular exponentiation; there is no result exactly for exponent zero |
| ElGamal.ElggTable.PowNumber | lib/libi2pd/Crypto.cpp:243-251 | the same for a number through its shortest byte string |
| ElGamal.BnToBuf | lib/libi2pd/Crypto.cpp:145-152 | the number is written zero-padded, or the buffer is left alone exactly if it does not fit |
| ElGamal.GenerateKey | lib/libi2pd/Crypto.cpp:489-508 | the public key is g^x mod p in 256 bytes |
| ElGamal.GeneratorPower | lib/libi2pd/Crypto.cpp:427-434 | the table path and plain modular exponentiation give the same number |
| ElGamal.Encrypt | lib/libi2pd/Crypto.cpp:414-458 | with or without the table, the 514 bytes hold g^k and y^k m modulo p |
| ElGamal.Decrypt | lib/libi2pd/Crypto.cpp:460-487 | the data is returned exactly if the hash inside the decrypted message matches, and is otherwise left alone |
| ElGamal.MaskedAndUnmasked | lib/libi2pd/Crypto.cpp:436-470 | for a prime modulus the masks y^k and a^(p-1-x) cancel |
| ElGamal.DecryptOfEncrypt | lib/libi2pd/Crypto.cpp:414-487 | for every prime p of 2048 bits, private x below p, drawn k and 222 bytes of data, decryption of the encryption returns the data |
| ElGamal.SentNumbers | lib/libi2pd/Crypto.cpp:436-458 | the 514 bytes hold g^k and y^k m, where m is the byte 0xFF, the hash and the data |
| ElGamal.DecryptedHasHash | lib/libi2pd/Crypto.cpp:470-486 | data are returned exactly if the message found holds their hash |
| ElGamal.LargeKeyNumber | lib/libi2pd/Crypto.cpp:461-470 | for a private x of p or more, the number decrypted is the message m times g^(2kx), hence m exactly if that power is one |
| ElGamal.DecryptsIff | lib/libi2pd/Crypto.cpp:414-487 | for every private key, what is returned is the data exactly if the number decrypted agrees with m in its 254 low bytes or, where it is too long for the buffer, the buffer held those bytes before |
| ElGamal.LargeKeyDecrypts | lib/libi2pd/Crypto.cpp:461-487 | for a private x of p or more, the same with the number m g^(2kx) mod p |
| ElGamal.LargeKeyLoses | lib/libi2pd/Crypto.cpp:461-487 | for elgg = 2, x = p and k = 1 the data are returned exactly if the buffer held them before |
| ElGamal.LargeKeyExample | lib/libi2pd/Crypto.cpp:461-487 | a buffer of zeros and data of ones: with that key the data are not returned |
| ElGamal.ReturnedIsRead | lib/libi2pd/Crypto.cpp:470-486 | whenever the number decrypted is the message, the data is returned |
| Base32.Encode | lib/libi2pd/Base.cpp:298-326 | writes as many letters as fit of the five-bit groups of the input with zeros after it, and touches nothing else; of an empty input the byte beyond it is encoded |
| Base32.Decode | lib/libi2pd/Base.cpp:270-296 | complete: which letters are taken in, how many bytes are written and what they are, that a byte outside the alphabet among those read gives the count zero, and that nothing else is touched |
| Base32.OrWraps | lib/libi2pd/Base.cpp:284-294 | although the accumulator overflows 32 bits, OR into freed bits still adds |
| Base32.ReadWraps | lib/libi2pd/Base.cpp:285-322 | although the accumulator overflows 32 bits, the bits still to be written are read as if it had not |
| Base32.DecodeOfEncode | lib/libi2pd/Base.cpp:270-325 | the letters of an encoding decode to the input |
| Base32.RoundTrip | lib/libi2pd/Base.cpp:270-325 | for every byte string encoded and any room beyond it, decoding returns exactly that string and its length |
| Base32.RoundTripIff | lib/libi2pd/Base.cpp:270-325 | what comes back is the input exactly if that is not empty |
| Base32.Alphabet | lib/libi2pd/Base.cpp:18-24 | the letters are a to z and 2 to 7, in this order |
| Base32.EncodedNumber | lib/libi2pd/Base.cpp:298-326 | the letters are the numeral in base 32 of the input followed by fewer than five zero bits |
| Base64.ReverseTable.Build | lib/libi2pd/Base.cpp:261-268 | the reverse table has the digit of every letter, zero for the padding sign and 255 elsewhere |
| Base64.BufferSize | lib/libi2pd/Base.cpp:225-232 | the size is a multiple of four that holds the digits and at most two padding signs |
| Base64.Group | lib/libi2pd/Base.cpp:107-125 | three bytes become four digits of the same 24 bits |
| Base64.Encode | lib/libi2pd/Base.cpp:80-151 | all or nothing: the letters of the six-bit groups and the padding, or zero when they do not fit; nothing else is touched |
| Base64.Decode | lib/libi2pd/Base.cpp:163-223 | complete: the count, every byte written whatever the signs, and that nothing else is touched; within the alphabet the result is the leading bits of the digits; padding before the buffer, and a count that wraps below zero, change nothing |
| Base64.Combined | lib/libi2pd/Base.cpp:200-220 | three bytes put together by shifts and OR hold the 24 bits of four digits |
| Base64.CountPads | lib/libi2pd/Base.cpp:190-192 | the backward scan counts the trailing padding signs, into the memory before the input if need be |
| Base64.CountWraps | lib/libi2pd/Base.cpp:187-196 | a count below zero, after whatever lies before the input, wraps to more than any buffer has |
| Base64.ReadDecodes | lib/libi2pd/Base.cpp:200-220 | within the alphabet, the bytes put together group by group are the leading bits of the digits |
| Base64.TouchesPast | lib/libi2pd/Base.cpp:199-220 | a buffer of len bytes is written past exactly if the count is len and the trailing padding signs are a non-zero multiple of three, and then by one byte |
| Base64.TouchesPastExample | lib/libi2pd/Base.cpp:199-220 | `A===` has count zero and writes a byte |
| Base64.RoundTrip | lib/libi2pd/Base.cpp:80-223 | for every non-empty input and enough room, decoding its encoding returns exactly the input and its length |
| Base64.Alphabet | lib/libi2pd/Base.cpp:41-69 | the letters are A to Z, a to z, 0 to 9, - and ~, in this order, and the padding sign is = |
| Base64.EncodedNumber | lib/libi2pd/Base.cpp:80-151 | letters and padding are the numeral in base 64 of the input followed by zero bits |
| PlainPacket.ParseOfSerialize | src/Packet.h:438-541 | parsing inverts serialising exactly on well-formed packets and rejects the serialisation of any other |
| PlainPacket.SerializeOfParse | src/Packet.h:438-541 | what is accepted serialises to the bytes it was read from |
| PlainPacket.SerializedPlain | src/Packet.h:500-541 | the fields of a part sit at fixed offsets, numbers with the high byte first |
| Email.Email.CutParts | src/Email.cpp:675-712 | the loop and its remainder cut the bytes into consecutive pieces of 28768 and a last, shorter one |
| Email.Email.Split | src/Email.cpp:666-757 | succeeds exactly if the length is no multiple of 28768 and the count fits 16 bits; then the parts are the consecutive pieces, numbered and authorised, and noted in the metadata |
| Email.FullPartFails | src/Email.cpp:697-729 | an email one byte short of a full part is not split |
| Email.SplittableIff | src/Email.cpp:666-729 | an email is split exactly if its length is no multiple of 28768 and the number of parts fits 16 bits |
| Email.PartIs | src/Email.cpp:675-753 | part i has the 28768 bytes from 28768 i on, or what is left of them, and its number, the count and its authorisation |
| Email.PartsFit | src/Email.cpp:731-753 | every part is a well-formed packet with its position as id and the number of parts as count |
| Email.NotedOnce | src/Email.cpp:731-753 | the metadata gets exactly the parts below the count and keeps what else it knew |
| Email.Email.Encrypt | src/Email.cpp:955-1046 | succeeds exactly if there is a sender, every part encrypts to something and is in the metadata; then each packet has the hash of its length and payload as key, which the metadata records; otherwise exactly the packets and keys before the first failing part are there, and its own packet if only the metadata lacks it |
| Email.Email.Restore | src/Email.cpp:820-877 | succeeds exactly if the metadata is full and every part is readable; then the bytes are the decompressed concatenation in order of ids; on failure the data before the unreadable part is left |
| Email.GatheredParts | src/Email.cpp:833-869 | concatenating the parts an email was split into gives the email |
| Incomplete.ProcessEmails | src/EmailWorker.cpp:1367-1435 | the directory is updated by exactly the mails that decrypt, parse, match their delete hash and whose file can be opened, the last for a key winning |
| Incomplete.MailReceived | src/EmailWorker.cpp:1367-1435 | a mail that does not open, or whose authorisation does not hash to its delete hash, leaves the directory as it was; any other leaves its decrypted part in the file of its key |
| Incomplete.ReceivedKeeps | src/EmailWorker.cpp:1367-1435 | every accepted part is in a file, whatever came before or after, if no two accepted mails of one key differ |
| Incomplete.HashedKeysAgree | src/Packet.h:341-374 | mails parsed from the network with one key hold one part, if the hash has no collision among what arrives |
| Incomplete.ReceivedOnlySent | src/EmailWorker.cpp:1367-1435 | if no mail and no file there before forges the message id, every file of the message holds a part that was sent |
| Incomplete.AddPacket | src/EmailWorker.cpp:1246-1291 | a packet joins the metadata object of its message, made at need; the others stay |
| Incomplete.GetIncomplete | src/EmailWorker.cpp:1160-1311 | for a listing in any order the objects represent the grouping by message id; exactly the parsable files without message id are removed, where the file system lets it, and a deletion of each is asked of the DHT |
| Incomplete.Cleanup | src/EmailWorker.cpp:1206-1243 | exactly the listed packets with a message id of zeros are deleted in the DHT, by their own authorisation, and removed |
| Incomplete.CollectCompletes | src/EmailWorker.cpp:1186-1295 | a part is recorded exactly if a listed file carries it, with the key of such a file |
| Incomplete.Pigeonhole | src/Email.cpp:377-383 | a set of numbers below n has n elements exactly if none is missing |
| Incomplete.FirstCounts | src/EmailWorker.cpp:1246-1291 | the first listed file of a message decides its count |
| Incomplete.FullReport | src/Email.cpp:377-383 | for packets that may disagree on the count, full means that the number of distinct ids arrived is the count of the first file; where no id beyond the count arrived this is so exactly if every part is there; a message reported full lacks a part exactly if an id beyond the count arrived, and is then not restored |
| Incomplete.FalseFullExample | src/Email.cpp:377-383 | part 0 of two and part 2 of three of one message are reported full and are not restored |
| Incomplete.FullIffArrived | src/Email.cpp:377-383 | where the packets agree on the count, a message is reported full exactly if every id below it is in some listed file |
| Incomplete.Reassembly | src/Email.cpp:820-877 | with copies of the parts among any other files in any order, the message is full exactly if all parts are there, and then restoring returns the email |
| Incomplete.EndToEnd | src/EmailWorker.cpp:1160-1435 | an email split, encrypted part by part, carried over any storing nodes and arriving among anything else in any order and number of copies is given back by the directory, the grouping and the restoring; assumed are a hash without collision on what arrives and that nothing else bears the message id |
| Incomplete.TravelledPart | src/Email.cpp:963-1025 | a part encrypted and carried over any number of storing nodes is a mail that opens to it |
| EncryptedPacket.SerializedFields | src/Packet.h:379-409 | the fields of a serialised packet sit at fixed offsets |
| EncryptedPacket.LoadAccepts | src/Packet.h:300-377 | a packet is accepted exactly if it has 105 bytes, type E, version 4 and the hash of its length and payload for a key; it is then read field by field |
| EncryptedPacket.StoredSized | src/DHTStorage.cpp:445-450 | what a node stores has a length field that stays inside it |
| EncryptedPacket.HopsKeep | src/DHTStorage.cpp:445-450 | any number of nodes that parse, stamp their time and serialise again change nothing but the time |
| EncryptedPacket.Survives | src/Email.cpp:963-1025 | a packet made by `encrypt` is accepted with key, hash and payload unchanged after every sequence of hops exactly if its payload has at least 32 bytes and fits 16 bits of length |
| Closest.LessIsBe | lib/libi2pd/Identity.h:201-212 | the byte comparison of metrics is that of big-endian numbers |
| Closest.MetricBytes | lib/libi2pd/Identity.cpp:840-847 | XOR word by word is XOR byte by byte |
| Closest.MetricInjective | lib/libi2pd/Identity.cpp:840-847 | different hashes have different distances from a key |
| Closest.SortedSorts | src/DHTworker.cpp:165-193 | sorting entries at different distances is a permutation in ascending order |
| Closest.KeepTakes | src/DHTworker.cpp:185-193 | keeping at most num entries while inserting agrees with inserting into the whole sorted list and cutting it |
| Closest.Consider | src/DHTworker.cpp:174-193 | a locked node, or one farther than we are when asked for, is skipped; any other is kept or displaces the farthest |
| Closest.GetClosestNodes | src/DHTworker.cpp:145-216 | the one-pass bounded set returns the first num of the full sort of the eligible nodes, for the node map in any order |
| Closest.Nearest | src/DHTworker.cpp:145-216 | these are min(num, eligible) eligible nodes, nearest first, and every eligible node left out is farther than all of them |
| Closest.Selected | src/DHTworker.cpp:171-193 | in terms of locks and the XOR of hashes: no locked node is returned, and with `to_us` none farther than we are; an unlocked node is left out only for being farther than we are or for num nearer ones |
| Storage.DHTStorage.UpdateStorageUsage | src/DHTStorage.cpp:890-932 | usage is the sum of the sizes of all files, in whatever order they are listed |
| Storage.DHTStorage.Delete | src/DHTStorage.cpp:101-132 | removes the file exactly if the packet exists and the file system lets it, and recounts |
| Storage.DHTStorage.SafeEmail | src/DHTStorage.cpp:425-456 | an existing email is never overwritten; a new one is stored as far as it could be parsed, with the time of the node |
| Storage.DHTStorage.SafeIndex | src/DHTStorage.cpp:341-382 | a present index is removed and replaced by the incoming bytes, also when writing then fails |
| Storage.DHTStorage.SafeContact | src/DHTStorage.cpp:486-512 | an existing contact is never overwritten |
| Storage.DHTStorage.Safe | src/DHTStorage.cpp:55-78 | the packet goes to the directory of its type under the key it carries |
| Storage.DHTStorage.SafeDeletedEmail | src/DHTStorage.cpp:458-484 | an existing deletion record is never overwritten |
| Storage.DHTStorage.ReceiveStoreRequest | src/DHTworker.cpp:1388-1467 | the answer and the files after a store request, refused when size and usage reach the limit; usage stays the sum of sizes |
| Storage.DHTStorage.ReceiveEmailPacketDeleteRequest | src/DHTworker.cpp:1470-1606 | the answer and the files after a delete request; usage stays the sum of sizes |
| Storage.RecordItem | src/Packet.h:751-855 | a record of one item is 74 bytes, and has exactly its own key and authorisation |
| Storage.EmailStep | src/DHTworker.cpp:1388-1606 | one request leaves an email's bytes alone or removes it with permission, and makes a record only of such a removal |
| Storage.Unchanged | src/DHTStorage.cpp:425-457 | over every run, an email present throughout is the same byte for byte |
| Storage.RemovedByPermission | src/DHTworker.cpp:1549-1593 | over every run, an email that has gone was removed by a request whose hashed authorisation and key match the packet stored then |
| Storage.RecordsPermitted | src/DHTworker.cpp:1578-1592 | over every run, a new deletion record holds the key and authorisation of such a request and the time of the packet removed |
| Storage.RemovedIff | src/DHTworker.cpp:1500-1593 | a request removes an email exactly if it is a permitted deletion, not already on record, that the file system lets through |
| Storage.RecordStays | src/DHTStorage.cpp:458-484 | a record is never changed or removed |
| Storage.DeletedOnce | src/DHTworker.cpp:1503-1528 | an email stored again after its deletion is never removed by the same authorisation |
| Storage.DeletedOnceExample | src/DHTworker.cpp:1503-1593 | from the empty store, storing, deleting, storing and deleting again leaves every genuine email in place |
| Storage.StoredSize | src/DHTStorage.cpp:445-450 | the size of the file written for an email packet |
| Storage.StoreKeepsQuota | src/DHTworker.cpp:1423-1439 | a store request of an email no shorter than 73 bytes, an index or a contact keeps usage below the limit |
| Storage.DeleteKeepsQuota | src/DHTworker.cpp:1578-1592 | a deletion frees at least 105 bytes for a record of 74, unless its key and the hash of its authorisation are 32 zero bytes |
| Storage.QuotaKept | src/DHTStorage.cpp:259-266 | over every run of requests of these two kinds, usage once below the limit stays below it |
| Storage.FitsIff | src/DHTStorage.cpp:259-266 | an email packet can never exceed the quota exactly if it is not shorter than 73 bytes; a shorter one does, from an empty store |
| Storage.DeleteFitsIff | src/DHTworker.cpp:1549-1592 | a delete request that is served keeps usage below the limit from every state exactly if its key or the hash of its authorisation is not 32 zero bytes; a store with one unreadable packet shows the other case |
| StorageLaws.IndexReplaced | src/DHTStorage.cpp:341-382 | an index that fits replaces whatever index of its key was there and is answered OK, unless that file is empty; nothing else changes |
| StorageLaws.StoreAnswers | src/DHTworker.cpp:1423-1461 | each answer to a store request by its exact condition, and the files after it |
| StorageLaws.DeleteAnswers | src/DHTworker.cpp:1486-1606 | each answer to a delete request by its exact condition |
| StorageLaws.RecordBytes | src/Packet.h:812-850 | a deletion record by its 74 bytes |
| StorageLaws.Touches | src/DHTStorage.cpp:55-78 | a request touches only the file of its packet, or the email and record it deletes |
| StorageLaws.ContactStays | src/DHTStorage.cpp:486-512 | over every run, a contact once stored stays byte for byte |
| StorageLaws.IndexFrom | src/DHTStorage.cpp:341-382 | over every run, the index of a key was there at the start or was brought by a request |
| StorageLaws.IndexLatest | src/DHTStorage.cpp:341-382 | over every run, the index stored last is the one found |
| Lookup.PacketBatch.RemovePacket | src/Packet.h:199-204 | a packet that is there goes and is counted, so waiting plus removed stays the same |
| Lookup.BoteContext.Send | src/BoteContext.cpp:101-117 | the batch runs, and every packet waiting in it is queued |
| Lookup.BoteContext.Receive | src/BoteContext.cpp:119-154 | a response goes to the first running batch that waits for its cid, and to no other; it is refused exactly if there is none |
| Lookup.BoteContext.RemoveBatch | src/BoteContext.cpp:156-200 | the first occurrence of the batch goes, everything else stays in order |
| Lookup.Open | src/DHTworker.cpp:961-974 | requests and batch hold the same cids; of a cid drawn twice the first request counts |
| Lookup.Close | src/DHTworker.cpp:1003-1017 | exactly the answered requests are closed, in the open requests and in the batch |
| Lookup.Play | src/BoteContext.cpp:101-200 | whatever arrives, or other tasks send or remove, the batch accepts responses to its own cids only and loses no unanswered cid |
| Lookup.Lookup | src/DHTworker.cpp:961-1021 | through every interleaving, open requests and batch hold the same cids, waiting plus removed is the number of distinct cids, and the open cids are exactly the unanswered ones; so none is open exactly if every cid was answered |
| Lookup.RemainIsOpen | src/Packet.h:185-190 | the remaining count is that of the unanswered cids exactly if none was answered twice; each repeat makes it one too small |
| Lookup.RepeatedResponse | src/Packet.h:185-190 | a request answered as often as there are requests brings the count to zero while all others are open |

## Left out

- Sockets, SAM sessions, threads, timers and condition variables: requests are atomic steps, and a wait is the list of things that happen during it.
- The OpenSSL and assembly variants of the ciphers, of X25519 and of the XOR metric; only the portable code is modelled.
- Associativity of the curve's addition, that the base has order l, that inverses exist modulo q (true of a prime: `Fermat.PrimeHasInverses`) and that minus one but not d is a square modulo q are hypotheses, and so is that q is a prime where points are decoded; completeness, closure and the other group laws are proved from them.
- `SignRedDSA`, key blinding and the Elligator map, which would repeat the results on signing and multiplication.
- ElGamal key and k generation by random draw: both are parameters.
- ElGamal.DecryptOfEncrypt: a private key of p or more, for which the law fails, is treated in `ElGamal.LargeKeyDecrypts`.
- Incomplete.FullIffArrived: packets that disagree on the count are treated in `Incomplete.FullReport`.
- Aead.AeadMulti: the buffers are different ones; a list with one buffer twice is not covered, since the second pass encrypts what the first one hashed.
- Ed25519.Verify: the public key stands for a point on the curve, as every decoded encoding of such a point does (`PointDecoding.DecodeOfEncode`); for any other the source logs an error and computes on.
- Poly1305.Authenticator.Finish: the object cannot be used again after it, and nothing is stated about a second call.
- Montgomery.LadderIsMultiple: for a coordinate u that belongs to no point of the curve, but to its twist, the step formulas of `X25519.AdvanceIs` hold, and no group is given for them.
- X25519.LadderMul: when the final z2 is not invertible, which `Montgomery.LadderIsMultiple` and `Montgomery.ZeroCoordinate` make precise, the result is whatever the parameter for `BN_mod_inverse` gives.
- Montgomery.KeyAgreement: the multiples on the way have coordinates other than zero; for the others the last division fails.
- Compression by ZLIB and LZMA: the decoders are parameters of `Email.Decompressed`, and only uncompressed mail is followed from end to end.
- Email.Email.Restore: for a full message without a byte of data the source reads one all the same; what is then left is a parameter.
- MIME composing, header filtering and message id generation.
- File names: a file is named by its key, while the source names it by the Base64 form of the key.
- Reading or writing metadata files, deletion info for indexes, and merging of indexes: an index write replaces the file, as the source does.
- Storage.DHTStorage.ReceiveStoreRequest: reads outside the request are not modelled; a request has room for its type, version and key, and an email packet's length field stays inside it.
- Storage.QuotaKept: the requests of the run are of the kinds that `Storage.FitsIff` and `Storage.DeleteFitsIff` show to be safe; for the others the quota can be exceeded.
- Age-based cleanup, relay peers, address book, identity files, SMTP and POP3.
- Null entries in the list of running batches, and removal of a packet by destination.
- What the lookup does with the responses after its loop.
