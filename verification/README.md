# Verified models of a game-controller firmware

Dafny 4.11 models of the parts of the firmware whose correctness is hard to see: the
authentication an Xbox 360 asks of a controller, the serial protocol between the two processors of
an Arduino Uno, the I2C master, the fixed-point arctangent, and the detection of the console.
`dafny verify dfyconfig.toml --resource-limit 2000000` checks everything.

## What is modelled

**Authentication** (`src/shared/usb/xsm3`). `DesStandard` and `Sha1Standard` are independent
statements of NIST SP 800-67 Rev. 2 and FIPS 180-4, the first on strings of bits. `ExcryptDes` and
`ExcryptSha` are the code: words shifted into accumulators, tables, buffers overwritten in place;
each method is proved to compute the standard. `Sha1Example` works out the published example. `Tdea` adds triple DES and CBC with the laws that
everything above uses, `Parve` and `ChainSum` the two home-made primitives, `ExcryptParve` their code.
`Usbdsec` composes these into encryption, MAC and ACR. `Xsm3` is the handshake over its persistent
buffers. `Xsm3Session` puts a console that follows the protocol on the other side and proves that
whole sessions succeed; `SaltCounter` shows that the salt is a 64-bit counter. `Bits`, `Memory` and
`DesWords` connect machine words, bytes and bits.

**The Uno bridge** (`src/avr/uno`). `UnoRings` proves that the two ring buffers are
queues, `UnoMain` models the second processor's interrupts and dispatch, `UnoBridge` the two readers
of replies. `UnoLink` is the whole link as a state machine in which any step of either main loop, any
interrupt and any byte on the line may come next. `UnoSerial` is the USB-serial mode, again with the
interrupt between any two steps.

**I2C** (`src/avr/shared/io.c`): `Twi`, the engine, the bus events that the peripheral may
report, and both entry points. **Arctangent** (`lib/fxpt_math`): `FxptMath`. **Console detection**
(`descriptors.cpp`, `hid.cpp`, `shared_main.cpp`): `ConsoleMode`, one device object for the state that
these three files share, including the Xbox One handshake.

Words are little-endian in memory, as on all targets. Buffers are arrays and the loops are the code's
own; the value a method computes is a function, and what the source promises is proved about that
function. Random bytes, time, host behaviour and bus events are arguments, so that theorems hold
for all of them.

## What the code does not do

- The parity step does not always give odd parity: it folds the old low bit in
  (`excrypt_des.c:14-20`). `Usbdsec.ParityIsOdd` says exactly when it does, and
  `Usbdsec.ParityKeepsKey` that it cannot matter.
- A failed checksum or MAC is printed and the packet processed all the same
  (`xsm3.c:160-175`). The verdicts are results of the methods and influence nothing.
- The SHA-1 padding is the standard's below 2^29 bytes and not from there on, because the bit count
  has 32 bits.
- The ACR writes twelve bytes where it should write eight: its two copies have the size of the
  eight-byte variables and not of the four-byte results (`excrypt_parve.c:76-77`). In challenge init the
  last of the four zeros falls one byte behind the response (`xsm3.c:210`), on the first byte of whatever
  the linker has put there; declared next is the console id, which later ACRs read. `ExcryptParve.CopiesFit` and `Xsm3.AcrOverruns` say
  when and where, and the state model takes the neighbour as a parameter. `Xsm3Session.HonestInit` says
  for each value whether it survives. `Xsm3Session.HonestSession` shows that no check of a session fails
  if the replaced byte is in no buffer that a session reads, or was zero, or zero or one in a key, whose
  low bits are parity. The converse is not claimed: other keys could happen to give the same MACs, and
  another id the same ACR.
- CBC decryption in place goes on with the plaintext of a block instead of its ciphertext
  (`excrypt_des.c:184-193`). `Tdea.InPlaceGuard`: this is right for fewer than two
  blocks, and for no longer message right after every feed. `Tdea.InPlaceDecrypts` says after which.
- The arctangent of the origin is 0, so neither symmetry holds there; both are stated as if and only if.
- A read of length zero is not rejected by the I2C master although the length is stored less one in
  eight bits; `Twi.EmptyReadRunsOn` shows what follows.
- A read can report success with bytes missing, because the I2C master does not look at the recorded
  error (`io.c:227-249`). `Twi.ShortRead` is such a read, and `Twi.Master.ReadFrom` says which are complete.
- The length of a control request's answer is cut to a field that the answer has overwritten
  (`main.cpp:108-114`). `UnoMain.ControlCut` says when it still comes out right; `UnoMain.InitReportLost`
  is an answer that is lost.
- A checksum is computed as far as the packet's header says, past its end if need be (`xsm3.c:93-104`).
- The bridge does not read the payload of a reply to a host-to-device control request;
  `UnoLink.OutReplyTaken` says exactly which replies are read whole. A restart that answers a data
  request is consumed as an empty payload and restarts nothing (`main.c:120-154`):
  `UnoLink.RestartDelivered`.
- The ring from the second processor has no flow control; what the 256th unread byte does is in
  `UnoRings.InRing.ReceiveInterrupt`, and `UnoLink.NothingOverruns` shows that it never comes.

## Model

| member | source | states |
|---|---|---|
| `DesStandard.PermutationsCancel` | src/shared/usb/xsm3/excrypt_des_data.h:11-36 | FP undoes IP and IP undoes FP on every 64-bit string |
| `DesStandard.RoundsUndone` | src/shared/usb/xsm3/excrypt_des.c:101-136 | the Feistel rounds with the subkeys in reverse order take the exchanged result back to the exchanged input, for any round function values and any number of subkeys |
| `DesStandard.DesUndone` | src/shared/usb/xsm3/excrypt_des.c:108-147 | DES with any 16 subkeys is undone by DES in the other direction, both ways (NIST SP 800-67 Rev. 2, sections 2.1 and 2.2) |
| `DesStandard.FAbsorbsNot` | src/shared/usb/xsm3/excrypt_des.c:62-99 | the cipher function gives the same value when half block and subkey are both complemented |
| `DesStandard.ExpansionGroups` | src/shared/usb/xsm3/excrypt_des_data.h:38-50 | entry j of group g of the expansion table is the bit before or behind group g of the half block, or in it, around the ends |
| `DesStandard.DesComplement` | src/shared/usb/xsm3/excrypt_des.c:108-147 | complementing all subkeys and the block complements the result |
| `DesStandard.ScheduleComplement` | src/shared/usb/xsm3/excrypt_des.c:24-60 | the subkeys of a complemented key are the complemented subkeys |
| `DesStandard.ParityIgnored` | src/shared/usb/xsm3/excrypt_des_data.h:124-155 | keys that differ only in the parity positions have the same subkeys |
| `DesStandard.ScheduleDetermines` | src/shared/usb/xsm3/excrypt_des.c:24-60 | two keys have the same subkeys if and only if they differ in parity positions only: every other bit of a key shows in the first two subkeys |
| `DesStandard.RegistersComeRound` | src/shared/usb/xsm3/excrypt_des.c:24-60 | after sixteen iterations both registers of the key schedule are back where they began |
| `DesWords.GroupEntry` | src/shared/usb/xsm3/excrypt_des.c:62-90 | the mask and shift expressions for row and column pick the S-box entry of the six bits they stand for |
| `DesWords.RotatedBits` | src/shared/usb/xsm3/excrypt_des.c:44-48 | the masked shift of a 28-bit register is a rotation to the left by one |
| `ExcryptDes.Gather` | src/shared/usb/xsm3/excrypt_des.c:24-36 | the loop that shifts a selected bit into an accumulator computes the bit permutation of its table, for every table and width |
| `ExcryptDes.ExpandKey` | src/shared/usb/xsm3/excrypt_des.c:24-60 | the 16 words stored are exactly the key schedule of section 2.3 of SP 800-67, and no other memory changes |
| `ExcryptDes.Lookup` | src/shared/usb/xsm3/excrypt_des.c:72-88 | one S-box step yields the standard’s table entry for its six bits |
| `ExcryptDes.RoundFunction` | src/shared/usb/xsm3/excrypt_des.c:62-99 | the shift and mask loops compute the standard’s cipher function of half block and subkey |
| `ExcryptDes.CryptWord` | src/shared/usb/xsm3/excrypt_des.c:108-147 | permutation, 16 rounds and inverse permutation on machine words are DES on the bits, in both directions |
| `ExcryptDes.DesEcb` | src/shared/usb/xsm3/excrypt_des.c:108-147 | eight bytes of the output become the DES block of eight input bytes, everything else is unchanged, also in place |
| `ExcryptDes.Des3State.ExpandKeys` | src/shared/usb/xsm3/excrypt_des.c:149-154 | the three key tables hold the schedules of the three eight-byte keys in order |
| `ExcryptDes.Des3State.Des3Ecb` | src/shared/usb/xsm3/excrypt_des.c:156-170 | encrypts as EDE with keys one, two, three, decrypts in the opposite order, possibly in place |
| `ExcryptDes.Des3State.CbcBlocks` | src/shared/usb/xsm3/excrypt_des.c:172-198 | the loop writes the CBC form of all whole blocks and returns the block to feed on, and in place what comes of the blocks it has overwritten |
| `ExcryptDes.Des3State.Des3Cbc` | src/shared/usb/xsm3/excrypt_des.c:172-198 | output, feed and untouched bytes after a call, in either direction, in place or not |
| `Tdea.ProcessedIsCbc` | src/shared/usb/xsm3/excrypt_des.c:172-198 | encrypting, in place or not, and decrypting into other memory are the CBC mode of section 6.2 of NIST SP 800-38A |
| `Tdea.InPlaceDecrypts` | src/shared/usb/xsm3/excrypt_des.c:184-193 | decrypting in place is the CBC mode if and only if every block but the last is its own decryption, so always for fewer than two blocks |
| `Tdea.InPlaceGuard` | src/shared/usb/xsm3/excrypt_des.c:184-193 | whatever the keys, decrypting in place is right for every feed if and only if the message has fewer than two blocks; of any two feeds one gives a wrong result otherwise |
| `Tdea.EcbUndone` | src/shared/usb/xsm3/excrypt_des.c:108-147 | DES on bytes is undone by the other direction |
| `Tdea.EdeUndone` | src/shared/usb/xsm3/excrypt_des.c:156-170 | EDE is undone by the other direction, for any three keys, both ways |
| `Tdea.CbcUndone` | src/shared/usb/xsm3/excrypt_des.c:172-198 | CBC decryption undoes encryption and encryption undoes decryption, for every key bundle, feed and number of blocks, and both leave the same feed (NIST SP 800-38A, section 6.2) |
| `Tdea.CbcAppend` | src/shared/usb/xsm3/excrypt_des.c:172-198 | processing a and then b with the carried feed is processing their concatenation |
| `Tdea.CbcComplement` | src/shared/usb/xsm3/excrypt_des.c:172-198 | complementing the keys and only the first block complements every block of the ciphertext |
| `Usbdsec.ParityKeepsKey` | src/shared/usb/xsm3/excrypt_des.c:10-22 | the parity step never changes a subkey, so never a ciphertext |
| `Usbdsec.KeyDetermines` | src/shared/usb/xsm3/excrypt_des.c:10-60 | the same for keys as bytes: equal subkeys if and only if the upper seven bits of all bytes are equal |
| `Usbdsec.ParityIsOdd` | src/shared/usb/xsm3/excrypt_des.c:14-20 | counting the one bits of the result gives an odd number if and only if the old low bit was clear |
| `Usbdsec.OneStaysEven` | src/shared/usb/xsm3/excrypt_des.c:14-20 | the byte 1 is one that comes out with even parity |
| `Usbdsec.DesParity` | src/shared/usb/xsm3/excrypt_des.c:10-22 | the new buffer contents, byte for byte |
| `Usbdsec.AuthenticationCrypt` | src/shared/usb/xsm3/usbdsec.c:79-92 | output is two-key triple-DES CBC with a zero vector of the input bytes as they were, in place when encrypting, nothing else changes; and exactly what in-place decryption gives |
| `Usbdsec.CryptUndone` | src/shared/usb/xsm3/usbdsec.c:79-92 | the two directions undo each other for every 16-byte key and any number of blocks |
| `Usbdsec.CryptComplement` | src/shared/usb/xsm3/usbdsec.c:79-92 | complementing the key and the first block complements every ciphertext byte |
| `Usbdsec.AuthenticationMac` | src/shared/usb/xsm3/usbdsec.c:94-134 | the output is MAC Algorithm 3 with padding method 2 (ISO/IEC 9797-1:2011, sections 7.4 and 6.3.3) of the incremented salt, if there is one, followed by the message; the salt is left incremented |
| `Usbdsec.SaltBlock` | src/shared/usb/xsm3/usbdsec.c:112-118 | the salt is stepped in place and its encryption starts the chain |
| `Usbdsec.ChainBlocks` | src/shared/usb/xsm3/usbdsec.c:119-126 | the loop chains the input blocks, each xored in before encryption |
| `Usbdsec.MacIsTriple` | src/shared/usb/xsm3/usbdsec.c:127-134 | the last block and output transformation of Algorithm 3 are the one triple-DES encryption that the code does |
| `Usbdsec.ChainAppend` | src/shared/usb/xsm3/usbdsec.c:119-126 | chaining a and then b is chaining their concatenation |
| `Usbdsec.MacComplement` | src/shared/usb/xsm3/usbdsec.c:94-134 | complementing the key and only the first block complements the unsalted MAC |
| `Usbdsec.AuthenticationAcr` | src/shared/usb/xsm3/usbdsec.c:136-154 | the eight bytes combine both MACs of the fixed text, one chained from the encrypted nonce, one keyed by it and by serial and console id; four zeros land behind them, and nothing else changes |
| `Usbdsec.AcrDependsOn` | src/shared/usb/xsm3/usbdsec.c:136-154 | of the identification data only bytes 0 to 3 and 16 to 23 matter, and of the console id bytes 0 to 3 |
| `Xsm3.AcrOverruns` | src/shared/usb/xsm3/xsm3.c:208-210 | the ACR of challenge init writes one byte behind the response, and no other; the ACR of challenge verify stays inside its buffer |
| `ExcryptSha.ShaState.Expand` | src/shared/usb/xsm3/excrypt_sha.c:8-24 | the 80 words, from the code’s own shifts and rotation, are the message schedule of section 6.1.2 of FIPS 180-4 |
| `ExcryptSha.ShaState.Select` | src/shared/usb/xsm3/excrypt_sha.c:26-48 | the function and constant of each round agree with sections 4.1.1 and 4.2.1, though two are written differently |
| `ExcryptSha.ShaState.ProcessBlock` | src/shared/usb/xsm3/excrypt_sha.c:8-60 | one call is the compression function on the buffered block |
| `ExcryptSha.ShaState.ProcessByte` | src/shared/usb/xsm3/excrypt_sha.c:62-70 | after any byte the state is the hash of all whole blocks fed so far and the buffer holds the rest |
| `ExcryptSha.ShaState.Update` | src/shared/usb/xsm3/excrypt_sha.c:82-88 | feeding a piece is feeding its bytes: how a message is split does not matter |
| `ExcryptSha.ShaState.AppendZeros` | src/shared/usb/xsm3/excrypt_sha.c:90-119 | the padding loops append the least number of zeros that leaves room for the length, in one block or two |
| `ExcryptSha.ShaState.AppendLength` | src/shared/usb/xsm3/excrypt_sha.c:120-126 | the eight length bytes, of which the code computes 32 bits |
| `ExcryptSha.ShaState.Final` | src/shared/usb/xsm3/excrypt_sha.c:90-133 | the digest of everything fed followed by the padding |
| `ExcryptSha.PaddingAgrees` | src/shared/usb/xsm3/excrypt_sha.c:90-126 | the padding the code appends is the one of section 5.1.1 of FIPS 180-4 exactly for lengths below 2^29 bytes |
| `ExcryptSha.DigestIsSha1` | src/shared/usb/xsm3/excrypt_sha.c:135-154 | below that bound the result is SHA-1 |
| `ExcryptSha.Sha` | src/shared/usb/xsm3/excrypt_sha.c:135-154 | SHA-1 of the concatenation of the three inputs, for every total length below 2^29 bytes, and exactly what comes out beyond |
| `Sha1Example.Abc` | src/shared/usb/xsm3/excrypt_sha.c:8-60 | the hash value of the message "abc" is the published one, worked out from the definitions |
| `Sha1Standard.ScheduleBit` | src/shared/usb/xsm3/excrypt_sha.c:17-19 | bit i + 1 of a word behind the message, around the end, is the exclusive or of bit i of the words 3, 8, 14 and 16 before it |
| `Sha1Standard.Rotated` | src/shared/usb/xsm3/excrypt_sha.c:18-57 | rotating by 1, 5 or 30 moves every bit up by as many places, around the end |
| `Sha1Standard.ZerosIsLeast` | src/shared/usb/xsm3/excrypt_sha.c:90-119 | the zero padding fills whole blocks and is the shortest that does |
| `Parve.EcbUndone` | src/shared/usb/xsm3/excrypt_parve.c:6-26 | an explicit inverse undoes all eight rounds, in both orders, for every key and every 256-byte table, bijective or not |
| `Parve.RoundIs` | src/shared/usb/xsm3/excrypt_parve.c:11-23 | each new byte is, modulo 256, the old one plus the table’s entry at the sum of key byte, preceding new byte and round number, with its highest bit moved to the lowest place; the ninth becomes the first |
| `Parve.EcbIs` | src/shared/usb/xsm3/excrypt_parve.c:6-26 | eight rounds, numbered from eight down to one, on the block followed by its first byte |
| `Parve.RoundUndone` | src/shared/usb/xsm3/excrypt_parve.c:11-23 | one round with its chaining through the block and its wrap from the ninth byte is invertible |
| `Parve.CbcMacUndone` | src/shared/usb/xsm3/excrypt_parve.c:28-45 | for a fixed message the MAC is a bijection of the initial block |
| `Parve.CbcMacAppend` | src/shared/usb/xsm3/excrypt_parve.c:28-45 | the MAC of a and then b is the MAC of b from the MAC of a |
| `Parve.CbcMacSeparates` | src/shared/usb/xsm3/excrypt_parve.c:28-45 | two messages that differ in exactly one block never have the same MAC |
| `ExcryptParve.RoundInPlace` | src/shared/usb/xsm3/excrypt_parve.c:11-23 | the inner loop, in place on nine bytes, is one round |
| `ExcryptParve.ParveEcb` | src/shared/usb/xsm3/excrypt_parve.c:6-26 | the nested loops compute the cipher |
| `ExcryptParve.ParveCbcMac` | src/shared/usb/xsm3/excrypt_parve.c:28-45 | the loop computes the chained MAC over the whole blocks |
| `ChainSum.Pass` | src/shared/usb/xsm3/excrypt_parve.c:58-73 | one pass of the loop in 64-bit words stays congruent to the unbounded recurrence modulo 2^31 - 1, and the sum below its linear bound |
| `ChainSum.NoWrap` | src/shared/usb/xsm3/excrypt_parve.c:58-73 | none of the values of a pass reaches 2^64: every product, sum and remainder of the nine statements is the exact one |
| `ChainSum.SumFits` | src/shared/usb/xsm3/excrypt_parve.c:64-72 | the running sum stays far below 2^64 for any 32-bit word count |
| `ChainSum.Accumulate` | src/shared/usb/xsm3/excrypt_parve.c:47-79 | the two result words are those of the unbounded affine recurrence reduced once at the end, for any words and any 32-bit count |
| `ExcryptParve.ChainAndSumMac` | src/shared/usb/xsm3/excrypt_parve.c:47-79 | the same on big-endian bytes, and all twelve bytes that the two copies write: the eight of the result and four zeros behind them |
| `ExcryptParve.CopiesFit` | src/shared/usb/xsm3/excrypt_parve.c:76-77 | the copies stay inside a buffer of n bytes if and only if twelve bytes are left from the offset on |
| `ExcryptParve.WritesExactly` | src/shared/usb/xsm3/excrypt_parve.c:76-77 | the positions written are exactly those whose value afterwards does not depend on what was there |
| `Xsm3.CalculateChecksum` | src/shared/usb/xsm3/xsm3.c:93-104 | the exclusive or of the bytes the header counts, with the eight-bit length arithmetic |
| `Xsm3.VerifyChecksum` | src/shared/usb/xsm3/xsm3.c:111-116 | true exactly when the byte behind them is that value |
| `Xsm3.OwnChecksum` | src/shared/usb/xsm3/xsm3.c:93-116 | for a packet as long as its header says the verdict does not depend on the memory behind it |
| `Xsm3.WithSerialMatches` | src/shared/usb/xsm3/xsm3.c:106-109 | identification data with any serial number carries the serial and a correct checksum |
| `Xsm3.SetSerial` | src/shared/usb/xsm3/xsm3.c:106-109 | writes the serial and the checksum into the identification data and nothing else |
| `Xsm3.PacketMatches` | src/shared/usb/xsm3/xsm3.c:187-189 | every response the controller builds passes the checksum test and carries its contents |
| `Xsm3.Xsm3State.constructor` | src/shared/usb/xsm3/xsm3.c:77-91 | all persistent buffers are zero |
| `Xsm3.Xsm3State.SetIdentificationData` | src/shared/usb/xsm3/xsm3.c:118-146 | the rearranged fields; a wrong checksum is reported and the data still used |
| `Xsm3.IdentificationFields` | src/shared/usb/xsm3/xsm3.c:130-145 | which byte of the given data each byte of the identification data is |
| `Xsm3.Xsm3State.DeriveKeys` | src/shared/usb/xsm3/xsm3.c:175-181 | session keys: the random value under key one, its halves exchanged under key two |
| `Xsm3.Xsm3State.AnswerInit` | src/shared/usb/xsm3/xsm3.c:183-212 | response, stored hash and buffers after the answer to a challenge, including the first byte of whatever buffer lies behind the response |
| `Xsm3.Xsm3State.DoChallengeInit` | src/shared/usb/xsm3/xsm3.c:154-217 | the whole new state of all twelve buffers, for every possible neighbour of the response and every packet; checksum and MAC verdicts are computed and change nothing |
| `Xsm3.Xsm3State.CheckVerify` | src/shared/usb/xsm3/xsm3.c:219-235 | the salt is stepped by one and the MAC verdict is right |
| `Xsm3.Xsm3State.DoChallengeVerify` | src/shared/usb/xsm3/xsm3.c:219-252 | the whole new state after a verify packet, for every packet; the verdicts change nothing |
| `Xsm3Session.HonestInit` | src/shared/usb/xsm3/xsm3.c:154-217 | if the payload is the encrypted r and id, then for all stored keys the response is well formed, passes the checksum test and decrypts under the key derived from r to the controller’s random value and r, and the first salt is made of both; id, SHA-1 of those 32 bytes, encrypted value and stored keys are kept if and only if the zero behind the response does not change them |
| `Xsm3Session.InitPacketCarries` | src/shared/usb/xsm3/xsm3.c:156-173 | an honest challenge passes both tests of the controller |
| `Xsm3Session.InitAgrees` | src/shared/usb/xsm3/xsm3.c:154-217 | after challenge init the controller holds the very session values that the console derives from the response, if and only if the zero behind the response changes none of them |
| `Usbdsec.ZeroedKey` | src/shared/usb/xsm3/xsm3.c:210 | clearing the first byte of a key leaves all its subkeys as they are if and only if that byte is zero or one |
| `Xsm3Session.InitMatches` | src/shared/usb/xsm3/xsm3.c:154-217 | after challenge init the controller has the console’s id, identification data and subkeys, if and only if the byte that the zero behind the response replaces is none of theirs, or was zero, or zero or one in a key |
| `Xsm3Session.VerifyAgrees` | src/shared/usb/xsm3/xsm3.c:219-252 | in one exchange the controller’s checks succeed, the console accepts the answer, and both are in agreement again, two salts on |
| `Xsm3Session.ExchangePasses` | src/shared/usb/xsm3/xsm3.c:219-252 | whatever keys, id and data the controller holds, an exchange with an honest console passes both sides’ checks if and only if the controller’s two MACs and its encrypted ACR are the console’s |
| `Xsm3Session.HonestRun` | src/shared/usb/xsm3/xsm3.c:219-252 | in runs of any length no check on either side ever fails, if id and identification data are the console’s and keys have the console’s subkeys |
| `Xsm3Session.HonestSession` | src/shared/usb/xsm3/xsm3.c:154-252 | all verdicts of a whole session, from challenge init and its response through any number of verifies, are good if and only if both sides compute the same values in every exchange; and they are, whatever the nonces, if the byte that the zero behind the response replaces is in no buffer read later, or was zero, or zero or one in a key |
| `Xsm3Session.HarmlessNeighbour` | src/shared/usb/xsm3/xsm3.c:54-75 | with a neighbour that no session reads, or none, every session succeeds |
| `SaltCounter.NextSaltValue` | src/shared/usb/xsm3/usbdsec.c:112-117 | the byte-swapped increment adds one to the salt read as a big-endian number, modulo 2^64 |
| `Xsm3Session.FirstSalt` | src/shared/usb/xsm3/xsm3.c:215-217 | the counter starts from the last four random bytes of each side |
| `Xsm3Session.SaltsCount` | src/shared/usb/xsm3/xsm3.c:219-252 | after n verify packets, whatever they are, the counter has advanced by 2n modulo 2^64, and the i-th salt in use is its initial value plus i + 1 |
| `Xsm3Session.SaltsDiffer` | src/shared/usb/xsm3/xsm3.c:219-252 | no two salted MACs less than 2^64 apart use the same salt |
| `UnoRings.OutRing.WriteByte` | src/avr/uno/usb/serial_macros.h:38-44 | a free slot takes the byte; nothing queued or staged is overwritten |
| `UnoRings.OutRing.FinishWrite` | src/avr/uno/usb/serial_macros.h:57-59 | the staged bytes join the queue in order and the interrupt is on |
| `UnoRings.OutRing.Enable` | src/avr/uno/usb/serial_macros.h:57-59 | enabling the interrupt leaves the ring in order if and only if bytes are still queued |
| `UnoRings.OutRing.TransmitInterrupt` | src/avr/uno/usb/main.c:614-651 | the oldest byte is sent, and the interrupt turns itself off exactly when the ring has become empty; on a ring that is empty already a stale byte is sent, and 127 more lie between the pointers |
| `UnoRings.OutRing.Free` | src/avr/uno/usb/main.c:268-269 | the two seven-bit pointers give the free space |
| `UnoRings.InRing.ReceiveInterrupt` | src/avr/uno/usb/main.c:592-612 | the byte joins the queue if fewer than 255 are there; the 256th makes the ring look empty, for the reader in progress and for the next |
| `UnoRings.InRing.Available` | src/avr/uno/usb/serial_macros.h:64-66 | the eight-bit pointer difference is the number of unread bytes |
| `UnoRings.InRing.ReadByte` | src/avr/uno/usb/serial_macros.h:22-28 | bytes are read in order of arrival |
| `UnoRings.InRing.FinishRead` | src/avr/uno/usb/serial_macros.h:61-62 | exactly what was read is released |
| `UnoSerial.SerialLink.Poll` | src/avr/uno/usb/main.c:254-273 | an empty packet is acknowledged, and one is accepted exactly if it fits; nothing else changes |
| `UnoSerial.SerialLink.Copy` | src/avr/uno/usb/main.c:274-277 | one byte moves from the endpoint to the ring; nothing else changes |
| `UnoSerial.SerialLink.Run` | src/avr/uno/usb/main.c:259-283 | under every interleaving of host, main loop and interrupt the link goes through the states that the steps lead to; what was sent is a prefix of what was taken, which is a prefix of what the host delivered; the difference is in the ring; the interrupt is enabled exactly if bytes are queued |
| `UnoSerial.WorkShrinks` | src/avr/uno/usb/main.c:259-283 | every step of main loop or interrupt that changes anything does a part of a bounded amount of work |
| `UnoSerial.SettledIsSent` | src/avr/uno/usb/main.c:259-283 | when no step changes anything any more, every byte of packets that fit into the ring has been sent |
| `UnoMain.Main328.ReceiveInterrupt` | src/avr/uno/main/main.cpp:139-153 | the register-level code of the receive interrupt is the transition that the protocol model uses |
| `UnoMain.Main328.TransmitInterrupt` | src/avr/uno/main/main.cpp:156-164 | the same for the transmit interrupt, including the index that wraps when nothing is left |
| `UnoMain.Main328.HandlePacket` | src/avr/uno/main/main.cpp:68-134 | the dispatch puts the whole answer at the start of the buffer and starts sending it, cut to the length found in the buffer after the handler has written there; unanswered packets change nothing |
| `UnoMain.ControlCut` | src/avr/uno/main/main.cpp:108-114 | the answer to a control request has the lesser of the handler’s and the requested length, whatever its bytes are, if and only if there are at most six of them, or seven and at least 256 are requested |
| `UnoMain.InitReportLost` | src/shared/usb/descriptors.cpp:619-620 | of the eight bytes that answer the first report a PlayStation 3 asks for, none is sent |
| `UnoMain.NeverLonger` | src/avr/uno/main/main.cpp:91-114 | an answer is never longer than the handler says, and a descriptor is as long as it is or as was asked for, whichever is less |
| `UnoBridge.HandleControllerData` | src/avr/uno/usb/main.c:120-154 | what is taken off the ring is exactly what the reader of the link model takes of the reply, bytes behind it stay, and the endpoint gets the payload |
| `UnoBridge.HandleControlRequest` | src/avr/uno/usb/main.c:42-117 | the same for control replies, whatever they are and however the host behaves: the payload is delivered in packets, or the one byte is returned, or the bridge reboots |
| `UnoBridge.FedInOrder` | src/avr/uno/usb/main.c:83-115 | the packets are a prefix of the payload, and all of it unless the transfer was ended |
| `UnoBridge.OnlyHostEnds` | src/avr/uno/usb/main.c:88-95 | a transfer is ended only at a look at the endpoint that finds it ended by the host, and no look before has |
| `UnoBridge.PatientHostGetsAll` | src/avr/uno/usb/main.c:88-108 | a host that does not end the transfer and has room for the payload gets all of it, however often it is not ready |
| `UnoBridge.ShortPacketEnds` | src/avr/uno/usb/main.c:88-108 | into an empty endpoint go full packets up to one that is short, possibly empty, and ends the transfer |
| `UnoLink.ReceiveStep` | src/avr/uno/main/main.cpp:139-153 | the receiver accepts the first byte of a request and ends the packet exactly at its last |
| `UnoLink.ReadStep` | src/avr/uno/usb/main.c:42-154 | the bridge’s parser state is determined by how much of the reply it has read, and it stops exactly behind the last byte |
| `UnoLink.StepKeepsInv` | src/avr/uno/usb/main.c:42-154 | whichever of the ten kinds of step comes next, the lock-step invariant is kept |
| `UnoLink.LockStep` | src/avr/uno/main/main.cpp:68-164 | in every run the second processor has decoded exactly the requests made, in order and one packet each; the i-th reply answers the i-th request; the bridge has read exactly the replies sent; between exchanges rings, line and receiver are empty |
| `UnoLink.NothingOverruns` | src/avr/uno/usb/serial_macros.h:10-11 | neither ring nor the packet buffer ever overruns |
| `UnoLink.NeverStuck` | src/avr/uno/usb/main.c:294-336 | an exchange in progress always has a next step |
| `UnoLink.ExchangeEnds` | src/avr/uno/usb/main.c:294-336 | every exchange ends after a bounded number of steps, whatever their order |
| `UnoLink.OutReplyTaken` | src/avr/uno/usb/main.c:70-74 | a reply to a host-to-device control request is read whole if and only if it has no payload or is a restart |
| `UnoLink.RestartDelivered` | src/avr/uno/usb/main.c:42-154 | a restart is always read whole, and the bridge reboots if and only if it answers a control request, not a data request |
| `Twi.Master.Interrupt` | src/avr/shared/io.c:398-481 | every bus status moves the engine as the transition function says, and the address byte that goes out is recorded from the data register |
| `Twi.ReadStep` | src/avr/shared/io.c:455-476 | one interrupt keeps the read invariant |
| `Twi.ReadSafe` | src/avr/shared/io.c:144-249 | for reads of 1 to 32 bytes and every possible event sequence the address byte sent is the wanted one, the index never passes the length, no event that can come next touches memory outside the buffer, the buffer holds the received bytes in order, the reply is NACK exactly for the last byte, and one was answered so if and only if all bytes are there, as they are when a read that got bytes ends without a recorded error (UM10204, section 3.1.6) |
| `Twi.ReadCompletes` | src/avr/shared/io.c:144-249 | a read that a slave answers to ends, for every address and any 1 to 32 bytes, with exactly these bytes and no error, after a start or a held start |
| `Twi.ShortRead` | src/avr/shared/io.c:475-479 | a read of two bytes that a bus error ends after the first, and that leaves the receiving mode like a complete one |
| `Twi.EmptyReadRunsOn` | src/avr/shared/io.c:146-185 | a read of length zero is accepted, never answers NACK, and after 32 bytes would write behind its buffer |
| `Twi.WriteSafe` | src/avr/shared/io.c:251-351 | the address byte sent is the wanted one; acknowledged bytes are always a prefix of the data, and all of it once the transmitting mode has been left without an error; no event that can come next reads outside the buffer |
| `Twi.WriteCompletes` | src/avr/shared/io.c:251-351 | a write that a slave takes ends, for every address and any up to 32 bytes, with all of them acknowledged and no error |
| `Twi.TransactionEnds` | src/avr/shared/io.c:398-481 | whatever ends a transaction leaves the engine ready, if the stop completes |
| `Twi.Master.ReadFrom` | src/avr/shared/io.c:144-249 | the state after a read is the one in which the polling loop stops; nothing is returned after a timeout or when the engine is busy, otherwise everything that came in from the slave addressed; success means at least one byte, and all of them if and only if one was answered by NACK; no recorded error would imply that |
| `Twi.Master.WriteTo` | src/avr/shared/io.c:251-351 | true if and only if the transaction is over without an error, and then every byte was acknowledged in order by the slave addressed |
| `FxptMath.NegAbsBitsNegates` | lib/fxpt_math/src/fxpt_math.c:48-58 | the xor form of the negative absolute value is that, for all 16-bit words |
| `FxptMath.DivFits` | lib/fxpt_math/src/fxpt_math.c:91-93 | the Q15 quotient of the smaller by the larger coordinate fits and has the sign of their ratio |
| `FxptMath.MulExactly` | lib/fxpt_math/src/fxpt_math.c:69-79 | a product is rounded to the nearest, and a half down: r is the result if and only if the exact product is in its half-open interval |
| `FxptMath.UnrotatedExactly` | lib/fxpt_math/src/fxpt_math.c:126-131 | the angle before it is turned is what the two roundings leave: of the correction, and of its sum with the constant times the ratio |
| `FxptMath.FromAxisIs` | lib/fxpt_math/src/fxpt_math.c:110-143 | the arctangent is that angle away from the nearest half axis, and an eighth of a turn on the diagonal |
| `FxptMath.UnrotatedSector` | lib/fxpt_math/src/fxpt_math.c:116-142 | at most an eighth of a turn, on the side of the ratio’s sign, for every Q15 ratio |
| `FxptMath.PolynomialError` | lib/fxpt_math/src/fxpt_math.c:69-79 | the rounded polynomial is within one unit of exact rational evaluation at the same Q15 ratio |
| `FxptMath.Accuracy` | lib/fxpt_math/src/fxpt_math.c:110-143 | the angle from the nearer axis is within 1.34 units of the polynomial of the true ratio of the coordinates |
| `FxptMath.Atan2Accuracy` | lib/fxpt_math/src/fxpt_math.c:110-143 | for every point but the origin, the arctangent differs from the nearest half axis by the polynomial of the true ratio of the coordinates, within 1.34 units of 1/65536 turn |
| `FxptMath.Reflection` | lib/fxpt_math/src/fxpt_math.c:110-143 | exchanging the coordinates reflects the angle in the diagonal, if and only if the point is not the origin |
| `FxptMath.HalfTurn` | lib/fxpt_math/src/fxpt_math.c:110-143 | negating both coordinates adds half a turn, if and only if the point is not the origin |
| `FxptMath.Octant` | lib/fxpt_math/src/fxpt_math.c:110-143 | the angle is in the closed octant of the point |
| `ConsoleMode.DetectionEnds` | src/shared/main/shared_main.cpp:2088-2092 | a run of modes of descending rank has at most three changes and never returns to the universal mode |
| `ConsoleMode.Device.ControlRequestValid` | src/shared/usb/descriptors.cpp:639-707 | which requests are handled, and how the Xbox 360 authentication advances |
| `ConsoleMode.DetectionIsHandled` | src/shared/usb/descriptors.cpp:639-707 | no request that would change the mode is turned away by that test |
| `ConsoleMode.Device.ControlRequest` | src/shared/usb/descriptors.cpp:711-899 | the new mode for every request, one descending change at most, and the handshake kept |
| `ConsoleMode.Device.HidSetReport` | src/shared/hid/hid.cpp:426-460 | which driver a report on the Windows fallback reveals, and in the Xbox One mode how every report moves the handshake |
| `ConsoleMode.Device.Hear` | src/shared/hid/hid.cpp:442-459 | which reports move the handshake, that only the success packet makes it ready, and what is kept for the real controller |
| `ConsoleMode.AnsweredToAuth` | src/shared/hid/hid.cpp:442-459 | a console that keeps answering, with a tick and a report in each of at most nine rounds in any order and anything between, is led to the authentication |
| `ConsoleMode.SuccessMakesReady` | src/shared/hid/hid.cpp:449-459 | from there the success packet leads to the end, whatever comes before and behind it |
| `ConsoleMode.Device.TickXboxOne` | src/shared/main/shared_main.cpp:256-295 | in each of the six states that have a frame it is sent and the state moves on; during authentication the waiting report of the real controller is passed on; otherwise nothing |
| `ConsoleMode.Device.GuessSilentConsole` | src/shared/main/shared_main.cpp:1941-1973 | the mode guessed for a console that keeps silent, by kind of device |
| `ConsoleMode.Device.TickUsb` | src/shared/main/shared_main.cpp:1941-1997 | one pass of the loop, completely: the mode guessed, the step of the handshake, what goes to the console and what to the real controller |
| `ConsoleMode.Device.DetectFromButtons` | src/shared/main/shared_main.cpp:882-977 | the mode that the buttons of a host-side controller choose |
| `ConsoleMode.Device.DeviceReset` | src/shared/main/shared_main.cpp:2019-2026 | the handshake begins again |
| `ConsoleMode.Offered` | src/shared/main/shared_main.cpp:2029-2038 | a report that is offered during authentication replaces one that waits; nothing passed on is repeated, reordered or invented by that |
| `ConsoleMode.Device.Run` | src/shared/main/shared_main.cpp:1941-1997 | over all sequences of events: at most three mode changes, each descending in rank; the frames since a reset are a prefix of the script; ready implies at least four host reports, the last that moved it being the success packet; what is passed on of the real controller’s reports comes after the whole script and is among those offered during authentication, in order and none twice; in the Xbox One mode ticks and reports move the handshake as the step function says |

## Left out

- Configuration macros whose text is generated at build time, the USB stacks, the radio and Bluetooth receivers, `srand` and `rand`: environment, or arguments.
- Xsm3.Xsm3State.DoChallengeInit: 256 bytes from the packet's start on are taken to be readable, which is as far as any header makes the checksum read. Six buffers that are written as a whole or field by field in straight-line code are sequence-valued fields, the others are arrays. Where the response lies in memory is a parameter of the state; memory behind it that belongs to none of these buffers is not modelled.
- Xsm3Session.HonestSession: that a check does fail when the zero changes an id or a subkey is not stated, as it would need that different keys and ids never give the same values; what is stated is that a check fails exactly when the two sides' values differ.
- ExcryptDes.Des3State.Des3Cbc: input and output that overlap without being the same are excluded.
- UnoRings.OutRing.FinishWrite: no interrupt between its two statements; an interrupt there can empty the ring, and `UnoRings.OutRing.TransmitInterrupt` says what the next one then does.
- UnoRings.InRing.ReadByte: called with a byte to read, as its callers wait for one; the serial mode in the direction of this ring is left out.
- UnoMain.Main328.HandlePacket: answers that fit into the buffer with their header; the report of the inputs is sent at most once while a request for it is handled; the three assignments that start a transmission are one step, for the same reason as FinishWrite.
- UnoLink.LockStep: requests of at most 127 bytes and replies of at most 255; ready packets, which are unacknowledged, and host-to-device replies with a payload are not part of the runs (`UnoLink.OutReplyTaken` says why, and `UnoBridge.HandleControlRequest` has them). In the link model the rings are queues; that they are is what UnoRings proves.
- Resetting the serial line encoding while bytes are queued, which drops them on purpose.
- Twi.Master.ReadFrom: a read of length zero is followed only as long as it stays inside the buffer, see `Twi.EmptyReadRunsOn`; the wait for an earlier transaction is not modelled, a busy engine is refused at once; the write-collision loops after a held start are left out; the number of polls before a timeout is any number.
- Twi.Master.WriteTo: the same waits are left out, and only the call that waits for completion is modelled.
- ConsoleMode.Device.ControlRequest: requests answered from tables or passed to a host-side controller change no state and return at once; rebooting commands end the run and are left out.
- UnoBridge.HandleControlRequest: the looks at the endpoint are a list; when it is used up, the transfer counts as ended.
- ConsoleMode.Device.TickUsb: the input report is one opaque output; sequence numbers are left out.
- ConsoleMode.Device.DetectFromButtons: only for processors that restart on a USB reset, the only ones with a host port; detection code that is generated at build time is left out.
- Monotonicity of the arctangent (rounding can step back by one) and `fxpt_asin`.
- Report conversion, calibration, descriptors, LED and rumble code, PS2 and Wii polling: field copies and easy range facts.
