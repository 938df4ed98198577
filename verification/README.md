# barryOS in Dafny

A model of the arithmetic, storage, codec and protocol code of barryOS, a
self-contained x86-64 kernel written in Rust, and proofs of what that code is
for. `dafny verify dfyconfig.toml` checks the whole project.

The project follows the kernel's components:

- **Modular arithmetic** (`Arith`, `Limbs`, `BigNum`, `Modulus`, `Bytes`, `Rsa`,
  `Field25519`, `Encoding25519`, `X25519`, `PrimeField`, `Montgomery`,
  `LadderPoints`, `EllipticCurve`, `Ec`).
  Machine words are integers with their range written out; every place where the
  code keeps the low 64 bits of a wider result says so, and every bound that
  makes a u64 or u128 safe is an obligation. Fast forms (Montgomery products,
  five 51-bit limbs with lazy carries, Jacobian points) are proved equal to the
  mathematics they stand for, down to points of the curves: `Montgomery` is the
  group law on b v^2 = u^3 + 486662 u^2 + u, and `LadderPoints` reads the ladder of
  `X25519` as multiplication of such a point.
- **The filesystem stack** (`FsTree`, `FsPaths`, `FsPool`, `FsSpace`, `FsOrder` are
  values and their laws; `Vfs`, `RamFs`, `DiskSave`, `DiskLoad` are the tables, the pool
  and the drive, changed in place; `DiskFormat`, `DiskImage`, `DiskRoundTrip`,
  `SaveLoad` carry the save/load round trip, `DiskCut` what a save that stops
  half-way leaves, and `DiskTree` which tables load as a tree). The drive is an array of 4 KiB blocks and a set of blocks it
  fails on.
- **Codec, AEAD and hashes** (`Lz4`, `Gf128`, `Gcm`, `Hash`, `Hmac`). The block
  cipher and the compression functions are parameters.
- **Concurrent rings and an allocator** (`RxRing`, `Keyboard`, `FrameAlloc`). The
  two rings are state machines whose steps are the single loads and stores of
  the code, interleaved in every order with the other side.
- **Calendar** (`Calendar`).

`Octets`, `RawBytes` and `Wrappers` hold what several of them share.

## What the code does that its comments do not say

Each of these is a lemma or a clause below.

- `Modulus::pow` returns 1 for an exponent of zero without reducing it, so its
  result is the residue unless the modulus is 1 and the exponent is 0
  (`Moduli.PowMod`).
- `RsaPublic::new` keeps the low 512 bytes of a longer modulus, which is the whole
  modulus exactly when the bytes before them are zero (`Rsa.New`).
- `verify_pkcs1_v15` compares lengths in whole limbs (`Rsa.VerifyPkcs1`). For a key
  whose byte length is not a multiple of eight it never agrees with the standard on
  an accepted signature: two bytes or more short it accepts nothing
  (`Rsa.ShortKeyRefuses`), one byte short only what the standard refuses
  (`Rsa.SpareByte`). `Rsa.OnlyTheStandard` and `Rsa.OnlyTheCode` are signatures that
  one of them accepts.
- `mul_small` takes any u64, and is right exactly when its last carry fits the
  lowest limb (`Field25519.MulSmall`).
- `on_curve` takes coordinates that are not below p. Up to p itself x is read modulo
  p. Above p, on the primes in use, the check is against another right side
  (`Ec.OnCurve`): it refuses every point of the curve there, and whatever it accepts
  there is a point off the curve that gets through. `Ec.OffCurveAccepted` is such a
  point for every x above p and every y.
- `parse_time` ignores what follows the Z (`Calendar.ParsesExactly`), and accepts
  31 February and second 60. It orders a time before every
  later one it accepts exactly when the time names a real day and no leap second, or
  is the last second there is (`Calendar.OrderedIffProper`).
- `create_node` does not look at what its parent is. A created node keeps the
  tree a tree exactly when the parent is a live directory
  (`FsTree.CreateKeepsInvIff`; `FsTree.DeadParent` is one that does not). A full table
  still uses up an id.
- A `write_file` that finds no room moves the bump pointer all the same, and a block
  freed while 32 are on the list is forgotten, as is that of a node unlinked by the
  bare vfs call. Every byte of the pool is free, some file's, or lost in one of these
  ways (`FsSpace.RunConserves`).
- `load` indexes past the inode table when the superblock asks for more than 64
  inodes (`DiskLoad.Load`). It does not look at what a parent is either: what it
  loads is a tree exactly when the table makes the parent of every loaded inode a
  directory (`DiskTree.LoadedIsTree`; `DiskTree.FileUnderFile` is a case where it is not).
- A directory can be given contents by `write_file`, and a symbolic link can
  exist in memory; `save` keeps neither (`SaveLoad.SameNode` says what comes back).
- The comment on `save` says that writing the superblock last leaves the old one
  pointing at a consistent image. Data blocks and the inode table are rewritten in
  place: stopped among the data blocks, the old image survives exactly when no block
  of it was changed (`DiskCut.CutKeepsOld`), and files of unchanged sizes come back
  half new and half old (`DiskCut.CutMixes`, and `DiskCut.TornSave` for two files of
  one byte); from the inode table on the old superblock points at the new tree
  (`DiskCut.CutGivesNew`).
- `alloc` returns address 0 both for failure and for frame 0. When 0 means failure is
  `FrameAlloc.ZeroMeansFullIff`; for `alloc_contig` it is
  `FrameAlloc.ZeroMeansNoRunIff`.
- The LZ4 encoder may end a block with a match, although its comment speaks of a
  rule that a block ends with literals: `Lz4.FiveEqualBytes` is such a block,
  `Lz4.Compress` says when it happens, and `Lz4.FreshEnd` how to tell beforehand that
  it will not.

## Model

| member | source | states |
|---|---|---|
| BigNum.Cmp | kernel/src/crypto/bignum.rs:64-71 | The limb comparison is the comparison of the two numbers. |
| BigNum.SubInto | kernel/src/crypto/bignum.rs:78-86 | The low n limbs become the difference modulo 2^(64n), and the rest of the array is untouched. |
| BigNum.AddMod | kernel/src/crypto/bignum.rs:89-103 | For any operands: the sum, less the modulus once when it is not below it, with the carry out of the top limb counted and the low n limbs kept. |
| BigNum.AddRow | kernel/src/crypto/bignum.rs:113-128 | Adding one limb times a row adds exactly that product; the carry ripple stops inside the array. |
| BigNum.Product | kernel/src/crypto/bignum.rs:112-128 | The schoolbook rows leave a times b. |
| BigNum.Reduce | kernel/src/crypto/bignum.rs:130-146 | Each pass clears one limb by adding a multiple of m; after n passes the low n limbs are zero and the multiplier is below 2^(64n). |
| BigNum.UpperHalf | kernel/src/crypto/bignum.rs:148-151 | The part above the cleared limbs is the quotient by 2^(64n), below 2m, and its top limb is at most 1. |
| BigNum.MontMul | kernel/src/crypto/bignum.rs:109-156 | For a b < m R: the result is below m and, times R, congruent to a b; one final subtraction suffices. |
| Moduli.NewtonDoubles | kernel/src/crypto/bignum.rs:162-164 | A Newton step doubles the number of correct bits of the inverse. |
| Moduli.MontNp0 | kernel/src/crypto/bignum.rs:159-166 | Six steps give -1/m modulo 2^64 for every odd low limb. |
| Moduli.FiveStepsAreTooFew | kernel/src/crypto/bignum.rs:162 | Five steps do not, for the low limb 3. |
| Moduli.RSquared | kernel/src/crypto/bignum.rs:184-192 | 128 n doublings of 1 give R^2 modulo m, reduced when m > 1. |
| Moduli.New | kernel/src/crypto/bignum.rs:178-194 | A modulus is prepared exactly when it has 1 to 64 limbs and is odd, and its constants are right. |
| Moduli.ToMont | kernel/src/crypto/bignum.rs:196-198 | The Montgomery form of a is a R modulo m. |
| Moduli.FromMont | kernel/src/crypto/bignum.rs:200-204 | Leaving the Montgomery form divides by R modulo m. |
| Moduli.Add | kernel/src/crypto/bignum.rs:269-273 | For any operands the sum reduced once; right modulo m when one operand is reduced, and the residue when both are. |
| Moduli.Sub | kernel/src/crypto/bignum.rs:276-284 | For any operands a + (m - b) reduced once; right modulo m when b <= m, and the residue when a is reduced too. |
| Moduli.Mul | kernel/src/crypto/bignum.rs:298-302 | The product of two residues, reduced. |
| Moduli.PowMod | kernel/src/crypto/bignum.rs:209-239 | The scan of the exponent bytes computes base^exp mod m, and exactly when it does not. |
| ByteStrings.FromBeBytes | kernel/src/crypto/bignum.rs:27-46 | The limbs have the value of the last 512 bytes, and the limb count drops leading zero limbs. |
| ByteStrings.ToBeBytes | kernel/src/crypto/bignum.rs:54-62 | The buffer receives the first bytes of the big-endian encoding of the low limbs; what is behind it stays. |
| ByteStrings.EncodeOfValue | kernel/src/crypto/bignum.rs:27-62 | Encoding the value of a byte string at its own length gives the string back. |
| Rsa.New | kernel/src/crypto/rsa.rs:116-133 | A key is made iff both integers are there, the exponent has at most 8 bytes and what is kept of the modulus is odd; N is the value of the last 512 bytes, which is the given modulus iff every byte before them is zero. |
| Rsa.KeptWhole | kernel/src/crypto/bignum.rs:27-46 | The bytes that are kept have the value of the whole string iff the others are zero. |
| Rsa.DigestInfoIs | kernel/src/crypto/rsa.rs:38-55 | Prefix and digest are the DER of DigestInfo: a sequence of the algorithm identifier, OID 2.16.840.1.101.3.4.2.1 to 3 with null parameters, and the digest as an octet string. |
| Rsa.Recover | kernel/src/crypto/rsa.rs:155-164 | The recovered bytes are sig^e mod N at the key's limb length (N = 1 with e = 0 apart), and nothing exactly for sig >= N. |
| Rsa.ScanIsEmsa | kernel/src/crypto/rsa.rs:184-202 | The scan over the padding accepts exactly the one EMSA-PKCS1-v1_5 encoding (section 9.2 of RFC 8017). |
| Rsa.CheckPadding | kernel/src/crypto/rsa.rs:184-202 | The moving index decides whether the block is that encoding. |
| Rsa.VerifyPkcs1 | kernel/src/crypto/rsa.rs:171-203 | Accepts iff encode-and-compare does at the length of the limbs; so iff section 8.2.2 of RFC 8017 does when the modulus fills its limbs. |
| Rsa.ShortKeyRefuses | kernel/src/crypto/rsa.rs:171-203 | A modulus two or more bytes short of its limbs: every signature is refused. |
| Rsa.SpareByte | kernel/src/crypto/rsa.rs:171-203 | One byte short: what is accepted starts with a zero byte, and the standard refuses it with and without that byte. |
| Rsa.OwnSignature | kernel/src/crypto/rsa.rs:171-203 | With exponent 1 an encoding of any length is accepted as its own signature iff it is below the modulus. |
| Rsa.OnlyTheStandard | kernel/src/crypto/rsa.rs:171-203 | With exponent 1 the standard accepts its encoding, and the code at any other length does not. |
| Rsa.OnlyTheCode | kernel/src/crypto/rsa.rs:171-203 | With exponent 1, one spare byte and a modulus of at least 2^(8k - 15), the code accepts its own encoding and the standard does not. |
| Field25519.Carry | kernel/src/crypto/x25519.rs:25-43 | Carrying keeps the value modulo 2^255 - 19 and bounds every limb. |
| Field25519.Add | kernel/src/crypto/x25519.rs:45-52 | Sum modulo p of reduced elements, reduced again. |
| Field25519.Sub | kernel/src/crypto/x25519.rs:54-62 | Difference modulo p; adding a multiple of p first rules out underflow. |
| Field25519.Mul | kernel/src/crypto/x25519.rs:64-99 | Product modulo p; no u128 column overflows. |
| Field25519.MulSmall | kernel/src/crypto/x25519.rs:106-117 | For every u64 constant: the product modulo p iff the word that takes the last carry does not wrap. |
| Field25519.SmallConstants | kernel/src/crypto/x25519.rs:106-117 | It never wraps for a constant up to 2^59. |
| Field25519.SmallWraps | kernel/src/crypto/x25519.rs:106-117 | It does for 2^60 times 2^255 - 1. |
| Encoding25519.FromBytes | kernel/src/crypto/x25519.rs:180-196 | The limbs have the low 255 bits of the little-endian string. |
| Encoding25519.QuotientDecides | kernel/src/crypto/x25519.rs:203-209 | The carry chain of value + 19 is 1 exactly when the value is at least p. |
| Encoding25519.ToBytes | kernel/src/crypto/x25519.rs:198-262 | The bytes are the little-endian encoding of the value modulo p. |
| Encoding25519.RoundTrip | kernel/src/crypto/x25519.rs:180-262 | Decoding the encoding gives the residue of the value modulo p. |
| X25519.Invert | kernel/src/crypto/x25519.rs:123-178 | The addition chain computes z^(2^255 - 21). |
| X25519.Clamp | kernel/src/crypto/x25519.rs:265-269 | The clamped string encodes the decoded scalar of section 5 of RFC 7748. |
| X25519.CSwap | kernel/src/crypto/x25519.rs:312-319 | The masked exclusive-ors swap two elements or leave both. |
| X25519.LadderStep | kernel/src/crypto/x25519.rs:292-304 | One round on limbs is one round of the ladder over integers modulo p, which LadderPoints.StepDoubles says in points. |
| X25519.DeferredSwap | kernel/src/crypto/x25519.rs:284-290 | Swapping by the change of the bit is swapping before and after each round. |
| X25519.ScalarMult | kernel/src/crypto/x25519.rs:272-310 | For all 32-byte inputs the result is the X25519 function of section 5 of RFC 7748, which LadderPoints.MultipliesBytes says in points. |
| Montgomery.AddOnCurve | kernel/src/crypto/x25519.rs:271 | The chord-and-tangent sum of two points of b v^2 = u^3 + 486662 u^2 + u is on the curve. |
| Montgomery.DoubleU | kernel/src/crypto/x25519.rs:294-304 | The u coordinate of 2Q times 4 b v^2 is (u^2 - 1)^2, for a point with v not 0. |
| Montgomery.SumU | kernel/src/crypto/x25519.rs:298-302 | u(Q + R) u(R - Q) (r - q)^2 = (q r - 1)^2 for points over different q and r. |
| LadderPoints.StepIs | kernel/src/crypto/x25519.rs:292-304 | One round, exactly: x2 = (x^2 - z^2)^2, z2 = 4xz(x^2 + 486662xz + z^2), x3 = 4(x2 x3 - z2 z3)^2, z3 = 4 x1 (x2 z3 - x3 z2)^2; so the constant is (486662 - 2) / 4. |
| LadderPoints.DoubleRepresents | kernel/src/crypto/x25519.rs:303-304 | If x : z is a point of the curve then x2 : z2 is twice the point, the origin and the points of order two included. |
| LadderPoints.SumRepresents | kernel/src/crypto/x25519.rs:301-302 | If the two pairs are points whose difference lies over x1, not 0, then x3 : z3 is their sum, in every case of the law. |
| LadderPoints.StepDoubles | kernel/src/crypto/x25519.rs:284-304 | Where the law is associative, a round takes (nP, (n+1)P) to (2nP, (2n+1)P), and with the pair swapped to ((2n+1)P, (2n+2)P). |
| LadderPoints.LadderIs | kernel/src/crypto/x25519.rs:283-305 | There, after the bits of n from 254 down to t the pair is mP and (m+1)P up to Z, for m those bits. |
| LadderPoints.LadderAtZero | kernel/src/crypto/x25519.rs:283-305 | From x1 = 0 modulo p every round leaves both denominators 0. |
| LadderPoints.Multiplies | kernel/src/crypto/x25519.rs:272-310 | Where the law is associative and 2^255 - 19 prime, for every u and every n below 2^255 the result is the u coordinate of n times a point over u, and 0 for the origin. |
| LadderPoints.ScalarRange | kernel/src/crypto/x25519.rs:265-269 | A decoded scalar is a multiple of 8 from 2^254 up to 2^255. |
| LadderPoints.PointOver | kernel/src/crypto/x25519.rs:271-276 | Every number is the u coordinate of a point of one of the curves. |
| LadderPoints.MultipliesBytes | kernel/src/crypto/x25519.rs:271-310 | There, for all 32 + 32 bytes the result is the u coordinate of the decoded scalar times a point over u, on the curve or its twist. |
| LadderPoints.Agreement | kernel/src/crypto/x25519.rs:271-310 | There, two parties that exchange the results of their scalars on one u reach the same number. |
| PrimeField.InverseByPower | kernel/src/crypto/ec.rs:164 | In a prime field a^(p-2) is the inverse of a. |
| EllipticCurve.DoubleIsAffine | kernel/src/crypto/ec.rs:199-218 | The Jacobian doubling formulas represent the affine tangent point, infinity and y = 0 included. |
| EllipticCurve.AddIsAffine | kernel/src/crypto/ec.rs:221-247 | The Jacobian addition formulas represent the affine chord sum, with the infinity, equal and opposite branches. |
| EllipticCurve.DoubleOnCurve | kernel/src/crypto/ec.rs:199-218 | The tangent point of a curve point is on the curve. |
| EllipticCurve.AddOnCurve | kernel/src/crypto/ec.rs:221-247 | The chord sum of two curve points is on the curve. |
| EllipticCurve.EquationIsAffine | kernel/src/crypto/ec.rs:268-289 | A finite Jacobian point satisfies Y^2 = X^3 - 3XZ^4 + bZ^6 exactly when its affine point is on the curve. |
| EllipticCurve.DoubleKeepsEquation | kernel/src/crypto/ec.rs:199-218 | Doubling keeps that equation and reduced coordinates. |
| EllipticCurve.AddKeepsEquation | kernel/src/crypto/ec.rs:221-247 | Addition keeps that equation and reduced coordinates, in every branch. |
| Ec.Double | kernel/src/crypto/ec.rs:199-218 | Doubling on limbs, with x and y reduced or not, is doubling of the represented point; y = p passes the test for 0 and still gives infinity. |
| Ec.AddPoints | kernel/src/crypto/ec.rs:221-247 | Addition on limbs, with x and y reduced or not, is addition of the represented points, every branch. |
| Ec.Inverse | kernel/src/crypto/ec.rs:164 | The power by p - 2 on limbs is the field inverse. |
| Ec.ToAffine | kernel/src/crypto/ec.rs:268-276 | The affine coordinates, and nothing at infinity. |
| Ec.OnCurve | kernel/src/crypto/ec.rs:278-289 | Accepts iff z is not 0 and y^2 is the right side as the code reduces it. For x <= p these are exactly the points on the curve, for any prime and y reduced or not. For x > p and a prime of two thirds of 2^(64 n) or more the right side is 2^(64 n) too large, and no point of the curve is accepted. |
| Ec.OffCurveAccepted | kernel/src/crypto/ec.rs:278-289 | For every x above p and every y, a b whose curve the point is not on, and the check accepts it. |
| Ec.MinusThree | kernel/src/crypto/ec.rs:284-286 | For x <= p, or a prime of two thirds of 2^(64 n) or more: 0 - 3x as the code reduces it is below p and congruent to -3x, plus 2^(64 n) exactly when x > p. |
| Ec.RightHandMeans | kernel/src/crypto/ec.rs:283-287 | There the right side is the residue of x^3 - 3x + b, plus 2^(64 n) exactly when x > p. |
| Ec.DoubleAndAddOnCurve | kernel/src/crypto/ec.rs:250-265 | Double-and-add of a curve point stays on the curve. |
| Ec.DoubleAndAddIsMultiple | kernel/src/crypto/ec.rs:250-265 | Where addition is associative, double-and-add is the n-fold sum. |
| Ec.ScalarMul | kernel/src/crypto/ec.rs:250-265 | For coordinates modulo p the scan over the limbs of k computes double-and-add, stays on the curve, and is k times the point in a group. |
| Lz4.ExtensionIs | scripts/compress-kernel.py:44-71 | A length past the nibble is written as bytes 255 and one smaller byte, the quotient and the remainder by 255. |
| Lz4.DecodesSequence | scripts/compress-kernel.py:44-71 | Decoding one encoded sequence appends its literals and its overlapping copy. |
| Lz4.DecodesBlock | scripts/compress-kernel.py:121-160 | A block of sequences, with or without last literals, decodes to what it stands for, and ends with a literal run exactly when it has them. |
| Lz4.CopyReproduces | scripts/compress-kernel.py:153-157 | Copying a match byte by byte reproduces the data, even where source and target overlap. |
| Lz4.Decompress | scripts/compress-kernel.py:121-160 | The loop computes the decoder's value, with its error for each malformed block. |
| Lz4.EmitSequence | scripts/compress-kernel.py:44-71 | The bytes appended are the encoding of the sequence. |
| Lz4.MatchLength | scripts/compress-kernel.py:82-86 | The match agrees byte for byte and cannot be made longer. |
| Lz4.FindMatch | scripts/compress-kernel.py:76-88 | The match of the greedy parse: the last earlier occurrence of the four bytes if it is near enough, never a missed one; the table stays exact. |
| Lz4.IndexMatch | scripts/compress-kernel.py:96-98 | The table holds the last position of every key before the end of the match. |
| Lz4.ParseEmits | scripts/compress-kernel.py:72-102 | The sequences of the greedy parse stand for the data up to the pending literals, in at most one byte per 255 more. |
| Lz4.BlockMeans | scripts/compress-kernel.py:36-118 | The block of the parse decodes to the data, is at most n + n/255 + 2 bytes, and ends with literals iff some are pending or there is no data. |
| Lz4.Compress | scripts/compress-kernel.py:36-118 | For every input the output is the block of the greedy parse, with those properties. |
| Lz4.FreshEnd | scripts/compress-kernel.py:104-118 | When the last four bytes do not occur in the 65535 before them, the block ends with literals. |
| Lz4.FiveEqualBytes | scripts/compress-kernel.py:104-118 | Five equal bytes give a block that ends with a match. |
| Lz4.RoundTrip | scripts/compress-kernel.py:163-173 | Compressing and decompressing returns the input without an error. |
| Calendar.ClosedForm | kernel/src/crypto/x509.rs:248-256 | The era arithmetic is the day count of the March-based year. |
| Calendar.DaysStep | kernel/src/crypto/x509.rs:248-256 | The day after has the next number, over month, year and century ends. |
| Calendar.Epoch | kernel/src/crypto/x509.rs:248-256 | 1 January 1970 is day 0. |
| Calendar.CivilUndoesDays | kernel/src/apps/terminal.rs:1206-1221 | The printed date of a date's day number is the date. |
| Calendar.DaysUndoesCivil | kernel/src/apps/terminal.rs:1206-1221 | The day number of the printed date is the day number. |
| Calendar.LaterIsLarger | kernel/src/crypto/x509.rs:248-256 | Day numbers are strictly increasing in the date. |
| Calendar.OrderedIffProper | kernel/src/crypto/x509.rs:195-230 | An accepted time is ordered before all later accepted ones iff it names a real day and no leap second, or is 9999-12-31 23:59:60. |
| Calendar.Misordered | kernel/src/crypto/x509.rs:195-230 | For every other accepted time, a later accepted one that does not come out larger. |
| Calendar.ParsesWritten | kernel/src/crypto/x509.rs:195-246 | Parsing the written form of any accepted time gives its seconds, as a GeneralizedTime and, for the years 1950 to 2049, as a UTCTime. |
| Calendar.ParsesExactly | kernel/src/crypto/x509.rs:195-246 | A string is parsed to v iff it begins with the written form, for its tag, of an accepted time with v seconds. |
| FsTree.LookupSpec | kernel/src/fs/vfs.rs:405-433 | In a tree a lookup finds exactly the child of that name. |
| FsTree.CreateKeepsInv | kernel/src/fs/vfs.rs:324-383 | Creating a node under a live directory keeps the tree invariant, whatever the outcome. |
| FsTree.CreateKeepsInvIff | kernel/src/fs/vfs.rs:324-383 | A node that is created keeps the invariant iff its parent is a live directory. |
| FsTree.DeadParent | kernel/src/fs/vfs.rs:324-383 | Creating under an id that does not exist succeeds and leaves no tree. |
| FsTree.UnlinkKeepsInv | kernel/src/fs/vfs.rs:469-487 | Unlinking keeps the tree invariant. |
| FsTree.RenameKeepsInv | kernel/src/fs/vfs.rs:490-507 | Renaming keeps the tree invariant, sibling names distinct. |
| FsTree.CreateFound | kernel/src/fs/vfs.rs:324-369 | A node created is found under its name, empty, with the kind and owner asked for and mode 755 or 644, and every other node and child stays. |
| FsTree.CreateSucceedsIff | kernel/src/fs/vfs.rs:324-369 | create succeeds iff the name is good and no child has it, the directory has a place and the table has one. A failure changes no node, and uses up an id iff only the table was full. |
| FsTree.UnlinkGone | kernel/src/fs/vfs.rs:469-487 | A name unlinked is no longer found, and every other node and child stays. |
| FsTree.UnlinkSucceedsIff | kernel/src/fs/vfs.rs:469-487 | unlink succeeds iff a child has the name and is no directory with children. |
| FsTree.RenameSucceedsIff | kernel/src/fs/vfs.rs:490-507 | rename succeeds iff a child has the old name, the new one is good and no other child has it. |
| FsTree.RenameMoved | kernel/src/fs/vfs.rs:490-507 | A node renamed is found under the new name and not the old, and nothing else of it changes. |
| FsTree.RunKeepsInv | kernel/src/fs/vfs.rs:324-507 | Every run of create, unlink and rename keeps the tree invariant. |
| FsTree.OneParent | kernel/src/fs/vfs.rs:371-402 | A node is in exactly one child list, once, its parent's, and has a larger id than its parent. |
| FsPaths.PathResolves | kernel/src/fs/vfs.rs:511-627 | Resolving the path of a node finds the node, for plain names up to 16 deep. |
| FsPaths.SplitJoin | kernel/src/fs/vfs.rs:513 | Splitting two paths joined by a slash splits each. |
| FsPaths.ResolvedJoins | kernel/src/fs/vfs.rs:535-555 | A joined path leads where its second part leads from where its first part leads; joining to the empty path makes it absolute. |
| FsPaths.DotDot | kernel/src/fs/vfs.rs:517-522 | In a tree ".." leads from a node to the one node whose child list holds it, and from the root to the root. |
| FsPaths.ThenDotDot | kernel/src/fs/vfs.rs:541-546 | A path followed by "/.." leads above what the path leads to, and to nothing if that is missing. |
| FsPaths.ThereAndBack | kernel/src/fs/vfs.rs:511-531 | "name/.." leads back to a directory that has a child of that plain name. |
| FsPaths.TrailingDot | kernel/src/fs/vfs.rs:514-516 | A trailing "/" or "/." changes nothing, found or not. |
| FsPaths.WalkLive | kernel/src/fs/vfs.rs:511-531 | In a tree every path from a live node leads to a live node or to nothing. |
| Vfs.NodesSize | kernel/src/fs/vfs.rs:117-125 | The table is full exactly when 64 ids are live. |
| Vfs.Table.FindSlot | kernel/src/fs/vfs.rs:133-144 | Finds the slot of a live id, and nothing for any other. |
| Vfs.Table.AllocSlot | kernel/src/fs/vfs.rs:117-125 | A free slot unless 64 nodes are live. |
| Vfs.Table.Lookup | kernel/src/fs/vfs.rs:405-433 | The loop computes the lookup of the tree. |
| Vfs.Table.Create | kernel/src/fs/vfs.rs:324-369 | The table becomes the tree with the node created, or what a refused or failed create leaves. |
| Vfs.Table.LinkChild | kernel/src/fs/vfs.rs:372-383 | The child is appended to a list that has room. |
| Vfs.Table.UnlinkChild | kernel/src/fs/vfs.rs:386-402 | The first occurrence goes and the order of the rest stays. |
| Vfs.Table.Unlink | kernel/src/fs/vfs.rs:469-487 | The table becomes the tree without the node, and refuses what the tree refuses. |
| Vfs.Table.Rename | kernel/src/fs/vfs.rs:490-507 | The table becomes the tree with the node renamed, and refuses a taken name. |
| Vfs.Table.Reset | kernel/src/fs/vfs.rs:292-311 | The table holds the root alone. |
| Vfs.Table.ResolveFrom | kernel/src/fs/vfs.rs:535-555 | The loop over the components walks the split path, from any start, 0 included. |
| Vfs.Table.Resolve | kernel/src/fs/vfs.rs:511-531 | The same from the root. |
| Vfs.Table.PathInto | kernel/src/fs/vfs.rs:591-627 | The buffer receives the path of the node, or as much of it as fits. |
| FsPool.AllocSafe | kernel/src/fs/ramfs.rs:57-89 | A block handed out touches no live extent and no free block, and lies in the pool. |
| FsPool.WriteKeepsInv | kernel/src/fs/ramfs.rs:114-153 | Live extents and free blocks stay pairwise disjoint inside [1, DATA_POOL_SIZE), also after the bump pointer has overrun. |
| FsPool.WriteReads | kernel/src/fs/ramfs.rs:114-170 | A write that succeeds is read back; one that fails leaves tree and contents. |
| FsPool.WriteOthers | kernel/src/fs/ramfs.rs:114-153 | No other file's bytes change. |
| FsPool.WriteSucceeds | kernel/src/fs/ramfs.rs:82-88 | A write that fits behind the bump pointer succeeds. |
| FsSpace.WriteSucceedsIff | kernel/src/fs/ramfs.rs:57-153 | A write succeeds iff the data is empty, fits the file's block, fits some free block, or fits behind the bump pointer. |
| FsSpace.ReuseAfterRemove | kernel/src/fs/ramfs.rs:92-105 | After a file is removed with fewer than 32 free blocks, a write of up to its capacity to any file succeeds. |
| FsSpace.ReuseAfterEmptying | kernel/src/fs/ramfs.rs:123-129 | The same after a file is emptied. |
| FsSpace.WriteConserves | kernel/src/fs/ramfs.rs:57-153 | How many bytes of the pool a write loses: those it could not get, or the old block when the list is full, and otherwise none. |
| FsSpace.RemoveConserves | kernel/src/fs/ramfs.rs:221-238 | Removing a file loses its bytes iff the free list is full. |
| FsSpace.RunConserves | kernel/src/fs/ramfs.rs:57-242 | Over every run the bytes handed out are the free ones, those of files, and those lost step by step. |
| FsPool.RemoveKeepsInv | kernel/src/fs/ramfs.rs:221-238 | Unlinking gives the block back, keeps the pool invariant and every other file's bytes. |
| FsPool.StepKeeps | kernel/src/fs/ramfs.rs:57-242 | Every operation, the bare vfs unlink included, keeps tree and pool, and every file has the bytes it had or those just written. |
| FsPool.RunSafe | kernel/src/fs/ramfs.rs:57-242 | Over every run tree and pool invariants hold, and each file reads back its last successful write. |
| RamFs.Files.AllocData | kernel/src/fs/ramfs.rs:57-89 | First fit over the free list, then the bump pointer, which moves even when it fails. |
| RamFs.Files.FreeData | kernel/src/fs/ramfs.rs:92-105 | The block joins the list, or is lost when 32 are on it. |
| RamFs.Files.WriteFile | kernel/src/fs/ramfs.rs:114-153 | Pool and table become the state after the write. |
| RamFs.Files.ReadFile | kernel/src/fs/ramfs.rs:156-170 | The buffer receives the contents, or as much as fits. |
| RamFs.Files.ReadFileAt | kernel/src/fs/ramfs.rs:174-188 | The buffer receives the contents from an offset on. |
| RamFs.Files.Unlink | kernel/src/fs/ramfs.rs:221-238 | Pool and table become the state after the removal. |
| FsOrder.VisitOne | kernel/src/fs/diskfs.rs:264-278 | Visiting one node keeps the queue a prefix of the breadth-first order. |
| FsOrder.CollectOrder | kernel/src/fs/diskfs.rs:255-280 | Every live node once, the root first, parents before children, child lists in order; the queue never overflows. |
| DiskFormat.PackLayout | kernel/src/fs/diskfs.rs:163-177 | The bytes of an inode at which each field lies as a little-endian number. |
| DiskFormat.SuperLayout | kernel/src/fs/diskfs.rs:146-158 | The same for the superblock, zero behind them. |
| DiskFormat.UnpackPack | kernel/src/fs/diskfs.rs:163-199 | Unpacking a packed inode gives the inode. |
| DiskFormat.UnpackPackSuper | kernel/src/fs/diskfs.rs:115-158 | Reading a written superblock gives it back, and nothing without the magic number. |
| DiskImage.RunsApart | kernel/src/fs/diskfs.rs:332-365 | The block runs of different files do not overlap. |
| DiskImage.RunInside | kernel/src/fs/diskfs.rs:332-365 | Every run lies in [3, 1024). |
| DiskImage.BitmapExact | kernel/src/fs/diskfs.rs:359-363 | A block is marked exactly when it belongs to some file's run. |
| DiskSave.SaveData | kernel/src/fs/diskfs.rs:345-358 | Succeeds iff the drive works on the run; then the run holds the bytes, zero behind the end, written in order. No other block changes. |
| DiskSave.MarkBlocks | kernel/src/fs/diskfs.rs:359-363 | Bits are set for the run and no others. |
| DiskSave.SaveSlot | kernel/src/fs/diskfs.rs:295-371 | Succeeds iff the drive works on the run of the node; then its inode, bits and blocks are added to the image. |
| DiskSave.Save | kernel/src/fs/diskfs.rs:283-405 | Never runs out of blocks; succeeds iff the drive works on every block of the image, then leaves the image of the whole tree with the generation counted up, written data first and superblock last; a failure leaves the old superblock. |
| DiskLoad.ReadRun | kernel/src/fs/diskfs.rs:467-479 | The bytes of a run, zero from the first block that is off the disk or cannot be read. |
| DiskLoad.LoadOneTidy | kernel/src/fs/diskfs.rs:430-487 | Whatever an inode says, loading it keeps the pool invariant. |
| DiskLoad.LoadInode | kernel/src/fs/diskfs.rs:430-487 | One inode, with every way it can be skipped. |
| DiskLoad.Load | kernel/src/fs/diskfs.rs:408-497 | For any disk and any unreadable blocks: when the load refuses and leaves everything, when it panics, and what it builds. |
| DiskTree.LoadedIsTree | kernel/src/fs/diskfs.rs:430-487 | For any disk: what is loaded is a tree iff the table gives every inode that becomes a node a directory as its parent. |
| DiskTree.FileUnderFile | kernel/src/fs/diskfs.rs:444-460 | An inode that names a file as its parent becomes its child, and the result is no tree. |
| DiskRoundTrip.LoadNode | kernel/src/fs/diskfs.rs:444-486 | Loading the inode of item n adds node n + 1 as the item describes it. |
| DiskRoundTrip.LoadRest | kernel/src/fs/diskfs.rs:430-487 | Loading an image rebuilds all its items; unused slots change nothing. |
| SaveLoad.ChildOrder | kernel/src/fs/diskfs.rs:253-280 | Sorting by disk index keeps every child list in order. |
| SaveLoad.RoundTrip | kernel/src/fs/diskfs.rs:282-497 | Loading a saved tree gives the same tree up to ids: names, child order, kinds, owners, modes and bytes. |
| SaveLoad.SaveThenLoad | kernel/src/fs/diskfs.rs:282-497 | The two calls in sequence do so on the tables, pool and drive, iff the drive works on every block of the image. |
| DiskCut.TurnIs | kernel/src/fs/diskfs.rs:374-402 | The place of each block among the writes of a save. |
| DiskCut.CutKeepsOld | kernel/src/fs/diskfs.rs:332-376 | A save stopped before the inode table leaves the old image iff no block of it was changed. |
| DiskCut.CutMixes | kernel/src/fs/diskfs.rs:332-376 | Stopped between two files whose sizes did not change, it leaves the image of the new contents before and the old contents behind. |
| DiskCut.ImageExists | kernel/src/fs/diskfs.rs:283-405 | Every list of at most 64 items has an image. |
| DiskCut.TornSave | kernel/src/fs/diskfs.rs:332-376 | Two one-byte files saved over and stopped after one write: the disk is the image of one new and one old file, and of neither save. |
| DiskCut.CutGivesNew | kernel/src/fs/diskfs.rs:374-402 | Stopped after the inode table, a load gives the new tree under either superblock. |
| Gf128.HalvePoly | kernel/src/crypto/aes.rs:153-161 | The shift and fold multiply by x modulo x^128 + x^7 + x^2 + x + 1. |
| Gf128.GfMulIsProduct | kernel/src/crypto/aes.rs:143-164 | The product of two blocks is that of their polynomials, in reflected bit order, modulo the field polynomial. |
| Gf128.ReducedUnique | kernel/src/crypto/aes.rs:143-164 | No other block is congruent to that product. |
| Gf128.ProductCoefficient | kernel/src/crypto/aes.rs:143-164 | The polynomial product is the convolution of the coefficients. |
| Gf128.Multiply | kernel/src/crypto/aes.rs:143-164 | The in-place loops compute it. |
| Gf128.GfMulXor | kernel/src/crypto/aes.rs:141-164 | Multiplication distributes over the sum of blocks. |
| Gcm.GhashIs | kernel/src/crypto/aes.rs:167-176 | The hash of m blocks is X1 H^m + X2 H^(m-1) + .. + Xm H (section 6.4 of NIST SP 800-38D). |
| Gcm.GhashPieces | kernel/src/crypto/aes.rs:205-220 | Whole blocks, then the padded rest: the hash of the padded string. |
| Gcm.LengthsAre | kernel/src/crypto/aes.rs:221-223 | Read as big-endian numbers, the first half of the last block is 8 times the length of aad and the second 8 times that of ct, modulo 2^64. |
| Gcm.AuthenticatedIs | kernel/src/crypto/aes.rs:204-224 | The string hashed is the two padded strings and the one block whose halves are those numbers. |
| Gcm.AuthenticatedInjective | kernel/src/crypto/aes.rs:204-224 | Data and ciphertext below 2^61 bytes are fixed by that string. |
| Gcm.GhashThree | kernel/src/crypto/aes.rs:204-224 | Piece by piece, the hash is that of the one string of section 7 of NIST SP 800-38D. |
| Gcm.GhashInto | kernel/src/crypto/aes.rs:167-176 | The loop hashes the whole blocks of its input. |
| Gcm.ComputeTag | kernel/src/crypto/aes.rs:189-232 | The tag of that string, and nothing for a wrong key or IV length. |
| Gcm.IncCounts | kernel/src/crypto/aes.rs:292-299 | The carry loop counts modulo 2^32. |
| Gcm.Increment | kernel/src/crypto/aes.rs:292-299 | In place, from the last byte up. |
| Gcm.CountersDistinct | kernel/src/crypto/aes.rs:235-249 | No counter block comes twice in 2^32 blocks, and the one under the tag not in the first 2^32 - 1. |
| Gcm.CounterMode | kernel/src/crypto/aes.rs:235-249 | Each byte is masked by its byte of the keystream; nothing behind the data changes. |
| Gcm.OpenSeal | kernel/src/crypto/aes.rs:255-290 | Decrypting an encryption gives the plaintext, for every block function. |
| Gcm.Encrypt | kernel/src/crypto/aes.rs:255-265 | When it succeeds, what it writes, and that a refusal writes nothing. |
| Gcm.SameTag | kernel/src/crypto/aes.rs:280-286 | The accumulated difference is zero exactly for equal tags. |
| Gcm.Decrypt | kernel/src/crypto/aes.rs:272-290 | Succeeds exactly on a matching tag, and otherwise leaves the output untouched. |
| Hash.PaddingIs | kernel/src/sha256.rs:81-87 | The padding is 80, fewer than a block of zeros, and the number of bits modulo 256^field. |
| Hash.WordsAre | kernel/src/sha256.rs:89-93 | Bytes of the digest read as big-endian numbers are the words of the state. |
| RawBytes.ValueIs | kernel/src/sha256.rs:86 | What is written in k big-endian bytes reads as the number modulo 256^k. |
| Hash.Absorb | kernel/src/sha256.rs:50-77 | Bytes short of a block change no state; bytes that complete one compress it. |
| Hash.PaddingFills | kernel/src/sha256.rs:81-87 | The padded message is a whole number of blocks. |
| Hash.PadFits | kernel/src/crypto/sha512.rs:97-100 | The padding never outgrows a buffer of one block and one length field, and fills it for one length. |
| Hash.PadIs | kernel/src/sha256.rs:82-86 | The code's padding is that of sections 5.1.1 and 5.1.2 of FIPS 180-4. |
| Hash.BitLength | kernel/src/sha256.rs:80-86 | The wrapping byte count gives the length field of the message. |
| Hash.Hasher.Update | kernel/src/sha256.rs:50-77 | The state has taken in the message and the data. |
| Hash.Hasher.Feed | kernel/src/sha256.rs:97-107 | The same byte by byte, without counting. |
| Hash.Hasher.Finish | kernel/src/sha256.rs:79-94 | The digest of all bytes given: the fold over the padded blocks. |
| Hash.Hasher.FinishTruncated | kernel/src/crypto/sha512.rs:126-132 | SHA-384 is the first 48 bytes. |
| Hash.HashParts | kernel/src/crypto/sha512.rs:68-118 | However the message is cut into updates, the digest is that of the message. |
| Hmac.MacParts | kernel/src/crypto/hmac.rs:16-45 | The HMAC of section 2 of RFC 2104 of the concatenated parts. |
| RxRing.InitialInv | kernel/src/net/e1000.rs:289-306 | The programmed rings satisfy the invariant. |
| RxRing.StepKeeps | kernel/src/net/e1000.rs:371-408 | Every step of driver or card keeps it. |
| RxRing.Safety | kernel/src/net/e1000.rs:398-404 | Between calls RDT = RX_CUR - 1 mod 8; the driver copies, clears and hands back only slots the card does not own. |
| RxRing.NoneMeansNothing | kernel/src/net/e1000.rs:382-391 | A call comes back empty-handed only when no frame was waiting. |
| RxRing.RunKeeps | kernel/src/net/e1000.rs:253-408 | The invariant holds in every state of every interleaving. |
| RxRing.InOrder | kernel/src/net/e1000.rs:253-408 | Frames come out once each, in arrival order, whole or cut to the caller's buffer. |
| KeyQueue.PushKeeps | kernel/src/dev/keyboard.rs:93-104 | A key is accepted, or dropped exactly when 63 are queued. |
| KeyQueue.PollKeeps | kernel/src/dev/keyboard.rs:79-90 | poll takes keys in order and returns nothing only when nothing is queued. |
| KeyQueue.QueuedIs | kernel/src/dev/keyboard.rs:202-206 | queued() is the number of accepted keys not yet read. |
| Keyboard.DecodesEvents | kernel/src/dev/keyboard.rs:209-289 | Byte by byte the machine gives the keys of the stream read as plain and prefixed codes. |
| Keyboard.Layout | kernel/src/dev/keyboard.rs:18-36 | The characters of the four rows with and without Shift, and no others. |
| Keyboard.CharacterIs | kernel/src/dev/keyboard.rs:270-288 | Shift or Caps Lock makes a letter a capital; every other key follows Shift alone. |
| Keyboard.NavigationDistinct | kernel/src/dev/keyboard.rs:223-245 | No two codes behind a prefix give the same key. |
| Keyboard.EventKey | kernel/src/dev/keyboard.rs:223-288 | A code gives at most one key, which is a navigation key exactly when it came behind 0xE0. |
| Keyboard.NavigationKeys | kernel/src/dev/keyboard.rs:209-289 | Of the keys of a stream of bytes, those of the navigation block are the presses behind a prefix, in order, whatever the modifiers. |
| Keyboard.NextKeeps | kernel/src/dev/keyboard.rs:79-104 | Interrupts between the steps of poll lose no key but those dropped with 63 queued. |
| Keyboard.RunKeeps | kernel/src/dev/keyboard.rs:79-104 | In every run keys read are the first keys accepted, those are the keys decoded, in order, less the lost, and those are the keys of all bytes so far. |
| Keyboard.EndToEnd | kernel/src/dev/keyboard.rs:79-289 | From the bytes to the reader: keys read are the first of the keys of the events, in order, less the lost, and exactly those when none is lost. |
| FrameAlloc.AllocFails | kernel/src/mem/frame_alloc.rs:91-103 | The search from the hint fails exactly when no frame is free. |
| FrameAlloc.LowestRunIs | kernel/src/mem/frame_alloc.rs:106-125 | No run of n free frames starts lower than the one taken. |
| FrameAlloc.ZeroMeansFullIff | kernel/src/mem/frame_alloc.rs:91-103 | alloc returning 0 means that no frame is free iff frame 0 is in use, or the hint is above 0 with a free frame at or above it. |
| FrameAlloc.ZeroMeansNoRunIff | kernel/src/mem/frame_alloc.rs:106-125 | alloc_contig returning 0 means that there is no run of n free frames iff no such run starts at frame 0. |
| FrameAlloc.TakesZero | kernel/src/mem/frame_alloc.rs:91-103 | Frame 0 is handed out exactly when it is free and the search from the hint wraps around to it. |
| FrameAlloc.AllocAscends | kernel/src/mem/frame_alloc.rs:91-103 | The alloc after an alloc takes the first free frame above, if there is one. |
| FrameAlloc.ContigAscends | kernel/src/mem/frame_alloc.rs:106-125 | So does the alloc after an alloc_contig, above the run. |
| FrameAlloc.GivenBack | kernel/src/mem/frame_alloc.rs:128-137 | A frame freed is free, and no other frame changes. |
| FrameAlloc.GivenBackNext | kernel/src/mem/frame_alloc.rs:91-137 | The next alloc succeeds, and grants it iff it lies below the hint or no frame from the hint up to it is free; bitmap and count are then as before. |
| FrameAlloc.StepSafe | kernel/src/mem/frame_alloc.rs:91-137 | Frames granted are not held, not the kernel's; frames_used minus the bitmap population is kept. |
| FrameAlloc.RunSafe | kernel/src/mem/frame_alloc.rs:91-137 | The same over every run that frees only what it holds. |
| FrameAlloc.Allocator.Init | kernel/src/mem/frame_alloc.rs:46-88 | A frame is free iff a usable region holds it and it is outside [1 MiB, 16 MiB). |
| FrameAlloc.Allocator.InitSafe | kernel/src/mem/frame_alloc.rs:46-88 | The state after init starts a safe run when frame 0 is not usable. |
| FrameAlloc.Allocator.Alloc | kernel/src/mem/frame_alloc.rs:91-103 | The first free frame at or after the hint, cyclically. |
| FrameAlloc.Allocator.AllocContig | kernel/src/mem/frame_alloc.rs:106-125 | One pass finds the lowest run of n free frames and marks it. |
| FrameAlloc.Allocator.Free | kernel/src/mem/frame_alloc.rs:128-137 | A used frame is cleared and the hint lowered; anything else changes nothing. |

## Left out

- AES rounds, SHA compression, curve constants and the published vectors: finite tables; they are parameters here.
- RSA-PSS, ECDSA, TLS, X.509 parsing beyond times, trust store, HTTP: protocol plumbing around the modelled primitives.
- Associativity of the chord-and-tangent law: `Ec.ScalarMul` takes it as a hypothesis for its k-fold-sum clause only, and `LadderPoints` from `StepDoubles` on.
- The primality of 2^255 - 19: a hypothesis of `LadderPoints.Multiplies` and what follows from it; `LadderPoints.LadderIs` holds for every prime above 10^6.
- `point_from_bytes`, `Ec::new` and the curve constants: a curve here is any odd prime, with p - 2 as bytes and b below p.
- Ec.OnCurve: for x above p on a prime below two thirds of 2^(64 n), which neither curve has, only the value compared with is stated.
- z coordinates not below p: the code makes z itself, so x and y alone may be unreduced here.
- Timing: the branch-free selections are modelled by what they compute.
- Overflow panics of debug builds: where a word can overflow it wraps here, as in the release profile.
- Drive failures that come and go: a block fails always or never, and a failed write may leave anything in its own block.
- Stopping inside a block write: `DiskCut` stops between two writes.
- Pool space after `load`: `reset` does not return old extents, so the round trip asks for room behind the bump pointer.
- UTF-8: names are byte strings; the check on load is a parameter that the saved names satisfy, as Rust strings do.
- Permissions (`perm.rs`), `split_parent`, `read_dir` into caller buffers, statistics and printing are not modelled.
- Vnode ids and pool offsets as u64: they are unbounded numbers here.
- Free list and child list storage: fixed arrays with a count are sequences of bounded length here.
- `index_of` in `save`: the array is the identity on filled slots, so the search is over the slots written so far.
- The receive ring and the keyboard as objects: they are step relations on values, because the point is the interleaving inside a call.
- The e1000 card writes only to descriptors between RDH and RDT: an assumption about the hardware.
- The transmit ring, EEPROM, PS/2 controller, PCI, interrupts, paging, boot loader, framebuffer and applications are not modelled.
- frames_usable counts a frame once per region that holds it: only the bitmap and the drift of frames_used are stated.
