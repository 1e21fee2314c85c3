# RGB-PQ: a verified model

RGB-PQ closes RGB single-use seals on Bitcoin Quantum with post-quantum ownership. This project models the parts
of it that decide whether a commitment is bound to a seal, and proves what those parts promise:

- **Commitment trees** (`Taproot.dfy`, `ScriptTree.dfy`, `P2mrRet.dfy`, `Multi.dfy`): tagged hashes, CompactSize,
  leaf and branch hashes, Merkle proofs against script trees of any shape, the two-leaf P2MR-ret tree, and the
  fold of N commitments.
- **Seals** (`Domain.dfy`, `SealTypes.dfy`, `Seal.dfy`): the binary codec of a seal and its domain-separated digest.
- **Opret commitments** (`Commitment.dfy`, `Scanners.dfy`): the payload codec, the OP_RETURN script, and the three
  scanners that look for a commitment among transaction outputs.
- **Indexers** (`Text.dfy`, `MemIndexer.dfy`, `SqliteIndexer.dfy`): the reorg-aware cache in its two implementations,
  over whole runs.
- **Resolver** (`Resolver.dfy`): the verdict on a seal over the answers of an arbitrary backend.
- **Base64** (`Base64.dfy`): the small encoder behind HTTP basic authentication.

Code that changes things step by step is modelled by methods with loops and by classes (`MemIndexer`,
`SqliteIndexer`, `Transaction`, `Buffer`), each proved against a function; the theorems are about those functions.

**SHA-256** (FIPS 180-4) is a parameter `sha` of type "byte string to 32 bytes", and every theorem holds for each such
function. Nothing assumes it is injective, which would be false of every function of this type. A binding theorem
ends in "or `Collides(sha, S)`", where `S` is the finite set of strings that were hashed on the way; that some two
strings *somewhere* have one digest is true by counting and would say nothing.

## Where the code and its comments differ

The model follows the code; in each case the true statement is proved.

- The depth labels of the multi-protocol tree (`multi.rs:85-88`) are the depths of a script tree only for one
  commitment: `MultiProtocol.LabelsExact`.
- The leaf search reads only the first push of a leaf, so it never sees a multi-protocol leaf, although both kinds are
  built by the same crate: `MultiProtocol.IndexedLeafUnseen`. It reads the byte after OP_RETURN as a CompactSize,
  not as a push opcode, and ignores what follows the payload: `P2mrRet.LeafCommitmentExact`.
- "Consumed exactly" (`seal.rs:199`) is not enforced: `Seals.TrailingBytesIgnored`. It holds exactly for inputs as long
  as their two length bytes say: `Seals.ConsumedExactly`.
- The payload scanner stops at an oversized output instead of ignoring it (`commitment.rs:170-172`, `183-185`):
  `Commitments.ExaminedExact`. A list on which that hides a commitment is in `Scanners.OversizedOutputHides`; its answer
  is nevertheless that of the whole list, or of the announced first 64 outputs, exactly under the conditions of
  `Commitments.ScanIsWhole` and `Commitments.ScanIsWholeWindow`.
- `rollback` decides by the tip height at recording, not by the block of the spend, keeps the tip hash, and can raise
  the height (`indexer.rs:146-156`): `MemIndexers.ReorgSafety`, `MemIndexers.RollbackTip`. `rescan_from` compares the
  same tip height, where `indexer.rs:57-58` announces the block of the spend: `MemIndexers.RescanByBlock`.
- A failing `set_tip` of the SQL indexer is dropped silently, and reopening then answers the old tip
  (`indexer.rs:351-355`): `SqliteIndexers.StepDurable`.
- The opret scan of the resolver finds nothing and every transaction is taken to spend the seal (`resolver.rs:362-372`,
  `478-482`): `Resolver.OpretNeverValid`, `Resolver.ClosedInvalidExact`, `Resolver.VerdictIgnores`. The configured PQ
  leaf is not compared with the seal's root, although `with_pq_leaf` announces it (`resolver.rs:97-99`):
  `Resolver.OtherLeafSameVerdict`. The script leaf hash of the seal is never read, although `resolver.rs:8` and `429`
  announce that it is matched: `Resolver.LeafHashUnread`. The time guard of `resolve` is started and never checked
  (`resolver.rs:111`).
- A transaction id may contain plus signs for zero digits, exactly there: `Text.PlusSignAccepted`. Text of 64 bytes can
  make the parser panic instead of fail, exactly when `Text.ParseTxid` says.

## Model

| member | source | states |
|---|---|---|
| Taproot.WriteCompactSize | crates/rgb-pq-commit/src/p2mrret.rs:116-132 | writes the CompactSize form that the next two rows characterise |
| Taproot.CompactSizeRoundTrip | crates/rgb-pq-commit/src/p2mrret.rs:116-132 | for every length below 2^64 and whatever follows, a reader gets the length and its size back: injective and prefix-free |
| Taproot.CompactSizeMinimal | crates/rgb-pq-commit/src/p2mrret.rs:116-132 | no readable form of a length is shorter than the written one, and one as short is the written one |
| Taproot.CompactSizeForms | crates/rgb-pq-commit/src/p2mrret.rs:116-132 | the four forms byte by byte, with their bounds and marker bytes |
| Taproot.ComputeTaggedHash | crates/rgb-pq-commit/src/p2mrret.rs:98-114 | hashes tag digest, tag digest, message |
| Taproot.TaggedHashBinding | crates/rgb-pq-commit/src/p2mrret.rs:98-114 | equal tagged hashes have one tag and one message, or two of the four strings hashed collide |
| Taproot.ComputeTapleafHash | crates/rgb-pq-commit/src/p2mrret.rs:135-141 | hashes version, script length and script under the leaf tag |
| Taproot.LeafMessageInjective | crates/rgb-pq-commit/src/p2mrret.rs:135-141 | a leaf preimage determines version and script, whatever is appended to it |
| Taproot.TapleafExact | crates/rgb-pq-commit/src/p2mrret.rs:135-141 | which string a leaf hash is the digest of, with the tag written out |
| Taproot.ComputeTapbranchHash | crates/rgb-pq-commit/src/p2mrret.rs:144-150 | hashes the two children, sorted, under the branch tag |
| Taproot.LessExact | crates/rgb-pq-commit/src/p2mrret.rs:145 | the order of the children: at the first byte that differs the smaller byte decides |
| Taproot.TapbranchExact | crates/rgb-pq-commit/src/p2mrret.rs:144-150 | the child with the smaller first differing byte comes first, whichever is left, and which string the hash is then the digest of |
| Taproot.BranchMessageSorted | crates/rgb-pq-commit/src/p2mrret.rs:144-150 | the branch message is the smaller of the two concatenations in that order |
| Taproot.BranchMessageSymmetric | crates/rgb-pq-commit/src/p2mrret.rs:144-150 | the order of the children does not matter |
| Taproot.BranchMessageInjective | crates/rgb-pq-commit/src/p2mrret.rs:144-150 | a branch message determines the unordered pair of children |
| ScriptTrees.ProofSoundness | crates/rgb-pq-commit/src/p2mrret.rs:82-91 | for every script tree and every proof, an accepted proof opens the tree sibling by sibling, or strings hashed for tree and proof collide |
| ScriptTrees.OpeningIsAccepted | crates/rgb-pq-commit/src/p2mrret.rs:82-91 | conversely every opening is accepted |
| ScriptTrees.MerkleProofTheorem | crates/rgb-pq-commit/src/p2mrret.rs:82-150 | a leaf has an accepted proof of length d exactly when it stands in the tree at depth d, up to collisions |
| ScriptTrees.RootBinding | crates/rgb-pq-commit/src/p2mrret.rs:135-150 | two script trees with one root are equal up to swapped children, or strings hashed for them collide |
| ScriptTrees.SwapsKeepRoot | crates/rgb-pq-commit/src/p2mrret.rs:144-150 | conversely swapping children keeps the root |
| ScriptTrees.TreeKraftSum | crates/rgb-pq-commit/src/p2mrret.rs:61-70 | the leaf depths of every script tree have Kraft sum exactly 1 |
| P2mrRet.P2mrRetPayload | crates/rgb-pq-commit/src/p2mrret.rs:189-196 | writes the 59-byte payload that the codec row below inverts |
| P2mrRet.PayloadCodec | crates/rgb-pq-commit/src/p2mrret.rs:189-218 | decoding gives (chain, mpc) exactly for the bytes that encoding (chain, mpc) gives |
| P2mrRet.CommitmentLeafScript | crates/rgb-pq-commit/src/p2mrret.rs:171-184 | writes OP_RETURN and the pushed payload |
| P2mrRet.LeafScriptLayout | crates/rgb-pq-commit/src/p2mrret.rs:171-196 | payload and leaf byte by byte, with magic and tag written out |
| P2mrRet.PayloadRefusals | crates/rgb-pq-commit/src/p2mrret.rs:199-218 | which check of the payload fails first, with its error |
| P2mrRet.LeafScriptInjective | crates/rgb-pq-commit/src/p2mrret.rs:171-184 | a commitment leaf determines chain and commitment |
| P2mrRet.BuiltTreeParts | crates/rgb-pq-commit/src/p2mrret.rs:246-278 | for any leaf version and scripts: depth, version and script of both leaves, the root, and the proof with its one sibling |
| P2mrRet.BuiltTree | crates/rgb-pq-commit/src/p2mrret.rs:246-287 | the built root is that of the two-leaf script tree and the built proof verifies against it |
| P2mrRet.AcceptanceExact | crates/rgb-pq-commit/src/p2mrret.rs:306-333 | verification accepts exactly when size and depth limits hold and the root is the two-leaf tree's; the proof check never fails |
| P2mrRet.RefusalExact | crates/rgb-pq-commit/src/p2mrret.rs:306-333 | which limit or check fails first, with its error |
| P2mrRet.P2mrRetBinding | crates/rgb-pq-commit/src/p2mrret.rs:297-333 | two accepted openings of one seal are equal, or exchange the roles of two commitment leaves, or exhibit a collision |
| P2mrRet.CommitmentUnique | crates/rgb-pq-commit/src/p2mrret.rs:297-333 | the commitment is unique once the PQ leaf is not a commitment leaf |
| P2mrRet.SwappedRolesShareRoot | crates/rgb-pq-commit/src/p2mrret.rs:246-287 | the exchange of roles does happen: both readings have one root |
| P2mrRet.FindCommitmentInTree | crates/rgb-pq-commit/src/p2mrret.rs:347-369 | answers none, the one commitment, or duplicate by the commitments the leaves carry for the seal's chain |
| P2mrRet.LeafCommitmentsCount | crates/rgb-pq-commit/src/p2mrret.rs:352-368 | those are as many as there are leaves that carry one |
| P2mrRet.LeafCommitmentsMembers | crates/rgb-pq-commit/src/p2mrret.rs:352-368 | and each is carried by some leaf, and conversely |
| P2mrRet.LeafCommitmentExact | crates/rgb-pq-commit/src/p2mrret.rs:354-363 | a leaf carries a commitment exactly when it begins with its leaf script or with the payload behind a three-byte length |
| P2mrRet.BuildThenFind | crates/rgb-pq-commit/src/p2mrret.rs:280-369 | searching a built tree gives back (chain, mpc) exactly when the PQ leaf carries no commitment for the chain, else a duplicate |
| MultiProtocol.BuildMultiProtocolTree | crates/rgb-pq-commit/src/multi.rs:44-95 | fails exactly on no commitments; else the root is that of the fold as a script tree, and commitment i carries its script and the label i+1 modulo 256 |
| MultiProtocol.FoldRoot | crates/rgb-pq-commit/src/multi.rs:77-83 | the root of that fold step by step: the PQ leaf with the first commitment, then each further one |
| MultiProtocol.LabelDepths | crates/rgb-pq-commit/src/multi.rs:85-88 | rewrites the depth of every leaf in place |
| MultiProtocol.VerifyMultiProtocolCommitment | crates/rgb-pq-commit/src/multi.rs:122-137 | accepts exactly the root of the fold; which error otherwise |
| MultiProtocol.MultiRootBinding | crates/rgb-pq-commit/src/multi.rs:44-95 | a root determines the number of commitments, all from the second on, and the unordered pair of PQ leaf and first commitment, or strings hashed collide |
| MultiProtocol.FirstPairSwaps | crates/rgb-pq-commit/src/multi.rs:77-83 | that pair cannot be ordered: exchanging it keeps the root |
| MultiProtocol.SchemesDoNotMix | crates/rgb-pq-commit/src/multi.rs:77-83 | a root accepted as p2mr-ret is a fold of one commitment only, of the same two leaves, up to collisions |
| MultiProtocol.ProofForEveryLeaf | crates/rgb-pq-commit/src/multi.rs:77-83 | every leaf of a fold of n has an accepted proof, of length n for the PQ leaf and commitment 0 and n-i for commitment i |
| MultiProtocol.TrueDepthsKraft | crates/rgb-pq-commit/src/multi.rs:77-83 | those lengths are the leaf depths of the fold: n for the PQ leaf and n+1-i for the i-th commitment, and their Kraft sum is 1 |
| MultiProtocol.FoldOccurrences | crates/rgb-pq-commit/src/multi.rs:77-83 | a script stands in the fold at a depth exactly when it is one of its leaves and that is the leaf's true depth |
| MultiProtocol.FoldProofSoundness | crates/rgb-pq-commit/src/multi.rs:77-83 | every proof accepted against a fold root is for one of its leaves and of its true length, or strings hashed collide |
| MultiProtocol.LabelsExact | crates/rgb-pq-commit/src/multi.rs:55-88 | the written labels are the true depths, or the leaf depths of any script tree at all, exactly for one commitment |
| MultiProtocol.MultiProtocolCommitmentLeaf | crates/rgb-pq-commit/src/multi.rs:99-118 | writes OP_RETURN, the pushed index and the pushed payload |
| MultiProtocol.IndexedLeafInjective | crates/rgb-pq-commit/src/multi.rs:97-118 | an indexed leaf determines chain, commitment and index |
| MultiProtocol.IndexedLeafUnseen | crates/rgb-pq-commit/src/multi.rs:97-118 | an indexed leaf is no single-protocol leaf and carries nothing for the leaf search of any chain |
| Domains.Domain.WritePrefix | crates/rgb-pq-core/src/domain.rs:51-58 | appends the domain prefix to the caller's buffer |
| Domains.PrefixLayout | crates/rgb-pq-core/src/domain.rs:48-65 | the bytes of a prefix, with tag and version written out |
| Domains.PrefixInjective | crates/rgb-pq-core/src/domain.rs:48-65 | for any NUL-free names, prefixed messages that agree have one domain and one rest |
| SealTypes.P2mrPrefixExact | crates/rgb-pq-core/src/domain.rs:48-65 | the 38 bytes under every digest of each chain |
| SealTypes.WireBytes | crates/rgb-pq-seal/src/types.rs:54-195 | the bytes of chains, versions and algorithms, that no other bytes stand for them, and the error for each other byte |
| SealTypes.CommitmentLocator.Write | crates/rgb-pq-seal/src/types.rs:275-286 | writes the form that the next row reads back |
| SealTypes.LocatorCodec | crates/rgb-pq-seal/src/types.rs:275-311 | decoding gives a locator and its length exactly when the bytes begin with its encoding |
| SealTypes.LocatorBytes | crates/rgb-pq-seal/src/types.rs:275-311 | the encodings byte by byte, and why a locator is refused |
| SealTypes.ConfirmationPolicy.Write | crates/rgb-pq-seal/src/types.rs:350-359 | writes the form that the next row reads back |
| SealTypes.PolicyCodec | crates/rgb-pq-seal/src/types.rs:350-386 | the same for confirmation policies |
| SealTypes.PolicyBytes | crates/rgb-pq-seal/src/types.rs:350-386 | the encodings byte by byte, and why a policy is refused |
| Seals.BodyBytes | crates/rgb-pq-seal/src/seal.rs:92-114 | writes the body that the codec rows read back |
| Seals.ToBinary | crates/rgb-pq-seal/src/seal.rs:119-127 | writes envelope and body |
| Seals.BinaryLayout | crates/rgb-pq-seal/src/seal.rs:92-127 | the encoding byte by byte, with magic, tag and versions written out |
| Seals.DecodeBody | crates/rgb-pq-seal/src/seal.rs:157-210 | the cursor parser is the fixed-layout parser, with the same errors, and never indexes out of bounds |
| Seals.HeadRefusals | crates/rgb-pq-seal/src/seal.rs:157-179 | which check fails first, by position, with its error |
| Seals.TailRefusals | crates/rgb-pq-seal/src/seal.rs:180-198 | the same for locator and policy, whose length bytes must be exactly what their decoders take |
| Seals.FromBinary | crates/rgb-pq-seal/src/seal.rs:130-155 | the same for the whole encoding |
| Seals.EnvelopeRefusals | crates/rgb-pq-seal/src/seal.rs:130-155 | which check of the envelope fails first, with its error |
| Seals.SealCodec | crates/rgb-pq-seal/src/seal.rs:92-210 | on every input: bytes decode to a seal exactly when they begin with its encoding and the build accepts its algorithm |
| Seals.ParseOfPrinted | crates/rgb-pq-seal/src/seal.rs:116-155 | printing then parsing gives the seal back exactly when the build accepts its algorithm, else the feature-gate error |
| Seals.BinaryPrefixFree | crates/rgb-pq-seal/src/seal.rs:116-127 | no encoding is a proper prefix of another |
| Seals.TrailingBytesIgnored | crates/rgb-pq-seal/src/seal.rs:157-210 | bytes after an accepted input change nothing |
| Seals.ConsumedExactly | crates/rgb-pq-seal/src/seal.rs:199-210 | an accepted input is the encoding of its seal exactly when its length is 123 plus its two length bytes, which can be read off the input |
| Seals.CanonicalDigest | crates/rgb-pq-seal/src/seal.rs:219-231 | hashes domain prefix, version and body |
| Seals.CanonicalLayout | crates/rgb-pq-seal/src/seal.rs:214-231 | the hashed string: 38 prefix bytes, the version byte at 38, and the body as in the encoding |
| Seals.CanonicalPreimageInjective | crates/rgb-pq-seal/src/seal.rs:214-231 | the preimage determines every field of the seal |
| Seals.CanonicalDigestBinding | crates/rgb-pq-seal/src/seal.rs:214-231 | equal digests are of equal seals, or the two preimages collide |
| Commitments.RgbPqCommitment.Encode | crates/rgb-pq-commit/src/commitment.rs:54-64 | writes the 127-byte payload that the codec row inverts |
| Commitments.EncodingLayout | crates/rgb-pq-commit/src/commitment.rs:54-64 | the payload byte by byte, with magic and tag written out |
| Commitments.RgbPqCommitment.SealDigest | crates/rgb-pq-commit/src/commitment.rs:68-77 | hashes domain prefix, txid and vout |
| Commitments.DigestLayout | crates/rgb-pq-commit/src/commitment.rs:68-77 | the hashed string: 38 prefix bytes, then txid, then vout |
| Commitments.Decode | crates/rgb-pq-commit/src/commitment.rs:87-132 | the cursor decoder is the fixed-layout decoder, with the same errors |
| Commitments.DecodingRefusals | crates/rgb-pq-commit/src/commitment.rs:87-132 | which check of the payload fails first, with its error |
| Commitments.DecodeFor | crates/rgb-pq-commit/src/commitment.rs:80-84 | succeeds exactly on decodable payloads for the seal; which error otherwise |
| Commitments.VerifyAgainstExact | crates/rgb-pq-commit/src/commitment.rs:137-147 | a commitment is for a seal exactly when it is the one made for it; wrong chain and wrong seal exactly when chain, or only txid or vout, differ |
| Commitments.CommitmentCodec | crates/rgb-pq-commit/src/commitment.rs:54-132 | decoding gives c exactly for the encoding of c |
| Commitments.DigestPreimageExact | crates/rgb-pq-commit/src/commitment.rs:66-77 | the seal digest is over exactly chain, txid and vout and leaves mpc free |
| Commitments.SealDigestBinding | crates/rgb-pq-commit/src/commitment.rs:66-77 | equal seal digests are of one seal outpoint, or the preimages collide |
| Commitments.DigestFamiliesDisjoint | crates/rgb-pq-core/src/domain.rs:51-65 | no seal-digest preimage is a canonical-digest preimage, although both share the domain prefix |
| Commitments.BuildOpReturnScript | crates/rgb-pq-tx/src/commit.rs:49-56 | writes OP_RETURN and the payload under the push rule of the bitcoin crate |
| Commitments.OpReturnForms | crates/rgb-pq-tx/src/commit.rs:49-56 | the scripts byte by byte for each length of the payload |
| Commitments.StripExact | crates/rgb-pq-commit/src/commitment.rs:206-227 | exactly which scripts are stripped, and to what |
| Commitments.StripInvertsBuild | crates/rgb-pq-tx/src/commit.rs:49-56 | stripping undoes building exactly for payloads of at most 255 bytes |
| Commitments.CommitmentInExact | crates/rgb-pq-commit/src/commitment.rs:184-189 | a script carries c exactly when it is the OP_RETURN script of c's encoding |
| Commitments.HitsCount | crates/rgb-pq-commit/src/commitment.rs:181-191 | there is one hit for each output that carries a commitment |
| Commitments.HitsMembers | crates/rgb-pq-commit/src/commitment.rs:181-191 | the hits are exactly the outputs with the script of their commitment |
| Commitments.Scan | crates/rgb-pq-commit/src/commitment.rs:173-200 | classifies the hits among the outputs it examines |
| Commitments.ClassifyExact | crates/rgb-pq-commit/src/commitment.rs:192-200 | missing for no hit, vout and commitment of the only one, the vouts of several in order |
| Commitments.ExaminedExact | crates/rgb-pq-commit/src/commitment.rs:177-185 | it examines the longest prefix of at most 64 outputs none of which is oversized |
| Commitments.ScanIsWhole | crates/rgb-pq-commit/src/commitment.rs:170-200 | its answer is that of the whole list exactly when no output it did not examine carries a commitment |
| Commitments.ScanIsWholeWindow | crates/rgb-pq-commit/src/commitment.rs:170-185 | it is that of the first 64 outputs, as announced, exactly when none of these behind the first oversized one carries a commitment |
| Scanners.VerifyCommitmentInOutputsBounded | crates/rgb-pq-resolver/src/resolver.rs:391-427 | fails on the first breached limit or expired budget, else judges the hits of the whole list |
| Scanners.CheckOutputsExact | crates/rgb-pq-resolver/src/resolver.rs:401-406 | it answers exactly when every output is within window, size and time |
| Scanners.FirstBreach | crates/rgb-pq-resolver/src/resolver.rs:398-408 | which error it fails with otherwise: the first breach at the first output that has one |
| Scanners.BoundedAnswerExact | crates/rgb-pq-resolver/src/resolver.rs:409-427 | every answer in terms of the scripts alone: found exactly when one output carries a commitment and it is one made for the seal; wrong chain and wrong seal by comparison with the seal |
| Scanners.AppendOpretCommitment | crates/rgb-pq-tx/src/commit.rs:27-46 | appends one output, the commitment's OP_RETURN script with value 0, between decoding and encoding; which error when hex or transaction do not decode |
| Scanners.AppendedExact | crates/rgb-pq-tx/src/commit.rs:36-41 | nothing but the output list changes; the new last output has value 0 and the 130-byte script |
| Scanners.FindCommitmentInSignedTx | crates/rgb-pq-tx/src/commit.rs:60-82 | the two decode errors, else none, the one, or duplicate by the hits that are for the seal |
| Scanners.FindExact | crates/rgb-pq-tx/src/commit.rs:68-82 | every answer in terms of the scripts alone: the commitment of the only output that carries one for the seal |
| Scanners.ScannersAgree | crates/rgb-pq-resolver/src/resolver.rs:391-427 | when the bounded scanner answers, under any limits: exactly when the payload scanner examined the whole list too (always under the default limits); the two say the same exactly when no unexamined output carries a commitment or two hits were already seen |
| Scanners.OversizedOutputHides | crates/rgb-pq-commit/src/commitment.rs:170-185 | the disagreement happens: behind an output of 4097 bytes the bounded scanner finds what the payload scanner misses |
| Scanners.TransactionScannerAgrees | crates/rgb-pq-tx/src/commit.rs:60-82 | a commitment the bounded scanner finds is the one the transaction scanner returns, and a returned one is found by it exactly when it is the only hit |
| Scanners.AppendThenFind | crates/rgb-pq-tx/src/commit.rs:27-82 | after appending, the search gives the commitment back exactly when no earlier output is for the seal, else a duplicate |
| Scanners.AppendThenBounded | crates/rgb-pq-tx/src/commit.rs:27-46 | after appending, the bounded scanner finds it exactly when no earlier output carries any, every limit of any choice of limits holds for the whole list, and the budget lasts |
| Scanners.AppendThenFindHex | crates/rgb-pq-tx/src/commit.rs:27-82 | the same search from hex to hex, for every codec that reads back the appended transaction |
| Text.DisplayTxid | crates/rgb-pq-seal/src/types.rs:455-463 | prints the bytes in reverse order in lower-case hex |
| Text.TxidTextAt | crates/rgb-pq-seal/src/types.rs:455-463 | the printed text character by character |
| Text.ParseTxid | crates/rgb-pq-seal/src/types.rs:465-484 | on every byte string of a text: succeeds exactly on texts that denote a txid, with that txid; otherwise which error, and exactly when slicing inside a character panics |
| Text.DenotesExact | crates/rgb-pq-seal/src/types.rs:474-482 | what denoting means in characters: two digits of either case for each byte, from the last byte to the first, or a plus sign for a zero high digit |
| Text.SplittingTexts | crates/rgb-pq-seal/src/types.rs:475-477 | exactly which texts panic: some pair ends inside a character and all pairs before it parse; so none that is ASCII or denotes a txid does |
| Text.TxidTextExact | crates/rgb-pq-seal/src/types.rs:455-484 | the printed text is the one lower-case text that denotes the txid |
| Text.PlusSignAccepted | crates/rgb-pq-seal/src/types.rs:465-484 | in the printed text of any txid a plus sign may replace the high digit of a pair exactly when that digit is zero, so a second text denotes the txid |
| Text.DecimalRoundTrip | crates/rgb-pq-chain/src/indexer.rs:226-254 | a height written as text is read back |
| Text.DecimalDigits | crates/rgb-pq-chain/src/indexer.rs:88-90 | the last digit of a printed number and the digits before it |
| Text.ParseU32Exact | crates/rgb-pq-chain/src/indexer.rs:226-233 | a text parses as a number exactly when it is its printed form behind zeros, behind an optional plus sign |
| Text.KeyInjective | crates/rgb-pq-chain/src/indexer.rs:88-90 | two outpoints never share a key |
| Text.KeyExact | crates/rgb-pq-chain/src/indexer.rs:88-90 | a key is the text of the txid, a colon and the output number |
| MemIndexers.MemIndexer.Watch | crates/rgb-pq-chain/src/indexer.rs:117-120 | the new state, by the step function of the run theorems |
| MemIndexers.MemIndexer.RecordOutput | crates/rgb-pq-chain/src/indexer.rs:122-126 | the new state, by the step function of the run theorems |
| MemIndexers.MemIndexer.RecordSpend | crates/rgb-pq-chain/src/indexer.rs:128-134 | the new state, by the step function of the run theorems |
| MemIndexers.MemIndexer.UpdateConfirmations | crates/rgb-pq-chain/src/indexer.rs:136-140 | the new state, by the step function of the run theorems |
| MemIndexers.MemIndexer.Rollback | crates/rgb-pq-chain/src/indexer.rs:146-156 | the loop over all entries is the pointwise rollback, in any order |
| MemIndexers.MemIndexer.RescanFrom | crates/rgb-pq-chain/src/indexer.rs:158-165 | the loop over all entries is the pointwise rescan, in any order |
| MemIndexers.MemIndexer.SetTip | crates/rgb-pq-chain/src/indexer.rs:167-170 | the new state, by the step function of the run theorems |
| MemIndexers.RunMeaning | crates/rgb-pq-chain/src/indexer.rs:109-171 | after any run an outpoint shows spending txid t exactly when its last recorded spend was by t and no later rollback went below the tip height at its recording |
| MemIndexers.ViewMeaning | crates/rgb-pq-chain/src/indexer.rs:109-171 | after any run confirmations and output are those of the last operation that decided them, rollbacks and rescans acting through the standing spend |
| MemIndexers.ReadMeaning | crates/rgb-pq-chain/src/indexer.rs:109-171 | every part of a read after any run: nothing for unnamed outpoints, else the last recorded output, the txid of the standing spend, and the confirmations decided last, zero for an unconfirmed spend |
| MemIndexers.LastOutputExact | crates/rgb-pq-chain/src/indexer.rs:122-126 | the last recorded output is that of the recording no other one follows |
| MemIndexers.RunInvariant | crates/rgb-pq-chain/src/indexer.rs:109-171 | in every reachable state spending txid and spend height come together, and exactly the outpoints that were named are tracked |
| MemIndexers.ReorgSafety | crates/rgb-pq-chain/src/indexer.rs:128-156 | no rollback at any point of a run leaves a spend confirmed above its target, exactly when every confirmed spend is recorded with the tip at or above its block |
| MemIndexers.RollbackAlgebra | crates/rgb-pq-chain/src/indexer.rs:146-165 | two rollbacks are one to the lower height, rollback is idempotent, and it commutes with rescan |
| MemIndexers.RollbackTip | crates/rgb-pq-chain/src/indexer.rs:146-156 | rollback sets the height and keeps the hash in any case, and changes entries exactly when some spend was recorded above the target |
| MemIndexers.RescanClears | crates/rgb-pq-chain/src/indexer.rs:158-165 | a rescan clears the confirmations of the standing spend exactly for targets up to the tip height at its recording |
| MemIndexers.RescanByBlock | crates/rgb-pq-chain/src/indexer.rs:57-59 | so it clears by the block of the spend, as announced, for every target exactly when the spend was recorded with the tip at its block |
| SqliteIndexers.SqliteIndexer.Connect | crates/rgb-pq-chain/src/indexer.rs:194-218 | fails exactly when connecting or creating does, else reads height and tip back from the meta table; an unreadable row counts as absent |
| SqliteIndexers.SqliteIndexer.Watch | crates/rgb-pq-chain/src/indexer.rs:264-276 | the new rows and answer, whether or not the engine executes the statement, by the step function of the simulation |
| SqliteIndexers.SqliteIndexer.RecordOutput | crates/rgb-pq-chain/src/indexer.rs:278-291 | the new rows and answer, whether or not the engine executes the statement, by the step function of the simulation |
| SqliteIndexers.SqliteIndexer.RecordSpend | crates/rgb-pq-chain/src/indexer.rs:293-307 | the new rows and answer, whether or not the engine executes the statement, by the step function of the simulation |
| SqliteIndexers.SqliteIndexer.UpdateConfirmations | crates/rgb-pq-chain/src/indexer.rs:309-317 | the new rows and answer, whether or not the engine executes the statement, by the step function of the simulation |
| SqliteIndexers.SqliteIndexer.ReadOwned | crates/rgb-pq-chain/src/indexer.rs:360-388 | looks the row up, reads its five columns and casts them back, a NULL script or a failing query counting as no row; only a query that cannot be prepared is an error |
| SqliteIndexers.SqliteIndexer.Rollback | crates/rgb-pq-chain/src/indexer.rs:329-339 | the new rows, meta, height and tip, and the answer, for each of the three statements that may fail |
| SqliteIndexers.SqliteIndexer.RescanFrom | crates/rgb-pq-chain/src/indexer.rs:341-349 | the new rows and answer, whether or not the engine executes the statement, by the step function of the simulation |
| SqliteIndexers.SqliteIndexer.SetTip | crates/rgb-pq-chain/src/indexer.rs:351-355 | the new meta, height and tip; failing writes are dropped |
| SqliteIndexers.AnswerExact | crates/rgb-pq-chain/src/indexer.rs:256-356 | success means all was done; failure means nothing was, or a rollback that did not write out the tip; which answer for which failing statements |
| SqliteIndexers.RunRowsKeyed | crates/rgb-pq-chain/src/indexer.rs:264-276 | after any run, failures included, every row stands under the key its txid and vout columns spell |
| SqliteIndexers.CastsExact | crates/rgb-pq-chain/src/indexer.rs:278-386 | the casts between column and value keep the low bits, and so every value that was stored |
| SqliteIndexers.ReadMetaExact | crates/rgb-pq-chain/src/indexer.rs:226-240 | height and tip of a reopened database, with the defaults for absent or unreadable rows |
| SqliteIndexers.StepSimulation | crates/rgb-pq-chain/src/indexer.rs:264-355 | one operation keeps two agreeing indexers in agreement exactly when it names a tracked outpoint |
| SqliteIndexers.RunSimulation | crates/rgb-pq-chain/src/indexer.rs:109-355 | the two agree after every operation of a run exactly when every outpoint is watched before anything else names it |
| SqliteIndexers.RunDurable | crates/rgb-pq-chain/src/indexer.rs:226-254 | in every state reached without a failing statement, reopening restores height and tip |
| SqliteIndexers.StepDurable | crates/rgb-pq-chain/src/indexer.rs:242-254 | one more call on any engine leaves height and tip restorable exactly when every part of the tip that it changed was written, whatever the call returned |
| SqliteIndexers.Reopened | crates/rgb-pq-chain/src/indexer.rs:226-355 | after any run with failures reopening answers the last height and tip that were written, so it restores the state exactly when those are the last that took effect |
| SqliteIndexers.FailuresOnlyDrop | crates/rgb-pq-chain/src/indexer.rs:256-355 | whatever the engine does, rows, height and tip are those of a failure-free run of the operations that took effect |
| SqliteIndexers.FailingSimulation | crates/rgb-pq-chain/src/indexer.rs:109-355 | over runs with failures the two indexers agree after every call exactly when each outpoint's watch took effect before any other operation on it did |
| SqliteIndexers.OwnedReadExact | crates/rgb-pq-chain/src/indexer.rs:358-389 | the owned read on agreeing indexers, whole: the in-memory view with the output under the outpoint asked for, and nothing without a recorded output |
| SqliteIndexers.ReadsAgree | crates/rgb-pq-chain/src/indexer.rs:358-389 | the owned read is the in-memory read exactly for untracked outpoints and for those whose last recorded output names them |
| SqliteIndexers.RunReads | crates/rgb-pq-chain/src/indexer.rs:319-389 | after every watched-first run the owned read is the in-memory read exactly for outpoints never watched or whose last recorded output names them; the borrowing read, always nothing, is right exactly for the former |
| SqliteIndexers.FailingReads | crates/rgb-pq-chain/src/indexer.rs:256-389 | the same on an engine that may fail, for the operations that took effect |
| Resolver.OutputExact | crates/rgb-pq-resolver/src/resolver.rs:430-467 | an output passes exactly when its script is the v2 script of the seal's root |
| Resolver.OutputFaultExact | crates/rgb-pq-resolver/src/resolver.rs:430-467 | which check fails first otherwise, with its fault; the last check never fails |
| Resolver.ClosedValidExact | crates/rgb-pq-resolver/src/resolver.rs:110-329 | for every backend, exactly when a seal is reported validly closed, and with what |
| Resolver.ClosedInvalidExact | crates/rgb-pq-resolver/src/resolver.rs:178-253 | for every backend, exactly when a seal is reported invalidly closed, and why: only a missing opret commitment or an unusable PQ leaf, never one of the two ownership reasons |
| Resolver.PendingExact | crates/rgb-pq-resolver/src/resolver.rs:256-276 | for every backend, exactly when a close is reported unconfirmed or at reorg risk, and with what |
| Resolver.OpenExact | crates/rgb-pq-resolver/src/resolver.rs:110-163 | for every backend, exactly when a seal is reported open |
| Resolver.FailureExact | crates/rgb-pq-resolver/src/resolver.rs:110-178 | for every backend, exactly when a resolution fails and with what: the error of a query it depends on that is no breached limit |
| Resolver.UnknownExact | crates/rgb-pq-resolver/src/resolver.rs:110-287 | for every backend and each of the reasons, exactly when a seal is reported unknown |
| Resolver.ConfirmationsMonotone | crates/rgb-pq-resolver/src/resolver.rs:256-294 | all other answers fixed, more confirmations move an unconfirmed or reorg-risk verdict exactly where the new status, the policy and the inclusion answer put it, keep a valid close with the new number, and change no other answer; so no verdict moves back |
| Resolver.VerdictIgnores | crates/rgb-pq-resolver/src/resolver.rs:307-329 | the verdict depends neither on the bytes of the spending transaction nor on which PQ leaf with a non-zero hash is configured |
| Resolver.LeafHashUnread | crates/rgb-pq-resolver/src/resolver.rs:429-467 | nor on the script leaf hash of the seal |
| Resolver.OtherLeafSameVerdict | crates/rgb-pq-resolver/src/resolver.rs:97-102 | a valid close is reported the same with any wrong PQ leaf that is no commitment leaf, although with it no commitment verifies against the seal, or strings hashed collide |
| Resolver.OpretNeverValid | crates/rgb-pq-resolver/src/resolver.rs:213-227 | every known spend of an opret seal is reported as closed without a commitment, and nothing else is ever reported closed, valid or on its way |
| Resolver.RpcBackendNeverCloses | crates/rgb-pq-chain/src/backend_impl.rs:24-83 | over answers of the RPC backend's form a resolution ends as open or unknown, or fails exactly with an error of the output query that is no breached limit; a spent output always ends as a malformed one |
| Base64.Encode | crates/rgb-pq-chain/src/rpc.rs:208-232 | the chunk loop computes the recursive encoding of the next two rows |
| Base64.Lookup | crates/rgb-pq-chain/src/rpc.rs:207 | the table is the alphabet of section 4 of RFC 4648 |
| Base64.ChunkBits | crates/rgb-pq-chain/src/rpc.rs:210-230 | the six bits of each character of a chunk, and the padding |
| Base64.EncodingAt | crates/rgb-pq-chain/src/rpc.rs:208-232 | where each chunk is written |
| Base64.RoundTrip | crates/rgb-pq-chain/src/rpc.rs:208-232 | a decoder gives every byte string back, and the text is four characters for every three bytes begun |
| Base64.DecodingCanonical | crates/rgb-pq-chain/src/rpc.rs:208-232 | every text the strict decoder accepts is the encoding of what it decodes to, so alphabet, padding and unused bits are canonical |

## Left out

- Hex and consensus encoding of transactions belong to external crates: `TxCodec` is any four functions, and a
  transaction is its outputs and a remainder nobody looks into.
- The push rule of the `bitcoin` crate's script builder is not part of this repository; `PushSlice` states it (direct
  push, one-, two- or four-byte length).
- The text form of a seal (bech32m): encoding and checksum live in an external crate.
- Dilithium signatures, btq-core consensus, the RGB validator, `anchor.rs`, `witness.rs` and `rgb-pq-rgb`: not in the
  repository or thin wrappers over vendored libraries.
- JSON-RPC transport, retries and wallet helpers; a backend is its answers, and `AnswersLikeRpc` records what the RPC
  backend answers.
- Wall-clock time: `BudgetGuard` is an oracle that may expire at any check.
- Limits on witnesses, control blocks and candidate spends: no modelled function uses them.
- Free-text error details, except where a branch depends on them; numbers inside messages are dropped.
- The SQL engine is the effect of each visible statement, with NULL satisfying no comparison; that a statement fails is a
  parameter, and one that fails changes nothing. Columns written by other programs are not considered.
- MemIndexers.MemIndexer.Rollback: entries are visited in any order, where a BTreeMap visits them by key; the result is
  the same.
- `seal.outpoint.to_bitcoin()` never fails, so its branch in `resolve_inner` is omitted.
- Base64.Encode: shifts and masks of a 24-bit number are written as division and remainder.
