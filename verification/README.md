# Verified model of the diagnostics toolkit

A Dafny model of the parts of the toolkit whose behaviour is hardest to see
from the code: the seed-key providers, the text protocol of the ELM327 adapter,
and the request/response protocols above it. `dafny verify dfyconfig.toml`
checks the whole project.

## What is modelled

Each module follows one source file or one property that spans files.

- **SA2 bytecode** (`SA2Machine`, `SA2SeedKey`, `SA2Structured`,
  `SA2Straighten`). The interpreter
  is a class whose opcode methods change its fields; an abstract step function
  says what they do. One measure shows that every tape ends. A structured
  language of shifts, arithmetic, counted loops and carry branches is translated
  to tapes, and the machine computes what the structure says. Branch-free
  programs have inverse programs, so they map seeds to keys one-to-one, and so
  do programs whose branches can be straightened out.
- **One cipher, two providers** (`Cipher`, `IC204`, `VDO`, `CipherInjectivity`,
  `CipherCollisions`). Both providers rewrite byte arrays in place, in different
  ways. Both are proved to compute one cipher on 32-bit words, hence to agree.
  Seeds for which the shift register steps equally often keep different keys
  exactly at the levels up to 3; without that premise no level keeps all seeds
  apart.
- **Smaller providers** (`KI203`, `SWSP177`, `KIAlgo1`, `BoschConti`) with the
  rotations and bit counts they share (`Words`, `NatBits`).
- **Edwards arithmetic** (`Ed25519`, `Ed25519Group`, `Ed25519Scalars`): section
  5.1.4 of RFC 8032, with the modulus and the curve constant as arguments. The
  addition is closed for all of them. Modulo a prime, for a non-square constant
  and with a root of -1, it is complete, the points are a group, and scalar
  multiplication adds and multiplies scalars.
- **ISO-TP over text** (`IsoTp`, `Elm`, `ElmRoundTrip`, `Text`): section 9.6 of
  ISO 15765-2:2016 and the adapter's hexadecimal lines. The segmenter and the
  printer belong to the model: they are what the parser has to undo. A line is
  parsed to a frame exactly when it shows that frame.
- **Trouble codes and PIDs** (`Dtc`, `EcuSim`, `Obd2`, `EndToEnd`), with the
  hexadecimal numbers that Python reads.
- **Requests and replies** (`Transport`, `Uds`): the in-memory transport as a
  class with its queue, and the client that waits through response-pending
  replies (Annex A.1 of ISO 14229-1).
- **Check digit** (`Vin`): 49 CFR 565.15(c).

Python's exceptions are values: `Raised`, `IndexFault`, `Fault`, `BadCode`,
`None`, or one constructor of `Outcome` each. Inputs that the code accepts are
not excluded by preconditions. Machine integers are bit-vectors of the source's
width; Python's unbounded integers are `nat` with `NatBits`.

## Where the code and its documentation differ

The model follows the code.

- SA2 opcode 4C is called EndExecution but only steps over itself.
- IC204 calls its last step a reverse permutation; it is another permutation
  than the inverse of the one applied to the seed (`PermutationsCancelExactly`,
  `PermutationsMoveASeed`).
- The in-memory transport documents a list of responses as returned in one
  piece; the code hands out the first and queues the others
  (`WholeEntryExactly`, `TwoResponsesAreSplit`).
- The Python rotation helpers are documented as the C# ones; they differ for
  negative counts that are not whole turns (`ClosedFormsAgreeExactly`).
- The root FFFFFFFF is listed beside the KI203 conversion; it does not have 15
  one bits, so the two forms do not agree on it (`FormsAgreeExactly`,
  `AllOnesRootDisagrees`).
- The trouble-code encoder is documented as the inverse of the decoder; that
  holds exactly for codes in display form (`DecodeEncode`); a first digit above
  3 spills into the category bits (`FirstDigitSpills`).
- A UDS service whose positive response id would be 7F can never be answered
  (`AnswerExactly`, `Service3FIsNeverAnswered`).
- A first frame without its length byte makes the ELM327 parser raise
  (`ParserFaultsExactly`, `ShortLineFaults`).

## Model

| member | source | states |
|---|---|---|
| SA2Machine.StepDecreases | protocol/security/algorithms/VolkswagenSA2.py:34-119 | every instruction that completes, on any tape and from any state with any loop stack, makes one measure strictly smaller |
| SA2Machine.EntryDrops | protocol/security/algorithms/VolkswagenSA2.py:76-88 | entering a loop costs less than what all its passes can be worth, because an operand is at most 255 |
| SA2Machine.StepsAreBounded | protocol/security/algorithms/VolkswagenSA2.py:133-137 | no run completes more instructions than the measure of the state it starts in |
| SA2Machine.ExecuteIsBounded | protocol/security/algorithms/VolkswagenSA2.py:122-137 | from the constructor's state a tape of n bytes completes fewer than 16^n instructions, so Execute always halts or raises |
| SA2Machine.RunFrom | protocol/security/algorithms/VolkswagenSA2.py:133-137 | the end of a run is the end of the run from every state it passes through |
| SA2Machine.AfterAdd | protocol/security/algorithms/VolkswagenSA2.py:133-137 | stepping m + n times is stepping m times and then n times from there |
| SA2Interpreter.SA2SeedKey.constructor | protocol/security/algorithms/VolkswagenSA2.py:26-32 | the object starts with the seed in the register, carry clear, at the head of the tape, no loop open |
| SA2Interpreter.SA2SeedKey.RegisterShiftLeft | protocol/security/algorithms/VolkswagenSA2.py:35-40 | shifting and carrying the top bit around is a one-bit left rotation; the carry holds the bit that went around |
| SA2Interpreter.SA2SeedKey.RegisterShiftRight | protocol/security/algorithms/VolkswagenSA2.py:42-47 | the same to the right |
| SA2Interpreter.SA2SeedKey.Add | protocol/security/algorithms/VolkswagenSA2.py:49-57 | addition modulo 2^32 with the carry set on overflow; a missing operand raises with the carry already cleared |
| SA2Interpreter.SA2SeedKey.Subtract | protocol/security/algorithms/VolkswagenSA2.py:59-69 | subtraction modulo 2^32 that never sets the carry; the overflow branch is unreachable |
| SA2Interpreter.SA2SeedKey.ExclusiveOr | protocol/security/algorithms/VolkswagenSA2.py:71-74 | exclusive-or that leaves the carry alone, also when the operand is missing |
| SA2Interpreter.SA2SeedKey.LoopInit | protocol/security/algorithms/VolkswagenSA2.py:76-79 | both lists grow by one entry; a missing operand changes nothing |
| SA2Interpreter.SA2SeedKey.LoopNext | protocol/security/algorithms/VolkswagenSA2.py:81-88 | jump back or leave the innermost loop; an empty loop stack raises |
| SA2Interpreter.SA2SeedKey.BranchConditional | protocol/security/algorithms/VolkswagenSA2.py:90-95 | skips forward exactly when the carry is clear |
| SA2Interpreter.SA2SeedKey.BranchUnconditional | protocol/security/algorithms/VolkswagenSA2.py:97-98 | always skips forward |
| SA2Interpreter.SA2SeedKey.EndExecution | protocol/security/algorithms/VolkswagenSA2.py:100-101 | only steps over itself |
| SA2Interpreter.SA2SeedKey.FetchOperand | protocol/security/algorithms/VolkswagenSA2.py:104-116 | the four bytes after the opcode, big-endian, or the error of a tape that ends too early |
| SA2Interpreter.SA2SeedKey.FetchOperandByte | protocol/security/algorithms/VolkswagenSA2.py:118-119 | the byte after the opcode, or the same error |
| SA2Interpreter.SA2SeedKey.Dispatch | protocol/security/algorithms/VolkswagenSA2.py:123-136 | one turn of the loop does what the instruction set says, and an unknown opcode raises |
| SA2Interpreter.SA2SeedKey.Execute | protocol/security/algorithms/VolkswagenSA2.py:122-137 | always ends, in the outcome of the abstract run, within the measure of its start |
| SA2Interpreter.GenerateKey | protocol/security/algorithms/VolkswagenSA2.py:143-157 | no key for a wrong length, else four bytes whose big-endian word is the register at the end of the run, or the run's exception |
| SA2Structured.BlockRuns | protocol/security/algorithms/VolkswagenSA2.py:34-137 | the code of a structured program, standing anywhere in any tape and inside any running loops, runs through to the point behind it with the register and carry of the structured evaluation and the loop stack as found |
| SA2Structured.PassesRun | protocol/security/algorithms/VolkswagenSA2.py:76-88 | a loop body runs max(n, 1) times in all and then the loop is closed |
| SA2Structured.CompiledProgramComputes | protocol/security/algorithms/VolkswagenSA2.py:122-137 | compiler correctness: executing the tape of a structured program halts with exactly the evaluation's register and carry and no open loop |
| SA2Structured.InverseShape | protocol/security/algorithms/VolkswagenSA2.py:34-101 | every branch-free program and its inverse fit on tapes of the same length, and inverting twice gives the program back |
| SA2Structured.CarryIsIrrelevant | protocol/security/algorithms/VolkswagenSA2.py:34-88 | without branches the register never depends on the carry |
| SA2Structured.InverseUndoes | protocol/security/algorithms/VolkswagenSA2.py:34-88 | the inverse program restores the register of every start state, whatever the carry |
| SA2Structured.TapeInverts | protocol/security/algorithms/VolkswagenSA2.py:122-137 | on the machine: running the tape and the inverse tape, in either order, gives the seed back |
| SA2Structured.ProviderComputes | protocol/security/algorithms/VolkswagenSA2.py:143-157 | at byte level, for every structured program and four-byte seed: the provider returns four bytes whose word is the evaluation's register |
| SA2Structured.ProviderInverts | protocol/security/algorithms/VolkswagenSA2.py:143-157 | and for every branch-free program the provider, run with the inverse tape on those key bytes, returns exactly the seed bytes |
| SA2Structured.SeedToKeyIsABijection | protocol/security/algorithms/VolkswagenSA2.py:122-157 | seed to key is one-to-one and onto on 32-bit words for every branch-free program |
| SA2Structured.BranchesCanCollide | protocol/security/algorithms/VolkswagenSA2.py:90-95 | with a branch this fails: a concrete program gives two seeds one key |
| SA2Straighten.StraightenKeeps | protocol/security/algorithms/VolkswagenSA2.py:34-98 | dropping branches that cannot be taken, leave the register alone or have equal arms keeps the register from every start, and what is then claimed of the carry holds |
| SA2Straighten.BranchFreeIsStraight | protocol/security/algorithms/VolkswagenSA2.py:34-88 | every branch-free program is straight already |
| SA2Straighten.StraightTapeInverts | protocol/security/algorithms/VolkswagenSA2.py:122-137 | on the machine: the inverse of the straight form undoes the tape of the program, in both orders |
| SA2Straighten.StraightSeedToKeyIsABijection | protocol/security/algorithms/VolkswagenSA2.py:122-157 | so seed to key is one-to-one and onto for every program that straightens |
| SA2Straighten.SomeBranchesAreStraight | protocol/security/algorithms/VolkswagenSA2.py:90-98 | branches behind a subtraction, with an empty arm, or with equal arms straighten |
| Words.RotateLeftLoop | 0x27/0x27-main/UnlockECU/UnlockECU/Security/SecurityProvider.cs:201-214 | the bit-by-bit loop is count one-bit rotations, none for a negative count |
| Words.RotateRightLoop | 0x27/0x27-main/UnlockECU/UnlockECU/Security/SecurityProvider.cs:216-229 | the same to the right |
| Words.CountOnes | 0x27/0x27-main/UnlockECU/UnlockECU/Security/SecurityProvider.cs:231-243 | the shifting loop counts the one bits of the whole word |
| Words.ClosedFormsRefineLoops | protocol/security/provider.py:142-158 | for every word and every count from zero up the closed forms equal the loops |
| Words.ClosedFormsAgreeExactly | protocol/security/provider.py:142-158 | in either direction, on every word at once, closed form and loop agree exactly when the count is not negative or is a whole number of turns |
| Words.RotInverse | protocol/security/provider.py:142-158 | left and right rotations undo each other for every count |
| Words.RotLeftAsRight | protocol/security/provider.py:142-158 | a left rotation is the complementary right rotation |
| Words.RotationKeepsOnes | protocol/security/provider.py:151-162 | rotation keeps the population count |
| Words.RotationMovesOne | protocol/security/provider.py:151-158 | only whole turns leave the word 1 in place |
| Provider.WriteThenRead | protocol/security/provider.py:105-112 | a word written in either byte order anywhere in a string is read back there |
| Provider.ReadThenWrite | protocol/security/provider.py:105-112 | four bytes read in either byte order from any offset are written back as they were |
| Provider.WholeWord | protocol/security/provider.py:105-107 | a four-byte string is read as its big-endian word |
| Provider.ChunkIsANumber | protocol/security/provider.py:105-107 | one to four bytes, or none, from any offset are read as the number they stand for in either byte order |
| Words.AddInverts | protocol/security/algorithms/VolkswagenSA2.py:49-69 | subtracting undoes adding modulo 2^32 |
| Words.SubInverts | protocol/security/algorithms/VolkswagenSA2.py:49-69 | adding undoes subtracting modulo 2^32 |
| Cipher.TurnFourBytes | protocol/security/algorithms/IC204.py:40-54 | one rotation of four bytes by carries is a one-bit right rotation of the big-endian word |
| Cipher.ByteRotationIsWordRotation | protocol/security/algorithms/IC204.py:40-54 | k rotations of the byte array are one rotation of the word by k |
| Cipher.LevelByteIndexes | protocol/security/algorithms/IC204.py:208-208 | the byte that chooses the rotation is the level-th byte of the working block |
| Cipher.ExpandIs | protocol/security/algorithms/IC204.py:76-95 | the expanded word in arithmetic, transposition included, with both counts read from the value of the word |
| IC204.RotateRightArray | protocol/security/algorithms/IC204.py:40-54 | rotates the named bytes as one bit field and touches no other; lengths 0 and above 8 change nothing |
| IC204.SaltTransform | protocol/security/algorithms/IC204.py:57-131 | the fourteen phases expand both words of the salt, each by the same function, and keep their places |
| IC204.SaltPhases | protocol/security/algorithms/IC204.py:64-128 | the copies around the two expansions do not disturb each other |
| IC204.ExpandInPlace | protocol/security/algorithms/IC204.py:76-95 | in place, in arithmetic on the word: the transposed word turned by the second lowest byte modulo 16 plus one, exclusive-or the word turned by its value modulo 16 plus one |
| IC204.ComputeLfsrFeedback | protocol/security/algorithms/IC204.py:134-144 | the parity of eight taps replaces bit 7 of the last byte and nothing else changes |
| IC204.RunLfsr | protocol/security/algorithms/IC204.py:194-197 | count turns of the register, outside of which nothing changes |
| IC204.Le32Store | protocol/security/algorithms/IC204.py:156-160 | stores a word in little-endian order and touches four bytes |
| IC204.LoadIsSwap | protocol/security/algorithms/IC204.py:147-153 | a little-endian load is the byte-swapped big-endian word |
| IC204.HalfRoundInPlace | protocol/security/algorithms/IC204.py:204-232 | either half-round, in place, is one Feistel half-round of the block; the round keys stay |
| IC204.RunRounds | protocol/security/algorithms/IC204.py:202-232 | the loop is two rounds of two half-rounds with alternating key words |
| IC204.PermuteSeed | protocol/security/algorithms/IC204.py:176-184 | the seed bytes in permuted order |
| IC204.PrepareRoundKeys | protocol/security/algorithms/IC204.py:189-197 | the register starts from the expanded salt and ends as the round keys |
| IC204.PermuteKey | protocol/security/algorithms/IC204.py:234-243 | the key bytes in their output order |
| IC204.AcceptedLevels | protocol/security/algorithms/IC204.py:28-37 | exactly access levels 1 to 14 are accepted, and the internal level of each |
| IC204.Encrypt | protocol/security/algorithms/IC204.py:173-245 | the seven steps together compute the word cipher |
| IC204.GenerateKey | protocol/security/algorithms/IC204.py:162-245 | no key for wrong lengths or levels outside 1 to 7, else the word cipher's key |
| VDO.RotateBits | protocol/security/algorithms/VDOSecurityAlgo.py:233-243 | the whole array turned right by one bit, at every length |
| VDO.RotateBitsN | protocol/security/algorithms/VDOSecurityAlgo.py:229-231 | and by count bits |
| VDO.Expand32BitKey | protocol/security/algorithms/VDOSecurityAlgo.py:216-227 | the same law: transposed word turned by Value / 256 % 16 + 1, exclusive-or the word turned by Value % 16 + 1 |
| VDO.ExpandFullKey | protocol/security/algorithms/VDOSecurityAlgo.py:208-214 | both halves of the key constant expanded where they stand |
| VDO.FoldTaps | protocol/security/algorithms/VDOSecurityAlgo.py:160-198 | eight masked copies fold into the feedback bit |
| VDO.Morph | protocol/security/algorithms/VDOSecurityAlgo.py:159-204 | one turn of the shift register |
| VDO.ExpandAndTransformKey | protocol/security/algorithms/VDOSecurityAlgo.py:147-206 | the round keys; the level picks the seed byte that decides the number of turns |
| VDO.RotateLower | protocol/security/algorithms/VDOSecurityAlgo.py:67-74 | the lower four bytes turned through a temporary array |
| VDO.AddKey | protocol/security/algorithms/VDOSecurityAlgo.py:76-92 | little-endian addition of four key bytes to the lower half |
| VDO.HalfIteration | protocol/security/algorithms/VDOSecurityAlgo.py:61-99 | either half of the loop body is one Feistel half-round, and both copies of the block agree after it |
| VDO.Iterate | protocol/security/algorithms/VDOSecurityAlgo.py:60-139 | the loop is two rounds |
| VDO.CoreKey | protocol/security/algorithms/VDOSecurityAlgo.py:42-145 | for every integer level: negative ones count from the end as Python indexes do, and levels outside -8 to 7 or a short key constant raise |
| VDO.GenerateKey | protocol/security/algorithms/VDOSecurityAlgo.py:22-40 | no key for wrong lengths, else the core's key or its exception |
| VDO.ProvidersAgree | protocol/security/algorithms/VDOSecurityAlgo.py:22-243 | IC204 with a salt and this provider with the same key constant and internal level give one key, for every seed, salt and access level that maps to 1 to 7: that of the word cipher |
| CipherInjectivity.PermutationsCancelExactly | protocol/security/algorithms/IC204.py:176-243 | the last step undoes the first exactly on the seeds that repeat their bytes in one pattern |
| CipherInjectivity.PermutationsMoveASeed | protocol/security/algorithms/IC204.py:176-243 | a concrete seed that the two steps together do not return |
| CipherInjectivity.HalfRoundInverts | protocol/security/algorithms/IC204.py:204-232 | up to level 3 an explicit inverse undoes each half-round |
| CipherInjectivity.TwoRoundsInvert | protocol/security/algorithms/IC204.py:202-232 | and the whole network |
| CipherInjectivity.SeedIsRecovered | protocol/security/algorithms/IC204.py:173-245 | up to level 3 the seed is computed back from key, salt and register count |
| CipherInjectivity.LevelsUpToThreeAreInjective | protocol/security/algorithms/IC204.py:173-245 | up to level 3 two seeds with the same register count and the same key are equal |
| CipherInjectivity.LfsrStepForgetsOneBit | protocol/security/algorithms/IC204.py:134-144 | two register states have the same successor exactly when they differ at most in bit 7 of the last byte |
| CipherCollisions.QuietStep | protocol/security/algorithms/IC204.py:134-144 | while no byte is odd and no tap is set, a step of the register halves every byte |
| CipherCollisions.AddDisjoint | protocol/security/algorithms/IC204.py:212-214 | a little-endian key addition without common bits is an or |
| CipherCollisions.CollidingSeeds | protocol/security/algorithms/IC204.py:173-245 | at each of levels 4 to 7 two concrete seeds with the same register count share a key under the all-zero salt |
| CipherCollisions.CollidingCounts | protocol/security/algorithms/IC204.py:186-197 | at each level up to 3 two concrete seeds with different register counts share a key under a salt with one bit |
| CipherCollisions.ExactlyTheLowLevelsSeparate | protocol/security/algorithms/IC204.py:173-245 | seeds with the same register count have different keys under every salt exactly at levels up to 3 |
| CipherCollisions.NoLevelSeparatesAllSeeds | protocol/security/algorithms/IC204.py:173-245 | without that premise every level has two seeds and a salt with one key |
| KI203.GenerateKeyClosed | protocol/security/algorithms/KI203Algo.py:23-47 | the closed-form provider computes the same key function as the C# one |
| KI203.GenerateKeyLoops | 0x27/0x27-main/UnlockECU/UnlockECU/Security/KI203Algo.cs:15-41 | the C# loops compute it too |
| KI203.CondensedGenerateKey | 0x27/0x27-main/UnlockECU/UnlockECU/Security/KI203Algo.cs:48-66 | the condensed form on any input and root |
| KI203.ConversionKeepsOnes | 0x27/0x27-main/UnlockECU/UnlockECU/Security/KI203Algo.cs:72-90 | converting a root keeps its number of one bits |
| KI203.MixedUnderConvertedRoot | 0x27/0x27-main/UnlockECU/UnlockECU/Security/KI203Algo.cs:32-34 | under a converted root the seed is turned by 29 plus the count and meets the transposed root unturned |
| KI203.CondensedIsTwelve | 0x27/0x27-main/UnlockECU/UnlockECU/Security/KI203Algo.cs:53-64 | the condensed form always turns by twelve |
| KI203.FormsAgreeExactly | 0x27/0x27-main/UnlockECU/UnlockECU/Security/KI203Algo.cs:15-90 | condensed and original form agree on every seed exactly for roots with 15 one bits |
| KI203.AllOnesRootDisagrees | 0x27/0x27-main/UnlockECU/UnlockECU/Security/KI203Algo.cs:81-81 | the root FFFFFFFF has 32 one bits and the forms disagree on it |
| SWSP177.GenerateKey | protocol/security/algorithms/SWSP177.py:22-41 | the 64-bit accumulator never leaves 32 bits and the key is 35 word rounds of the seed |
| SWSP177.DifferenceOfRounds | protocol/security/algorithms/SWSP177.py:33-35 | the key constant drops out of the difference of two runs of any length |
| SWSP177.KeysDifferByThreeTurns | protocol/security/algorithms/SWSP177.py:33-41 | two keys differ by the difference of their seeds turned right by three |
| SWSP177.KeysAreInjective | protocol/security/algorithms/SWSP177.py:22-41 | different seeds never share a key |
| SWSP177.FullTurns | protocol/security/algorithms/SWSP177.py:33-35 | all 32 rotations of a word cancel out, or leave all ones when it has an odd number of one bits |
| SWSP177.KeyInClosedForm | protocol/security/algorithms/SWSP177.py:29-41 | the key word: the seed turned by three, the constant in its first three rotations, and every bit flipped when the constant has an odd number of one bits |
| KIAlgo1.RotateLeftU16 | protocol/security/algorithms/KIAlgo1.py:25-34 | the 16-bit loop is that many one-bit rotations |
| KIAlgo1.RotateRightU32 | protocol/security/algorithms/KIAlgo1.py:37-46 | the 32-bit loop is that many one-bit rotations |
| KIAlgo1.TurnRoot | protocol/security/algorithms/KIAlgo1.py:66-73 | the root register turned by its feedback |
| KIAlgo1.RootStepIs | protocol/security/algorithms/KIAlgo1.py:66-73 | one step in bits: bits 1 to 30 move down, the parity of bits 0, 7, 17 and 26 becomes bit 30, bit 0 becomes bit 31 |
| KIAlgo1.RootStepForgetsOneBit | protocol/security/algorithms/KIAlgo1.py:66-73 | two roots have the same successor exactly when they agree in their low 31 bits |
| KIAlgo1.Xor16OfHalves | protocol/security/algorithms/KIAlgo1.py:79-79 | exclusive-or of the 16-bit halves is that of the words |
| KIAlgo1.MixInPlace | protocol/security/algorithms/KIAlgo1.py:78-84 | the loop is two mixing rounds, first with the low and then with the high half of the root |
| KIAlgo1.GenerateKey | protocol/security/algorithms/KIAlgo1.py:52-102 | no key for wrong lengths, else level byte, mixed seed and the fixed tail |
| KIAlgo1.MixInverts | protocol/security/algorithms/KIAlgo1.py:78-84 | an explicit inverse undoes one mixing round |
| KIAlgo1.TwoRoundsAreInjective | protocol/security/algorithms/KIAlgo1.py:78-84 | so two rounds lose nothing |
| KIAlgo1.KeysSeparateSeeds | protocol/security/algorithms/KIAlgo1.py:52-102 | for a fixed root and equal low three bits of byte 2, key bytes 1 to 4 agree exactly when seed bytes 0, 2, 4 and 6 agree |
| BoschConti.GatherBits | protocol/security/algorithms/PowertrainBoschContiSecurityAlgo2.py:30-42 | the loop packs the masked seed bits in order |
| BoschConti.GenerateKey2 | protocol/security/algorithms/PowertrainBoschContiSecurityAlgo2.py:22-50 | no key, an index error, or the middle bytes of table entry times seed, in every case |
| BoschConti.KeyIsTheMiddle | protocol/security/algorithms/PowertrainBoschContiSecurityAlgo2.py:45-50 | the two key bytes in arithmetic: bits 8 to 23 of table entry times big-endian seed |
| BoschConti.Word16Bits | protocol/security/algorithms/PowertrainBoschContiSecurityAlgo2.py:34-35 | every bit of the two-byte seed and mask words, byte by byte |
| BoschConti.PackIsBounded | protocol/security/algorithms/PowertrainBoschContiSecurityAlgo2.py:37-44 | the index is below two to the number of mask bits |
| BoschConti.PackedBit | protocol/security/algorithms/PowertrainBoschContiSecurityAlgo2.py:37-42 | the seed bit under the j-th mask bit is bit j of the index |
| BoschConti.PackSeparates | protocol/security/algorithms/PowertrainBoschContiSecurityAlgo2.py:37-42 | two seeds have one index exactly when they agree under the mask |
| BoschConti.MaskGathersThreeBits | protocol/security/algorithms/PowertrainBoschContiSecurityAlgo1.py:30-36 | under mask 0x4300 the loop gathers the three fixed bits |
| BoschConti.ProvidersAgree | protocol/security/algorithms/PowertrainBoschContiSecurityAlgo1.py:22-42 | with that mask the fixed-bit key is the packed key for every seed, key length and table, index errors included, which need a table shorter than eight |
| BoschConti.RunBoth | protocol/security/algorithms/PowertrainBoschContiSecurityAlgo2.py:22-50 | both providers, run, return that key |
| Ed25519.DIsTheQuotient | protocol/security/algorithms/EsLibEd25519.py:39-39 | the curve constant solves 121666 d = -121665 modulo q |
| Ed25519.BaseIsOnCurve | protocol/security/algorithms/EsLibEd25519.py:67-69 | the base point satisfies both equations, y is 4/5 and x is even |
| Ed25519.SumCoordinates | protocol/security/algorithms/EsLibEd25519.py:72-89 | the four reduced products of a sum, up to congruence |
| Ed25519.SumEquation | protocol/security/algorithms/EsLibEd25519.py:72-89 | for every modulus and curve constant, the curve equation of a sum follows from those of its operands, with no division and no assumption on z |
| Ed25519.AddStaysOnCurve | protocol/security/algorithms/EsLibEd25519.py:72-89 | the sum of two points on the curve is on the curve and keeps x y = z t |
| Ed25519.AddFollowsTheAffineLaw | protocol/security/algorithms/EsLibEd25519.py:72-89 | on representatives of affine points every coordinate of the sum is the common scale times its fraction of the rational addition law, cleared |
| Ed25519.AddCommutes | protocol/security/algorithms/EsLibEd25519.py:72-89 | addition commutes exactly |
| Ed25519.AddNeutral | protocol/security/algorithms/EsLibEd25519.py:72-95 | adding the neutral point multiplies every coordinate by 4z |
| Ed25519.AddNegation | protocol/security/algorithms/EsLibEd25519.py:72-89 | a point and its negation add up to the neutral point, scaled by a product that is given |
| Ed25519.NeutralIsOnCurve | protocol/security/algorithms/EsLibEd25519.py:94-95 | the point of scalar zero is on the curve |
| Ed25519.ScalarMultStaysOnCurve | protocol/security/algorithms/EsLibEd25519.py:92-99 | no scalar leads off the curve, from the base point or any other point on it |
| Ed25519.RootOfMinusOne | protocol/security/algorithms/EsLibEd25519.py:41-41 | the root of -1 squares to -1 |
| Ed25519.InverseOf | protocol/security/algorithms/EsLibEd25519.py:52-53 | modulo a prime every non-zero number has an inverse |
| Ed25519.AdditionIsComplete | protocol/security/algorithms/EsLibEd25519.py:72-89 | modulo a prime, for a non-square d and with a root of -1, points with a non-zero z add up to one: no exceptional cases |
| Ed25519.MultiplesArePoints | protocol/security/algorithms/EsLibEd25519.py:92-105 | so z of every scalar multiple has an inverse, which encoding a point needs |
| Ed25519.ScalarMultIsASum | protocol/security/algorithms/EsLibEd25519.py:92-99 | double-and-add by e is a bracketed sum of exactly e copies of the point |
| Ed25519Group.CrossProducts | protocol/security/algorithms/EsLibEd25519.py:72-89 | for any integers, the two bracketings of a triple sum differ, cross-multiplied, by a combination of what the three curve equations miss |
| Ed25519Group.TwiceTimesDen | protocol/security/algorithms/EsLibEd25519.py:72-89 | numerator and denominator of a triple sum |
| Ed25519Group.AffineAssociates | protocol/security/algorithms/EsLibEd25519.py:72-89 | the rational addition law is associative |
| Ed25519Scalars.AffineForm | protocol/security/algorithms/EsLibEd25519.py:102-106 | every point has an affine form |
| Ed25519Scalars.FormOfSum | protocol/security/algorithms/EsLibEd25519.py:72-89 | the affine form of a sum is the affine sum of the forms |
| Ed25519Scalars.AddRespectsSame | protocol/security/algorithms/EsLibEd25519.py:72-89 | sums of the same projective points are the same |
| Ed25519Scalars.AddAssociates | protocol/security/algorithms/EsLibEd25519.py:72-89 | the extended addition is associative on projective points |
| Ed25519Scalars.BracketingsAgree | protocol/security/algorithms/EsLibEd25519.py:92-99 | all bracketings of n copies of a point are the same projective point |
| Ed25519Scalars.ScalarMultIsTimes | protocol/security/algorithms/EsLibEd25519.py:92-99 | double-and-add is repeated addition |
| Ed25519Scalars.ScalarMultAdds | protocol/security/algorithms/EsLibEd25519.py:92-99 | multiplying by m + n is adding the multiples by m and by n |
| Ed25519Scalars.ScalarMultMultiplies | protocol/security/algorithms/EsLibEd25519.py:92-99 | the n-th multiple of the m-th multiple is the (m n)-th |
| Vin.ComputeCheckDigit | protocol/vin.py:428-443 | a digit exactly for 17 translatable characters, else none |
| Vin.CheckDigitIsTheWeightedSum | protocol/vin.py:428-443 | the digit is the standard's sum: seventeen values with the weights 8 7 6 5 4 3 2 10 0 9 8 7 6 5 4 3 2, modulo eleven, X for ten |
| Vin.TransliterationTable | protocol/vin.py:33-39 | the standard's table of digits and letters |
| Vin.NothingElseIsTransliterated | protocol/vin.py:33-39 | I, O, Q and everything else have no value |
| Vin.SubstitutionIsSeen | protocol/vin.py:33-42 | replacing one character keeps the digit exactly when it is the ninth or the values are equal |
| Vin.ExchangeIsSeen | protocol/vin.py:33-42 | exchanging any two characters keeps the digit exactly when their values or their weights are equal |
| Vin.NeighbourSlipIsSeen | protocol/vin.py:33-42 | neighbours other than the ninth are never confused unless their values are equal |
| Vin.UpperKeepsDigit | protocol/vin.py:437-443 | the digit does not depend on case |
| Vin.ExactlyOneDigitIsValid | protocol/vin.py:522-528 | decoding accepts exactly the computed digit in the ninth place |
| IsoTp.ReassembleIsoTp | transport/elm327.py:159-178 | reassembly of any frame list, faults included |
| IsoTp.ConsecutiveCarries | transport/elm327.py:172-174 | consecutive frames give back the data they were cut from |
| IsoTp.ReassembleSegment | transport/elm327.py:159-178 | reassembly undoes segmentation of up to 4095 bytes with any filler |
| IsoTp.SegmentFits | transport/elm327.py:159-178 | unfilled segments fit the eight bytes of a CAN frame |
| Elm.ScanLine | transport/elm327.py:132-145 | one line gives one frame or is skipped |
| Elm.AddFrame | transport/elm327.py:146-149 | filing a frame keeps the dictionary equal to the frames seen, source by source, in order |
| Elm.SortFrames | transport/elm327.py:128-149 | the dictionary and the order list after all lines |
| Elm.ParseElmResponse | transport/elm327.py:121-156 | the parser on any text, faults included |
| Elm.FaultStays | transport/elm327.py:152-156 | one faulting ECU makes the whole parse raise |
| ElmRoundTrip.TokenFilterIsRedundant | transport/elm327.py:135-138 | a line with a status token is never hexadecimal, so that filter drops nothing more |
| ElmRoundTrip.NoiseIsSkippedExactly | transport/elm327.py:132-145 | the parser skips exactly the lines that show no frame, which are those whose normal form is short, not hexadecimal or leaves half a byte |
| ElmRoundTrip.LineParsesExactly | transport/elm327.py:132-145 | a line parses to a frame exactly when it shows it: its three nibbles of source and its bytes in either case, with blanks anywhere, in any white space |
| ElmRoundTrip.NormalIsWhatIsRead | transport/elm327.py:132-132 | stripping, dropping blanks and upper-casing give a hexadecimal text exactly when the line reads as that text |
| ElmRoundTrip.PrintedLineShows | transport/elm327.py:132-145 | printed hexadecimal shows its frame |
| Text.ContainsExactly | transport/elm327.py:135-135 | a token is found exactly where it stands in the text |
| Text.StripIs | transport/elm327.py:132-132 | stripping takes white space off both ends and nothing else |
| Text.StripSplits | transport/elm327.py:132-132 | every text is what stripping leaves of it, in white space |
| Elm.HexDigits | transport/elm327.py:181-182 | the sixteen digits |
| ElmRoundTrip.CarriedFramesAreParsed | transport/elm327.py:131-149 | lines with noise anywhere between give exactly their frames |
| ElmRoundTrip.LinesOfJoin | transport/elm327.py:131-131 | splitting undoes joining with carriage returns and line feeds |
| ElmRoundTrip.SourcesAreDistinct | transport/elm327.py:146-149 | every source that sent a frame is listed, once |
| ElmRoundTrip.SourcesInOrder | transport/elm327.py:146-149 | sources are listed in order of first appearance |
| ElmRoundTrip.CollectDelivers | transport/elm327.py:151-156 | merged segments are delivered payload by payload |
| ElmRoundTrip.TranscriptIsParsedBack | transport/elm327.py:121-182 | the round trip: any merge of any ECUs' segments, shown as lines with any noise and terminators, parses back to exactly the payloads in order of first appearance |
| ElmRoundTrip.ParserFaultsExactly | transport/elm327.py:159-170 | the parser raises exactly when some ECU starts with a first frame of one byte |
| ElmRoundTrip.ShortFirstFrameFaults | transport/elm327.py:159-170 | every response of one line that shows a first frame of one byte makes the parser raise |
| ElmRoundTrip.ShortLineFaults | transport/elm327.py:159-170 | a concrete such text |
| Dtc.EncodeDecode | protocol/dtc.py:19-35 | encoding undoes decoding on all byte pairs |
| Dtc.DecodeEncode | protocol/dtc.py:26-35 | of all codes that Python can read, decoding undoes encoding, up to case, exactly on those in display form |
| Dtc.FirstDigitSpills | protocol/dtc.py:31-35 | a concrete code with a first digit of 4 comes back as another code |
| Dtc.DisplayCodeDecodes | protocol/dtc.py:26-35 | every code in display form encodes and comes back in upper case |
| Dtc.EncodedBit | protocol/dtc.py:31-35 | of every accepted code, in display form or not: a bit of the two bytes is set exactly when the category, the first digit or the low sixteen bits of the number set it |
| Dtc.WrittenIsRead | protocol/dtc.py:33-33 | a number written with white space, a sign, a prefix and single underscores is read as the value of its digits |
| Dtc.ReadIsWritten | protocol/dtc.py:33-33 | and nothing else is read |
| Dtc.ParseHexExactly | protocol/dtc.py:33-33 | digits are read with the weights of their places, anything else not at all |
| Dtc.DropUnderscoresExactly | protocol/dtc.py:33-33 | underscores are dropped exactly where they stand alone between characters |
| EcuSim.SupportedBitmap | simulator/ecu_sim.py:44-50 | the four bytes are the big-endian bitmap of the set |
| EcuSim.BitmapBit | simulator/ecu_sim.py:44-50 | bit 31 - i is set exactly when base + i + 1 is supported |
| EcuSim.SimulatedEcu.Handle | simulator/ecu_sim.py:129-154 | the reply to every request that is not empty |
| EcuSim.LiveValues | simulator/ecu_sim.py:34-41 | the six live values, byte for byte |
| EcuSim.VinIsCarried | simulator/ecu_sim.py:132-134 | the identification number goes out one byte a character and raises exactly for a character beyond ASCII |
| EcuSim.SimulatedEcu.StoredCodes | simulator/ecu_sim.py:136-141 | count and encoded codes, or the exception of a malformed code or of too many codes |
| Obd2.FindBitmap | protocol/obd2.py:68-75 | the first usable bitmap among the replies |
| Obd2.ReadSupportedPids | protocol/obd2.py:63-82 | the loop over the ranges ends; set and transport state are those of the recursive walk, a closed transport raises before anything is sent, and a failing one ends the walk |
| Obd2.WalkOverBackend | protocol/obd2.py:63-82 | over the in-memory transport, table or function, the walk does not depend on its state, and it sends exactly the requests of the ranges it visits |
| Obd2.TransportWalkFindsReachable | protocol/obd2.py:63-82 | so in any transport state the walk returns exactly the reachable supported PIDs |
| Obd2.BitmapMarks | protocol/obd2.py:75-80 | reading a bitmap marks exactly the supported PIDs of its range, and the low bit is the next range's marker |
| Obd2.BitmapIsReadExactly | protocol/obd2.py:68-75 | the bitmap is that of the first reply of 41, the range and four bytes more, and there is none exactly when no reply is of that form |
| Obd2.CarriedBitmapIsRead | protocol/obd2.py:69-75 | replies that hold 41, the range and four bitmap bytes before anything else that passes for them decode to that bitmap |
| Obd2.SoleReplyCarries | protocol/obd2.py:69-75 | an ECU that answers alone with those bytes is such a case |
| Obd2.WalkFrom | protocol/obd2.py:67-82 | from any range on, given the reply bytes of an ECU: the supported PIDs above it whose markers in between are all supported |
| Obd2.WalkFindsReachable | protocol/obd2.py:63-82 | against an ECU that answers with the bitmap bytes of any set: exactly the supported PIDs whose whole chain of markers is supported |
| Obd2.ParseDtcPayload | protocol/obd2.py:135-147 | the codes of the counted and available pairs, without the empty code |
| Obd2.CountedPairsAreRead | protocol/obd2.py:135-147 | for every count, that many pairs and any tail: the codes of exactly those pairs |
| Obd2.MissingPairsAreNot | protocol/obd2.py:139-147 | where pairs are missing, all whole pairs are decoded and an odd last byte is dropped |
| Obd2.ServiceRepliesAreRead | protocol/obd2.py:128-132 | only replies whose first byte is the mode plus 40 are read |
| Obd2.ReadDtcs | protocol/obd2.py:128-132 | one request; the codes of all positive replies in order, or the error of a closed or failing transport |
| EndToEnd.StoredCodesAreRead | simulator/ecu_sim.py:136-141 | a simulator with display codes answers Mode 03 exactly when it has at most 255; the reply is sendable, positive, and read back as its codes without P0000 |
| EndToEnd.RepliesAreSendable | simulator/ecu_sim.py:136-141 | every such reply fits one ISO-TP message |
| EndToEnd.StoredCodesSurvive | protocol/obd2.py:128-147 | end to end over encoding, segmentation, interleaving, printing, noise, parsing, reassembly and decoding: every ECU's codes return, in order, without P0000 |
| EndToEnd.SimulatorsFirstRange | simulator/ecu_sim.py:143-148 | the simulator's first range is answered with its table's bitmap |
| EndToEnd.WalkFindsTheTable | simulator/ecu_sim.py:143-151 | the walk against the simulator returns exactly its table |
| Transport.AsResponses | transport/fake.py:27-37 | a nested reply value is flattened in order |
| Transport.FlattenAppend | transport/fake.py:34-37 | extending by an item's replies is flattening with the item added |
| Transport.WholeEntryExactly | transport/fake.py:72-77 | a request hands out its whole table entry exactly when that holds at most one reply |
| Transport.TwoResponsesAreSplit | transport/fake.py:10-11 | two listed responses are not returned in one piece |
| Transport.Channel.constructor | transport/fake.py:43-47 | closed, with nothing sent or queued |
| Transport.Channel.Open | transport/fake.py:49-50 | opens and changes nothing else |
| Transport.Channel.Close | transport/fake.py:52-53 | closes and changes nothing else |
| Transport.Channel.Request | transport/fake.py:55-77 | refuses when closed; else records the payload, drops old follow-ups, hands out the first reply and queues the rest |
| Transport.Channel.Receive | transport/fake.py:79-82 | one queued reply at a time |
| Uds.UDSClient.constructor | protocol/uds.py:162-167 | the client keeps its transport and budget |
| Uds.UDSClient.PickReply | protocol/uds.py:180-184 | the first reply that is not empty |
| Uds.UDSClient.Await | protocol/uds.py:186-199 | the loop over a stateful transport ends and leaves transport and result as the recursive conversation does |
| Uds.UDSClient.Send | protocol/uds.py:170-178 | one call, transport state and outcome included, also when the transport raises |
| Uds.SendSettles | protocol/uds.py:170-199 | the first reply that is not pending decides, after exactly that many receives |
| Uds.SendExhausts | protocol/uds.py:194-196 | if all replies up to the budget are pending the call gives up without reading on |
| Uds.SendIsDecided | protocol/uds.py:170-199 | every call on every transport ends in one of these two ways |
| Uds.SendIsBounded | protocol/uds.py:170-199 | exactly one request and at most max_pending receives |
| Uds.AnswerExactly | protocol/uds.py:170-210 | in literal bytes: the payload returned is p exactly when, within the budget, replies 7F .. 78 are followed by one that is none and that is the positive id with p |
| Uds.Service3FIsNeverAnswered | protocol/uds.py:201-210 | over every transport service 3F gets no answer, and its positive response reads as a refusal |
| Uds.TimeoutExactly | protocol/uds.py:180-198 | the two timeouts and the failure of the transport, each with its exact condition in literal bytes |
| Uds.RefusalExactly | protocol/uds.py:201-204 | the refusal with code n is raised exactly when, within the budget, replies 7F .. 78 are followed by one that is none, starts with 7F and has n as its third byte, or 10 when it is shorter |
| Uds.UnexpectedExactly | protocol/uds.py:206-210 | and the unexpected response exactly when that reply starts with neither 7F nor the positive id |
| Uds.NegativeIsFinal | protocol/uds.py:201-204 | a negative response never carries the pending code |
| Uds.TableReplyAt | transport/fake.py:55-82 | over a table the replies of a call are the flattened entry, one by one |
| Uds.OutcomeIsFresh | transport/fake.py:65-77 | over a table a call's outcome does not depend on what earlier calls left behind |
| Uds.SameEntrySameOutcome | transport/fake.py:72-82 | tables with the same flattened entry for the payload give the same outcome |
| Uds.RunsDoNotLeak | transport/fake.py:49-82 | in every run of opens, closes and calls every outcome is that of a fresh transport, and the sent record is exactly the history |

## Left out

- ScalarMultAdds: takes the primality of 2^255 - 19 and the non-squareness of d as hypotheses, as do the other group laws; neither is computed.
- StraightSeedToKeyIsABijection: is a sufficient condition; a program that does not straighten may still be one-to-one.
- DecodeEncode: digits, letters and blanks are those of ASCII; Python also reads other digits.
- ReadIsWritten: the same; white space and digits beyond ASCII are not modelled.
- ParseElmResponse: upper-casing and stripping are those of ASCII text, which is what the adapter's port delivers.
- ComputeCheckDigit: upper-casing is that of ASCII letters; Python also maps some other letters, and a few to two characters.
- Send: the time limits passed to the transport are not modelled; a transport is what it answers.
- Providers receive their parameters as values: the look-up in the parameter list, its missing-parameter error and roots of other lengths than four bytes are not modelled.
- Ed25519 hashing, key expansion, signing, point encoding, the order of the base point and square roots; the base point is taken as its coordinates and checked.
- The other seed-key providers are not modelled; most are a few lines or wrap a library cipher.
- Nibble and single-bit helpers of the provider module are easy members.
- The KWP2000 client repeats the UDS loop and the Ford facade delegates to it.
- UDS request builders and decoders other than the core call.
- PID formulas, freeze frames, response-code names, the trouble-code text library, and the manufacturer, country and model-year parts of the VIN decoder are tables.
- Serial and socket transports, Bluetooth, threads, the user interface and the vendored Windows tooling are input and output.
