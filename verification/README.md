# Proofs about the lab programs

A Dafny model of the algorithms in this repository, with proofs of what each of them is for. The control flow of the
C programs is kept: heap, bit writer and reader, sorters and reader are classes or in-place array methods whose
contracts tie them to specification functions, and lemmas prove the theorems about those functions. Fixed demo inputs
and array sizes became parameters; files and sockets became byte sequences.

| files | program |
|---|---|
| BitStreams, HuffmanTrees, MinHeaps, HuffmanForests, HuffmanBuild, HuffmanCodes, HuffmanFile, HuffmanQuality, HuffmanCodec, WeightTrees, PrefixCodes, Multisets | Huffman compressor |
| NumberTheory, Fermat, Proth, Rsa | RSA key generation, encryption, decryption |
| Walks, Dijkstra, DistanceVector | shortest-path and distance-vector routing |
| Crc, Checksum, Hamming | error detection and correction |
| WorkerQueue | connection queue of the worker-pool server, under every interleaving |
| LineReader, BitStuffing | message framing on streams |
| MergeSort, QuickSort | instrumented sorts and range query |

`dafny verify dfyconfig.toml` checks everything.

How the main results hang together:

- Huffman: the array heap refines an abstract heap (MinHeaps); each round of the greedy loop keeps an optimality
  invariant of the forest (HuffmanForests), which rests on the exchange argument in WeightTrees. PrefixCodes turns any
  competing prefix-free code into a tree, so the payload is compared with all codes, not just all trees. HuffmanFile
  proves the file format lossless for any tree and codes that fit together, and says for every file, byte by byte, what
  the decompressor answers; HuffmanCodec runs the program on top.
- RSA: Fermat's little theorem is derived from the binomial theorem; Euclid's algorithm supplies inverses and Euclid's
  lemma; both primes are combined into the identity modulo n. Where a 64-bit or 128-bit intermediate
  result can overflow is part of the contracts. Proth certifies the primes of the overflow examples.
- Distance vector: the three nested loops are a schedule of single offers. Safety (no loops) is proved for every
  schedule, convergence for every schedule whose rounds make all offers.
- Queue: threads, mutex, two conditions, spurious wakeups and the shutdown handler form a step system; the theorems
  are about every run of it. What goes in and out is compared with a plain queue that knows only the calls.

## Where code and documentation part

- rsa.c asks for distinct primes (line 9) but does not test it. `Rsa.RecoversIffDistinct` shows that this test is
  exactly what is missing: with p = q some message is always lost.
- In rsa.c line 64 the sum `x % phi + phi` can leave the 64-bit range, also for primes with a product below 2^63
  (`Rsa.OverflowExample`). `Rsa.SumOverflowIff` says exactly when, and `Rsa.KeyExistsIff` that two primes with a
  totient below 2^63 have a key exactly if it does not.
- In rsa.c line 85 the square `i * i` overflows for the primes from 3037000499^2 on and for no other 64-bit number
  (`Rsa.IsPrimeTrial`), so for them the program gets to no key at all. 9223372034170421249 is such a prime
  (`Rsa.TrialOverflowExample`); with 2 as the other one, product and totient would fit (`Rsa.KeyOfLargePrime`).
- tcpServer.c: read_line returns 1 both for ERROR and for an empty line. The receiving loop therefore stops at the
  first empty line (`LineReader.AllLinesReceivedIff`), and the unread rest of that chunk stays in the static buffer and
  is taken for the start of the next connection (`LineReader.ServeAll`, `LineReader.NextUndisturbedIff`).
- STCN/Session1/Lab_Session_1/README.md (line 123) promises that the CRC "detects single-bit and burst transmission
  corruptions". Which ones depends on the generator: errors within len positions are all detected exactly if len is at
  most the index of the last one in the generator, whose first bit counts as one (`Crc.DetectsBurstsIff`). So all single
  flipped bits are detected exactly if there is a one behind the first bit (`Crc.DetectsFlipsIff`), and all bursts
  shorter than the generator exactly if it ends in a one (`Crc.DetectsShortBurstsIff`).
- checksum.c: a changed word goes unnoticed only if 0xFFFF and 0x0000 were exchanged, and even that is noticed when it
  makes the 32-bit accumulator pass 2^32 or become zero, whatever the number of words (`Checksum.ChangeUndetectedIff`).
  The accumulator is exact for one word more when computing than when verifying (`Checksum.NoWrap`).

## Model

| member | source | states |
|---|---|---|
| HuffmanCodec.RunAutomatedDemo | LAB_SE/Session1/Assignment 2.2/CSMCS26A017_Lab2_2.c:709-754 | compressing any text shorter than 2^64 bytes and decompressing the resulting file gives back the same bytes, so the comparison always passes |
| HuffmanCodec.CompressFile | LAB_SE/Session1/Assignment 2.2/CSMCS26A017_Lab2_2.c:490-581 | the file begins with the bytes 72 85 70 49 and the size, and stores the text by a tree the builder made and the codes read off it; 12 bytes for an empty text, else exactly 12 + ceil((10k - 1 + sum of freq * length) / 8) bytes for k leaves |
| HuffmanCodec.DecompressFile | LAB_SE/Session1/Assignment 2.2/CSMCS26A017_Lab2_2.c:587-703 | on every input file, the answer in terms of its bytes: wrong magic, short size field, no tree (no byte, or one byte from 128 on), an empty text for size 0, else a text of at most the stored size |
| HuffmanFile.DecompressedAnswers | LAB_SE/Session1/Assignment 2.2/CSMCS26A017_Lab2_2.c:596-641 | each error is given exactly for the files it stands for; a header that is one leaf gives size copies of the symbol in its bits |
| HuffmanFile.TwoSymbolsRead | LAB_SE/Session1/Assignment 2.2/CSMCS26A017_Lab2_2.c:629-676 | the format with two symbols, bit by bit: a zero for the root, a one and eight bits for each symbol, then for each byte of the text a zero for the first or a one for the second |
| HuffmanTrees.DecodeReads | LAB_SE/Session1/Assignment 2.2/CSMCS26A017_Lab2_2.c:646-676 | for any tree and any bits: the output is what the words at the front of the bits lead to, one after the other, and it is shorter than the stored size only if no further word follows |
| HuffmanTrees.ParseInverts | LAB_SE/Session1/Assignment 2.2/CSMCS26A017_Lab2_2.c:468-484 | for any bits: the reader leaves bits over only behind the header of a proper tree, which is the one it returns |
| HuffmanFile.RoundTrip | LAB_SE/Session1/Assignment 2.2/CSMCS26A017_Lab2_2.c:452-676 | any file that stores a text by some proper tree and codes leading to the right leaves decompresses to that text, though header, payload and padding share one unaligned bit stream |
| HuffmanCodec.DecodePayload | LAB_SE/Session1/Assignment 2.2/CSMCS26A017_Lab2_2.c:646-676 | the bit-by-bit walk equals the decoding function on whatever bits remain, including when they run out |
| HuffmanCodec.TreeServes | LAB_SE/Session1/Assignment 2.2/CSMCS26A017_Lab2_2.c:255-262 | for every non-empty text, also one with a single distinct byte (even byte 0), each occurring byte has a code that leads to a leaf carrying it, and the tree is at most 255 high |
| HuffmanCodec.WriteBody | LAB_SE/Session1/Assignment 2.2/CSMCS26A017_Lab2_2.c:540-558 | the written bytes are the header bits followed by the payload bits, padded with fewer than eight zeros |
| HuffmanCodec.WritePayload | LAB_SE/Session1/Assignment 2.2/CSMCS26A017_Lab2_2.c:547-554 | the second pass appends the code words of the text to the bits already written |
| HuffmanCodec.BodySize | LAB_SE/Session1/Assignment 2.2/CSMCS26A017_Lab2_2.c:540-557 | size of tree header plus payload, in whole bytes, from the frequencies and code lengths alone |
| HuffmanCodec.WriteSize | LAB_SE/Session1/Assignment 2.2/CSMCS26A017_Lab2_2.c:534-537 | the shift-and-mask loop writes the size most significant byte first |
| HuffmanCodec.ReadSize | LAB_SE/Session1/Assignment 2.2/CSMCS26A017_Lab2_2.c:602-612 | the shift-and-or loop reads the number the eight bytes spell |
| HuffmanFile.FromBigEndianInverts | LAB_SE/Session1/Assignment 2.2/CSMCS26A017_Lab2_2.c:534-612 | reading the size field back gives the size, for every size below 256^n |
| HuffmanCodec.TableSum | LAB_SE/Session1/Assignment 2.2/CSMCS26A017_Lab2_2.c:497-504 | the frequencies add up to the length of the text |
| HuffmanCodec.CountFrequencies | LAB_SE/Session1/Assignment 2.2/CSMCS26A017_Lab2_2.c:497-504 | the first pass counts every byte value and the total |
| HuffmanFile.EncodedLength | LAB_SE/Session1/Assignment 2.2/CSMCS26A017_Lab2_2.c:547-554 | the payload is as many bits as the table of frequencies and code lengths adds up to |
| HuffmanQuality.HuffmanIsOptimal | LAB_SE/Session1/Assignment 2.2/CSMCS26A017_Lab2_2.c:187-332 | no prefix-free code for the same frequency table, of any shape, spends fewer payload bits than the generated one |
| HuffmanQuality.NoWorseThanFixedLength | LAB_SE/Session1/Assignment 2.2/CSMCS26A017_Lab2_2.c:387-401 | the payload never exceeds text length times any width w with 2^w >= number of distinct bytes, so in particular ceil(log2 distinct) |
| HuffmanQuality.GeneratedCodeIsPrefixFree | LAB_SE/Session1/Assignment 2.2/CSMCS26A017_Lab2_2.c:294-332 | no generated code word is a prefix of another |
| HuffmanQuality.PayloadIsCost | LAB_SE/Session1/Assignment 2.2/CSMCS26A017_Lab2_2.c:395-401 | the sum of freq * length equals the weighted path length of the tree |
| HuffmanQuality.CodeLengthBound | LAB_SE/Session1/Assignment 2.2/CSMCS26A017_Lab2_2.c:266-332 | every code has length from 1 to distinct - 1, hence at most 255, so the 256-byte code buffer is always long enough |
| HuffmanQuality.CodeLengthFib | LAB_SE/Session1/Assignment 2.2/CSMCS26A017_Lab2_2.c:266-332 | a code of length L needs a text of at least Fib(L + 2) bytes |
| HuffmanQuality.HuffmanWord | LAB_SE/Session1/Assignment 2.2/CSMCS26A017_Lab2_2.c:294-332 | each occurring byte has a code leading from the root to its only leaf; its share of the payload is frequency times code length |
| HuffmanBuild.BuildHuffmanTree | LAB_SE/Session1/Assignment 2.2/CSMCS26A017_Lab2_2.c:244-288 | no tree for an empty table, leaf plus dummy leaf for one symbol, otherwise a tree with exactly one leaf per occurring symbol and a cost no greater than that of any full binary tree over the same weights; no left child is heavier than its sibling |
| HuffmanBuild.GreedyKeepsGrown | LAB_SE/Session1/Assignment 2.2/CSMCS26A017_Lab2_2.c:273-285 | running the merge loop from the filled heap to one tree keeps leaves, total frequency, sibling balance and optimality |
| HuffmanBuild.MergedTakesNext | LAB_SE/Session1/Assignment 2.2/CSMCS26A017_Lab2_2.c:273-283 | a round takes two least trees out of the heap and leaves a heap with everything else and their join |
| HuffmanBuild.EnteredStarts | LAB_SE/Session1/Assignment 2.2/CSMCS26A017_Lab2_2.c:266-271 | entering the leaves one by one gives a heap with exactly one leaf per occurring symbol |
| HuffmanBuild.MergeAll | LAB_SE/Session1/Assignment 2.2/CSMCS26A017_Lab2_2.c:273-287 | the loop over the array heap computes the tree that the greedy specification ends with |
| HuffmanBuild.EnterSymbols | LAB_SE/Session1/Assignment 2.2/CSMCS26A017_Lab2_2.c:266-271 | the heap array after the insertion loop; its capacity, the number of distinct symbols, suffices |
| HuffmanForests.JoinDominates | LAB_SE/Session1/Assignment 2.2/CSMCS26A017_Lab2_2.c:273-283 | if every tree over the table is matched at no greater cost by a tree on top of the forest, that still holds after joining two least trees |
| HuffmanForests.HeightFib | LAB_SE/Session1/Assignment 2.2/CSMCS26A017_Lab2_2.c:273-283 | a tree of height h built by the loop weighs at least Fib(h + 2) |
| HuffmanForests.JoinSpread | LAB_SE/Session1/Assignment 2.2/CSMCS26A017_Lab2_2.c:273-283 | no tree of the forest weighs less than a child of another one, kept by every round |
| WeightTrees.GreedyChoice | LAB_SE/Session1/Assignment 2.2/CSMCS26A017_Lab2_2.c:273-283 | exchange argument: for two smallest weights x and y of any full binary tree there is a tree with x + y in their place that costs at least x + y less |
| PrefixCodes.CodeToShape | LAB_SE/Session1/Assignment 2.2/CSMCS26A017_Lab2_2.c:294-332 | every prefix-free code yields a full binary tree over the same weights that costs no more bits |
| HuffmanCodes.GenerateCodes | LAB_SE/Session1/Assignment 2.2/CSMCS26A017_Lab2_2.c:323-332 | the table filled through one shared code buffer is the specified table; the buffer of 256 suffices for height up to 255 |
| HuffmanCodes.GenerateCodesRecursive | LAB_SE/Session1/Assignment 2.2/CSMCS26A017_Lab2_2.c:294-321 | each call fills the table for its subtree and leaves the used part of the shared buffer as it was |
| HuffmanCodes.CodesLead | LAB_SE/Session1/Assignment 2.2/CSMCS26A017_Lab2_2.c:294-321 | a symbol of the tree gets a word that continues the prefix to one of its leaves, other entries stay |
| HuffmanCodes.SymbolBitsAreCodeBits | LAB_SE/Session1/Assignment 2.2/CSMCS26A017_Lab2_2.c:294-321 | with one leaf per symbol, depth-weighted frequency is frequency times code length |
| HuffmanTrees.ParseSerialize | LAB_SE/Session1/Assignment 2.2/CSMCS26A017_Lab2_2.c:452-484 | reading a written header gives the tree back (without frequencies) and stops exactly at its end, whatever bits follow |
| HuffmanTrees.SerializedLength | LAB_SE/Session1/Assignment 2.2/CSMCS26A017_Lab2_2.c:452-463 | a tree with k leaves takes 10k - 1 header bits |
| HuffmanTrees.DecodeEncode | LAB_SE/Session1/Assignment 2.2/CSMCS26A017_Lab2_2.c:547-676 | decoding encoded text gives the text back, whatever padding follows |
| HuffmanTrees.DecodeWord | LAB_SE/Session1/Assignment 2.2/CSMCS26A017_Lab2_2.c:657-675 | the walk over one code word emits its symbol and starts over at the root |
| HuffmanTrees.SerializeTreePreorder | LAB_SE/Session1/Assignment 2.2/CSMCS26A017_Lab2_2.c:452-463 | the recursive writer appends the specified header bits |
| HuffmanTrees.DeserializeTreePreorder | LAB_SE/Session1/Assignment 2.2/CSMCS26A017_Lab2_2.c:468-484 | on any input, well formed or not, the reader returns what the specification parses and leaves the rest unread |
| MinHeaps.ExtractedIsHeap | LAB_SE/Session1/Assignment 2.2/CSMCS26A017_Lab2_2.c:204-211 | taking out the root leaves a heap with exactly the other nodes |
| MinHeaps.InsertedIsHeap | LAB_SE/Session1/Assignment 2.2/CSMCS26A017_Lab2_2.c:213-221 | entering a node leaves a heap with exactly one node more |
| MinHeaps.SiftRepairs | LAB_SE/Session1/Assignment 2.2/CSMCS26A017_Lab2_2.c:187-202 | sifting down from the one place where order is broken restores the heap and keeps its nodes |
| MinHeaps.LiftRepairs | LAB_SE/Session1/Assignment 2.2/CSMCS26A017_Lab2_2.c:213-221 | lifting the one entry that may be too light restores the heap and keeps its nodes |
| MinHeaps.RootIsLeast | LAB_SE/Session1/Assignment 2.2/CSMCS26A017_Lab2_2.c:204-211 | the root of a heap has the least frequency |
| MinHeaps.MinHeap.MinHeapify | LAB_SE/Session1/Assignment 2.2/CSMCS26A017_Lab2_2.c:187-202 | the recursive swap loop on the array is the specified sift |
| MinHeaps.MinHeap.ExtractMin | LAB_SE/Session1/Assignment 2.2/CSMCS26A017_Lab2_2.c:204-211 | returns the root and leaves the specified array; Nil from an empty heap |
| MinHeaps.MinHeap.InsertMinHeap | LAB_SE/Session1/Assignment 2.2/CSMCS26A017_Lab2_2.c:213-221 | shifting parents down and storing the node once equals lifting it by swaps |
| BitStreams.BitWriter.WriteBit | LAB_SE/Session1/Assignment 2.2/CSMCS26A017_Lab2_2.c:91-102 | appends one bit to the stream of all bits written, through the byte buffer |
| BitStreams.BitWriter.WriteBits | LAB_SE/Session1/Assignment 2.2/CSMCS26A017_Lab2_2.c:104-108 | appends the low bits of a number, most significant first |
| BitStreams.BitWriter.Flush | LAB_SE/Session1/Assignment 2.2/CSMCS26A017_Lab2_2.c:110-117 | the output bytes hold all bits written, padded with fewer than eight zeros |
| BitStreams.BitReader.ReadBit | LAB_SE/Session1/Assignment 2.2/CSMCS26A017_Lab2_2.c:125-135 | takes the first remaining bit, or returns -1 at the end |
| BitStreams.BitReader.ReadBits | LAB_SE/Session1/Assignment 2.2/CSMCS26A017_Lab2_2.c:137-146 | takes the number the next bits spell, or fails having used everything up |
| BitStreams.FromToBits | LAB_SE/Session1/Assignment 2.2/CSMCS26A017_Lab2_2.c:104-146 | the bits written for a number spell that number when read |
| BitStreams.ShiftReadsBit | LAB_SE/Session1/Assignment 2.2/CSMCS26A017_Lab2_2.c:104-108 | shifting and masking reads one bit of the binary expansion |
| BitStreams.SetBit | LAB_SE/Session1/Assignment 2.2/CSMCS26A017_Lab2_2.c:91-94 | or-ing in a power of two at a clear position sets exactly that bit |
| Rsa.RecoversIffDistinct | STCN/Session1/Lab_Session_1/Exp10_RSA_Algorithm/rsa.c:9-146 | a generated key decrypts every message below n back to itself if and only if p and q differ; the header comment asks for that, the program does not test it |
| Rsa.RsaIdentity | STCN/Session1/Lab_Session_1/Exp10_RSA_Algorithm/rsa.c:110-146 | for distinct primes, decrypting an encrypted message of any size gives it back modulo n |
| Rsa.EqualPrimesLose | STCN/Session1/Lab_Session_1/Exp10_RSA_Algorithm/rsa.c:105-146 | with p = q the message p is lost for every exponent pair with e at least 2 |
| Rsa.GenerateKey | STCN/Session1/Lab_Session_1/Exp10_RSA_Algorithm/rsa.c:91-126 | every way key generation can end, for 64-bit p and q whose product and totient fit their words: rejection exactly if a number is not prime; no defined outcome exactly if a square in trial division overflows or, for the exponent found, the sum of line 64 does; otherwise a key with e coprime to phi and d below phi with e * d = 1 modulo phi |
| Rsa.KeyExistsIff | STCN/Session1/Lab_Session_1/Exp10_RSA_Algorithm/rsa.c:110-126 | two primes have a key if and only if the overflow condition fails for the exponent the search finds |
| Rsa.SmallPrimesHaveKey | STCN/Session1/Lab_Session_1/Exp10_RSA_Algorithm/rsa.c:110-126 | primes with a totient below two thirds of 2^63 always have a key |
| Rsa.OverflowExample | STCN/Session1/Lab_Session_1/Exp10_RSA_Algorithm/rsa.c:64-126 | p = 2483027969 and q = 3489660929 are prime with a product below 2^63, 17 is coprime to their totient, the sum of line 64 is at least 2^63, and no key exists |
| Rsa.ExponentIsCoprime | STCN/Session1/Lab_Session_1/Exp10_RSA_Algorithm/rsa.c:114-119 | for every totient of two primes the search from 17 in steps of 2 ends at an exponent coprime to it |
| Rsa.ChooseExponent | STCN/Session1/Lab_Session_1/Exp10_RSA_Algorithm/rsa.c:114-119 | the loop ends at the first odd candidate from 17 on that is coprime to phi or not below it |
| Rsa.TrialOverflowExample | STCN/Session1/Lab_Session_1/Exp10_RSA_Algorithm/rsa.c:85 | 9223372034170421249 is prime, at least 3037000499^2 and below 2^63, so the case of the overflowing square occurs |
| Rsa.KeyOfLargePrime | STCN/Session1/Lab_Session_1/Exp10_RSA_Algorithm/rsa.c:81-108 | key generation for that prime and 2 ends in the overflow of trial division |
| Proth.FactorsOfProth | STCN/Session1/Lab_Session_1/Exp10_RSA_Algorithm/rsa.c:85 | if a^((n - 1) / 2) is -1 modulo n = k * 2^m + 1 and n is composite, then n has two factors x * 2^m + 1 and y * 2^m + 1; with it the primes of both examples are certified |
| Proth.FromCertificate | STCN/Session1/Lab_Session_1/Exp10_RSA_Algorithm/rsa.c:85 | a chain of squarings from a to -1 proves k * 2^m + 1 prime if k modulo 2^m is greater than k / 2^m + 1 |
| Rsa.IsPrimeTrial | STCN/Session1/Lab_Session_1/Exp10_RSA_Algorithm/rsa.c:81-89 | for every 64-bit number: the right answer, except that for primes from 3037000499^2 on, and only for them, the square of the loop condition overflows |
| Rsa.NoSmallDivisor | STCN/Session1/Lab_Session_1/Exp10_RSA_Algorithm/rsa.c:85-87 | a number without divisors up to its square root is prime |
| Rsa.TrialRange | STCN/Session1/Lab_Session_1/Exp10_RSA_Algorithm/rsa.c:85 | where the trial loop ends, its square is at least 2^63 exactly if the number is at least 3037000499^2 |
| Rsa.ModExp | STCN/Session1/Lab_Session_1/Exp10_RSA_Algorithm/rsa.c:68-79 | square and multiply computes the power modulo any modulus up to 13043817825332782213, with every product in a signed 128-bit word; with modulus 1 and exponent 0 it returns 1 |
| Rsa.SquareAndMultiply | STCN/Session1/Lab_Session_1/Exp10_RSA_Algorithm/rsa.c:71-77 | one round keeps result * base^exp modulo the modulus |
| Rsa.ProductFits | STCN/Session1/Lab_Session_1/Exp10_RSA_Algorithm/rsa.c:73-75 | products of residues fit a signed 128-bit word for moduli up to 13043817825332782213, and for the next modulus the square of the greatest residue does not |
| Rsa.CoefficientsFit | STCN/Session1/Lab_Session_1/Exp10_RSA_Algorithm/rsa.c:37-48 | the coefficients are at most max(1, b) and max(1, a) in size and the product (a / b) * y1 at most a, so nothing overflows on non-negative 64-bit arguments |
| Rsa.InverseInverts | STCN/Session1/Lab_Session_1/Exp10_RSA_Algorithm/rsa.c:60-65 | each outcome for 64-bit phi: no inverse if the numbers are not coprime; out of range if the overflow condition holds; otherwise an inverse below phi |
| Rsa.SumOverflowIff | STCN/Session1/Lab_Session_1/Exp10_RSA_Algorithm/rsa.c:64 | the sum x % phi + phi leaves the 64-bit range if and only if 2k < e and (e + k) * phi + 1 >= e * 2^63, where k < e makes k * phi + 1 a multiple of e |
| Rsa.CofactorIsUnique | STCN/Session1/Lab_Session_1/Exp10_RSA_Algorithm/rsa.c:64 | there is only one such k |
| Rsa.CofactorModulo | STCN/Session1/Lab_Session_1/Exp10_RSA_Algorithm/rsa.c:64 | k depends only on phi modulo e |
| Rsa.HalfCoefficients | STCN/Session1/Lab_Session_1/Exp10_RSA_Algorithm/rsa.c:37-48 | for coprime arguments the coefficients are at most half of the arguments |
| Rsa.Gcd | STCN/Session1/Lab_Session_1/Exp10_RSA_Algorithm/rsa.c:50-57 | the loop computes the same divisor as the recursion |
| Rsa.EncryptAndDecrypt | STCN/Session1/Lab_Session_1/Exp10_RSA_Algorithm/rsa.c:143-146 | the demonstration: the cipher is m^e modulo n, and decrypting it gives m modulo n |
| Rsa.PrimesMultiply | STCN/Session1/Lab_Session_1/Exp10_RSA_Algorithm/rsa.c:110-112 | Chinese-remainder step: two different primes dividing a number have a product dividing it |
| NumberTheory.Bezout | STCN/Session1/Lab_Session_1/Exp10_RSA_Algorithm/rsa.c:36-48 | a * x + b * y equals the returned divisor, for all integers with truncating division |
| NumberTheory.GcdIsGreatest | STCN/Session1/Lab_Session_1/Exp10_RSA_Algorithm/rsa.c:36-57 | every common divisor divides the result |
| NumberTheory.GcdDivides | STCN/Session1/Lab_Session_1/Exp10_RSA_Algorithm/rsa.c:36-57 | the result divides both arguments |
| Fermat.FermatLittle | STCN/Session1/Lab_Session_1/Exp10_RSA_Algorithm/rsa.c:110-126 | Fermat's little theorem, the reason why exponents modulo phi suffice, from the binomial expansion |
| Fermat.FermatExponent | STCN/Session1/Lab_Session_1/Exp10_RSA_Algorithm/rsa.c:121-122 | exponents of the form 1 + k(p - 1) change nothing modulo p |
| Crc.AcceptedIffMultiple | STCN/Session1/Lab_Session_1/Exp02_Error_Detection/crc.c:55-75 | a word is accepted exactly if it is a sum of shifted generators, where the first generator bit counts as one whatever it is |
| Crc.RemMonic | STCN/Session1/Lab_Session_1/Exp02_Error_Detection/crc.c:24-48 | the first generator bit never reaches the remainder |
| Crc.DetectsBurstsIff | STCN/Session1/Lab_Session_1/Exp02_Error_Detection/crc.c:55-75 | for every generator, length and valid word: all errors within len consecutive positions are detected if and only if len is at most the place of the last one in the generator (first bit counted as one), or there are no data bits |
| Crc.DetectsFlipsIff | STCN/Session1/Lab_Session_1/Exp02_Error_Detection/crc.c:55-75 | every single flipped bit of a valid word is detected if and only if the generator has a one behind its first bit, or there are no data bits |
| Crc.DetectsShortBurstsIff | STCN/Session1/Lab_Session_1/Exp02_Error_Detection/crc.c:55-75 | every error burst within gen_len - 1 positions is detected if and only if the last generator bit is one (or there are no such bursts: one generator bit; or no data bits) |
| Crc.BurstDetected | STCN/Session1/Lab_Session_1/Exp02_Error_Detection/crc.c:55-75 | the detecting direction, for every generator, word length and burst position |
| Crc.GeneratorIsMissed | STCN/Session1/Lab_Session_1/Exp02_Error_Detection/crc.c:55-75 | one position more than that and an error is missed: the generator itself |
| Crc.MultipleIsWide | STCN/Session1/Lab_Session_1/Exp02_Error_Detection/crc.c:30-75 | a non-zero multiple has ones at least as far apart as the first and the last one of the generator |
| Crc.SentIsAccepted | STCN/Session1/Lab_Session_1/Exp02_Error_Detection/crc.c:30-75 | data followed by the computed remainder is accepted, for every non-empty generator |
| Crc.CheckBitsUnique | STCN/Session1/Lab_Session_1/Exp02_Error_Detection/crc.c:30-75 | no other check bits behind the same data are accepted |
| Crc.CheckBitsLinear | STCN/Session1/Lab_Session_1/Exp02_Error_Detection/crc.c:30-53 | the remainder of a sum of data words is the sum of the remainders |
| Crc.ErrorAcceptedAlone | STCN/Session1/Lab_Session_1/Exp02_Error_Detection/crc.c:55-75 | an error on a valid word is missed exactly if the error pattern alone would be accepted |
| Crc.RemLinear | STCN/Session1/Lab_Session_1/Exp02_Error_Detection/crc.c:44-48 | division commutes with addition |
| Crc.NoRemainderIsMultiple | STCN/Session1/Lab_Session_1/Exp02_Error_Detection/crc.c:62-66 | a word without remainder is the product of the found quotient and the generator |
| Crc.Divide | STCN/Session1/Lab_Session_1/Exp02_Error_Detection/crc.c:44-48 | the in-place loop leaves the polynomial remainder in the last gen_len - 1 places |
| Crc.XorOp | STCN/Session1/Lab_Session_1/Exp02_Error_Detection/crc.c:24-28 | adds the generator at one place and leaves what is before it |
| Crc.ComputeCrc | STCN/Session1/Lab_Session_1/Exp02_Error_Detection/crc.c:30-53 | the remainder of the data shifted by gen_len - 1 zeros |
| Crc.CheckCrc | STCN/Session1/Lab_Session_1/Exp02_Error_Detection/crc.c:55-75 | valid exactly if the remainder is all zero |
| Dijkstra.ShortestPaths | STCN/Session1/Lab_Session_1/Exp06_Routing_Algorithms/shortest_path_dijkstra.c:47-79 | after at most n - 1 selections, on every non-negative matrix: each entry is the smaller of INF and the true distance, and the parents form a tree that accounts for it; nodes are selected in the order of their distances, and each parent is the first selected node to offer its distance |
| Dijkstra.SolutionFound | STCN/Session1/Lab_Session_1/Exp06_Routing_Algorithms/shortest_path_dijkstra.c:59-79 | what the loop keeps, together with its exit condition, is a solution |
| Dijkstra.NoShorterWalk | STCN/Session1/Lab_Session_1/Exp06_Routing_Algorithms/shortest_path_dijkstra.c:59-79 | no walk from the source is shorter than the final entry |
| Dijkstra.RoundKeepsFrontier | STCN/Session1/Lab_Session_1/Exp06_Routing_Algorithms/shortest_path_dijkstra.c:63-78 | one selection keeps visited nodes nearest and their links used |
| Dijkstra.RoundKeepsTree | STCN/Session1/Lab_Session_1/Exp06_Routing_Algorithms/shortest_path_dijkstra.c:63-78 | one selection keeps every finite entry equal to its parent entry plus the link, without cycles |
| Dijkstra.RoundKeepsOrder | STCN/Session1/Lab_Session_1/Exp06_Routing_Algorithms/shortest_path_dijkstra.c:63-78 | one selection keeps the order of selection by distance, and that among equal offers the first one made decides the parent |
| Dijkstra.PathIsWalk | STCN/Session1/Lab_Session_1/Exp06_Routing_Algorithms/shortest_path_dijkstra.c:29-36 | the parent chain is a walk from the source whose length is the entry |
| Dijkstra.GetNextHop | STCN/Session1/Lab_Session_1/Exp06_Routing_Algorithms/shortest_path_dijkstra.c:38-45 | the walk up the parents ends and returns the node right behind the source on that path |
| Dijkstra.NextHopIsShortest | STCN/Session1/Lab_Session_1/Exp06_Routing_Algorithms/shortest_path_dijkstra.c:38-45 | that node is the first hop of a shortest walk among all walks |
| Dijkstra.PrintPath | STCN/Session1/Lab_Session_1/Exp06_Routing_Algorithms/shortest_path_dijkstra.c:29-36 | the recursive printer prints that path in order |
| Walks.Shorten | STCN/Session1/Lab_Session_1/Exp06_Routing_Algorithms/shortest_path_dijkstra.c:59-79 | every walk has one of at most n nodes that is no longer |
| Walks.DistanceIsUnique | STCN/Session1/Lab_Session_1/Exp06_Routing_Algorithms/shortest_path_dijkstra.c:47-79 | the capped distance is one number |
| DistanceVector.Simulate | STCN/Session1/Lab_Session_1/Exp06_Routing_Algorithms/distance_vector_routing.c:69-116 | the rounds follow each other from the direct links on; the iteration counter is the number of the first round that changes nothing, at least 1 and at most max(1, n - 1); the tables then hold all distances and account for them |
| DistanceVector.ExchangeRound | STCN/Session1/Lab_Session_1/Exp06_Routing_Algorithms/distance_vector_routing.c:91-111 | one round makes every offer once, in the order of the three loops; it reports an update exactly if the tables were not stable |
| DistanceVector.ConsiderOffer | STCN/Session1/Lab_Session_1/Exp06_Routing_Algorithms/distance_vector_routing.c:101-108 | one neighbour's offer, in place |
| DistanceVector.RunIsConsistent | STCN/Session1/Lab_Session_1/Exp06_Routing_Algorithms/distance_vector_routing.c:95-110 | in every intermediate state of every schedule of single updates, each finite entry is at least link plus next hop's cost |
| DistanceVector.RouteArrives | STCN/Session1/Lab_Session_1/Exp06_Routing_Algorithms/distance_vector_routing.c:95-110 | in every such state, following next hops reaches the destination at no more than the advertised cost |
| DistanceVector.RouteHasNoLoop | STCN/Session1/Lab_Session_1/Exp06_Routing_Algorithms/distance_vector_routing.c:95-110 | in every such state, following next hops visits no router twice |
| DistanceVector.RoundReachesFurther | STCN/Session1/Lab_Session_1/Exp06_Routing_Algorithms/distance_vector_routing.c:91-111 | each round, in whatever order its offers come, extends the bound to walks of one link more |
| DistanceVector.NothingImproves | STCN/Session1/Lab_Session_1/Exp06_Routing_Algorithms/distance_vector_routing.c:88-116 | once all walks of n - 1 links are beaten no offer improves anything |
| DistanceVector.StableIsShortest | STCN/Session1/Lab_Session_1/Exp06_Routing_Algorithms/distance_vector_routing.c:88-116 | stable tables hold the capped distances and next hops account for them exactly |
| DistanceVector.Initialise | STCN/Session1/Lab_Session_1/Exp06_Routing_Algorithms/distance_vector_routing.c:69-79 | the first tables are the direct links |
| Hamming.SyndromeIsXor | STCN/Session1/Lab_Session_1/Exp03_Error_Correction/hamming.c:77-92 | the syndrome of any received word is the exclusive or of all positions that hold a one |
| Hamming.CorrectsOneError | STCN/Session1/Lab_Session_1/Exp03_Error_Correction/hamming.c:76-97 | a codeword has syndrome 0 and stays; with any one position flipped the syndrome is that position and the codeword is restored |
| Hamming.DetectsTwoErrors | STCN/Session1/Lab_Session_1/Exp03_Error_Correction/hamming.c:76-92 | two flipped positions always give a non-zero syndrome, their exclusive or |
| Hamming.EncodeHamming | STCN/Session1/Lab_Session_1/Exp03_Error_Correction/hamming.c:41-74 | all parity checks of the result pass and its data positions hold the data |
| Hamming.DecodeAndCorrect | STCN/Session1/Lab_Session_1/Exp03_Error_Correction/hamming.c:76-109 | syndrome, corrected word (at most the position it names changes) and extracted data, for every received word |
| Hamming.SendWithError | STCN/Session1/Lab_Session_1/Exp03_Error_Correction/hamming.c:131-189 | encoding, flipping any one position and decoding returns the data and the position |
| Hamming.EncodingIsUnique | STCN/Session1/Lab_Session_1/Exp03_Error_Correction/hamming.c:41-74 | two codewords with the same data are equal |
| Hamming.FlipChangesSyndrome | STCN/Session1/Lab_Session_1/Exp03_Error_Correction/hamming.c:77-92 | flipping a position adds it to the syndrome |
| Hamming.PowerOfTwoIff | STCN/Session1/Lab_Session_1/Exp03_Error_Correction/hamming.c:29-31 | the bit trick recognises exactly the powers of two |
| Hamming.CalculateR | STCN/Session1/Lab_Session_1/Exp03_Error_Correction/hamming.c:33-39 | the least r >= 1 with 2^r >= k + r + 1 |
| Hamming.DataPositionsCount | STCN/Session1/Lab_Session_1/Exp03_Error_Correction/hamming.c:50-56 | exactly the positions 1, 2, 4, ... are kept for parity bits, so the data fill the others |
| Hamming.MaskTestsBit | STCN/Session1/Lab_Session_1/Exp03_Error_Correction/hamming.c:62-67 | masking a position with 1 << i tests bit i of it |
| Hamming.PlaceData | STCN/Session1/Lab_Session_1/Exp03_Error_Correction/hamming.c:50-56 | the data fill the positions that are not powers of two, from left to right |
| Hamming.ExtractAt | STCN/Session1/Lab_Session_1/Exp03_Error_Correction/hamming.c:50-56 | position j carries the datum with as many data positions before it |
| Hamming.CountOnes | STCN/Session1/Lab_Session_1/Exp03_Error_Correction/hamming.c:58-68 | the parity of the counted ones is the parity check |
| WorkerQueue.RunKeepsInv | AOS/Session1/Assements 2/Problem_A/server.c:47-91 | for any number of threads and every interleaving, with spurious wakeups and a shutdown: the joint invariant holds in every reachable state |
| WorkerQueue.RunExtends | AOS/Session1/Assements 2/Problem_A/server.c:47-91 | every enabled step of every thread extends a run, so the theorems about runs hold in every state that stepping can reach |
| WorkerQueue.InitialRun | AOS/Session1/Assements 2/Problem_A/server.c:38-45 | a freshly initialised queue is a run |
| WorkerQueue.PoppedIsPrefix | AOS/Session1/Assements 2/Problem_A/server.c:47-78 | popped descriptors are the oldest part of the pushed ones, in order, and the slots from head on hold exactly the rest, oldest first |
| WorkerQueue.RefinesFifo | AOS/Session1/Assements 2/Problem_A/server.c:47-91 | for every interleaving: what has gone in and out is what a plain queue, without ring, locks and waiting, makes of the same calls in the order in which they ended; what goes in are the descriptors of the pushes that ended before the shutdown |
| WorkerQueue.RunIsPerformed | AOS/Session1/Assements 2/Problem_A/server.c:47-91 | every run is made by some sequence of actions, so this holds of every run |
| WorkerQueue.NoLostWakeup | AOS/Session1/Assements 2/Problem_A/server.c:59-76 | when the mutex is free and a worker sleeps unsignalled, there are at least as many signalled workers as queued descriptors; likewise for pushers and free slots while the server runs |
| WorkerQueue.NobodyStaysBlocked | AOS/Session1/Assements 2/Problem_A/server.c:80-91 | from the shutdown broadcast on no thread is asleep on either condition, in that state or any later one of the run |
| WorkerQueue.StoppedStays | AOS/Session1/Assements 2/Problem_A/server.c:80-91 | the broadcast is never undone and the threads stay the same |
| WorkerQueue.EveryoneGetsOut | AOS/Session1/Assements 2/Problem_A/server.c:80-91 | after the broadcast every call under way ends, however the threads interleave: without new calls the run has at most three more steps for each thread, and it can go on as long as some thread is not out |
| WorkerQueue.StepsAddUp | AOS/Session1/Assements 2/Problem_A/server.c:47-91 | after the broadcast, without new calls, the steps made and the steps left always add up to the same number |
| WorkerQueue.SomeoneCanStep | AOS/Session1/Assements 2/Problem_A/server.c:47-91 | after the broadcast some thread can take the mutex, pass the loop or unlock as long as one is not out |
| WorkerQueue.StepGetsNearer | AOS/Session1/Assements 2/Problem_A/server.c:47-91 | after the broadcast each step other than a new call takes its thread one step nearer to the way out and moves no other |
| WorkerQueue.MutualExclusion | AOS/Session1/Assements 2/Problem_A/server.c:47-91 | at most one thread is between lock and unlock |
| WorkerQueue.StepKeepsInv | AOS/Session1/Assements 2/Problem_A/server.c:47-91 | every step of every thread keeps the invariant |
| WorkerQueue.StepKeepsWake | AOS/Session1/Assements 2/Problem_A/server.c:59-76 | every step keeps the wakeup accounting |
| WorkerQueue.StepKeepsRing | AOS/Session1/Assements 2/Problem_A/server.c:56-74 | every step keeps ring contents equal to what was pushed and not popped |
| WorkerQueue.StepKeepsMutex | AOS/Session1/Assements 2/Problem_A/server.c:47-78 | what a thread saw in its loop test still holds when it acts |
| WorkerQueue.StepKeepsStop | AOS/Session1/Assements 2/Problem_A/server.c:80-91 | no step puts a thread to sleep after the broadcast |
| WorkerQueue.InitHolds | AOS/Session1/Assements 2/Problem_A/server.c:38-45 | the initial queue satisfies the invariant |
| WorkerQueue.ConnectionQueue.Store | AOS/Session1/Assements 2/Problem_A/server.c:56-58 | a push writes its descriptor to the slot at tail, leaves the other slots, and moves tail and count; these are the ring fields of the step system |
| WorkerQueue.ConnectionQueue.Take | AOS/Session1/Assements 2/Problem_A/server.c:72-74 | a pop returns the descriptor in the slot at head, the oldest one, and moves head and count; these are the ring fields of the step system |
| WorkerQueue.ConnectionQueue.constructor | AOS/Session1/Assements 2/Problem_A/server.c:38-41 | an empty ring of 32 slots |
| LineReader.Reader.ReadLine | AOS/Session1/Assements 2/tcpServer.c:82-140 | for every division of the stream into chunks: the next line up to its NUL with length + 1, and the stream behind it; ERROR at the end of the stream |
| LineReader.ServeConnection | AOS/Session1/Assements 2/tcpServer.c:66-77 | the server loop receives the lines before the first empty one and stops right behind it, with the rest of that chunk in the static buffer and the later chunks not received |
| LineReader.ServeAll | AOS/Session1/Assements 2/tcpServer.c:52-77 | one reader serves all connections in turn: what is left in the buffer comes before the bytes of the next connection |
| LineReader.NextUndisturbedIff | AOS/Session1/Assements 2/tcpServer.c:82-140 | the next connection gets exactly its own lines, whatever it sends, if and only if the loop of this one stopped at the end of a chunk |
| LineReader.UsedUpToEmptyLine | AOS/Session1/Assements 2/tcpServer.c:66-140 | the loop stops right behind the first empty line, or at the end of a stream without one |
| LineReader.StopsAtEmpty | AOS/Session1/Assements 2/tcpServer.c:66-77 | the lines received are the first ones of the stream, none of them empty, and the next one, if any, is empty |
| LineReader.AllUndisturbed | AOS/Session1/Assements 2/tcpServer.c:52-77 | if every connection stops at the end of a chunk, each gets exactly its own lines |
| LineReader.KeptBytesIntrude | AOS/Session1/Assements 2/tcpServer.c:52-140 | a first connection that sends a NUL and some bytes in one chunk puts those bytes in front of the line of the second one |
| LineReader.KeptByteExample | AOS/Session1/Assements 2/tcpServer.c:52-140 | chunks 0 65 and 66 0 on two connections: the second line arrives as 65 66 |
| LineReader.Reader.Accept | AOS/Session1/Assements 2/tcpServer.c:57-57 | a new connection replaces the chunks to come and leaves the static buffer |
| LineReader.AllLinesReceivedIff | AOS/Session1/Assements 2/tcpServer.c:66-140 | the loop receives exactly the NUL-terminated lines of the stream if and only if no NUL comes first or right after another |
| LineReader.EmptyLineIff | AOS/Session1/Assements 2/tcpServer.c:118-131 | a stream has an empty line exactly if it starts with a NUL or has two in a row |
| LineReader.Reader.ReadPart | AOS/Session1/Assements 2/tcpServer.c:91-137 | one turn of the outer loop loses and reorders no byte |
| LineReader.Reader.Receive | AOS/Session1/Assements 2/tcpServer.c:92-104 | a chunk is received only when the buffer is used up |
| LineReader.Reader.CopyLine | AOS/Session1/Assements 2/tcpServer.c:111-115 | copies up to a NUL or the end of the buffer |
| LineReader.Reader.PassEnd | AOS/Session1/Assements 2/tcpServer.c:117-131 | steps over the NUL; a used-up buffer starts over at 0 |
| LineReader.LineLength | AOS/Session1/Assements 2/tcpServer.c:111-115 | the first NUL, or the end if there is none |
| Checksum.OwnChecksumAccepted | STCN/Session1/Lab_Session_1/Exp02_Error_Detection/checksum.c:23-51 | the receiver accepts the sender's checksum, for any number of words |
| Checksum.RegisterCompletes | STCN/Session1/Lab_Session_1/Exp02_Error_Detection/checksum.c:30-44 | adding the checksum to the 32-bit register never wraps and gives a positive multiple of 65535 |
| Checksum.ChangeUndetectedIff | STCN/Session1/Lab_Session_1/Exp02_Error_Detection/checksum.c:23-51 | for any number of words: changing one word goes unnoticed exactly if 0x0000 became 0xFFFF and the 32-bit register has room for it, or 0xFFFF became 0x0000 and the register was above 65535 |
| Checksum.ShortChangeUndetectedIff | STCN/Session1/Lab_Session_1/Exp02_Error_Detection/checksum.c:23-51 | for up to 65537 words that means: 0x0000 and 0xFFFF were exchanged and the words did not all become zero |
| Checksum.NoticedExchange | STCN/Session1/Lab_Session_1/Exp02_Error_Detection/checksum.c:23-51 | not for 65538 words: with 65537 times 0xFFFF and a 0x0000, exchanging the last word is noticed |
| Checksum.AcceptsIff | STCN/Session1/Lab_Session_1/Exp02_Error_Detection/checksum.c:38-51 | while nothing wraps, exactly the positive multiples of 65535 are accepted |
| Checksum.NoWrap | STCN/Session1/Lab_Session_1/Exp02_Error_Detection/checksum.c:24-44 | the 32-bit sum is exact for up to 65537 words, and with a checksum for up to 65536 |
| Checksum.WrapIsTight | STCN/Session1/Lab_Session_1/Exp02_Error_Detection/checksum.c:24-44 | one word more can wrap, in either case |
| Checksum.FoldCarries | STCN/Session1/Lab_Session_1/Exp02_Error_Detection/checksum.c:30-33 | the fold loop ends at the residue modulo 65535, with 65535 for non-zero multiples |
| Checksum.ComputeChecksum | STCN/Session1/Lab_Session_1/Exp02_Error_Detection/checksum.c:23-36 | the complement of the folded sum |
| Checksum.VerifyChecksum | STCN/Session1/Lab_Session_1/Exp02_Error_Detection/checksum.c:38-51 | accepts exactly if the folded sum with the checksum is 0xFFFF |
| BitStuffing.RoundTrip | STCN/Session1/Lab_Session_1/Exp01_Framing/bit_stuffing.c:21-60 | unstuffing the stuffed bits gives the data back, from any running count below five |
| BitStuffing.FlagOnlyAtEnds | STCN/Session1/Lab_Session_1/Exp01_Framing/bit_stuffing.c:93-94 | in flag, stuffed data, flag the pattern 01111110 occurs at the first and the last position and nowhere else, straddling windows included |
| BitStuffing.Overhead | STCN/Session1/Lab_Session_1/Exp01_Framing/bit_stuffing.c:21-38 | at most one bit is added for every five |
| BitStuffing.BitStuff | STCN/Session1/Lab_Session_1/Exp01_Framing/bit_stuffing.c:21-38 | the loop with its running count is the specified stuffing |
| BitStuffing.BitUnstuff | STCN/Session1/Lab_Session_1/Exp01_Framing/bit_stuffing.c:40-60 | the loop that skips a zero behind five ones is the specified unstuffing, on any input |
| BitStuffing.StuffedHasNoSixOnes | STCN/Session1/Lab_Session_1/Exp01_Framing/bit_stuffing.c:27-33 | stuffed data never hold six ones in a row |
| BitStuffing.StuffedFiveThenZero | STCN/Session1/Lab_Session_1/Exp01_Framing/bit_stuffing.c:21-38 | after five ones in a row the stuffed data always go on, with a zero, also at the end |
| BitStuffing.RestuffedIff | STCN/Session1/Lab_Session_1/Exp01_Framing/bit_stuffing.c:21-60 | stuffing undoes unstuffing on a bit string if and only if every five ones in it are followed by a zero; these are all the stuffed strings |
| BitStuffing.UnstuffedKeepsOnes | STCN/Session1/Lab_Session_1/Exp01_Framing/bit_stuffing.c:40-60 | unstuffing takes no one out of any bit string, stuffed or not |
| MergeSort.SortIsStable | LAB_SE/Session1/Assignment 2.1/CSMCS26A017_Lab2_1.c:145-182 | the result is sorted, and the records of each annual total keep their order, so nothing is lost or invented |
| MergeSort.SortCosts | LAB_SE/Session1/Assignment 2.1/CSMCS26A017_Lab2_1.c:145-182 | for n records and k = ceil(log2 n): exactly n*k - 2^k + n placements and at most n*k - 2^k + 1 comparisons |
| MergeSort.MergeSorter.MergeSort | LAB_SE/Session1/Assignment 2.1/CSMCS26A017_Lab2_1.c:243-261 | in place: sorted, with the records of each total in their old order; for n records and k = ceil(log2 n), mergeSwaps grows by exactly 2(n*k - 2^k + n) and mergeComparisons by at least n - 1 and at most n*k - 2^k + 1 |
| MergeSort.MergeSorter.MergeSortRec | LAB_SE/Session1/Assignment 2.1/CSMCS26A017_Lab2_1.c:174-182 | the recursion on a range of the array, with scratch array and both counters |
| MergeSort.MergeSorter.Merge | LAB_SE/Session1/Assignment 2.1/CSMCS26A017_Lab2_1.c:145-172 | the effect of a merge on array, scratch array and both counters |
| MergeSort.MergeSorter.MergeLoop | LAB_SE/Session1/Assignment 2.1/CSMCS26A017_Lab2_1.c:149-158 | the comparing loop on indices |
| MergeSort.SortWorkSorts | LAB_SE/Session1/Assignment 2.1/CSMCS26A017_Lab2_1.c:174-182 | whatever the scratch array held, the recursion sorts exactly its range, leaves the rest, and costs what sorting that range alone costs |
| MergeSort.MergeWorkMerges | LAB_SE/Session1/Assignment 2.1/CSMCS26A017_Lab2_1.c:145-172 | whatever the scratch array held, a merge puts the merged halves in their place with 2(right - left + 1) moves |
| MergeSort.MergedStable | LAB_SE/Session1/Assignment 2.1/CSMCS26A017_Lab2_1.c:149-158 | merging puts equal totals of the left half first |
| MergeSort.PlacedInRange | LAB_SE/Session1/Assignment 2.1/CSMCS26A017_Lab2_1.c:174-182 | closed form of the number of placements |
| MergeSort.ComparisonsBound | LAB_SE/Session1/Assignment 2.1/CSMCS26A017_Lab2_1.c:151 | the comparisons are bounded by a function of the length alone |
| MergeSort.MergeComparisonsExact | LAB_SE/Session1/Assignment 2.1/CSMCS26A017_Lab2_1.c:145-158 | a merge of sorted halves compares as often as the left half has records up to the last of the right, plus the right has records below the last of the left |
| MergeSort.ComparisonsAtLeast | LAB_SE/Session1/Assignment 2.1/CSMCS26A017_Lab2_1.c:145-182 | n records take at least n - 1 comparisons |
| QuickSort.QuickSorter.QuickSort | LAB_SE/Session1/Assignment 2.1/CSMCS26A017_Lab2_1.c:213-261 | for every stream of random numbers the array ends up sorted, with the same records; for n >= 1 records it draws d numbers, n/2 <= d <= n - 1, makes n - 1 to n(n - 1)/2 comparisons, and swaps at least d and at most comparisons + d times; with equal totals exactly n(n - 1)/2 comparisons, n - 1 numbers and n - 1 swaps |
| QuickSort.QuickSorter.QuickSortRec | LAB_SE/Session1/Assignment 2.1/CSMCS26A017_Lab2_1.c:213-219 | on a range of the array: a partition, then the part before the pivot, then the part behind it |
| QuickSort.QuickSorter.Partition | LAB_SE/Session1/Assignment 2.1/CSMCS26A017_Lab2_1.c:191-211 | draws one number; the record it picks becomes the pivot and ends at the returned index; exactly high - low comparisons, and 1 to high - low + 1 swaps |
| QuickSort.PartitionSplits | LAB_SE/Session1/Assignment 2.1/CSMCS26A017_Lab2_1.c:191-211 | for every random number, the partition splits the range around the record drawn, only permutes it, and costs what its contract says |
| QuickSort.ScanRunScans | LAB_SE/Session1/Assignment 2.1/CSMCS26A017_Lab2_1.c:198-206 | the scan keeps records not above the pivot before those above it |
| QuickSort.QuickTurn | LAB_SE/Session1/Assignment 2.1/CSMCS26A017_Lab2_1.c:213-219 | two sorted parts around a pivot make a sorted range whose pairs were each compared at most once |
| QuickSort.QuickSorter.SwapRecords | LAB_SE/Session1/Assignment 2.1/CSMCS26A017_Lab2_1.c:184-189 | exchanges two records, which may be the same one, and counts it |
| QuickSort.PivotLast | LAB_SE/Session1/Assignment 2.1/CSMCS26A017_Lab2_1.c:191-211 | with equal totals a partition leaves the pivot at high |
| QuickSort.QuickRunSorts | LAB_SE/Session1/Assignment 2.1/CSMCS26A017_Lab2_1.c:213-219 | the recursion sorts its range, only permutes it, and compares each pair at most once |
| QuickSort.QuickRunCosts | LAB_SE/Session1/Assignment 2.1/CSMCS26A017_Lab2_1.c:184-219 | numbers drawn, swaps and comparisons of the recursion, with their exact values for equal totals |
| QuickSort.PairsClosed | LAB_SE/Session1/Assignment 2.1/CSMCS26A017_Lab2_1.c:213-219 | n records form n(n - 1)/2 pairs |
| QuickSort.RangeQuery | LAB_SE/Session1/Assignment 2.1/CSMCS26A017_Lab2_1.c:324-344 | the printed indices are exactly the records within the bounds |
| QuickSort.LowerBound | LAB_SE/Session1/Assignment 2.1/CSMCS26A017_Lab2_1.c:281-291 | splits the sorted records at the first one not below the value |
| QuickSort.UpperBound | LAB_SE/Session1/Assignment 2.1/CSMCS26A017_Lab2_1.c:293-303 | splits the sorted records at the first one above the value |

## Left out

- Rsa.GenerateKey: products from 2^64 on, which wrap, and totients from 2^63 on, which do not fit the signed arguments, are excluded.
- Rsa.ModExp: moduli above 13043817825332782213 are excluded, as the signed 128-bit product of two residues can overflow there.
- Rsa.OverflowExample: what a compiled program does on an overflow is undefined in C and not modelled; likewise for Rsa.TrialOverflowExample.
- Rsa.EncryptAndDecrypt: encrypts one number; the loop over the characters of a text message is not modelled.
- Crc.CheckCrc: words shorter than gen_len - 1 are excluded, as the C loop would then read before the start of its buffer.
- Dijkstra.ShortestPaths: costs are non-negative; overflow of dist[u] + cost[u][v], possible only for costs near 2^31, is not modelled.
- DistanceVector.Simulate: links are positive and at most INF with a zero diagonal; links of cost zero, which the program skips, are excluded.
- LineReader.Reader.ReadLine: the line grows without limit where C has 100 bytes, the buffer is tested for its end before it is read, and a failing recv is not modelled.
- HuffmanCodec.CompressFile: the returned tree and codes are results for the sake of the contract; frequency sums do not wrap, which holds for texts below 2^64 bytes.
- HuffmanTrees.DeserializeTreePreorder: HuffmanNode is an immutable value, as every node is linked once and then only read; sharing and freeing of nodes are not modelled.
- BitStreams.BitWriter.WriteBit: the byte buffer is a number below 256 and the or of a clear bit is an addition, justified by `BitStreams.SetBit`; fputc becomes appending to a sequence.
- HuffmanCodes.GenerateCodes: code strings are sequences of bits instead of '0' and '1' characters with a terminator; likewise in the CRC, Hamming and stuffing programs.
- Hamming.EncodeHamming: any number of data bits, where the C program has 64 positions.
- WorkerQueue.NobodyStaysBlocked: the signal handler runs as a thread of its own, not inside one that may hold the mutex; that every thread gets scheduled is not modelled.
- WorkerQueue: the second broadcast in main, closing of dropped descriptors, and what a worker does with a connection.
- MergeSort.MergeSorter.MergeSort: annual totals are real numbers; no NaN. The counters are unbounded.
- QuickSort.QuickSorter.QuickSort: rand is an arbitrary stream of numbers; the order of records with equal totals is not stated.
- Huffman console tables and percentages, menu, file opening, memory exhaustion, freeing.
- Socket set-up, peer names, printing, command-line arguments.
- Go-back-N, selective-repeat and stop-and-wait simulations: each prints one fixed loss script.
- Caesar and substitution ciphers, parity, leaky bucket, byte stuffing, minimum and maximum search: per-character or single-loop programs.
- The caching proxy, the UDP and TCP clients, scripts and notes: input/output without an algorithm.
