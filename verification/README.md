# WOFS: a verified model of a write-once file system

WOFS masters a directory tree onto a medium that is written once, and mounts it again. The
mastering tool walks the tree, lays it out as an image, appends keyed hashes, and encodes the
result with a Reed-Solomon code. The mounter decodes what it reads, checks the hashes, and answers
lookups, listings and reads from the bytes of the image. This project models both directions and
proves that they fit together, down to the finite-field arithmetic of the code.

The main results, each for all inputs:

- **Correction.** A block within half the parity length of a codeword is restored to it, with the
  exact number of errors reported; and the decoder ends in a codeword only for such a block
  (`Decoder.Decoder.Decode`). Behind it are Massey's length bound and the shortest-recurrence
  theorem for the Berlekamp-Massey loop, the root bound for the early exit of the root search, and
  Forney's formula with the exponent table of the implementation.
- **The meaning of success.** The whole decoder is a function of the block it is given: it reports
  success exactly if the syndromes vanish or their locator has as many roots as its degree and not
  too many, and then leaves the block that Forney's formula gives (`Decoder.Decoder.Decode`). That
  block is a codeword exactly if the recurrence is as long as that degree (`Outcome.TrueResult`). A
  file is decoded exactly if every one of its blocks is accepted (`FileCodec.DecodedIff`).
- **The field.** The log and antilog tables are inverse to each other and define a field if and
  only if the polynomial is primitive (`FieldTables.GenerateField`), and the one that WOFS uses is
  (`WofsField.FieldPolynomialIsPrimitive`).
- **The layout.** The recursive writer, which runs over the memory that the walk built and patches
  offsets into parents after their children, produces exactly the image that a declarative
  serializer defines (`ImageWriter.Master.WriteDFS`, `ImageWriter.Master.ImageDFS`), and no two
  nodes share bytes of it (`Extents.TwoPlaces`). Where each field of each header lies is stated in
  numbers (`Extents.ImageBytes`).
- **The tree.** The stack machine that rebuilds a tree from the flat callback stream of a walk
  rebuilds exactly that tree, if and only if no name of it is skipped
  (`TreeBuilder.BuiltIffVisible`).
- **The mount.** Looking up, listing and reading answer from the bytes of any image; on the image of
  a tree they answer as the tree itself would (`Mount.FindAgrees`, `Mount.ListAgrees`,
  `Mount.ReadAgrees`), with the exact set of paths for which it does (`Mount.LookupExactIff`).
- **End to end.** If at most sixteen bytes of each run of 255 bytes on the medium change, opening it
  succeeds, the hashes are accepted, and every node of the tree is found, listed and read as it was
  mastered (`Pipeline.OpenMedium`, `Pipeline.FindNode`, `Pipeline.ListNode`, `Pipeline.ReadNode`).

## Files

| files | subject |
|---|---|
| `Bits`, `GaloisField`, `FieldTables`, `WofsField` | exclusive-or, field laws on log tables, table generation, the field of WOFS |
| `Polynomial`, `Roots`, `FieldPolynomial`, `Generator` | polynomials as values, roots and derivatives, the polynomial class, the generator |
| `Encoder`, `Locator`, `BerlekampMassey`, `Correction`, `Forney`, `Decoder` | the block encoder and decoder, and the theory of linear recurrences that they rest on |
| `Outcome`, `Misleading` | the decoder as a function of the block, what its result means, and blocks on which it misleads or refuses |
| `ByteString`, `FileCodec` | bytes and files with a cursor, the file encoder and decoder |
| `OnDisk`, `ImageWriter`, `TreeBuilder` | the image format, the writer, the builder of the tree |
| `Layout`, `Mount`, `Extents`, `TreeView` | where nodes lie in an image, the mounter, disjoint extents, the tree printer |
| `HashTrailer`, `Medium`, `Pipeline` | the hashes, the code on the medium, and the whole way of a tree |
| `Interleaving`, `Fletcher` | ragged interleaving, the deferred Fletcher-32 checksum |

Field elements and coefficients are natural numbers, added with an exclusive-or written out bit by
bit. Polynomials are sequences with the lowest coefficient first. Multiplication is defined through
the tables, and shown to be multiplication of polynomials modulo the field polynomial. Files are
byte sequences with a cursor; directory walks are sequences of callbacks; the keyed digest is a
parameter.

Where code and comments disagree the model follows the code: the comment in
src/OnDiskStructure.h:11 numbers files 0 and directories 1, the enumeration above it is the other
way round.

Properties that do not hold of the code as it stands are stated with the exact condition under
which they do, and with an input on which they fail:

- Table evaluation of a polynomial at zero gives zero, which is its value only if its constant
  coefficient is zero (`FieldPolynomial.TableEvalAtZero`, `FieldPolynomial.TableEvalWrong`); the
  inverse of zero is computed as two (`FieldTables.GenInverse`).
- A true result of the decoder is not always a codeword (`Outcome.TrueResult`,
  `Misleading.TrueWithoutCodeword`).
- A file is copied into the image only if its size, as a signed 32-bit number, is positive
  (`ImageWriter.Master.CopyContent`, `OnDisk.ContentsKeptIff`, `OnDisk.TwoGigabytesAreLost`).
- Names are cut at a backslash (`TreeBuilder.RenamedIff`, `TreeBuilder.BackslashIsCut`), and a tree
  whose root is given as `.` is not built (`TreeBuilder.BuiltIffVisible`,
  `TreeBuilder.CurrentDirectoryIsLost`).
- A lookup that goes on after the name of a plain file answers with that file
  (`Mount.LookupExactIff`, `Mount.BeyondAFile`).
- The decode report does not count errors in an incomplete last block (`FileCodec.ReportIff`,
  `FileCodec.ShortFileUncounted`).
- A name that starts or ends with a space is not printed as it is (`TreeView.TrimIff`,
  `TreeView.LeadingSpaceIsLost`).

## Model

| member | source | states |
|---|---|---|
| `FieldTables.Normalize` | libraries/schifra/schifra_galois_field.hpp:88-102 | the shift-and-mask loop ends and gives the mathematical residue modulo 2^p - 1, for every integer and width |
| `FieldTables.GenMul` | libraries/schifra/schifra_galois_field.hpp:390-396 | multiplication by adding logarithms is the product of the field |
| `FieldTables.GenDiv` | libraries/schifra/schifra_galois_field.hpp:398-404 | division by subtracting logarithms is the quotient of the field, zero where an operand is zero |
| `FieldTables.GenExp` | libraries/schifra/schifra_galois_field.hpp:406-412 | the table power of an element, with zero to the power zero being zero |
| `FieldTables.GenInverse` | libraries/schifra/schifra_galois_field.hpp:414-417 | the inverse of every non-zero element, and two for zero |
| `FieldTables.Exp` | libraries/schifra/schifra_galois_field.hpp:128-155 | a non-negative exponent is masked to the symbol width, a negative one wrapped by the order of the group |
| `FieldTables.GenerateField` | libraries/schifra/schifra_galois_field.hpp:317-357 | the antilog table holds the powers of x modulo the polynomial, and both tables are inverse to each other and close into one cycle if and only if the polynomial is primitive |
| `FieldTables.EveryElementIsAPower` | libraries/schifra/schifra_galois_field.hpp:317-357 | the powers of a primitive root reach every non-zero element, so every log entry gets written |
| `FieldTables.ValidIsPrimitive` | libraries/schifra/schifra_galois_field.hpp:317-357 | tables that are inverse to each other come from a primitive polynomial |
| `WofsField.FieldPolynomialIsPrimitive` | libraries/schifra/schifra_galois_field.hpp:478-480 | the polynomial that WOFS passes to the field constructor is primitive: its root has order 255 |
| `GaloisField.MulIsShifts` | libraries/schifra/schifra_galois_field.hpp:390-396 | the table product equals shifting and folding through the field polynomial as often as the logarithm says |
| `GaloisField.MulAssoc` | libraries/schifra/schifra_galois_field.hpp:390-396 | the table product is associative |
| `GaloisField.MulXor` | libraries/schifra/schifra_galois_field.hpp:78-81 | the table product distributes over exclusive-or |
| `GaloisField.MulNonzero` | libraries/schifra/schifra_galois_field.hpp:390-396 | there are no zero divisors |
| `GaloisField.DivMul` | libraries/schifra/schifra_galois_field.hpp:398-404 | division undoes multiplication by a non-zero element, and the other way round |
| `GaloisField.AlphaInverse` | libraries/schifra/schifra_galois_field.hpp:357-357 | the entries of the antilog table at i and 2^p - 1 - i are inverse to each other, the extra last entry included |
| `FieldPolynomial.FieldPolynomial.AddAssign` | libraries/schifra/schifra_galois_field_polynomial.hpp:209-242 | coefficientwise sum without leading zeros |
| `FieldPolynomial.FieldPolynomial.MulAssign` | libraries/schifra/schifra_galois_field_polynomial.hpp:261-287 | the nested loops leave the convolution without leading zeros |
| `FieldPolynomial.FieldPolynomial.ModAssign` | libraries/schifra/schifra_galois_field_polynomial.hpp:357-396 | shift-register division: the dividend is quotient times divisor plus the remainder, in exactly as many slots as the degree of the divisor |
| `FieldPolynomial.FieldPolynomial.ModPower` | libraries/schifra/schifra_galois_field_polynomial.hpp:398-407 | truncation to the coefficients below a power |
| `FieldPolynomial.FieldPolynomial.ShiftLeft` | libraries/schifra/schifra_galois_field_polynomial.hpp:423-443 | multiplication by a power of x |
| `FieldPolynomial.FieldPolynomial.Simplify` | libraries/schifra/schifra_galois_field_polynomial.hpp:610-631 | all leading zeros go, and the zero polynomial becomes empty |
| `FieldPolynomial.FieldPolynomial.AssignElement` | libraries/schifra/schifra_galois_field_polynomial.hpp:199-207 | assignment of an element keeps the old constant coefficient unless the polynomial was empty |
| `FieldPolynomial.FieldPolynomial.Evaluate` | libraries/schifra/schifra_galois_field_polynomial.hpp:534-550 | evaluation by table powers is evaluation by Horner's rule at every non-zero point |
| `FieldPolynomial.TableEvalIsEval` | libraries/schifra/schifra_galois_field_polynomial.hpp:534-550 | the two ways of evaluating agree at every non-zero point |
| `FieldPolynomial.TableEvalAtZero` | libraries/schifra/schifra_galois_field_polynomial.hpp:534-550 | at zero the table value is zero, which is right if and only if the constant coefficient is zero |
| `FieldPolynomial.TableEvalWrong` | libraries/schifra/schifra_galois_field_polynomial.hpp:534-550 | the constant polynomial one has table value zero at zero |
| `FieldPolynomial.FieldPolynomial.Derive` | libraries/schifra/schifra_galois_field_polynomial.hpp:580-598 | the even and odd loop yields the formal derivative |
| `Roots.RootBound` | libraries/schifra/schifra_reed_solomon_decoder.hpp:261-273 | a non-zero polynomial has fewer distinct roots than coefficients, which justifies the early exit |
| `Roots.DerivativeAtRoot` | libraries/schifra/schifra_galois_field_polynomial.hpp:580-598 | at a root the derivative is the value of the quotient by that root |
| `Generator.MakeSequentialRootGenerator` | libraries/schifra/schifra_sequential_root_generator_polynomial_creator.hpp:37-60 | the result has exactly the requested consecutive powers of alpha as roots and the right degree; a range that does not fit is refused and leaves the polynomial alone |
| `Generator.AddRoot` | libraries/schifra/schifra_sequential_root_generator_polynomial_creator.hpp:54-57 | one factor adds exactly one root |
| `Encoder.Encoder.MessagePoly` | libraries/schifra/schifra_reed_solomon_encoder.hpp:112-122 | the data symbols in reverse above the parity positions, masked to the field |
| `Encoder.Encoder.Encode` | libraries/schifra/schifra_reed_solomon_encoder.hpp:59-91 | data untouched, parity in range, and the whole block is a multiple of the generator; both error branches, exactly when they are taken |
| `Encoder.ParityMakesCodeword` | libraries/schifra/schifra_reed_solomon_encoder.hpp:67-75 | data with the remainder as parity vanishes at every root of the generator |
| `Encoder.ParityUnique` | libraries/schifra/schifra_reed_solomon_encoder.hpp:59-91 | there is only one codeword with given data |
| `Decoder.Decoder.constructor` | libraries/schifra/schifra_reed_solomon_decoder.hpp:47-58 | the decoder is valid if and only if the code length is the field size, and then its tables are filled |
| `Decoder.Decoder.CreateLookupTables` | libraries/schifra/schifra_reed_solomon_decoder.hpp:187-201 | every root exponent cancels the power that the first root index brings in, through the wrapped negative exponent |
| `Decoder.Decoder.LoadMessage` | libraries/schifra/schifra_reed_solomon_decoder.hpp:175-185 | the received polynomial is the reversed block, masked to the field |
| `Decoder.Decoder.ComputeSyndrome` | libraries/schifra/schifra_reed_solomon_decoder.hpp:227-240 | the syndromes are the values at the roots of the generator, and the flag is set if and only if one is not zero |
| `Decoder.Decoder.ComputeDiscrepancy` | libraries/schifra/schifra_reed_solomon_decoder.hpp:277-295 | the discrepancy is the coefficient of locator times syndrome at the round, with every access in range |
| `Decoder.Decoder.BerlekampMasseyAlgorithm` | libraries/schifra/schifra_reed_solomon_decoder.hpp:297-334 | the loop runs through the states of the recurrence function; the final locator satisfies the key equation and belongs to a shortest recurrence for the syndromes |
| `BerlekampMassey.Start` | libraries/schifra/schifra_reed_solomon_decoder.hpp:307-311 | the invariant of the loop holds at the start |
| `BerlekampMassey.NoDiscrepancy` | libraries/schifra/schifra_reed_solomon_decoder.hpp:313-333 | a round without discrepancy keeps the invariant |
| `BerlekampMassey.KeepLength` | libraries/schifra/schifra_reed_solomon_decoder.hpp:317-332 | a correction without a length change keeps the invariant |
| `BerlekampMassey.ChangeLength` | libraries/schifra/schifra_reed_solomon_decoder.hpp:321-332 | a length change keeps the invariant and stays shortest |
| `BerlekampMassey.MasseyInvariant` | libraries/schifra/schifra_reed_solomon_decoder.hpp:313-333 | every state of the loop satisfies the invariant and is no longer than any recurrence for all syndromes |
| `Locator.LengthBound` | libraries/schifra/schifra_reed_solomon_decoder.hpp:302-305 | a recurrence that fails at n bounds the length of every one that does not from below |
| `Locator.Independence` | libraries/schifra/schifra_reed_solomon_decoder.hpp:227-240 | as many vanishing power sums as there are distinct error locations make every error zero |
| `Locator.LocatorGenerates` | libraries/schifra/schifra_reed_solomon_decoder.hpp:302-305 | the product of the error location factors is a recurrence for the syndromes |
| `Locator.ShortestRecurrence` | libraries/schifra/schifra_reed_solomon_decoder.hpp:302-305 | up to half as many errors as syndromes, any recurrence no longer than their number has exactly the inverse error locations as roots |
| `Decoder.Decoder.FindRoots` | libraries/schifra/schifra_reed_solomon_decoder.hpp:250-275 | the search yields, in increasing order, exactly the exponents whose powers of alpha are roots |
| `Decoder.SearchComplete` | libraries/schifra/schifra_reed_solomon_decoder.hpp:269-272 | leaving the search once as many roots as the degree are found misses none |
| `Correction.SyndromesAreSums` | libraries/schifra/schifra_reed_solomon_decoder.hpp:227-240 | syndromes of a received block are power sums of its errors alone |
| `Correction.RootsAreLocations` | libraries/schifra/schifra_reed_solomon_decoder.hpp:250-275 | the root exponents are the block positions of the errors, counted from one |
| `Forney.ForneyValue` | libraries/schifra/schifra_reed_solomon_decoder.hpp:344-361 | numerator, derivative and exponent table give exactly the error value at its location, and neither vanishes |
| `Forney.ErrorsFound` | libraries/schifra/schifra_reed_solomon_decoder.hpp:117-162 | within reach of a codeword there are as many roots as errors and every fraction can be solved |
| `Forney.CodewordRestored` | libraries/schifra/schifra_reed_solomon_decoder.hpp:350-373 | adding the values restores the codeword and leaves right symbols alone |
| `Decoder.Decoder.AddErrors` | libraries/schifra/schifra_reed_solomon_decoder.hpp:350-373 | every location gets its value, nothing else changes, and the loop fails if and only if a non-zero numerator meets a zero denominator |
| `Decoder.Decoder.ForneyAlgorithm` | libraries/schifra/schifra_reed_solomon_decoder.hpp:336-383 | the same for the whole algorithm, with the final degree test and both of its errors |
| `Decoder.Decoder.Decode` | libraries/schifra/schifra_reed_solomon_decoder.hpp:65-69 | bounded-distance correction with exact counters for every block and codeword; at most half the parity length of changes in any case; true exactly if the trace of the block is accepted, and then the block is the corrected one; a codeword exactly if one was within reach; the error that goes with each refusal |
| `Decoder.Decoder.DecodeWithoutErasures` | libraries/schifra/schifra_reed_solomon_decoder.hpp:71-165 | the same function of the block, with the counters of every exit and an untouched block on the early refusals |
| `Decoder.EndsInCodeword` | libraries/schifra/schifra_reed_solomon_decoder.hpp:65-165 | success in a codeword is equivalent to some codeword being within reach |
| `Outcome.SplitIsSimple` | libraries/schifra/schifra_reed_solomon_decoder.hpp:345-355 | a locator with as many roots as its degree has no zero denominator, so no fraction fails |
| `Outcome.SyndromesExplained` | libraries/schifra/schifra_reed_solomon_decoder.hpp:344-361 | if the recurrence is as long as the degree of its locator, the values of Forney's formula have exactly the computed syndromes |
| `Outcome.TrueResult` | libraries/schifra/schifra_reed_solomon_decoder.hpp:65-165 | the block of a true result is a codeword if and only if the recurrence is as long as the degree of its locator |
| `Outcome.TraceMeaning` | libraries/schifra/schifra_reed_solomon_decoder.hpp:84-117 | the trace of a block holds its syndromes, a shortest recurrence for them, and exactly the roots of its locator |
| `Outcome.WithinReachAccepted` | libraries/schifra/schifra_reed_solomon_decoder.hpp:65-165 | a block within reach of a codeword is accepted, has as many roots as errors, and is corrected to that codeword |
| `Outcome.OutOfReach` | libraries/schifra/schifra_reed_solomon_decoder.hpp:119-160 | a block is refused only when no codeword is within reach |
| `Outcome.CorrectionExplained` | libraries/schifra/schifra_reed_solomon_decoder.hpp:336-383 | with at least one and not too many locations the result is true if and only if the locator has as many roots as its degree; the block is then the corrected one and as many symbols changed as values were not zero |
| `Misleading.TrueWithoutCodeword` | libraries/schifra/schifra_reed_solomon_decoder.hpp:65-165 | for every code with at least four parity symbols there is a block on which the result is true and the block is no codeword |
| `Misleading.RefusedBlock` | libraries/schifra/schifra_reed_solomon_decoder.hpp:375-382 | for every code there is a block that the decoder refuses |
| `Misleading.DamagedFile` | src/fileDecoder.cpp:73-81 | for every code on bytes there is a file of one block that is refused |
| `Forney.ErrorsNoticed` | libraries/schifra/schifra_reed_solomon_decoder.hpp:89-97 | up to as many errors as parity symbols, the syndromes vanish if and only if there is no error |
| `Forney.MinimumDistance` | libraries/schifra/schifra_reed_solomon_encoder.hpp:59-91 | different codewords differ in more symbols than there are parity symbols |
| `Forney.OnlyOneWithinReach` | libraries/schifra/schifra_reed_solomon_decoder.hpp:65-165 | at most one codeword is within the correction radius of a block |
| `FileCodec.FileEncoder.ProcessBlock` | libraries/schifra/schifra_reed_solomon_file_encoder.hpp:95-127 | the bytes followed by parity that makes the zero-padded block a codeword, whatever is left in the buffers |
| `FileCodec.FileEncoder.EncodeFile` | libraries/schifra/schifra_reed_solomon_file_encoder.hpp:50-91 | the whole file is cut into coded chunks, the last one as short as it has to be |
| `FileCodec.FileDecoder.ProcessCompleteBlock` | src/fileDecoder.cpp:117-141 | success if and only if the block is accepted, then with the data of the corrected block; the locations found are added to the report in any case |
| `FileCodec.FileDecoder.ProcessPartialBlock` | src/fileDecoder.cpp:143-187 | success if and only if the rest is longer than the parity and its padded block is accepted, then with the data of the corrected block |
| `FileCodec.FileDecoder.DecodeFile` | src/fileDecoder.cpp:43-96 | block after block until one is refused, with the data of those before it; the exact counts of the report |
| `FileCodec.DecodedIff` | src/fileDecoder.cpp:73-90 | decoding succeeds if and only if every run of 255 bytes and the rest is accepted |
| `FileCodec.RootlessRefused` | src/fileDecoder.cpp:128-131 | a block whose syndromes do not all vanish and whose locator has no root makes decoding fail |
| `FileCodec.ShortRestRefused` | src/fileDecoder.cpp:148-152 | a rest that is no longer than the parity makes decoding fail |
| `FileCodec.ChunkRestored` | src/fileDecoder.cpp:117-187 | a chunk within reach of a coded one is accepted, its data are those of the coded one, and as many symbols are found and changed as differ |
| `FileCodec.RefusedUnreachable` | src/fileDecoder.cpp:117-187 | a chunk is refused only if no coded chunk is within reach |
| `FileCodec.ReportExact` | src/fileDecoder.cpp:117-141 | what is within reach of a sent file is reported exactly, but for an incomplete last block |
| `FileCodec.ReportIff` | src/fileDecoder.cpp:73-96 | the report is exact for everything that can be corrected if and only if the file is a number of whole blocks, or the code corrects nothing |
| `FileCodec.ReportedAndLast` | src/fileDecoder.cpp:117-187 | the errors of a file are those in the report and those in an incomplete last block |
| `FileCodec.ShortFileUncounted` | src/fileDecoder.cpp:143-187 | one changed byte in a short file of zeros is corrected and not reported |
| `FileCodec.SameBlocks` | src/fileDecoder.cpp:73-90 | the decoder cuts a file where the encoder did |
| `FileCodec.NearSelf` | src/fileDecoder.cpp:43-96 | a file to which nothing happened is within reach |
| `FileCodec.CorruptedFileRecovered` | src/fileDecoder.cpp:43-96 | decoding an encoded file returns it, after any changes to at most half as many bytes of each block as it has parity bytes |
| `ByteString.RoundTrip64` | src/readFunctions.cpp:14-18 | big-endian 64-bit numbers are read back as they were written |
| `ByteString.RoundTrip32` | src/readFunctions.cpp:25-29 | big-endian 32-bit numbers are read back as they were written |
| `ByteString.BigEndianAt` | src/master.cpp:333-341 | byte i of k bytes is the digit of weight 256^(k - 1 - i), the most significant first |
| `OnDisk.SpacePad` | src/master.cpp:355-361 | a padded name has 256 bytes and reads back as the name |
| `OnDisk.HeaderRoundTrip` | src/readFunctions.cpp:31-45 | a header is read back as it was written |
| `OnDisk.HeaderSpaceIsCount` | src/master.cpp:525-528 | one header per node and one offset per node with a parent make up the header region |
| `OnDisk.AllContents` | src/master.cpp:477-499 | if every file is copied the contents follow each other without gap or loss |
| `OnDisk.SmallIsCopied` | src/master.cpp:480-488 | below two gigabytes every file is copied |
| `OnDisk.ContentsKeptIff` | src/master.cpp:478-499 | the image holds all contents in order if and only if files that are not copied are zero throughout and the last file that is not empty is copied |
| `OnDisk.TailIff` | src/master.cpp:478-499 | the contents reach the end of their space if and only if the last file that is not empty is copied |
| `OnDisk.TwoGigabytesAreLost` | src/master.cpp:480-488 | a file of two gigabytes of ones has no content in the image |
| `ImageWriter.Master.CopyContent` | src/master.cpp:478-497 | the nested copy loops write the whole content once, or nothing, by the sign of the 32-bit size |
| `ImageWriter.Master.WriteHeader` | src/master.cpp:461-477 | the header of a memory cell at the header cursor, as file or directory by its fill mark |
| `ImageWriter.Master.WriteDFS` | src/master.cpp:459-523 | for the tree that a memory cell stands for, the output is the old one with the header image at one cursor and the contents at the other, nothing else touched; both cursors advance by exactly the space of the tree |
| `ImageWriter.Master.WriteEntries` | src/master.cpp:505-520 | the loop over the array of child cells with its patched offsets lays down the offset table and the header images of the children |
| `ImageWriter.ProgressStep` | src/master.cpp:512-519 | one child written and its offset patched extend three separate runs of the output |
| `ImageWriter.Master.ImageDFS` | src/master.cpp:363-373 | the file is exactly the image of the tree that the root cell stands for, and the header cursor ends where the contents began |
| `TreeBuilder.Builder.SBuilder` | src/master.cpp:191-331 | one callback acts on memory, stack and counters as the step function, with status seven for entries that cannot be classified |
| `TreeBuilder.LinksAreFiles` | src/master.cpp:284-298 | a symbolic link is mastered as the file that it leads to |
| `TreeBuilder.Builder.Insert` | src/master.cpp:244-277 | the parent copy is popped, its next place written, and pushed again unless full; a child with entries goes on top |
| `TreeBuilder.Builder.Traverse` | src/master.cpp:137-163 | the walk folds the callback over the visits up to and including the first that gives up |
| `TreeBuilder.WalkBuilds` | src/master.cpp:191-331 | walking a tree inserts exactly it at the next place of the directory on top and keeps all other memory and the rest of the stack |
| `TreeBuilder.TreeBuilt` | src/master.cpp:137-166 | a whole walk ends with an empty stack, the tree below the head, and counters that give the exact header region |
| `TreeBuilder.BuiltIffVisible` | src/master.cpp:197-202 | the memory below the head stands for the walked tree if and only if no node of it is skipped |
| `TreeBuilder.CountedIffVisible` | src/master.cpp:197-202 | all nodes are counted if and only if no node is skipped |
| `TreeBuilder.InMemoryIsVisible` | src/master.cpp:197-202 | a tree that is in memory has no name that the walk skips |
| `TreeBuilder.CurrentDirectoryIsLost` | src/master.cpp:197-202 | mastering the current directory takes its first entry for the root |
| `TreeBuilder.RepresentsUnique` | src/OnDiskStructure.h:28-33 | a memory cell stands for at most one tree |
| `TreeBuilder.RenamedIff` | src/master.cpp:345-353 | a tree keeps its names if and only if none holds a separator, and a backslash is one |
| `TreeBuilder.BackslashIsCut` | src/master.cpp:345-353 | a file whose name holds a backslash is mastered under what follows it |
| `Layout.RootPlaced` | src/master.cpp:363-373 | an image places its root, whatever follows it |
| `Layout.HeaderRead` | src/readFunctions.cpp:31-45 | reading the header of a placed node gives what was known about it |
| `Layout.ChildRead` | src/mounter.c:74-84 | an offset of a placed directory leads to the placed child, at a strictly greater position inside the image |
| `Layout.ContentRead` | src/mounter.c:221-226 | the content of a copied file lies where its header says |
| `Extents.TwoPlaces` | src/master.cpp:459-523 | of two nodes either one lies below the other, behind its own header and offsets, or their headers and contents share nothing |
| `Extents.FileExtents` | src/master.cpp:459-523 | the contents of different files are disjoint, behind all headers and within the space of the contents |
| `Extents.ImageBytes` | src/master.cpp:459-523 | every node has its name, zero byte, spaces, length, time, offset and type at the stated positions of its 284 header bytes, the offsets of its entries after them, and its content, if copied, at its offset |
| `Extents.Positions` | src/master.cpp:503-528 | where the contents start and where each entry lies, in numbers of nodes before it |
| `Mount.NextToken` | src/mounter.c:53-64 | the next non-empty component of a path and where to go on |
| `Mount.TokensOfPath` | src/mounter.c:53-64 | splitting a path undoes joining its components |
| `Mount.TokensExample` | src/mounter.c:53-64 | slashes before, between and after components do not count |
| `Mount.Mounter.ReadHeader` | src/readFunctions.cpp:31-45 | the fields at an offset of any image, the name up to its zero byte |
| `Mount.Mounter.FindEntry` | src/mounter.c:74-95 | the first entry of a name in a directory of any image, or none |
| `Mount.Mounter.Find` | src/mounter.c:47-98 | the loop over tokens answers as the search over the bytes of any image does |
| `Mount.FindAgrees` | src/mounter.c:47-98 | on the image of a tree the search answers as the lookup in the tree does, with the header of the node it finds |
| `Mount.LookupFinds` | src/mounter.c:47-98 | without name clashes every node is found under the names that lead to it |
| `Mount.LookupSound` | src/mounter.c:47-98 | what is found is named by the path, or is a plain file named by a first part of it |
| `Mount.LookupExactIff` | src/mounter.c:66-72 | a lookup succeeds for exactly the paths that name a node if and only if the path does not go on after a plain file |
| `Mount.BeyondAFile` | src/mounter.c:66-72 | a name after that of a plain file names nothing and is found all the same |
| `Mount.Mounter.ReadDir` | src/mounter.c:140-182 | the names of the entries in order after the two dots, for any image; and the error cases |
| `Mount.ListAgrees` | src/mounter.c:140-182 | on the image of a tree these are the entries of the directory that the path names, and the root at the mount point |
| `Mount.Mounter.MountRead` | src/mounter.c:204-238 | for any image, the bytes of the file from the offset on, as many as asked for or as are left; nothing for an offset outside; and the error cases |
| `Mount.Mounter.CutToRequest` | src/mounter.c:226-233 | unsigned arithmetic cuts the request as if numbers were unbounded |
| `Mount.ReadAgrees` | src/mounter.c:204-238 | on the image of a tree this is the window of the content of the file that the path names |
| `Mount.ReadsJoin` | src/mounter.c:226-237 | consecutive reads of any size, joined, give the content |
| `TreeView.Printer.ReadHeader` | src/tree.cpp:130-146 | reading a header as one structure gives the same header as reading it field by field |
| `TreeView.Printer.PrintMetadata` | src/tree.cpp:163-195 | the recursion ends and prints every node of the tree, directories before their entries |
| `TreeView.PrintsTheWalk` | src/tree.cpp:163-199 | the printed lines follow, one for one, the callbacks of the walk that the image was mastered from: each shows the mastered name without the spaces around it, as deep as its path has components beyond the root |
| `TreeView.TrimIff` | src/tree.cpp:240-248 | a name is shown as it is if and only if it neither starts nor ends with a space |
| `TreeView.TrimRemoves` | src/tree.cpp:240-248 | trimming removes the spaces at both ends and nothing else |
| `TreeView.LeadingSpaceIsLost` | src/tree.cpp:240-248 | a leading space is lost |
| `HashTrailer.HashAndAppend` | src/master.cpp:375-419 | the image, one digest of 32 bytes for every 1048576 bytes of it and for the rest, and their number, each at its position |
| `HashTrailer.SealedBytes` | src/master.cpp:384-415 | the same of the sealed image as a value |
| `HashTrailer.BlocksCover` | src/master.cpp:388-412 | every byte of the image belongs to exactly one block |
| `HashTrailer.BlocksRoundUp` | src/master.cpp:388-412 | the number of blocks is the size over the block size, rounded up |
| `HashTrailer.CheckHash` | src/mounter.c:240-300 | accepted if and only if, behind the image part, the 32 bytes for each of its runs of 1048576 bytes are the digest of that run |
| `HashTrailer.AuthenticIff` | src/mounter.c:246-297 | the same of the file as a value |
| `HashTrailer.SealedAccepted` | src/mounter.c:240-300 | the hash check recovers the image that was hashed and accepts it |
| `HashTrailer.ChangesCollide` | src/mounter.c:284-289 | if only image bytes change and the file is still accepted, every block has the digest it had |
| `Interleaving.Interleave` | libraries/schifra/schifra_reed_solomon_interleaving.hpp:271-323 | read row by row the used cells are what they were column by column; unused cells stay |
| `Interleaving.Deinterleave` | libraries/schifra/schifra_reed_solomon_interleaving.hpp:492-555 | read column by column the used cells are what they were row by row; unused cells stay |
| `Interleaving.InterleaveFull` | libraries/schifra/schifra_reed_solomon_interleaving.hpp:237-269 | the same for a stack of full rows |
| `Interleaving.DeinterleaveFull` | libraries/schifra/schifra_reed_solomon_interleaving.hpp:458-490 | the same for a stack of full rows, by reading row by row |
| `Interleaving.RoundTrip` | libraries/schifra/schifra_reed_solomon_interleaving.hpp:492-555 | deinterleaving an interleaved stack restores every used cell, for every shape |
| `Interleaving.ColumnOrderAt` | libraries/schifra/schifra_reed_solomon_interleaving.hpp:271-323 | where each symbol goes |
| `Interleaving.InterleavedAt` | libraries/schifra/schifra_reed_solomon_interleaving.hpp:271-323 | the place of every symbol after interleaving, in numbers |
| `Interleaving.BurstHitsEachRowOnce` | libraries/schifra/schifra_reed_solomon_interleaving.hpp:237-269 | as many consecutive symbols as there are rows come from different rows, one less where the last row is short |
| `Fletcher.Fletcher32` | src/DataCheck.cpp:7-26 | the deferred checksum in 32-bit arithmetic equals the one that reduces at every word, for data of any length, and its halves are the two sums |
| `Fletcher.ChecksumHalves` | src/DataCheck.cpp:11-25 | the low half is the sum of the words, the high half the sum of the words weighted by their distance from the end, both modulo 65535 |
| `Fletcher.LateReduction` | src/DataCheck.cpp:11-24 | reducing late is reducing always |
| `Fletcher.BlockIsLargest` | src/DataCheck.cpp:11-17 | blocks of up to 360 words never overflow 32 bits from any reduced state, and no larger block has this property |
| `Medium.WofsCodeUnique` | src/ecc.cpp:25-29 | mastering and mounting build their tables separately and get the same code |
| `Medium.AddReedSolomon` | src/master.cpp:421-457 | every 223 bytes of the image, and the rest, are followed by 32 parity bytes so that the block vanishes at the powers 120 to 151 of the primitive element; the length of the result |
| `Medium.EncodedBytes` | src/config/decodeConstants.c:1-5 | the same of any encoding with the code of WOFS |
| `Medium.NearIffSixteen` | src/config/decodeConstants.c:1-5 | the correction radius is sixteen bytes in each run of 255 |
| `Medium.DecodeMedium` | src/ecc.cpp:13-36 | decoding with the same code |
| `Pipeline.MasterTree` | src/master.cpp:137-188 | walking a tree, laying out the memory that the walk built, hashing and encoding yields the encoding of the hashed image of the tree with its names cut at separators, and of the tree itself if no name holds one |
| `Pipeline.HashedMounts` | src/mounter.c:421-444 | the hashed image of a tree is authentic and mounts as the tree |
| `Medium.MediumRecovered` | src/mounter.c:402-419 | decoding returns the image after any changes to at most sixteen bytes of each run of 255 |
| `Pipeline.OpenMedium` | src/mounter.c:399-444 | after any changes to at most sixteen bytes of each run of 255, decoding succeeds, the hashes are accepted, and the mounted image is that of the tree |
| `Pipeline.FindNode` | src/mounter.c:47-98 | every node of a mounted tree is found under its path, with its own header |
| `Pipeline.ListNode` | src/mounter.c:140-182 | every directory of a mounted tree lists its entries in order and nothing else |
| `Pipeline.ReadNode` | src/mounter.c:204-238 | every file of a mounted tree reads as its content: from the offset on, as many bytes as asked for or as are left |
| `Pipeline.PrintMastered` | src/tree.cpp:89-128 | printing the hashed image of a walked tree prints its walk, one line for each callback |

## Left out

- Erasure decoding, product codes, the general codec, shortened codes, bit input and output and the CRC classes of the code library: WOFS does not use them.
- The precomputed multiplication, division, power and inverse tables: the model computes each entry where the source looks it up.
- HMAC-SHA256: a parameter that maps bytes to 32 bytes.
- The walk itself, and reading files and directories of the host: sequences of callbacks with contents.
- Files of the host that change between the walk and the copy: a file has the content that the walk saw.
- The text around the printed names: indentation strings, times, sizes and contents.
- Command lines, keys, prompts, progress messages, file-open errors and the mounting callbacks for attributes and for opening: input and output, or easy members.
- The final mount after a failed decode or a failed hash check that the user overrides.
- Aliasing of polynomial arguments: a polynomial is combined with values, never with itself in place.
- FieldPolynomial.FieldPolynomial.ModAssign: a divisor of degree zero is excluded, because the source then indexes an empty remainder.
- FieldTables.GenExp: does not model the overflow of a product of logarithm and exponent beyond 32 bits, which needs a width of 16 or more; WOFS uses width 8.
- HashTrailer.HashAndAppend: images of two gigabytes or more are excluded, because the source computes block offsets in signed 32-bit variables.
- HashTrailer.CheckHash: files whose trailer claims fewer digests than the image part has blocks, or more than fit, are excluded, because the source then compares bytes that it did not read.
- Mount.Mounter.ReadHeader: an offset with fewer bytes after it than a header has is excluded, because the source then uses bytes that it did not read.
- Mount.Mounter.FindEntry: entries that lead outside the file are excluded, for the same reason.
- Mount.Mounter.Find: paths on which a header leads outside the file are excluded, for the same reason.
- Mount.Mounter.ReadDir: directories with an entry that leads outside the file are excluded, for the same reason.
- Mount.Mounter.MountRead: files whose content is not all in the image are excluded, for the same reason.
- TreeView.Printer.ReadHeader: a header with fewer than four bytes after it is excluded, because the source then reads a short block and its stream fails.
- TreeView.Printer.PrintMetadata: images that were not mastered are excluded, because the recursion of the source need not end on them.
