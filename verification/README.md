# BBoot, modelled and verified in Dafny

BBoot boots AmigaOS from a zip archive in memory. This project models the parts
of it that do real work and proves what they promise:

- the inflate engine (`zip/puff.c`): `Bits`, `Huffman`, `Deflate`, `Inflate`,
  `Exactness`, `Streams`, `Tables`, `BitReader`, `Puff`;
- the flattened device tree reader (`fdt.c`): `CStrings`, `Fdt`;
- the Kickstart loader (`boot_aos.c`, `include/aoslist.h`): `ByteMemory`,
  `AosList`, `Kickstart`, `Kicklayout`;
- PCI base address allocation (`brd_amigaone.c`, `brd_sam460.c`): `PciBars`;
- the zip directory (`zip/zip.c`): `ZipDirectory`;
- shared by them: `Options`, and `Rounding` (the macro of `include/bboot.h`).

`dafny verify dfyconfig.toml` checks everything.

## How the pieces fit

**Inflate.** `Deflate` is the format as a grammar: blocks, the bits that encode
them and the bytes they stand for, with codewords defined by section 3.2.2 of
RFC 1951. `Inflate` is the format as a decoder, including every error code of
puff.c and how far the input was read. `Exactness` proves that the two are
inverse: a stream inflates to `out` consuming `k` bits if and only if those bits
encode blocks that expand to `out`. From that, and from the two stability
arguments of `Streams`, follow round trips, independence of what comes after the
stream, the report of truncated input, and the agreement of scanning with
writing. `Tables`, `BitReader` and `Puff` are puff.c itself, with its struct, its
arrays and its loops; each function is proved against its decoder function, and
`Puff.Puff` against `Inflate.Inflated`. A stream is a sequence of bits; the state
of the bit buffer is "the low `bitcnt` bits of `bitbuf`, then the bits of the
bytes not yet read", and a bit position says the same. A `longjmp` is the outcome
`LongJump`, which every caller turns into error 2. The output buffer may be null.

**Device tree.** `Scan` is the state machine of `fdt_find_prop` on tokens, and
`Lookup` is what it amounts to on trees. The flag `in_target` survives into
children, so a node that lacks a property can be answered with its first child's,
or that one's first child's; `LookupExact` says exactly when the caller gets what
it asked for, and `ShadowingHappens` shows a case where it does not. The comment in front of the
function promises only the named node.

**Kickstart.** `BootFrom` says what a layout file means, line by line; the parser
that cuts the buffer into strings in place is proved to do that. `Load` is one
module load and `RunLayout` the layout after any run of them. Memory is bytes of
a 32-bit big-endian machine, in which images, names, structs and list links are
all written, and in which the two end nodes of the AmigaOS list really overlap
inside the header. `Holds` says that the list, every struct and name and every
image are there. The code does not check that the first image stays below the
list: `MemoryExact` and `BootedMemory` say that memory holds everything, for all
contents of that image, exactly when it ends at or below the header, `BootLayout`
promises its result under that condition, and `ImageOverHeader` is a boot that
leaves no list.

**PCI.** `Serve32` is one request to `addr_for_bar` modulo 2^32, `Serve` the same
without wrap-around, and the bus scan is proved to be the run of `Serve32` over
the requests of all registers, whatever their sizes. `SafeRun` says that no
request of a run wraps at the state it meets. `RunExact` and `PlacedExactly` show
that this is exactly when the two kinds of arithmetic agree all the way, and
exactly when all ranges stay aligned, in their windows and disjoint. Runs up to
16 MB per register on AmigaOne and 512 MB on SAM460 are always safe
(`SmallIsSafe`); `WrapHappens` and `OverlapHappens` are runs of AmigaOne that are
not.

**Zip.** `Walk` is what `zip_file_find` does in any memory. The code does not step
over comments: `WalkExact` says that an entry is found exactly when no entry
before it has a comment, and `CommentHides` is an archive in which one is lost.

**Shared definitions.** Where a specification and the code both rest on one
definition (a table, a constant, how a number or a piece of text is read), a lemma
says what it is in independent terms: in bytes, by a rule of the format, or by its
inverse.

## Model

| member | source | states |
|---|---|---|
| Huffman.PrefixFree | zip/puff.c:219-229 | no codeword of the canonical code begins with another symbol's, for every length vector whose Kraft sum is at most one |
| Huffman.KraftIsEnd | zip/puff.c:355-362 | the Kraft sum of the used symbols is the end of the code space that the canonical numbering reaches |
| Huffman.ReadSymbolExact | zip/puff.c:211-233 | the next symbol is y, with exactly its length consumed, if and only if y's codeword stands there, whatever follows |
| Huffman.WalkReadsSymbol | zip/puff.c:235-255 | the walk over count and symbol tables reads the symbol whose codeword is next, reports an invalid code after fifteen bits, or lacks input |
| Huffman.DecodeExact | zip/puff.c:263-305 | with the tables of a code, decoding answers y if and only if y's codeword is next, and consumes exactly that codeword |
| Huffman.CompleteNeverFails | zip/puff.c:316-318 | a complete code never yields an invalid code, on any bits |
| Huffman.IncompleteCanFail | zip/puff.c:318-320 | an incomplete code rejects a stream of fifteen ones |
| Huffman.StableCountingSort | zip/puff.c:348-375 | the symbol table is the used symbols, each once, in strict (length, symbol) order |
| Huffman.ReadSymbolStable | zip/puff.c:298-300 | more input never changes a symbol or an invalid code once decided |
| Tables.Construct | zip/puff.c:340-379 | counts are right, the return value is 2^15 minus the Kraft sum when that is not negative and negative otherwise (0 for an empty code), and the tables are usable unless it is negative |
| Tables.NonNegativeIsDecodable | zip/puff.c:313-320 | the return value is non-negative exactly for codes with Kraft sum at most one |
| Tables.AcceptedCodes | zip/puff.c:741-743 | the test dynamic() makes accepts exactly complete codes, the empty code and one symbol with one bit |
| Tables.AcceptedLiteralCodes | zip/puff.c:731-738 | with an end-of-block code present, the test accepts exactly complete codes and symbol 256 alone with one bit |
| BitReader.State.Bits | zip/puff.c:126-145 | returns the next bits as a number, keeps the buffer below eight bits, and runs out exactly when fewer bits are left |
| BitReader.State.DecodeSlow | zip/puff.c:235-255 | the readable decode() returns what the walk over the tables reads and leaves the stream there |
| BitReader.State.Decode | zip/puff.c:263-305 | the fast decode() has the same outcome, bytes read and, after a symbol, bit buffer |
| BitReader.FastRefinesSlow | zip/puff.c:257-305 | from equal states and any table both versions report the same and read the same bytes, and after a symbol the buffers are equal |
| BitReader.WalkCases | zip/puff.c:284-292 | every index looked up lies below the number of used symbols, for any table with non-negative counts that fit |
| Deflate.EveryCopy | zip/puff.c:443-457 | exactly the lengths 3 to 258 and distances 1 to 32768 can be said by a length and a distance symbol with extra bits in range |
| Deflate.LengthSymbols | zip/puff.c:443-448 | lengths start at 3, each symbol takes over where the one before it ends, and the last is 258 alone |
| Deflate.LengthExtras | zip/puff.c:446-448 | extra bits grow by one every four length symbols |
| Deflate.DistanceSymbols | zip/puff.c:449-456 | distances start at 1, and each symbol takes over where the one before it ends, up to 32768 |
| Deflate.DistanceExtras | zip/puff.c:453-456 | extra bits grow by one every two distance symbols |
| Deflate.SymbolCounts | zip/puff.c:91-95 | the limits on code counts are the numbers of symbols there are |
| Deflate.OrderIs | zip/puff.c:674-675 | the order of code length codes: 16 to 18, 0, then outwards from 8 |
| Deflate.ScatterIs | zip/puff.c:692-695 | the i-th length sent goes to the i-th symbol of that order, the others get none |
| Deflate.ItemRuns | zip/puff.c:714-723 | repeats run 3 to 6, short zeros 3 to 10, long zeros 11 to 138, and the run fixes the item |
| Deflate.EveryRun | zip/puff.c:714-723 | every one of these runs can be said |
| Exactness.TokenComplete | zip/puff.c:459-487 | a literal or length/distance pair encoded at a position is read back, with exactly its bits |
| Exactness.TokenSound | zip/puff.c:459-487 | whatever token is read is one that the bits there encode |
| Exactness.CodesComplete | zip/puff.c:436-510 | encoded tokens and an end of block inflate to their expansion |
| Exactness.CodesSound | zip/puff.c:436-510 | a block that inflates is the encoding of tokens that expand to its output |
| Exactness.LengthsSound | zip/puff.c:701-729 | the lengths read are the run-length expansion of items that the bits encode, runs crossing from literals to distances |
| Exactness.HeaderComplete | zip/puff.c:684-743 | an encoded code description that meets the acceptance rules is read back as its lengths |
| Exactness.HeaderSound | zip/puff.c:684-743 | an accepted description is the encoding of counts, code length lengths and items whose expansion are the lengths read |
| Exactness.ItemsLengths | zip/puff.c:710-727 | every length in an expansion is at most 15 |
| Exactness.FixedCodes | zip/puff.c:554-568 | the fixed codes can be decoded and code the end of block |
| Exactness.FixedLiteralComplete | zip/puff.c:524-529 | the fixed literal/length code is complete |
| Exactness.StreamComplete | zip/puff.c:819-831 | a stream of encoded blocks, followed by anything, inflates to what it stands for |
| Exactness.StreamSound | zip/puff.c:819-831 | a stream that inflates is the encoding of a list of blocks |
| Exactness.InflateExact | zip/puff.c:793-840 | inflating to out after k bits is equivalent to the first k bits encoding blocks that stand for out |
| Streams.InflatesExactly | zip/puff.c:793-840 | the same with any output space: success is exactly that the bits encode such blocks and the output fits |
| Streams.ScanPredictsWrite | zip/puff.c:761-764 | a scan ending with code r after N bytes: a run with room for N ends the same way, one with less ends with code 1 |
| Streams.SelfDelimiting | zip/puff.c:785-791 | no legal stream is a proper prefix of another one, and equal streams stand for equal bytes |
| Streams.FromStable | zip/puff.c:132-137 | any outcome except missing input is unchanged by more input |
| Streams.PrefixDetermines | zip/puff.c:834-839 | inputs agreeing on the bytes a successful run consumed have the same output and counts |
| Streams.TruncationIsReported | zip/puff.c:753-757 | cutting off any byte that a successful run consumed gives exactly code 2 |
| Puff.CopyGrows | zip/puff.c:426-434 | the byte a self-feeding copy takes next is the one i modulo distance into the original |
| Puff.CopyBack | zip/puff.c:489-504 | a copy of any length and distance appends out[o-dist + i mod dist] for each i and changes nothing else |
| Puff.LengthDistance | zip/puff.c:473-487 | extra bits, distance symbol and distance check are those of the decoder, with its errors |
| Puff.Codes | zip/puff.c:436-510 | codes() is the decoder of compressed data: return code, output and position, within the output space |
| Puff.Stored | zip/puff.c:164-197 | stored() is the decoder of stored blocks, with the byte position of a length mismatch |
| Puff.Fixed | zip/puff.c:536-576 | fixed() decodes with the fixed codes whether its static tables are fresh or reused |
| Puff.AllLengths | zip/puff.c:701-729 | the length loop stores what the decoder of run-length items reads, with its errors |
| Puff.BuildCodes | zip/puff.c:731-743 | missing end of block, bad literal code and bad distance code are told apart in that order, else the tables stand for the two codes |
| Puff.Dynamic | zip/puff.c:665-747 | dynamic() is the decoder of dynamic blocks |
| Puff.Puff | zip/puff.c:793-840 | puff(), built with either decode(), returns the decoder's code; lengths are updated only for codes at most 0; dest holds the output and beyond it is untouched |
| Puff.Unpack | zip/puff.c:793-840 | puff() succeeds if and only if the source begins with an encoding of blocks that fit, and then delivers exactly their bytes and counts |
| Puff.UnpackAgain | zip/puff.c:834-839 | a second call on any source that agrees on the bytes consumed delivers the same output and counts, with tables reused and either decode() |
| Puff.UnpackCut | zip/puff.c:815-839 | a call on the source cut before the end of what was consumed returns 2 with both lengths unchanged |
| Fdt.ScanIsLookup | fdt.c:53-95 | the token scan of any tree, with NOP tokens anywhere, finds what Lookup finds |
| Fdt.ChainExact | fdt.c:60-75 | the scan finds something in a node exactly when the node, its first child, that one's first child and so on has the property |
| Fdt.LookupExact | fdt.c:42-44 | with distinct node names the answer is the named node's property exactly when no first descendant has one that the node lacks |
| Fdt.AbsentNode | fdt.c:89-92 | an absent node gives no property |
| Fdt.NeverShadowed | fdt.c:69-75 | nodes that have the property and leaves that lack it are answered as asked |
| Fdt.ShadowingHappens | fdt.c:60-75 | a node without the property is answered with its child's value |
| Fdt.ScanBlob | fdt.c:45-95 | the loop over the serialized tokens delivers what the token scan finds, as offset and length |
| Fdt.FindProp | fdt.c:45-95 | on a serialized tree the pointer and length returned delimit the value that Lookup names, or nothing |
| Fdt.IndexExact | fdt.c:112 | the length test in 32-bit arithmetic is right for values of every length exactly for indices from 0 to 0x1ffffffe |
| Fdt.GetPropU32Idx | fdt.c:107-115 | failure exactly when the test says so; for those indices the big-endian cell of the property, or failure when it is too short or absent |
| Fdt.GetPropStr | fdt.c:117-127 | the value cut to the buffer, terminated, the rest of the buffer untouched |
| AosList.InitIsEmpty | include/aoslist.h:35-40 | initialization leaves the empty list |
| AosList.AddTailAppends | include/aoslist.h:42-49 | adding a node keeps the list with the node at its end and changes no byte but the node's, the last successor's and the tail's |
| AosList.EmptyTest | boot_aos.c:170 | l_head->n_succ is null exactly for the empty list |
| AosList.Forward | include/aoslist.h:27-33 | following n_succ from l_head visits exactly the nodes, in order |
| AosList.Backward | include/aoslist.h:27-33 | following n_pred from l_tailpred visits them in reverse |
| AosList.Ram.ListAddTail | include/aoslist.h:42-49 | the four assignments in memory, whatever it holds; on a list they are the addition, also when it is empty and the header is the predecessor |
| AosList.Ram.Build | include/aoslist.h:35-49 | any run of additions on separate nodes is the list of them |
| Kickstart.BaseNameIs | boot_aos.c:51-52 | the module's name is what follows the last slash, or the whole path |
| Kickstart.LoadsExactly | boot_aos.c:54-91 | a load succeeds exactly when path and archive have the name and the board grants image and struct |
| Kickstart.LoadPlacement | boot_aos.c:66-94 | in bytes, where a load puts struct, image and name, and how much it claims |
| Kickstart.LoadKeepsLaid | boot_aos.c:65-95 | every load keeps structs aligned and modules one after the other up to the free address |
| Kickstart.RunLayout | boot_aos.c:49-95 | over any run, header, data, structs and names are pairwise disjoint exactly when the first image ends below the kicklist area; structs are aligned and names fit |
| Kickstart.InstallHolds | boot_aos.c:79-93 | writing image, name, struct, links and id of a module keeps the list and all earlier modules and images, and adds its own |
| Kickstart.RunHolds | boot_aos.c:49-95 | over any run whose first image ends at or below the header, memory holds the list, every struct, every name with its NUL and every image |
| Kickstart.MemoryExact | boot_aos.c:74-92 | after any run this holds for all contents of the first image if and only if that image ends at or below the header |
| Kickstart.ZerosUnlink | boot_aos.c:79-92 | an image of zeros over the header leaves no list |
| Kickstart.Loader.AddModule | boot_aos.c:29-42 | name, fields and links are written, in whatever memory |
| Kickstart.Loader.LoadModule | boot_aos.c:49-95 | a load claims what Load says, leaves memory as the run of all loads makes it, and returns 0 with nothing added otherwise, the image perhaps written |
| Kicklayout.KeywordIs | boot_aos.c:97 | a keyword is one that a blank or a tab follows |
| Kicklayout.ArgIs | boot_aos.c:173 | the path begins after all blanks and tabs that follow the keyword |
| Kicklayout.TrimExact | boot_aos.c:147-153 | blanks, tabs and carriage returns at both ends of a line go, and nothing else |
| Kicklayout.LinesOf | boot_aos.c:148 | a line is what stands before a line feed |
| Kicklayout.SampleBoots | boot_aos.c:154-191 | a layout of LABEL x, EXEC a, MODULE p with tabs, blanks and carriage returns boots with a and p, for all x, a and p |
| Kicklayout.ProcessBoots | boot_aos.c:169-191 | a section boots exactly when its lines are EXEC and then MODULEs and all load, in order |
| Kicklayout.BootsExactly | boot_aos.c:136-202 | a layout boots with exactly the EXEC and MODULE paths of the config-th LABEL section, loaded in order |
| Kicklayout.ReportsExactly | boot_aos.c:180-201 | a line is reported exactly when it is the section's first without the keyword due and all before it loaded |
| Kicklayout.SignificantNumbers | boot_aos.c:143-153 | reported numbers are 1-based numbers of lines that are neither blank nor comments |
| Kicklayout.BootedLayout | boot_aos.c:136-198 | what a boot leaves does not overlap exactly when its first module ends below the kicklist area |
| Kicklayout.BootedMemory | boot_aos.c:170-198 | after a boot memory holds list, structs, names and images for all contents of the first image exactly when the EXEC line's image ends at or below the header |
| Kicklayout.ImageOverHeader | boot_aos.c:172-179 | a layout and archive whose boot leaves no list in memory |
| Kicklayout.ReadLine | boot_aos.c:146-153 | the in-place step yields the trimmed line, ends it with NUL and leaves all later text unread |
| Kicklayout.BootLayout | boot_aos.c:133-198 | memory after a boot is that of the loads made; if the EXEC line's image ends at or below the header, the result is what the layout says and memory holds the list of the loaded modules with everything in them |
| PciBars.Alloc32Exact | brd_amigaone.c:31-45 | 32-bit and unbounded allocation agree if and only if the rounded base plus size stays below 2^32, or rounding reaches 2^32 and the size exceeds the window |
| PciBars.ServeKeeps | brd_amigaone.c:31-45 | a grant is aligned, inside its window and apart from all others; a refusal changes nothing |
| PciBars.RunIsWellPlaced | brd_amigaone.c:148-172 | over any run of requests without wrap-around all ranges are aligned, in their windows and pairwise disjoint |
| PciBars.RunExact | brd_amigaone.c:31-45 | the 32-bit run equals the unbounded one after every request if and only if each request is safe where the run has got to |
| PciBars.PlacedExactly | brd_amigaone.c:31-45 | from the start, the 32-bit run keeps all ranges aligned, in their windows, disjoint and below the free addresses after every request if and only if it is safe |
| PciBars.NoWrap | brd_sam460.c:350-364 | in every reachable state of AmigaOne up to 16 MB and SAM460 up to 512 MB nothing wraps |
| PciBars.SmallIsSafe | brd_sam460.c:341-348 | so any run of requests up to that size is safe |
| PciBars.WrapHappens | brd_amigaone.c:40-42 | a bus of two cards, one register of 32 MB, whose scan on AmigaOne ends outside its window with the free address reset to 0 |
| PciBars.OverlapHappens | brd_amigaone.c:40-42 | a bus of one card, one register of 2 GB, whose scan on AmigaOne gives two registers the same address |
| PciBars.Windows | brd_amigaone.c:20-29 | the windows of both boards, and that a request gets nothing exactly when it does not fit into the rest of its window |
| PciBars.WideIs | brd_amigaone.c:171 | a type says 64 bits in its third bit alone |
| PciBars.RequestedExactly | brd_amigaone.c:148-172 | a register is asked for exactly when it is there and is not the upper half of a 64-bit one |
| PciBars.AddressParts | drivers/pci.h:103-113 | bus, slot, function and register are found again in a register's address |
| PciBars.Served | brd_amigaone.c:107-128 | four functions of slot 7 of AmigaOne get no requests, everything else that is there does |
| PciBars.ProbeRecovers | brd_amigaone.c:149-162 | writing ones and reading back recovers kind, attributes and size of every register |
| PciBars.Allocator.SetupBar | brd_sam460.c:393-414 | a register of any size is probed, given an address and written as the 32-bit request it stands for |
| PciBars.Allocator.SetupDevice | brd_sam460.c:392-416 | the register loop serves all requests of a device, a 64-bit register taking two |
| PciBars.Allocator.SetupBus | brd_sam460.c:425-433 | the scan is the 32-bit run over the requests of all slots and functions in order; if that is safe it is the unbounded run and all ranges are well placed |
| ZipDirectory.Le16Exact | include/bboot.h:19 | a 16-bit field reads as v exactly when its bytes are those of v, low one first |
| ZipDirectory.Le32Exact | include/bboot.h:21 | the same for a 32-bit field |
| ZipDirectory.SignatureIs | zip/zip.c:17-21 | the word compared is a signature exactly when the four bytes are P, K and the two that tell records apart |
| ZipDirectory.EntryFields | zip/zip.c:65-71 | what is read of a central header in memory is its name, extra and comment length |
| ZipDirectory.FindLen | zip/zip.c:15-25 | the length up to the first end record after the first local header, or 0 if there is none |
| ZipDirectory.Zip.OpenBuffer | zip/zip.c:27-50 | opens at the last end record within the length if it is a single-disk one, else changes nothing |
| ZipDirectory.OpenFound | zip/zip.c:15-50 | opening at a length found selects the end record found |
| ZipDirectory.Zip.ReadDir | zip/zip.c:58-80 | moves to the next header (where the end record's four bytes say, or after name and extra field of the current one) if it lies inside and has the signature, else stays or, at a wrong signature, forgets the header |
| ZipDirectory.Zip.FileFind | zip/zip.c:109-126 | in any memory, finds what the walk finds and points at it; in an archive with names that fit and no comments before the last entry, succeeds exactly for names of entries and points at the first one |
| ZipDirectory.WalkExact | zip/zip.c:65-71 | the walk finds the entry that Find names, at its header, if no entry before it has a comment; unless a comment begins like a header, only then, and otherwise it finds nothing |
| ZipDirectory.WalkFinds | zip/zip.c:58-126 | on a directory without comments, except on its last entry, the walk finds the entry that Find names, at its header |
| ZipDirectory.FindsFirst | zip/zip.c:116-124 | with names of at most 255 bytes that is the first entry of exactly that name, if any |
| ZipDirectory.LookupFindsFirst | zip/zip.c:109-126 | there, with names that fit, the walk succeeds exactly if an entry has the name and gives the first one's header |
| ZipDirectory.CommentHides | zip/zip.c:66-71 | an archive, byte by byte, in which a comment on the first entry hides the second |

## Left out

- Puff.Puff: byte counts are unbounded naturals, so the sums `incnt + len` and `outcnt + len` of puff.c are not taken modulo the width of `unsigned long`; inputs and outputs near 4 GB are outside the model.
- BitReader.State.Bits: the shifts and `|` of the bit buffer are written as multiplication, division and addition, which they are because the joined bits do not overlap.
- Fdt.FindProp: blobs that do not hold a serialized tree are outside the model, because the code checks no bounds; property lengths are below 2^31.
- Kickstart.Loader.LoadModule: the archive is a map from the paths that can be found and extracted to their bytes, and it and the layout buffer lie apart from all memory loaded; claims return the address asked for or nothing, the same for the same request, and sizes do not wrap.
- Kicklayout.BootLayout: the layout has no NUL bytes and the config number is at least 1 (the code would dereference a null list for 0); the length of the layout is not cut to an int. When the EXEC line's image reaches the header, the contract gives memory and not the result.
- PciBars.Allocator.SetupBus: register sizes are powers of two below 2^32, and registers answer a probe with their size mask, the reserved I/O bit zero.
- Fdt.GetPropU32Idx: what is read for an index outside 0 to 0x1ffffffe that passes the length test is a parameter.
- ZipDirectory.WalkExact: which header is found when a comment itself begins with the signature of a central header is left to Walk.
- ZipDirectory.Zip.OpenBuffer: lengths and offsets are unbounded, not 32-bit `long`.
- ZipDirectory.Zip.FileFind: offsets are unbounded as well; the null checks on the zip pointer and name are left to the types.
- `zip_file_extract`, compressed and uncompressed size reads: copying or calling puff() with header fields taken on trust.
- The build of puff.c that allows distances too far back.
- Interrupt, latency timer and command register writes of the PCI setup; `find_memory_size`; the Pegasos2 board, whose I/O allocator rewinds on purpose.
- Open Firmware calls, serial output, console, configuration options, printf and the start-up glue: no hard property.
- CRC checks, ZIP64 and encryption: the code has none.
