# A model of the Dis module loader

This project models the part of `inferno-rs` that turns a Dis object file into a loaded
module, and the small run-time parts next to it:

- the variable-length operands, all sections of an object file from the header to the
  source path, and `load_module`, which reads them (`Operands`, `ObjectFile`, `Handlers` for
  the exception section, `Loader`);
- the `BufferedReader` the data section is read through (`Reader`);
- `ModuleHeap`, one region of untyped bytes that holds the module data and, above it, the
  strings and arrays created while the data section is loaded (`HeapModel` for the
  functions, `ModuleHeap` and `LoadData` for the class and the loops that run in place),
  and the debug read of it that follows (`DebugRead`);
- the frame stack and the fetch loop (`FrameStack`, `Execution`).

Loops, classes and in-place writes of the source are methods here. Each is proved equal to
a pure function of the file or of the old state, and the theorems are about those functions.

Two reference definitions are the partners of the main theorems.

- `Encoder` is the encoder of the Dis object-file format, with its own table of the format's
  numbers: magic numbers, flags, modes, item codes and scalar sizes. `RoundTrip`,
  `WholeFile` and `Faithful` prove what the loader reads back from an encoded file, section
  by section and up to an exception section, and exactly which files come back unchanged.
  `Handlers` adds the exception section, and `Refusals` what is refused of bytes no encoder
  writes.
- `Store` is a simple store: places, symbolic bytes and a list of objects, without
  addresses or headers. `Refinement` proves that the byte-level loader agrees with it after
  every item of a well-formed stream. `HeapLayout`, `Targets` and `PointerSlots` read the
  consequences off the bytes; `Elements` and `Overrun` say what its errors come to there. A
  stream is well-formed (`Store.WellFormed`) when every item lies inside its target (the
  module data, or the payload of the array the base points into), the heap has room,
  set-indexes follow an array and restores follow a set-index.

`LoadTheorem` puts the two together: an encoded module with well-formed data loads to its
last byte, into its own contents and a heap that agrees with its store, exactly when the
debug read of that heap gets through. `LoadTheorem.SmallestLoads` is a module that does.

## What the source does differently from its evident intent

The code is modelled as written. Where it deviates, the model proves exactly when it does
what it should.

- The bit that selects sign extension of two- and four-byte operands has already been
  masked away when it is tested, so an operand below -64 is read 2^14 or 2^30 too large
  (`Operands.ParseVersusSpec`). A file without exception section is read back unchanged
  exactly when none of its operands is below -64. Middle operands, which are cut to 16 bits,
  also survive below -8192 (`Faithful.FileSurvivesExactly`, `Faithful.CodeSurvivesExactly`).
- The exception section: the loader moves over the handler count by its value and over
  each pc by four bytes, and drops the handlers it has read. The section is read as written
  exactly when it has one handler, both pcs are at least 0x2000 and no other operand is
  below -64
  (`Handlers.EndingSurvivesExactly`, `Handlers.WholeFileSurvivesExactly`).
- Whatever the module, the word at offset 312 is taken for a pointer to an array of words.
  With a pointer to an object there, a module loads exactly when that many words fit behind
  the object's descriptor; with nothing written to that word of its data, or the break
  below it, it does not load
  (`LoadTheorem.PointerDecidesLoading`, `LoadTheorem.NoPointerNoLoading`).
- `Type::is_pointer` reads the pointer map from its end and `setup_pointers` from its
  start: they agree exactly on palindromes of a map size that is not negative
  (`PointerMap.ReadingsAgreeOnPalindromes`).
- A set-index item adds the index without the element size, and selects the array created
  last instead of the one at its own target (`Elements.ElementTarget`,
  `Elements.SetIndexPicksTheLast`, with the array of arrays of
  `Elements.NestedArraysMisdirected` and its bytes in `Elements.NestedSetIndexGoesWrong`).
- Of a scalar write only the first byte is checked against the heap
  (`Overrun.AcceptedExactly`). An accepted write leaves every header, descriptor and text
  intact, whatever its values, exactly when its bytes lie outside all of them
  (`Overrun.DamageExactly`); a word at the end of the module data does not
  (`Overrun.OverrunDamagesHeader`).
- The payload of a new array is not compared with the end of the region, and its target is
  compared with the break behind the array (`Overrun.ArrayAcceptedExactly`).
- Frames are pushed at one end and popped at the other: a queue
  (`FrameStack.QueueIsCallStackExactly`).
- The fetch budget is the code length wherever execution starts, so every entry point but 0
  makes the loop fetch behind the code (`Execution.FetchesInsideExactly`), and a negative one
  can make the counter overflow (`Execution.Start`). A module without data cannot be started
  at all (`Execution.ExecutionContext.SetupEntryFrame`).
- The four-byte slice an operand is read from can reach beyond the end of the file when a
  list of imports is empty and the source path is too
  (`WholeFile.ImportSectionRoundTrip`, with the file of `Faithful.EmptyImportsAreRefused`).

## Conventions

A byte is an integer from 0 to 255; shifts and masks are written as arithmetic, and
`BitOps` proves both forms equal. `Result.Fail` stands for a panic and for an access outside
the mapped region. Overflow of 32-bit additions and multiplications and of the program
counter fails, as it does in the development profile. The region starts at 0x80000 and is
`desc.size` plus half of `HEAP_SIZE` long, as in the source, and starts zeroed. Integers are
written to the region in the little-endian order of the only targets that offer 32-bit
mappings. The memory behind the code vector holds whatever it holds
(`Execution.ExecutionContext.beyond`).

## Model

| member | source | states |
|---|---|---|
| `Operands.ParseVersusSpec` | disvm/src/module.rs:528-564 | the decoded value is the sign-extended one of the format plus 2^14 or 2^30, the excess being non-zero exactly when a long form has bit 0x20 set; the length depends on the first byte alone |
| `Operands.ParseOfEncode` | disvm/src/module.rs:528-564 | decoding the format's shortest encoding of a value stops at its end and returns the value exactly when it is at least -64 |
| `Operands.ParseOfEncodeLoadable` | disvm/src/module.rs:528-564 | on all of [-64, 2^30) the decoder has an inverse encoder |
| `Operands.ParseRange` | disvm/src/module.rs:528-564 | the decoder returns nothing outside [-64, 2^30) |
| `Operands.OperandAtEncode` | disvm/src/util.rs:92-96 | an encoded operand is read wherever four bytes can be sliced, and the cursor moves by its own length; 32-bit and truncated 16-bit values |
| `Operands.EncodePrefixFree` | disvm/src/module.rs:202-208 | concatenated operands decode uniquely: no encoding is a prefix of another |
| `BitOps.ParseOperandIsBitwise` | disvm/src/module.rs:528-564 | the arithmetic decoder is the source's decoder with its masks |
| `BitOps.BitIsShift` | disvm/src/mem.rs:437 | the map bit test by shift and mask is the arithmetic one |
| `BitOps.MarkedIsShift` | disvm/src/mem.rs:432-446 | a word is marked exactly when its bit of its map byte is set, counted from the high bit |
| `BitOps.AddressBits` | disvm/src/module.rs:18-60 | the numbers of the three modes of an address byte are its bits 0-2, 3-5 and 6-7 |
| `RoundTrip.ModesOfAddress` | disvm/src/module.rs:18-60 | every combination of modes, reserved ones included, is found again in the byte made of their numbers |
| `Bytes.WordOrder` | disvm/src/module.rs:567-571 | words of the file have their high byte first |
| `RoundTrip.CodeRoundTrip` | disvm/src/module.rs:721-820 | every list of instructions without reserved modes: decoding its encoding stops at its end and gives each operand as the decoder sees it |
| `Faithful.CodeSurvivesExactly` | disvm/src/module.rs:721-820 | the same list comes back exactly when no operand is below -64, middle operands below -8192 apart |
| `RoundTrip.TypesRoundTrip` | disvm/src/module.rs:824-846 | type descriptors and their pointer maps come back, up to misread numbers |
| `RoundTrip.ItemsRoundTrip` | disvm/src/module.rs:877-899 | any list of items with counts in the code byte or escaped, and the zero byte, come back as the same kinds, counts and payloads, and the zero byte is consumed |
| `RoundTrip.KindsExactly` | disvm/src/util.rs:29-83 | the scalar kinds have the format's sizes and ranges |
| `Refusals.NameExactly` | disvm/src/module.rs:942-949 | a name is read exactly where a zero byte follows, and is then what an encoder writes |
| `Refusals.FlagExactly` | disvm/src/module.rs:679-681 | a flag is accepted exactly when it is one of the eight and not in the four-byte form |
| `Refusals.HeaderRefusals` | disvm/src/module.rs:652-713 | an accepted header has one of two magic numbers, by which it is signed or not, and no negative size |
| `Refusals.SignatureRefusals` | disvm/src/module.rs:661-671 | a signature is the bytes its length says, and the length is not negative |
| `Refusals.ReservedDestination` | disvm/src/module.rs:812-813 | an instruction with a reserved destination is refused |
| `Refusals.ReservedSource` | disvm/src/module.rs:775-780 | under a reserved source one operand is read and dropped |
| `Refusals.ItemRefusals` | disvm/src/module.rs:882-897 | an item with an unknown code or a negative count is refused |
| `Refusals.ItemsEndInZero` | disvm/src/module.rs:882-886 | the data section ends in the zero byte |
| `Refusals.NegativeCounts` | disvm/src/module.rs:985-1049 | negative counts of imports and handlers are refused |
| `Refusals.AcceptedContents` | disvm/src/module.rs:851-863 | whatever the bytes, accepted contents pass the checks on types and links |
| `ObjectFile.ItemAt` | disvm/src/mem.rs:745-916 | an item takes at least two bytes, stays inside the file, and never starts with a zero byte |
| `RoundTrip.HeaderAtEncode` | disvm/src/module.rs:652-713 | header fields, with or without a signature, come back from their encoding |
| `RoundTrip.NameAtEncode` | disvm/src/module.rs:942-949 | a zero-terminated name without zero bytes comes back, terminator consumed |
| `RoundTrip.LinksRoundTrip` | disvm/src/module.rs:954-981 | links come back exactly when each non-zero descriptor index is in range, otherwise loading fails |
| `RoundTrip.ModulesRoundTrip` | disvm/src/module.rs:990-1014 | import lists come back exactly when the last operand slice stays inside the file |
| `WholeFile.ImportSectionRoundTrip` | disvm/src/module.rs:985-1017 | the whole import section and its skipped byte, with the same condition |
| `WholeFile.SectionsRoundTrip` | disvm/src/module.rs:652-910 | header, code, types and data of an encoded file are each read at the sum of the encoded lengths before them |
| `WholeFile.NameAndLinksRoundTrip` | disvm/src/module.rs:942-981 | module name and links are each read at the sum of the lengths before them |
| `WholeFile.TailRoundTrip` | disvm/src/module.rs:942-1017 | name, links and imports behind the data section, and the path where no exception section comes before it, with the exact conditions for success |
| `WholeFile.FileRoundTrip` | disvm/src/module.rs:637-1017 | an encoded file, up to an exception section if it has one, is accepted exactly when the checks pass on its contents as seen, and is then read to its last byte |
| `Faithful.FileSurvivesExactly` | disvm/src/module.rs:637-1017 | it is read back unchanged exactly when also no operand is misread |
| `Faithful.EmptyImportsAreRefused` | disvm/src/module.rs:985-988 | a file that passes every check but imports nothing and has no path is refused |
| `Handlers.SectionRead` | disvm/src/module.rs:1022-1072 | whatever the loader makes of an exception section, it moves by the first four operands, the handler count, the names and four bytes for each pc |
| `Handlers.PaddedSection` | disvm/src/module.rs:1022-1072 | sections with any number of handlers are read as meant when the count fills as many bytes as it says and each pc four |
| `Handlers.AlignedSection` | disvm/src/module.rs:1022-1072 | a section of one handler with both pcs in the four-byte form is read to its end, with every operand as the decoder sees it |
| `Handlers.EndingSurvivesExactly` | disvm/src/module.rs:1022-1081 | exception section and path are read as written exactly when there is one handler, both pcs are at least 0x2000 and the other operands at least -64 |
| `Handlers.WholeFileSurvivesExactly` | disvm/src/module.rs:637-1088 | a whole encoded file is read back unchanged, to its last byte, exactly when no operand is misread, the checks pass, the imports are covered and any exception section has that shape |
| `Faithful.NegativeOperandIsMisread` | disvm/src/module.rs:539-549 | the encoding of -65 is read as 16319 |
| `Loader.ReadHeader` | disvm/src/module.rs:650-713 | the header loop computes the pure reader |
| `Loader.ReadCode` | disvm/src/module.rs:721-820 | the instruction loop computes the pure reader |
| `Loader.ReadTypes` | disvm/src/module.rs:824-846 | the type loop and its map-byte loop compute the pure reader |
| `Loader.ReadName` | disvm/src/module.rs:942-949 | the name loop computes the pure reader |
| `Loader.ReadLinks` | disvm/src/module.rs:954-981 | the link loop computes the pure reader |
| `Loader.ReadImports` | disvm/src/module.rs:985-1017 | the import loops compute the pure reader |
| `Loader.ReadHandlers` | disvm/src/module.rs:1051-1065 | the handler loop computes the pure reader |
| `Loader.ReadSection` | disvm/src/module.rs:1022-1072 | the reads of the exception section compute the pure reader |
| `DebugRead.PrintArray` | disvm/src/module.rs:901-906 | the loop gets through exactly when the word at offset 312 leads to an array whose words lie in the region, and yields those words |
| `DebugRead.DebugReadFollows` | disvm/src/module.rs:901-906 | with a pointer to an object there, exactly when its length in words fits behind its descriptor |
| `DebugRead.NegativeLength` | disvm/src/mem.rs:33-38 | a length with its top bit set is negative, and nothing is read |
| `DebugRead.DebugReadUntouched` | disvm/src/module.rs:901-902 | with that word in the module data and nothing written to it, or with the break below it, it never gets through |
| `Loader.LoadModule` | disvm/src/module.rs:637-1088 | the loader with its hand-over to the reader and back returns the module, heap and cursor of `LoadedFrom` |
| `LoadTheorem.LoadedFromContents` | disvm/src/module.rs:637-1088 | what is loaded is the file's contents with its items loaded in order into a fresh heap, if the debug read of that heap gets through |
| `LoadTheorem.EncodedModuleLoads` | disvm/src/module.rs:637-1088 | an encoded module that survives and whose data is well-formed loads exactly when the debug read gets through, to the last byte, into itself without its handlers and a heap that agrees with its store |
| `LoadTheorem.PointerDecidesLoading` | disvm/src/module.rs:901-906 | with a pointer to an object at offset 312 it loads exactly when the object's length in words fits behind its descriptor |
| `LoadTheorem.NoPointerNoLoading` | disvm/src/module.rs:901-906 | with that word in the module data and nothing written to it, or with the break below it, it does not load |
| `LoadTheorem.SmallestLoads` | disvm/src/module.rs:637-1088 | a module that meets all these conditions and loads |
| `LoadTheorem.MisreadContentsLoad` | disvm/src/module.rs:637-1088 | in general an encoded file loads exactly when its contents as seen pass the checks, their items load, the debug read gets through and what follows reads as an exception section where one is announced |
| `LoadTheorem.LoadedHeapIsSound` | disvm/src/mem.rs:740-922 | in the heap of a loaded module the objects can be walked, headers, descriptors and texts stand there word by word, arrays have the size their types give them, the roots form a chain and all strings read back |
| `LoadTheorem.ArraySizes` | disvm/src/mem.rs:843-854 | the payload of every array is its length times the size of its type, and its header says 16 more |
| `Reader.BufferedReader.Read` | disvm/src/util.rs:16-20 | returns the slice at the cursor and moves by its length, or fails and does not move; the cursor stays inside the file |
| `Reader.BufferedReader.ReadOperand` | disvm/src/util.rs:92-96 | looks at four bytes and moves by the operand's size |
| `Reader.BufferedReader.I32e` | disvm/src/util.rs:54-63 | a big-endian signed word, error text recorded |
| `Reader.BufferedReader.PerformAll` | disvm/src/util.rs:11-96 | any sequence of calls of the reader's methods returns the values and ends at the cursor of the pure reads |
| `Reader.ReadsAreContiguous` | disvm/src/util.rs:11-96 | such a sequence uses up the file from first to last cursor without gap or overlap, and each value is made of the bytes its call moved over and no others |
| `ModuleHeap.ModuleHeap.SetupPointers` | disvm/src/mem.rs:432-446 | sets exactly the marked words to all ones, and succeeds exactly when they lie in the region |
| `PointerMap.StampedWords` | disvm/src/mem.rs:432-446 | a marked word becomes the null pointer, any other word is unchanged |
| `PointerMap.ReadingsAgreeOnPalindromes` | disvm/src/module.rs:300-312 | `is_pointer` agrees with `setup_pointers` at every offset, for any descriptor as read, exactly when the map size is not negative and the map is a palindrome |
| `PointerMap.MapIsRead` | disvm/src/module.rs:824-846 | a descriptor as read has as many map bytes as its map size, or none under a negative one |
| `PointerMap.TwoByteMapDisagrees` | disvm/src/module.rs:306-309 | a map of two different bytes on which they disagree |
| `PointerMap.IsPointerReversed` | disvm/src/module.rs:300-312 | for any descriptor as read, `is_pointer` is `setup_pointers` on the map with its bytes reversed |
| `HeapModel.FreshHeapExactly` | disvm/src/mem.rs:394-446 | the region a module starts with, byte by byte, with its size and break, and when there is one |
| `ModuleHeap.ModuleHeap.New` | disvm/src/mem.rs:394-428 | a fresh heap is the zeroed region with its marked words nulled, break at the module data's end |
| `ModuleHeap.ModuleHeap.AllocateBytes` | disvm/src/mem.rs:449-458 | hands out the break and moves it by the size rounded up to 4 |
| `ModuleHeap.ModuleHeap.Nheap` | disvm/src/mem.rs:511-524 | takes a block for header and payload and blanks its header |
| `ModuleHeap.ModuleHeap.NewString` | disvm/src/mem.rs:643-679 | the header, descriptor and byte-by-byte text writes leave exactly the allocated string object |
| `ModuleHeap.ModuleHeap.WriteData` | disvm/src/mem.rs:683-738 | checks, base selection and element loops make the specified new state |
| `ModuleHeap.ModuleHeap.NewArray` | disvm/src/mem.rs:833-881 | the array case of `load_data`: object, pointer at the target, new last array |
| `ModuleHeap.ModuleHeap.SetIndex` | disvm/src/mem.rs:619-634 | saves the base and moves it into the last array |
| `ModuleHeap.ModuleHeap.RestoreBase` | disvm/src/mem.rs:636-640 | brings back the saved base, and fails on an empty stack |
| `LoadData.LoadData` | disvm/src/mem.rs:740-922 | reader and heap end up as reading one item and loading it prescribe |
| `LoadData.LoadItems` | disvm/src/module.rs:877-899 | the data loop, to its zero byte |
| `LoadData.LoadingInTurns` | disvm/src/module.rs:877-899 | reading and loading in turns comes to reading all items first |
| `Refinement.UpdateAgrees` | disvm/src/mem.rs:699-733 | a write inside a place changes the cells it covers and no other cell, header, descriptor or text |
| `Refinement.CreateAgrees` | disvm/src/mem.rs:511-524 | an allocation disturbs nothing below the break and keeps the blocks tiled |
| `Refinement.StepAgrees` | disvm/src/mem.rs:740-922 | every item that fits is loaded and keeps heap and store in agreement |
| `Refinement.RunAgrees` | disvm/src/mem.rs:740-922 | every well-formed stream is loaded to its end, and the heap agrees with the store |
| `Targets.ScalarsReadBack` | disvm/src/mem.rs:706-726 | at the end of the stream the target of a scalar item decodes to exactly its values, unless a later item touched it |
| `Targets.TextReadsBack` | disvm/src/mem.rs:699-704 | following the pointer at a string item's target leads to its length and its bytes |
| `Targets.ArrayReadsBackAtTarget` | disvm/src/mem.rs:843-873 | following the pointer at an array item's target leads to its length, type, root and payload |
| `HeapLayout.HeapIsWalkable` | disvm/src/mem.rs:283-285 | stepping by rounded object sizes from the module data's end visits exactly the created objects and stops at the break, which is the module data's size plus all rounded sizes; blocks are disjoint |
| `HeapLayout.BreakOfStream` | disvm/src/mem.rs:449-458 | for every stream the loader gets through, well-formed or not, the break moves by the rounded sizes of the objects created and keeps its alignment, and the region its size |
| `HeapLayout.HeaderReadsBack` | disvm/src/mem.rs:643-679 | the words of every object: zero, size, zero, 3 for a string or 4 for an array, address of the descriptor; length, maximum or type, zero or root, address of the payload; and the text |
| `HeapLayout.BlockEnds` | disvm/src/mem.rs:449-458 | the next object starts at the first multiple of 4 behind the payload |
| `HeapLayout.ImagesStay` | disvm/src/mem.rs:643-679 | header, descriptor and text of an object are unchanged by any later well-formed stream |
| `HeapLayout.StringReadsBack` | disvm/src/mem.rs:643-679 | a string's descriptor has its length as length and maximum, and its data are its bytes |
| `HeapLayout.RootsFormAChain` | disvm/src/mem.rs:858-873 | from the last array the roots visit all arrays, newest first, at decreasing addresses, and end at 0 |
| `HeapLayout.ArrayHeadersAreArrays` | disvm/src/mem.rs:858-873 | the addresses visited are exactly those of the created arrays |
| `PointerSlots.PointerSlotsAreSafe` | disvm/src/mem.rs:432-446 | after any well-formed stream whose targets touch marked words only with word-aligned pointers, a marked word is null or the data address of an object of the heap |
| `BaseStack.DepthOfStack` | disvm/src/mem.rs:619-640 | the stack depth is set-indexes minus restores |
| `BaseStack.BalancedRestores` | disvm/src/mem.rs:882-899 | a balanced stream leaves base and stack as they were |
| `BaseStack.RestoresSucceedExactly` | disvm/src/mem.rs:636-640 | restores succeed at every step exactly when no prefix underflows |
| `Elements.SetIndexExactly` | disvm/src/mem.rs:882-891 | a set-index is accepted exactly when its index is not negative and an array has been created |
| `Elements.ElementTarget` | disvm/src/mem.rs:687-697 | after a set-index an offset denotes payload + index + offset: the element exactly for index 0 or one-byte elements |
| `Elements.ElementWriteStays` | disvm/src/mem.rs:706-726 | a write that ends inside the payload changes those bytes and no other |
| `Elements.SetIndexPicksTheLast` | disvm/src/mem.rs:619-628 | the base goes to the array at the item's target exactly when that is the last created |
| `Elements.NestedArraysMisdirected` | disvm/src/mem.rs:619-628 | a well-formed array of arrays whose element 0 points to the first inner array, not to the last array, which a set-index takes |
| `Elements.NestedSetIndexGoesWrong` | disvm/src/mem.rs:619-628 | on bytes: it loads, and a set-index there moves the base to another array than the one its word points to |
| `Overrun.AcceptedExactly` | disvm/src/mem.rs:684-697 | at any base, the checks accept a scalar write exactly when its first byte is below the break and its last in the region, addresses taken modulo 2^32, and it then changes just those bytes |
| `Overrun.TextAcceptedExactly` | disvm/src/mem.rs:684-704 | at any base, a string is accepted exactly when its target is below the break and target and object lie in the region; where the pointer goes and what the break becomes |
| `Overrun.ArrayAcceptedExactly` | disvm/src/mem.rs:833-881 | an array is accepted exactly when type and length are known, their product has 32 bits, header and descriptor lie in the region and the target is below the new break; where the pointer goes and what break and last array become |
| `Overrun.ClearIsHarmless` | disvm/src/mem.rs:706-726 | an accepted write outside all headers, descriptors and texts leaves them intact |
| `Overrun.DamageExactly` | disvm/src/mem.rs:684-726 | an accepted write leaves them intact whatever its values exactly when it lies outside all of them |
| `Overrun.OverrunDamagesHeader` | disvm/src/mem.rs:684-697 | an accepted word at the end of the module data damages the first object's header |
| `FrameStack.Stack.PushFrame` | disvm/src/program.rs:66-78 | pushes a copy of the prepared frame as the newest |
| `FrameStack.Stack.PopFrame` | disvm/src/program.rs:80-87 | pops the oldest frame |
| `FrameStack.Stack.PrepareFrame` | disvm/src/program.rs:56-64 | replaces the prepared frame and leaves the held ones |
| `FrameStack.Stack.Perform` | disvm/src/program.rs:52-88 | any sequence of calls of the class's methods succeeds exactly when each push has a frame made and each pop a frame held, and is first in, first out |
| `FrameStack.RunSucceedsExactly` | disvm/src/program.rs:66-87 | the same condition for the specification |
| `FrameStack.FirstInFirstOut` | disvm/src/program.rs:56-87 | over every run, the frames held and then those pushed are the frames popped and then those held |
| `FrameStack.TwoFramesTellThemApart` | disvm/src/program.rs:69-81 | two frames made and pushed from the empty stack and one pop: it gives the older where a call stack gives the newer, and the other one stays |
| `FrameStack.QueueIsCallStackExactly` | disvm/src/program.rs:41-88 | a run matches a call stack in every state and popped frame exactly when no pop happens while differing frames are held |
| `Execution.ExecutionContext.SetupEntryFrame` | disvm/src/program.rs:216-235 | the stack has room for the extent and for the entry frame plus 16; fails for an empty frame and without module data |
| `Execution.ExecutionContext.Fetch` | disvm/src/program.rs:152-160 | fetches the instruction at the counter, unchecked, and keeps the sum of counter and budget; fails where the counter would overflow or the budget is used up |
| `Execution.ExecutionContext.Xec` | disvm/src/xec.rs:47-51 | the loop fetches as many instructions at consecutive indices as the budget says, each the one of the code at its index, and fails exactly for an empty budget or where the counter overflows on the way |
| `Execution.FetchesInsideExactly` | disvm/src/xec.rs:299-301 | all of them lie in the code exactly for entry point 0 |
| `Execution.Start` | disvm/src/program.rs:134-151 | a program of n instructions with entry point e, as an unsigned counter, fetches e to e + n - 1, for entry point 0 the code as it is, and runs exactly when there is an instruction, the counter stays below 2^64 and the entry frame can be set up |

## Left out

- WholeFile.TailRoundTrip: stops in front of an exception section; `Handlers.WholeFileSurvivesExactly` goes to the end.
- WholeFile.FileRoundTrip: stops there too.
- Faithful.FileSurvivesExactly: stops there too.
- All printing: `DebugRead.PrintArray` returns what is printed.
- The four padding bytes of an object header, whose value Rust leaves open, are written as zero; nothing reads them.
- `mmap`, `munmap`, `vm_allocate`, reference counts and `Drop`; type sizes below zero, which the source turns into huge ones, fail.
- `String::from_utf8_lossy` (disvm/src/mem.rs:805): strings are byte sequences that are already valid UTF-8; floats are bit patterns.
- `VmArray`, `ModuleHeap::allocate`, `ModuleHeap::get`, `VmAllocation`, `layout_map` and `array_offset`: unused.
- Opcode bodies and the operand addresses of `xec` (disvm/src/xec.rs:61-296); opcodes are bytes.
- The mutable frame references that `new_frame` and `push_frame` return, which no caller uses.
- The scheduler, program flags and spawning.
- Execution.FetchesInsideExactly: speaks of instruction bodies that do nothing, which all but one arm of `xec` are.
