# A verified model of the arceos FDT reader, early allocator, loader syscalls and Lehmer RNG

This project models four sequential parts of the arceos repository in Dafny.

- **`fdt_iter`, a flattened-devicetree reader.** It implements the DTB format of the Devicetree Specification v0.4:
  - the header of section 5.2;
  - the structure-block tokens of section 5.4.1;
  - the strings block of section 5.5;
  - the property value types and standard properties of sections 2.2.4, 2.3.4, 2.3.5 and 2.3.6.

  Its layers, bottom to top:
  - the token parser `OpRaw::parse` and the name resolution `Op::from_raw`;
  - the header decoder and validator `Fdt::from_bytes` / `validate`;
  - the token cursor `OpIter`;
  - the property decoders;
  - the node accessors;
  - the depth-tracking `Walker`, with its two traversals: child by child (`Iter::next_child`) and preorder (`PreorderIter`).
- **`EarlyAllocator`, a two-ended bump allocator.** Byte allocations move `start` up and page allocations move `end` down.
- **The loader's syscall layer.** It covers `writev` over the console, the `brk` heap boundary, the `mmap`/`mprotect` stubs and the syscall-number dispatch.
- **The Park-Miller-Lehmer generator.** It seeds the hash maps of `axstd`. Its seed starts at 0 (ulib/axstd/src/collections/hash_map.rs:6), and 0 is a fixed point of the Lehmer step, so `random()` returns 0 on every call (`LehmerRng.Generator.Random`) and every `HashMap` gets the same hash seeds. The code does not say whether a fixed seed is intended. This is recorded as an observation, not as a finding.

## Modelling conventions

- **Bytes and integers.** A byte is an `int` in `0..256` (`Bytes.byte`). Integer widths are bounds on unbounded integers: `U32_LIMIT`, `USIZE_LIMIT` (64-bit) and `ISIZE_LIMIT`. A wrap-around or a cast the source relies on is written out (`LoaderSyscall.ToI32`, `ToUsize`, `ToIsize`, `LehmerRng.Shl`).
- **C strings.** A `&CStr` is its bytes without the terminating NUL, so it never contains 0.
- **Cursor position.** A position in the structure block is the remaining suffix `remain`. The parser returns the rest of its input, as nom does.
- **Panics.** A panic the source reaches on some input is either a `requires` (the caller must avoid it) or a `Panicked` value of `Wrappers.Run`. `Run` is used wherever the panic depends on the blob's contents: an `expect("Unexpected FDT end")`, a depth underflow in `Walker::next`, a name lookup in `from_raw`.
- **Mutable state as classes.** The stateful objects are classes with `modifies` clauses: `OpIter`, `Walker`, `PreorderIter`, `Iter`, `EarlyAllocator`, the loader's `User` state and the RNG seed. Each method is proved against a function on values (`Parse`, `WalkStep`, `PreorderNext`, `NextChildStep`, `Bump`, `Carve`, `BrkStep`, `Step`), and the properties are proved about those functions.
- **Trees.** `FdtTree` defines a devicetree as a tree value (`FdtTree.Tree`) with its encoding as tokens. It proves what `properties()`, `next_child` and `preorder` yield on every encoded tree.

## Model

| member | source | states |
|---|---|---|
| FdtOp.FirstNul | crates/fdt_iter/src/op.rs:17-21 | the position of the first NUL, or None exactly when there is none |
| FdtOp.ReadCString | crates/fdt_iter/src/op.rs:17-21 | None exactly when the input has no NUL; otherwise the string (no NUL inside), a NUL and the rest concatenate back to the input |
| FdtOp.ReadCStringOf | crates/fdt_iter/src/op.rs:17-21 | a NUL-free string followed by a NUL and any rest is split back into that string and that rest |
| FdtOp.PaddingLen | crates/fdt_iter/src/op.rs:23-26 | the padding is at most 3 bytes, brings the length to a multiple of 4, and is 0 for an aligned length |
| FdtOp.ParseBeginNode | crates/fdt_iter/src/op.rs:44-49 | a parsed FDT_BEGIN_NODE body yields a BeginNode and a strictly shorter suffix of the input |
| FdtOp.ParseBeginNodeExact | crates/fdt_iter/src/op.rs:44-49 | fails exactly when the body has no NUL or fewer padding bytes than `padding_len(len + 1)` after it (any padding bytes are accepted); otherwise a BeginNode whose NUL-free name and NUL open the body, leaving exactly the input after `len + 1 + padding_len(len + 1)` bytes |
| FdtOp.ParseProp | crates/fdt_iter/src/op.rs:51-63 | a parsed FDT_PROP body yields a Prop and a strictly shorter suffix of the input |
| FdtOp.ParsePropExact | crates/fdt_iter/src/op.rs:51-63 | fails exactly when the body is shorter than 8 + `len` + `padding_len(len)` bytes (any padding bytes are accepted); otherwise `Prop(nameoff, body[8..8+len])` with both words read big-endian, leaving exactly the input after those bytes |
| FdtOp.ParseToken | crates/fdt_iter/src/op.rs:38-70 | only the four known tokens parse; the rest is a suffix; a None result leaves nothing behind |
| FdtOp.Parse | crates/fdt_iter/src/op.rs:34-73 | a successful parse needs at least 4 bytes, starts with a known token word, leaves a strictly shorter suffix, and yields None only with an empty remainder |
| FdtOp.ParsedNameHasNoNul | crates/fdt_iter/src/op.rs:44-49 | a parsed node name contains no NUL |
| FdtOp.ParseOp | crates/fdt_iter/src/op.rs:34-73 | the loop that skips NOPs and consumes the fields returns exactly `Parse(input)` |
| FdtOp.ParseNop | crates/fdt_iter/src/op.rs:43 | a NOP word is skipped: parsing `NOP·rest` is parsing `rest` |
| FdtOp.SkipNops | crates/fdt_iter/src/op.rs:43 | any number of NOP words in front change nothing |
| FdtOp.ParseEnd | crates/fdt_iter/src/op.rs:39-42 | FDT_END gives None when it is the last word and is an error when any byte follows |
| FdtOp.ParseEncodedBegin | crates/fdt_iter/src/op.rs:44-49 | a BeginNode encoded as token, name, NUL and padding parses back to itself, leaving exactly what follows |
| FdtOp.ParseEncodedProp | crates/fdt_iter/src/op.rs:51-63 | a Prop encoded as token, big-endian `len`, `nameoff`, value and padding parses back to itself, leaving exactly what follows |
| FdtOp.ParseEncoded | crates/fdt_iter/src/op.rs:34-73 | every encodable token parses back to itself (round trip of the token encoding) |
| FdtOp.FromRaw | crates/fdt_iter/src/op.rs:83-95 | BeginNode and EndNode pass through; a Prop keeps its value and gets the NUL-terminated name found at `strings[name_offset..]` |
| FdtOp.ResolvableWhenTerminated | crates/fdt_iter/src/op.rs:87-91 | in a strings block ending in NUL, every offset inside it resolves to a name, so `from_raw` cannot panic |
| FdtBlob.HeaderFromBytes | crates/fdt_iter/src/fdt.rs:25-27 | a header exactly when there are at least 40 bytes; its ten fields are the ten big-endian words |
| FdtBlob.HeaderRoundTrip | crates/fdt_iter/src/fdt.rs:11-27 | encoding a header of `u32` fields and decoding it gives the header back |
| FdtBlob.MakeRange | crates/fdt_iter/src/fdt.rs:51-53 | a range `start..start+len` exactly when the end does not overflow `usize` |
| FdtBlob.TrimmedEnd | crates/fdt_iter/src/fdt.rs:43-49 | keeps the start, never increases the end, the result is empty or ends in 0, and every byte cut off is non-zero |
| FdtBlob.TrimIdempotent | crates/fdt_iter/src/fdt.rs:43-49 | trimming a trimmed strings range changes nothing |
| FdtBlob.FixStringsRange | crates/fdt_iter/src/fdt.rs:43-49 | the loop that decrements the end returns `TrimmedEnd` |
| FdtBlob.CheckRanges | crates/fdt_iter/src/fdt.rs:165-184 | passes exactly when both ranges' starts and ends are within the input |
| FdtBlob.StepDepth | crates/fdt_iter/src/fdt.rs:196-213 | one token moves the depth by its delta; it fails exactly on an END_NODE at depth 0 or a Prop whose `nameoff` is not below the strings length |
| FdtBlob.ValidateLoop | crates/fdt_iter/src/fdt.rs:186-220 | the token loop (it terminates: each token shortens the input) returns the recursive token validation from depth 0 |
| FdtBlob.Validate | crates/fdt_iter/src/fdt.rs:164-221 | `validate` is the range checks followed by the token validation of the structure block |
| FdtBlob.ValidateTokensAsWritten | crates/fdt_iter/src/fdt.rs:186-220 | the loop as written panics exactly when the remaining structure block is longer than the strings range's end (the offset `strings_range.end - input.len()` underflows); otherwise it returns the token validation |
| FdtBlob.ValidateAsWritten | crates/fdt_iter/src/fdt.rs:164-221 | `validate` as written panics exactly when the range checks pass and the strings range ends before the structure block's length; otherwise it returns `ValidateSpec` |
| FdtBlob.TokenOffset | crates/fdt_iter/src/fdt.rs:190 | the offset evidently meant, counted from the structure block's end as `OpIter::offset` does: it lies in the structure range and the blob from it to the block's end is the remaining input |
| FdtBlob.BlockRanges | crates/fdt_iter/src/fdt.rs:93-120 | success needs a 40-byte header with magic 0xd00dfeed and `totalsize` within the input, and gives the two blocks' ranges from the header fields |
| FdtBlob.ValidMagicBytes | crates/fdt_iter/src/fdt.rs:29-31 | for a `u32` magic, `valid_magic` holds exactly when the field's big-endian bytes are `d0 0d fe ed` |
| FdtBlob.DecodeNeedsHeader | crates/fdt_iter/src/fdt.rs:94-108 | a successful decode had a header, the magic and a `totalsize` within the input |
| FdtBlob.FromBytes | crates/fdt_iter/src/fdt.rs:93-132 | the method returns the corrected decoder `Decode` |
| FdtBlob.DecodeAsWritten | crates/fdt_iter/src/fdt.rs:93-132 | a header failure is returned as that error; a strings block ending past the input panics; a returned blob is the input with both ranges in bounds |
| FdtBlob.Decode | crates/fdt_iter/src/fdt.rs:93-132 | a header failure is returned as that error; a strings block ending past the input is an error, not a panic; a decoded blob is the input with both ranges in bounds and the header's structure range |
| FdtBlob.DecodeAgreesWithAsWritten | crates/fdt_iter/src/fdt.rs:93-132 | wherever the code as written returns, the corrected decoder returns the same result |
| FdtBlob.AsWrittenPanicsOnStringsPastEnd | crates/fdt_iter/src/fdt.rs:122 | a 40-byte blob whose strings block ends one byte past the input panics in the code as written, where `validate` would have reported "Strings block end out of range" |
| FdtBlob.StringsPastEndEncodes | crates/fdt_iter/src/fdt.rs:11-27 | the header of that counterexample is encodable, so such a blob exists |
| FdtBlob.AsWrittenPanicsOnOffsetUnderflow | crates/fdt_iter/src/fdt.rs:190 | a 44-byte blob with an empty strings block at 0 and a structure block holding only FDT_END panics in the code as written, where the corrected decoder accepts it |
| FdtBlob.OffsetUnderflowEncodes | crates/fdt_iter/src/fdt.rs:11-27 | that counterexample's header followed by FDT_END is a 44-byte input that decodes to that header, so such a blob exists |
| FdtBlob.DecodeWellFormed | crates/fdt_iter/src/fdt.rs:122-131 | a decoded blob is well formed: ranges in bounds, strings block empty or NUL-terminated, structure tokens valid |
| FdtBlob.ValidatedLevel | crates/fdt_iter/src/fdt.rs:189-218 | whenever validation passes, the depth it tracks equals the nesting level implied by the remaining tokens |
| FdtBlob.WellFormedSound | crates/fdt_iter/src/fdt.rs:164-221 | the structure block of a well-formed blob validates from its own nesting level, which is 0 |
| FdtBlob.SoundStep | crates/fdt_iter/src/fdt.rs:189-218 | in a validated suffix the next token parses, FDT_END comes only at level 0, and the rest is again validated with the level moved by the token |
| FdtBlob.StepOp | crates/fdt_iter/src/fdt.rs:268-272 | the decoded token of `OpIter::next` is None exactly when the raw parse was FDT_END |
| FdtBlob.WellFormedCanStep | crates/fdt_iter/src/fdt.rs:206-212 | after a successful `from_bytes`, every later token parses and every Prop name lookup finds a NUL: the cursor never panics |
| FdtBlob.OpIter.Offset | crates/fdt_iter/src/fdt.rs:255-257 | the offset is `struct_range.end - remain.len()`, inside the structure range, and the bytes from it are `remain` |
| FdtBlob.OpIter.Next | crates/fdt_iter/src/fdt.rs:259-272 | `next` returns what `peek` would, advances `remain` to the parse remainder and strictly shortens it |
| FdtBlob.OpIter.Peek | crates/fdt_iter/src/fdt.rs:259-262 | `peek` agrees with the parse of `remain`: None exactly at FDT_END, the same kind of token, a node's name as parsed, a property's name the NUL-free C string at its `nameoff` in the strings block, and its value as parsed |
| FdtProperty.StringList | crates/fdt_iter/src/property.rs:21-29 | Some exactly when the data is empty or ends in NUL; the strings, each with its NUL, concatenate back to the data |
| FdtProperty.StringListOfJoin | crates/fdt_iter/src/property.rs:21-29 | NUL-free strings joined with NULs decode back to the same list |
| FdtProperty.StringListExample | crates/fdt_iter/src/property.rs:8-13 | `"fsl,mpc8641\0ns16550\0"` gives the two strings `fsl,mpc8641` and `ns16550` |
| FdtProperty.StringListUnterminated | crates/fdt_iter/src/property.rs:16-19 | `"terminated\0not-terminated"` gives None |
| FdtProperty.String | crates/fdt_iter/src/property.rs:45-47 | Some exactly when the data ends in NUL with no earlier NUL, and then data is the string plus NUL |
| FdtProperty.StringOf | crates/fdt_iter/src/property.rs:45-47 | a NUL-free string with its NUL decodes to itself |
| FdtProperty.StringRejectsTwo | crates/fdt_iter/src/property.rs:40-44 | two NUL-terminated strings are never one `<string>` |
| FdtProperty.StringExamples | crates/fdt_iter/src/property.rs:33-44 | `"okay\0"` gives `okay`; `"two-strings\0is-invalid\0"` gives None |
| FdtProperty.U32 | crates/fdt_iter/src/property.rs:56-59 | Some exactly on 4 bytes, with a value below 2^32 |
| FdtProperty.U32RoundTrip | crates/fdt_iter/src/property.rs:56-59 | the 4 big-endian bytes of a `u32` decode to it |
| FdtProperty.Unsigned | crates/fdt_iter/src/property.rs:79-91 | the big-endian value of at most 8 bytes, below 2^64 (empty input gives 0) |
| FdtProperty.UnsignedExamples | crates/fdt_iter/src/property.rs:61-78 | the doc examples: empty gives 0, `3b9aca00` gives 1 000 000 000, `00000001 2a05f200` gives 5 000 000 000 |
| FdtProperty.U32List | crates/fdt_iter/src/property.rs:101-105 | Some exactly when the length is a multiple of 4; then `len/4` words whose big-endian bytes are the data, in order |
| FdtProperty.U32ListRoundTrip | crates/fdt_iter/src/property.rs:101-105 | the bytes of a list of `u32` words decode back to that list |
| FdtProperty.RegListRaw | crates/fdt_iter/src/property.rs:108-121 | Some exactly when the length is a multiple of `4*(ac+sc)`; the pairs are chunks split at byte `4*ac` that concatenate back to the data |
| FdtProperty.SplitJoinPairs | crates/fdt_iter/src/property.rs:113-118 | splitting the concatenation of well-shaped pairs gives the pairs back |
| FdtProperty.RegList | crates/fdt_iter/src/property.rs:155-174 | Some exactly when the length is a multiple of `4*(ac+sc)`, one pair per chunk; pair `i` is the big-endian value of chunk `i`'s first `4*ac` bytes and of its remaining `4*sc` bytes; with `#size-cells` 0 every size is 0 |
| FdtProperty.RegListRoundTrip | crates/fdt_iter/src/property.rs:155-174 | encoding `(address, size)` pairs that fit their cells and decoding them gives the pairs back |
| FdtProperty.RegListExample | crates/fdt_iter/src/property.rs:140-154 | the doc example decodes to `[(0, 0x8000_0000), (0x1_0000_0000, 0x1_0000_0000)]` with 2 and 2 cells |
| FdtProperty.RegListExampleBytes | crates/fdt_iter/src/property.rs:145-150 | those pairs are exactly the doc example's 32 bytes |
| FdtProperty.RegListOfEmpty | crates/fdt_iter/src/property.rs:155-174 | an empty `reg` is an empty list |
| FdtProperty.StatusFromBytes | crates/fdt_iter/src/property.rs:209-220 | a status is read only from a valid `<string>` |
| FdtProperty.StatusRoundTrip | crates/fdt_iter/src/property.rs:209-220 | each of `okay`, `disabled`, `reserved`, `fail` and `fail-xxx` with its NUL is read as its own variant |
| FdtProperty.StatusFromBytesExact | crates/fdt_iter/src/property.rs:209-220 | anything read as a status is exactly that status's text and NUL, so every other text gives None |
| FdtProperty.Status.IsOkay | crates/fdt_iter/src/property.rs:229-231 | holds exactly for the status whose text is `okay` |
| FdtProperty.OnlyOkayIsOkay | crates/fdt_iter/src/property.rs:229-231 | `is_okay` holds exactly for the bytes `okay\0` |
| FdtNode.NodeFromOffset | crates/fdt_iter/src/fdt.rs:232-240 | from an offset inside the structure range that starts a BeginNode: a node at that offset |
| FdtNode.Offset | crates/fdt_iter/src/node.rs:99-101 | a node's offset lies inside the structure range and the bytes from it are the node's cursor |
| FdtNode.OffsetRoundTrip | crates/fdt_iter/src/node.rs:99-101 | `node_from_offset(node.offset())` is the node |
| FdtNode.Root | crates/fdt_iter/src/fdt.rs:243-245 | the root is the node at the header's `off_dt_struct` |
| FdtNode.RootOfDecoded | crates/fdt_iter/src/fdt.rs:243-245 | for a decoded blob the root's cursor is the whole structure block |
| FdtNode.Name | crates/fdt_iter/src/node.rs:104-110 | a node's name contains no NUL |
| FdtTree.NameOfTree | crates/fdt_iter/src/node.rs:104-110 | the name of a node encoded from a tree is that tree's name |
| FdtNode.FirstNamed | crates/fdt_iter/src/node.rs:120-124 | None exactly when no property has the name; otherwise the value of the first one that does |
| FdtNode.FindPropFirst | crates/fdt_iter/src/node.rs:120-124 | the search over the token stream returns the first matching entry of the property list |
| FdtNode.PropertyIsFirst | crates/fdt_iter/src/node.rs:120-124 | `property(name)` is the value of the first property of `properties()` with that name, or None |
| FdtNode.Compatible | crates/fdt_iter/src/node.rs:127-130 | an absent `compatible` is an empty list; a present one is its string list, None exactly when not NUL-terminated |
| FdtNode.CompatibleWith | crates/fdt_iter/src/node.rs:133-136 | None on a malformed list; otherwise whether some compatible string equals the argument |
| FdtNode.Phandle | crates/fdt_iter/src/node.rs:139-141 | the big-endian value of a 4-byte `phandle`, None when absent or of another length |
| FdtNode.NodeStatus | crates/fdt_iter/src/node.rs:146-149 | `okay` when `status` is absent, otherwise the status read from its value |
| FdtNode.Cells | crates/fdt_iter/src/node.rs:152-162 | reads the property named `#<name>-cells` as a `u32`: None when absent or not 4 bytes |
| FdtNode.AddressCells | crates/fdt_iter/src/node.rs:167-169 | `#address-cells`, 2 when absent |
| FdtNode.SizeCells | crates/fdt_iter/src/node.rs:174-176 | `#size-cells`, 2 when absent (as the code does) |
| FdtNode.Reg | crates/fdt_iter/src/node.rs:179-189 | an absent `reg` is an empty list; a present one is `reg_list` of its value |
| FdtNode.WalkStep | crates/fdt_iter/src/node.rs:51-59 | one walker step returns exactly when the cursor can step and is not leaving depth 0; depth +1 on BeginNode, -1 on EndNode, unchanged otherwise |
| FdtNode.Walker.constructor | crates/fdt_iter/src/node.rs:86-91 | `walker()` starts at the node's cursor at depth 0 |
| FdtNode.Walker.Next | crates/fdt_iter/src/node.rs:51-59 | advances the shared cursor by one token and updates the depth as `WalkStep` does |
| FdtNode.Walker.Iter | crates/fdt_iter/src/node.rs:43-49 | the `Iter` of the walker's current node at the walker's depth |
| FdtNode.PreorderNext | crates/fdt_iter/src/node.rs:211-222 | the preorder step yields a node at depth > 0 or stops at depth 0, and only moves forward |
| FdtNode.PreorderYieldsNodes | crates/fdt_iter/src/node.rs:211-222 | every node the preorder step yields starts at a BeginNode |
| FdtNode.PreorderIter.Next | crates/fdt_iter/src/node.rs:211-222 | the loop over the walker ends in the state and result of `PreorderNext` |
| FdtNode.SkipTo | crates/fdt_iter/src/node.rs:262-264 | the first loop of `next_child` ends at the target depth, further on in the block |
| FdtNode.ChildScan | crates/fdt_iter/src/node.rs:266-278 | the second loop skips properties; a child is yielded at depth+1 and the parent's end gives None at depth-1 |
| FdtNode.NextChildStep | crates/fdt_iter/src/node.rs:261-279 | a child leaves the walker at parent depth + 2, the end of the parent at parent depth |
| FdtNode.ChildScanYieldsNodes | crates/fdt_iter/src/node.rs:266-278 | every child yielded starts at a BeginNode |
| FdtNode.Iter.NextChild | crates/fdt_iter/src/node.rs:261-279 | the method leaves the walker as `NextChildStep` says and returns a fresh `Iter` for the child at depth parent + 1, or None |
| FdtTree.ResolveProps | crates/fdt_iter/src/op.rs:83-95 | each encoded property's name resolves in the strings block, and its value is kept |
| FdtTree.PropsFromEncoded | crates/fdt_iter/src/node.rs:197-203 | the Prop tokens in front of a non-Prop token are read as exactly those properties, in order |
| FdtTree.PropertiesOfTree | crates/fdt_iter/src/node.rs:113-117 | `properties()` of an encoded node yields exactly its own properties, in order, and stops before its first child |
| FdtTree.SkipTree | crates/fdt_iter/src/node.rs:262-264 | walking toward a shallower depth passes over a whole subtree without a panic |
| FdtTree.SkipBody | crates/fdt_iter/src/node.rs:262-264 | inside a node, walking up to its depth skips the rest of its body, whatever part of it is already done |
| FdtTree.NextChildOf | crates/fdt_iter/src/node.rs:261-279 | reference behaviour of one `next_child` call over a list of child subtrees: the first child's node, or None at the end |
| FdtTree.ChildScanForest | crates/fdt_iter/src/node.rs:266-278 | after the properties, the scan over the children yields the first child, or None at the parent's end |
| FdtTree.FirstChild | crates/fdt_iter/src/node.rs:261-279 | on a walker that has not entered the node, `next_child` yields the node's first child |
| FdtTree.FirstGrandchild | crates/fdt_iter/src/node.rs:261-279 | on a child's `Iter` just returned, `next_child` yields that child's first child |
| FdtTree.NextSibling | crates/fdt_iter/src/node.rs:261-279 | after an untouched or a fully walked child, `next_child` yields the next sibling, or None after the last: the children come in document order |
| FdtTree.Prepend | crates/fdt_iter/src/node.rs:211-222 | putting nodes in front of a traversal keeps its panics and prefixes its value |
| FdtTree.PreorderSize | crates/fdt_iter/src/lib.rs:84-92 | the preorder of a tree has one entry per node, the root first |
| FdtTree.PreorderTree | crates/fdt_iter/src/node.rs:211-222 | below depth 0, the preorder step over an encoded subtree yields that subtree's nodes in preorder, then continues |
| FdtTree.PreorderBody | crates/fdt_iter/src/node.rs:211-222 | inside a node, the preorder over its body yields its descendants in preorder, then continues at its end |
| FdtTree.PreorderOfTree | crates/fdt_iter/src/lib.rs:84-92 | `preorder()` of an encoded tree yields every node of the subtree once, root first, parents before children, and stops at the root's end |
| EarlyAllocator.NextMultipleOf | crates/allocator/src/early.rs:46 | `checked_next_multiple_of`: the round-up, None exactly on a zero divisor or a `usize` overflow |
| EarlyAllocator.Bump | crates/allocator/src/early.rs:41-56 | fails exactly when the aligned start plus the size passes `end`; otherwise an aligned address at least `start` and less than `start + align`, whose block ends by `end` |
| EarlyAllocator.Carve | crates/allocator/src/early.rs:78-92 | fails exactly on a zero alignment, a round-up overflow or a block that would reach below `start`; otherwise an aligned address `roundup(bytes, align)` below `end` rounded down to `align` |
| EarlyAllocator.CarveAsWritten | crates/allocator/src/early.rs:78-92 | the code as written, with `region_end - num_bytes` wrapping modulo 2^64 |
| EarlyAllocator.CarveAgreesWithAsWritten | crates/allocator/src/early.rs:84-85 | when the block fits below the region's end, the code as written and the corrected one agree |
| EarlyAllocator.AsWrittenCarvesPastRegion | crates/allocator/src/early.rs:84-85 | three pages requested from a two-page region: the code as written returns an address far above the region, where the corrected one reports NoMemory |
| EarlyAllocator.Allocator.constructor | crates/allocator/src/early.rs:13-20 | `new()`: all four fields 1 |
| EarlyAllocator.Allocator.Init | crates/allocator/src/early.rs:24-33 | `end = orig_end = s+n`, `orig_start = s`, `start = s` or 1 when `s == 0`, nothing allocated |
| EarlyAllocator.Allocator.Alloc | crates/allocator/src/early.rs:41-56 | returns `Bump`; on success a non-zero address, `start` becomes its end; on failure nothing changes; `end` never changes |
| EarlyAllocator.Allocator.Dealloc | crates/allocator/src/early.rs:58-60 | changes nothing |
| EarlyAllocator.Allocator.AllocPages | crates/allocator/src/early.rs:78-92 | returns `Carve`; on success `end` becomes the result; on failure nothing changes; `start` never changes |
| EarlyAllocator.Allocator.DeallocPages | crates/allocator/src/early.rs:94-96 | changes nothing |
| EarlyAllocator.Allocator.TotalBytes | crates/allocator/src/early.rs:62-64 | the size of the original region, within which every byte and page block lies |
| EarlyAllocator.Allocator.UsedBytes | crates/allocator/src/early.rs:66-68 | how far `start` has moved; every byte block lies within that prefix |
| EarlyAllocator.Allocator.AvailableBytes | crates/allocator/src/early.rs:70-72 | the free gap `[start, end)`: byte blocks end by `start` and page blocks begin at or after its end. It requires `start <= end`, because `end - start` underflows after `init(0, 0)` (start 1, end 0) |
| EarlyAllocator.Allocator.TotalPages | crates/allocator/src/early.rs:98-100 | the number of whole pages between `start` and `orig_end`. It requires `start <= orig_end`, because the subtraction underflows after `init(0, 0)` |
| EarlyAllocator.Allocator.UsedPages | crates/allocator/src/early.rs:102-104 | the number of whole pages between `end` and `orig_end`, where the page blocks lie |
| EarlyAllocator.Allocator.AvailablePages | crates/allocator/src/early.rs:106-108 | the number of whole pages in the free gap `[start, end)`; it requires `start <= end` like `AvailableBytes` |
| EarlyAllocator.Allocator.CountersAddUp | crates/allocator/src/early.rs:62-72 | used plus available plus the pages carved from the top give the total bytes; used plus available pages are at most the total pages |
| EarlyAllocator.Allocator.BlocksDisjoint | crates/allocator/src/early.rs:49-53 | byte blocks lie below page blocks, blocks of each kind are disjoint, and all lie within the original region |
| LoaderSyscall.ToI32 | apps/loader/src/syscall.rs:97 | the `as c_int` cast: the value in `i32` range congruent modulo 2^32 |
| LoaderSyscall.ToUsize | apps/loader/src/syscall.rs:98-100 | the `as usize` cast of an `isize` argument: the value in `usize` range congruent modulo 2^64, unchanged when non-negative |
| LoaderSyscall.ToIsize | apps/loader/src/syscall.rs:98-100 | the `as isize` cast of a `usize` result: the value in `isize` range congruent modulo 2^64, unchanged below 2^63 |
| LoaderSyscall.CastsRoundTrip | apps/loader/src/syscall.rs:97-98 | `isize` to `usize` and back, and `usize` to `isize` and back, are identities |
| LoaderSyscall.Writev | apps/loader/src/syscall.rs:8-39 | error 22 before any write when `fd` is outside 0..=2 or `iovcnt` is negative; otherwise the write loop from total 0 |
| LoaderSyscall.WriteLoop | apps/loader/src/syscall.rs:19-38 | the only error is error 5 (EIO), and from a non-negative running total it comes only when nothing was written; a success never reports less than the running total |
| LoaderSyscall.WriteLoopAllFull | apps/loader/src/syscall.rs:19-38 | when every buffer is written in full the result is the sum of the lengths |
| LoaderSyscall.WriteLoopStops | apps/loader/src/syscall.rs:21-34 | at the first short write the result is the running total; at the first error it is error 5 if nothing was written, otherwise the total so far |
| LoaderSyscall.WriteLoopBound | apps/loader/src/syscall.rs:17-38 | when the console never claims more than it was given, the result lies between 0 and the sum of the lengths, and an error is error 5 with nothing written |
| LoaderSyscall.WritevLoop | apps/loader/src/syscall.rs:8-39 | the loop returns `Writev`, and the bytes it sent are a prefix of the buffers' concatenation, as many as it reports |
| LoaderSyscall.BrkStep | apps/loader/src/syscall.rs:41-59 | below `brk_min` nothing changes; up to `brk_max` only `brk` moves; above it `brk_max` becomes the page round-up of `x`, and `[old_max, new_max)` is mapped; `brk_max` never decreases |
| LoaderSyscall.User.Brk | apps/loader/src/syscall.rs:41-59 | the method applies `BrkStep`, returns the new `brk` and logs the mapping request |
| LoaderSyscall.Mmap | apps/loader/src/syscall.rs:61-72 | the stub returns 0 |
| LoaderSyscall.Mprotect | apps/loader/src/syscall.rs:74-78 | the stub returns 0 |
| LoaderSyscall.Route | apps/loader/src/syscall.rs:95-104 | the eight syscall numbers are known and every other number is unknown |
| LoaderSyscall.Handler | apps/loader/src/syscall.rs:83-106 | 96 gives 1, 66 the `writev` result negated on error, 214 the `brk` result, 222/226/57 give 0, 29 gives -22; 94 and unknown numbers halt; only `brk` changes the heap, and it logs exactly the `map_new` request of `BrkStep`, or none |
| LehmerRng.Step | ulib/axstd/src/collections/hash_map.rs:13 | the next seed is below 2^31-1, and the `u64` product is below 2^48 so it cannot overflow |
| LehmerRng.Combine | ulib/axstd/src/collections/hash_map.rs:19 | `(a << 32) \| b` equals `a * 2^32 + b` and fits in `u64` |
| LehmerRng.TwoSteps | ulib/axstd/src/collections/hash_map.rs:13-19 | two steps multiply the seed by 48271^2 modulo 2^31-1 |
| LehmerRng.ZeroForever | ulib/axstd/src/collections/hash_map.rs:6-13 | from seed 0 the generator stays at 0 forever |
| LehmerRng.Generator.constructor | ulib/axstd/src/collections/hash_map.rs:6 | the seed starts at 0, after 0 steps |
| LehmerRng.Generator.StepRng | ulib/axstd/src/collections/hash_map.rs:9-16 | returns the previous seed, stores `(seed * 48271) % 2147483647` and counts one more step, keeping the seed equal to `Iterate(0, steps)` |
| LehmerRng.Generator.Random | ulib/axstd/src/collections/hash_map.rs:18-20 | two steps; the first returned seed in the high half, the second in the low half; since the seed starts at 0 and is the initial seed after `steps` steps, every call returns 0 |

## Left out

- I/O is not modelled. The console is a sequence of write outcomes (`LoaderSyscall.WriteOutcome`) and each iovec is a byte sequence, so the raw `iov_base` pointers, `stdout().lock()` and `slice::from_raw_parts` do not appear.
- `crate::USER`, its `RefCell` borrow, `map_new` and `PAGE_SIZE` are defined elsewhere. The user state is a class, `map_new` is an appended `(start, len)` request, and `PAGE_SIZE` is a positive parameter.
- `Fdt::from_ptr` is not modelled: it builds slices from a raw pointer.
- `FdtError` keeps only its message: the error offset of `validate` (crates/fdt_iter/src/fdt.rs:190) is not stored in it, and its `Debug` formatting is not modelled. The underflow of that offset's subtraction is modelled: `FdtBlob.ValidateAsWritten` and `FdtBlob.DecodeAsWritten` panic there as a debug build does, and it is the third finding below. `FdtBlob.Validate`, `FdtBlob.Decode` and everything built on them follow the release build, where the wrapped offset is computed and not used on the success path.
- `DebugIter` (crates/fdt_iter/src/debug_iter.rs) only forwards `next`; it is the identity here.
- The nom and zerocopy combinators are not modelled as such; they appear as big-endian decoding of byte sequences.
- `Iter::node` (crates/fdt_iter/src/node.rs:242-244) is the `node` field of `FdtNode.Iter`, read directly.
- `add_memory` (crates/allocator/src/early.rs:35-37) panics on every call, so no caller can use it. It is not modelled.
- The `HashMap` wrapper over hashbrown and ahash is not modelled (library code). The atomic `fetch_update` is a single-threaded update of one field; concurrent callers are not modelled.
- apps/hv/src/main.rs, apps/loader/src/main.rs and crates/fdt_iter/examples/fdt_iter_playground.rs are not part of this model (set-up code, foreign calls, file I/O and printing). Neither are the page-table, ELF-loading and stack code the loader relies on.
- EarlyAllocator.Allocator.AllocPages: the unchecked `num_pages * PAGE_SIZE` (crates/allocator/src/early.rs:81) is a precondition that the product fits in `usize` rather than a wrap-around. The unchecked `region_end - num_bytes` is the finding below.
- EarlyAllocator.Allocator.Init: the unchecked `start + size` (crates/allocator/src/early.rs:26) is a precondition `base + size < USIZE_LIMIT`, not a wrap-around or a panic.
- EarlyAllocator.Allocator.Alloc: `layout.size()` is required to fit in `usize`, as `Layout` guarantees. `IsPowerOfTwo(align)` is the `Layout` invariant.
- FdtProperty.Unsigned: input longer than 8 bytes panics in the code. The doc comment says `None` instead; the model follows the code and takes at most 8 bytes as a precondition.
- FdtNode.SizeCells: the default is 2, as the code does. The doc comment says 1.
- FdtNode.WalkStep: `depth -= 1` at depth 0 overflows `usize`, which panics in a debug build. It is modelled as a panic.
- FdtNode.PropsFrom, FdtNode.Properties, FdtNode.FindProp and FdtNode.Property carry no `ensures` of their own. FdtNode.PropertyIsFirst and FdtTree.PropertiesOfTree state what they return.
- FdtNode.Walker.Next, FdtNode.PreorderIter.Next and FdtNode.Iter.NextChild require that the step cannot panic. Which blobs panic is stated on the functions they follow (`WalkStep`, `PreorderNext`, `NextChildStep`), and FdtBlob.WellFormedCanStep proves that a decoded blob never panics in the cursor.
- FdtTree's traversal lemmas are stated for blobs whose nodes are encoded from a tree value, without NOP tokens between nodes. FdtOp.SkipNops shows what NOPs do to a single parse.
- LoaderSyscall.User.Brk, LoaderSyscall.BrkStep and LoaderSyscall.Handler: `new_brk.next_multiple_of(PAGE_SIZE)` (apps/loader/src/syscall.rs:46) overflows for a break within one page of 2^64. Each requires that the round-up fits in `usize` (`RoundUp(newBrk, pageSize) < USIZE_LIMIT`) rather than modelling the panic or the wrap.
- LoaderSyscall.WritevLoop: `total` is an `isize`; the sum of the buffer lengths is required to fit below 2^63 rather than modelling a wrap.

## Findings

| source | as written | input that shows it | evidently intended | confidence | as-written member | corrected member |
|---|---|---|---|---|---|---|
| crates/fdt_iter/src/fdt.rs:122 | `fix_strings_range` slices `bytes[strings_range]` before `validate` checks that the strings range lies within the input, so this panics | a 40-byte blob with the magic, `totalsize` 40, both blocks at offset 40, an empty structure block and `size_dt_strings` 1 (the strings block ends at 41) | an `Err("Strings block end out of range")`, as `validate` (crates/fdt_iter/src/fdt.rs:178-181) reports | not executed | FdtBlob.AsWrittenPanicsOnStringsPastEnd | FdtBlob.Decode |
| crates/allocator/src/early.rs:84-85 | `region_end - num_bytes` is unchecked: a request larger than the region wraps in a release build (and panics in a debug build), and the `start > res` test then passes | `start` 1, `end` 8192, three 4096-byte pages at alignment 4096: the result is 2^64 - 4096 | NoMemory, as for any other request that does not fit between `start` and `end` | not executed | EarlyAllocator.AsWrittenCarvesPastRegion | EarlyAllocator.Carve |
| crates/fdt_iter/src/fdt.rs:190 | the loop of `validate` computes its error offset as `strings_range.end - input.len()` on every pass, which underflows (a panic in a debug build) whenever the remaining structure block is longer than the strings range's end | a 44-byte blob, `totalsize` 44, strings block `0..0`, structure block `40..44` holding only FDT_END: the first pass computes `0 - 4` | `struct_range.end - input.len()`, the token's offset in the blob, as `OpIter::offset` (crates/fdt_iter/src/fdt.rs:255-257) computes it | not executed | FdtBlob.AsWrittenPanicsOnOffsetUnderflow | FdtBlob.TokenOffset |
