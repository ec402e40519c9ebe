/**
 * A flattened devicetree blob: the header (section 5.2 of the Devicetree
 * Specification), the structure and strings block ranges, validation of the
 * token stream, and the cursor (`OpIter`) over the structure block.
 */
module FdtBlob {
  import opened Wrappers
  import opened Bytes
  import opened FdtOp

  const FDT_MAGIC: nat := 0xd00d_feed
  /** Ten big-endian `u32` fields. */
  const HEADER_SIZE: nat := 40

  datatype Header = Header(
    magic: nat,
    totalsize: nat,
    offDtStruct: nat,
    offDtStrings: nat,
    offMemRsvmap: nat,
    version: nat,
    lastCompVersion: nat,
    bootCpuidPhys: nat,
    sizeDtStrings: nat,
    sizeDtStruct: nat)

  /** The header fields in on-disk order. */
  function HeaderWords(h: Header): seq<nat>
  {
    [h.magic, h.totalsize, h.offDtStruct, h.offDtStrings, h.offMemRsvmap,
     h.version, h.lastCompVersion, h.bootCpuidPhys, h.sizeDtStrings, h.sizeDtStruct]
  }

  /** The `i`-th big-endian header word of `bytes`. */
  function Field(bytes: seq<byte>, i: nat): (r: nat)
    requires |bytes| >= HEADER_SIZE && i < 10
    ensures r < U32_LIMIT
  {
    WordBound(bytes[4 * i..4 * i + 4]);
    BeValue(bytes[4 * i..4 * i + 4])
  }

  /** The header whose fields, in on-disk order, are `ws`. */
  function HeaderOf(ws: seq<nat>): (h: Header)
    requires |ws| == 10
    ensures HeaderWords(h) == ws
  {
    Header(ws[0], ws[1], ws[2], ws[3], ws[4], ws[5], ws[6], ws[7], ws[8], ws[9])
  }

  /** The ten big-endian words at the start of `bytes`. */
  function Fields(bytes: seq<byte>): (ws: seq<nat>)
    requires |bytes| >= HEADER_SIZE
    ensures |ws| == 10 && forall i :: 0 <= i < 10 ==> ws[i] == Field(bytes, i)
  {
    seq(10, i requires 0 <= i < 10 => Field(bytes, i))
  }

  /** `Header::from_bytes`: the header from the first 40 bytes, if there are that many. */
  function HeaderFromBytes(bytes: seq<byte>): (r: Option<Header>)
    ensures r.Some? <==> |bytes| >= HEADER_SIZE
    ensures r.Some? ==> HeaderWords(r.value) == Fields(bytes)
  {
    if |bytes| < HEADER_SIZE then None else Some(HeaderOf(Fields(bytes)))
  }

  /** Every header field read from bytes is a 32-bit value. */
  lemma HeaderFits(bytes: seq<byte>)
    requires |bytes| >= HEADER_SIZE
    ensures forall w <- HeaderWords(HeaderFromBytes(bytes).value) :: w < U32_LIMIT
  {
    var ws := Fields(bytes);
    forall w <- ws ensures w < U32_LIMIT {
      var i :| 0 <= i < 10 && ws[i] == w;
    }
  }

  /** `Header::valid_magic`. */
  predicate ValidMagic(h: Header)
  {
    h.magic == FDT_MAGIC
  }

  /** A 32-bit magic is valid exactly when it is stored as the bytes d0 0d fe ed. */
  lemma ValidMagicBytes(h: Header)
    requires h.magic < U32_LIMIT
    ensures ValidMagic(h) <==> BeBytes(h.magic, 4) == [0xd0, 0x0d, 0xfe, 0xed]
  {
    var m := h.magic;
    assert BeBytes(0xd0, 1) == [0xd0];
    assert BeBytes(0xd00d, 2) == [0xd0, 0x0d];
    assert BeBytes(0xd00dfe, 3) == [0xd0, 0x0d, 0xfe];
    assert BeBytes(FDT_MAGIC, 4) == [0xd0, 0x0d, 0xfe, 0xed];
    if BeBytes(m, 4) == [0xd0, 0x0d, 0xfe, 0xed] {
      assert Pow256(4) == U32_LIMIT;
      BeRoundTrip(m, 4);
      WordValue([0xd0, 0x0d, 0xfe, 0xed]);
    }
  }

  /** The 40 header bytes. */
  function EncodeHeader(h: Header): (r: seq<byte>)
    ensures |r| == HEADER_SIZE
  {
    BeWords(HeaderWords(h))
  }

  /** A header is read back from its encoding, whatever follows it. */
  lemma HeaderRoundTrip(h: Header, rest: seq<byte>)
    requires forall w <- HeaderWords(h) :: w < U32_LIMIT
    ensures HeaderFromBytes(EncodeHeader(h) + rest) == Some(h)
  {
    var ws := HeaderWords(h);
    var bytes := EncodeHeader(h) + rest;
    assert Pow256(4) == U32_LIMIT;
    forall i | 0 <= i < 10
      ensures Fields(bytes)[i] == ws[i]
    {
      assert ws[i] in ws;
      BeWordsAt(ws, i, rest);
      BeRoundTrip(ws[i], 4);
    }
    assert Fields(bytes) == ws;
    assert HeaderWords(HeaderFromBytes(bytes).value) == HeaderWords(h);
  }

  // ---------------------------------------------------------------------
  // Block ranges

  /** A half-open byte range `start..end` of the blob. */
  datatype Range = Range(start: nat, end: nat)
  {
    predicate Ordered() { start <= end }
    function Len(): nat requires Ordered() { end - start }
  }

  /** `make_range`: `start..start+len`, or `None` when the end overflows `usize`. */
  function MakeRange(start: nat, len: nat): (r: Option<Range>)
    ensures r.Some? <==> start + len < USIZE_LIMIT
    ensures r.Some? ==> r.value.start == start && r.value.Ordered() && r.value.Len() == len
  {
    if start + len < USIZE_LIMIT then Some(Range(start, start + len)) else None
  }

  /** Two 32-bit header fields never overflow a 64-bit `usize`. */
  lemma MakeRangeOfWords(start: nat, len: nat)
    requires start < U32_LIMIT && len < U32_LIMIT
    ensures MakeRange(start, len).Some?
  {
  }

  /**
   * `fix_strings_range`: the end after dropping every trailing non-NUL byte,
   * so that the block is empty or ends in a NUL.
   */
  function TrimmedEnd(bytes: seq<byte>, range: Range): (end: nat)
    requires range.Ordered() && range.end <= |bytes|
    ensures range.start <= end <= range.end
    ensures end == range.start || bytes[end - 1] == 0
    ensures forall k :: end <= k < range.end ==> bytes[k] != 0
    decreases range.end
  {
    if range.end == range.start || bytes[range.end - 1] == 0 then range.end
    else TrimmedEnd(bytes, Range(range.start, range.end - 1))
  }

  /** Trimming an already trimmed range changes nothing. */
  lemma TrimIdempotent(bytes: seq<byte>, range: Range)
    requires range.Ordered() && range.end <= |bytes|
    ensures TrimmedEnd(bytes, Range(range.start, TrimmedEnd(bytes, range))) == TrimmedEnd(bytes, range)
  {
  }

  /** `fix_strings_range` as the code runs it: a loop that decrements `range.end`. */
  method FixStringsRange(bytes: seq<byte>, range: Range) returns (r: Range)
    requires range.Ordered() && range.end <= |bytes|
    ensures r == Range(range.start, TrimmedEnd(bytes, range))
  {
    r := range;
    while r.end > r.start && bytes[r.end - 1] != 0
      invariant r.start == range.start && r.start <= r.end <= range.end
      invariant TrimmedEnd(bytes, r) == TrimmedEnd(bytes, range)
      decreases r.end
    {
      r := r.(end := r.end - 1);
    }
  }

  // ---------------------------------------------------------------------
  // The blob and its validation

  /** A validation error; the messages of `FdtError`, without their offsets. */
  datatype FdtError =
    | NotEnoughBytes
    | InvalidMagic
    | TotalSizeTooLarge
    | StructRangeOverflows
    | StringsRangeOverflows
    | StructStartOutOfRange
    | StructEndOutOfRange
    | StringsStartOutOfRange
    | StringsEndOutOfRange
    | BadToken
    | UnmatchedEndNode
    | BadPropName
    | MissingEndNode

  datatype Fdt = Fdt(raw: seq<byte>, structRange: Range, stringsRange: Range)

  /** Both ranges are ordered, as `make_range` and `fix_strings_range` leave them. */
  predicate Ordered(fdt: Fdt)
  {
    fdt.structRange.Ordered() && fdt.stringsRange.Ordered()
  }

  predicate InBounds(fdt: Fdt)
  {
    Ordered(fdt) && fdt.structRange.end <= |fdt.raw| && fdt.stringsRange.end <= |fdt.raw|
  }

  function StructBlock(fdt: Fdt): seq<byte>
    requires InBounds(fdt)
  {
    fdt.raw[fdt.structRange.start..fdt.structRange.end]
  }

  function StringsBlock(fdt: Fdt): seq<byte>
    requires InBounds(fdt)
  {
    fdt.raw[fdt.stringsRange.start..fdt.stringsRange.end]
  }

  /** The four range checks that open `validate`, in their order. */
  function CheckRanges(len: nat, structRange: Range, stringsRange: Range): (r: Outcome<FdtError>)
    ensures r.Pass? <==> structRange.end <= len && stringsRange.end <= len && structRange.start <= len && stringsRange.start <= len
  {
    if structRange.start > len then Fail(StructStartOutOfRange)
    else if structRange.end > len then Fail(StructEndOutOfRange)
    else if stringsRange.start > len then Fail(StringsStartOutOfRange)
    else if stringsRange.end > len then Fail(StringsEndOutOfRange)
    else Pass
  }

  /**
   * The token loop of `validate`, from `input` at nesting depth `depth`: every
   * token parses, FDT_END_NODE never closes more nodes than are open, every
   * property name offset is inside the strings block, and FDT_END comes at depth 0.
   */
  function ValidateTokens(input: seq<byte>, depth: nat, stringsLen: nat): Outcome<FdtError>
    decreases |input|
  {
    var p := Parse(input);
    if p.Malformed? then Fail(BadToken)
    else if p.op.None? then (if depth == 0 then Pass else Fail(MissingEndNode))
    else
      match StepDepth(p.op.value, depth, stringsLen)
      case Failure(e) => Fail(e)
      case Success(d) => ValidateTokens(p.rest, d, stringsLen)
  }

  /** The depth after one token of `validate`'s loop, or the error that token raises. */
  function StepDepth(op: OpRaw, depth: nat, stringsLen: nat): (r: Result<nat, FdtError>)
    ensures r.Success? ==> r.value == depth + Delta(op)
    ensures r.Failure? <==> (op.EndNode? && depth == 0) || (op.Prop? && op.nameOffset >= stringsLen)
  {
    match op
    case BeginNode(_) => Success(depth + 1)
    case EndNode => if depth == 0 then Failure(UnmatchedEndNode) else Success(depth - 1)
    case Prop(nameOffset, _) => if nameOffset < stringsLen then Success(depth) else Failure(BadPropName)
  }

  /** `Fdt::validate`. */
  function ValidateSpec(fdt: Fdt): Outcome<FdtError>
    requires Ordered(fdt)
  {
    match CheckRanges(|fdt.raw|, fdt.structRange, fdt.stringsRange)
    case Fail(e) => Fail(e)
    case Pass => ValidateTokens(StructBlock(fdt), 0, |StringsBlock(fdt)|)
  }

  /**
   * The token loop of `validate` as written. Each pass first computes the
   * error offset as `strings_range.end - input.len()`, which underflows, and
   * so panics in a debug build, once the remaining structure block is longer
   * than `stringsEnd`.
   */
  function ValidateTokensAsWritten(input: seq<byte>, depth: nat, stringsLen: nat, stringsEnd: nat): (r: Run<Outcome<FdtError>>)
    ensures r.Panicked? <==> stringsEnd < |input|
    ensures r.Returned? ==> r.value == ValidateTokens(input, depth, stringsLen)
    decreases |input|
  {
    if stringsEnd < |input| then Panicked
    else
      var p := Parse(input);
      if p.Malformed? then Returned(Fail(BadToken))
      else if p.op.None? then Returned(if depth == 0 then Pass else Fail(MissingEndNode))
      else
        match StepDepth(p.op.value, depth, stringsLen)
        case Failure(e) => Returned(Fail(e))
        case Success(d) => ValidateTokensAsWritten(p.rest, d, stringsLen, stringsEnd)
  }

  /** `Fdt::validate` as written: the range checks, then the token loop with its offset. */
  function ValidateAsWritten(fdt: Fdt): (r: Run<Outcome<FdtError>>)
    requires Ordered(fdt)
    ensures r.Panicked? <==> CheckRanges(|fdt.raw|, fdt.structRange, fdt.stringsRange).Pass? && fdt.stringsRange.end < fdt.structRange.Len()
    ensures r.Returned? ==> r.value == ValidateSpec(fdt)
  {
    match CheckRanges(|fdt.raw|, fdt.structRange, fdt.stringsRange)
    case Fail(e) => Returned(Fail(e))
    case Pass => ValidateTokensAsWritten(StructBlock(fdt), 0, |StringsBlock(fdt)|, fdt.stringsRange.end)
  }

  /**
   * The error offset `validate` evidently means: where the token at `input`
   * starts in the blob, counted from the end of the structure block. It never
   * underflows.
   */
  function TokenOffset(fdt: Fdt, input: seq<byte>): (r: nat)
    requires InBounds(fdt) && IsSuffix(input, StructBlock(fdt))
    ensures fdt.structRange.start <= r <= fdt.structRange.end
    ensures fdt.raw[r..fdt.structRange.end] == input
  {
    fdt.structRange.end - |input|
  }

  /** `Fdt::validate` as the code runs it: the range checks, then the token loop. */
  method Validate(fdt: Fdt) returns (r: Outcome<FdtError>)
    requires Ordered(fdt)
    ensures r == ValidateSpec(fdt)
  {
    r := CheckRanges(|fdt.raw|, fdt.structRange, fdt.stringsRange);
    if r.Pass? {
      r := ValidateLoop(fdt.raw[fdt.structRange.start..fdt.structRange.end], fdt.stringsRange.Len());
    }
  }

  /** The token loop of `validate`, tracking the nesting depth. */
  method ValidateLoop(block: seq<byte>, stringsLen: nat) returns (r: Outcome<FdtError>)
    ensures r == ValidateTokens(block, 0, stringsLen)
  {
    var input := block;
    var depth: nat := 0;
    while true
      invariant ValidateTokens(input, depth, stringsLen) == ValidateTokens(block, 0, stringsLen)
      decreases |input|
    {
      var result := ParseOp(input);
      if result.Malformed? {
        return Fail(BadToken);
      }
      input := result.rest;
      if result.op.None? {
        return if depth == 0 then Pass else Fail(MissingEndNode);
      }
      var step := StepDepth(result.op.value, depth, stringsLen);
      if step.Failure? {
        return Fail(step.error);
      }
      depth := step.value;
    }
  }

  // ---------------------------------------------------------------------
  // Fdt::from_bytes

  /** The header checks of `from_bytes` and the two block ranges it computes. */
  function BlockRanges(bytes: seq<byte>): (r: Result<(Range, Range), FdtError>)
    ensures r.Success? ==> r.value.0.Ordered() && r.value.1.Ordered()
    ensures r.Success? ==> && HeaderFromBytes(bytes).Some? && ValidMagic(HeaderFromBytes(bytes).value)
                           && HeaderFromBytes(bytes).value.totalsize <= |bytes|
    ensures r.Success? ==> r.value.0.start == HeaderFromBytes(bytes).value.offDtStruct
    ensures r.Success? ==> r.value.0.end == HeaderFromBytes(bytes).value.offDtStruct + HeaderFromBytes(bytes).value.sizeDtStruct
    ensures r.Success? ==> r.value.1.start == HeaderFromBytes(bytes).value.offDtStrings
    ensures r.Success? ==> r.value.1.end == HeaderFromBytes(bytes).value.offDtStrings + HeaderFromBytes(bytes).value.sizeDtStrings
  {
    match HeaderFromBytes(bytes)
    case None => Failure(NotEnoughBytes)
    case Some(h) =>
      if !ValidMagic(h) then Failure(InvalidMagic)
      else if h.totalsize > |bytes| then Failure(TotalSizeTooLarge)
      else
        match MakeRange(h.offDtStruct, h.sizeDtStruct)
        case None => Failure(StructRangeOverflows)
        case Some(structRange) =>
          match MakeRange(h.offDtStrings, h.sizeDtStrings)
          case None => Failure(StringsRangeOverflows)
          case Some(stringsRange) => Success((structRange, stringsRange))
  }

  /** The blob with its strings range trimmed, then validated. */
  function Validated(bytes: seq<byte>, structRange: Range, stringsRange: Range): Result<Fdt, FdtError>
    requires structRange.Ordered() && stringsRange.Ordered() && stringsRange.end <= |bytes|
  {
    var fdt := Fdt(bytes, structRange, Range(stringsRange.start, TrimmedEnd(bytes, stringsRange)));
    match ValidateSpec(fdt)
    case Fail(e) => Failure(e)
    case Pass => Success(fdt)
  }

  /**
   * `Fdt::from_bytes` as written: `fix_strings_range` slices `bytes` with the
   * strings range before `validate` has checked that range, so a strings block
   * reaching past the input panics; `validate` then panics in a debug build
   * when its error offset underflows.
   */
  function DecodeAsWritten(bytes: seq<byte>): (r: Run<Result<Fdt, FdtError>>)
    ensures BlockRanges(bytes).Failure? ==> r == Returned(Failure(BlockRanges(bytes).error))
    ensures BlockRanges(bytes).Success? && BlockRanges(bytes).value.1.end > |bytes| ==> r.Panicked?
    ensures r.Returned? && r.value.Success? ==> r.value.value.raw == bytes && InBounds(r.value.value)
  {
    match BlockRanges(bytes)
    case Failure(e) => Returned(Failure(e))
    case Success((structRange, stringsRange)) =>
      if stringsRange.end > |bytes| then Panicked
      else
        var fdt := Fdt(bytes, structRange, Range(stringsRange.start, TrimmedEnd(bytes, stringsRange)));
        match ValidateAsWritten(fdt)
        case Panicked => Panicked
        case Returned(Fail(e)) => Returned(Failure(e))
        case Returned(Pass) => Returned(Success(fdt))
  }

  /**
   * `Fdt::from_bytes` with the range checks of `validate` done before the
   * strings range is trimmed, so that every input gives a result.
   */
  function Decode(bytes: seq<byte>): (r: Result<Fdt, FdtError>)
    ensures BlockRanges(bytes).Failure? ==> r == Failure(BlockRanges(bytes).error)
    ensures BlockRanges(bytes).Success? && BlockRanges(bytes).value.1.end > |bytes| ==> r.Failure?
    ensures r.Success? ==> r.value.raw == bytes && InBounds(r.value)
    ensures r.Success? ==> r.value.structRange == BlockRanges(bytes).value.0
  {
    match BlockRanges(bytes)
    case Failure(e) => Failure(e)
    case Success((structRange, stringsRange)) =>
      match CheckRanges(|bytes|, structRange, stringsRange)
      case Fail(e) => Failure(e)
      case Pass => Validated(bytes, structRange, stringsRange)
  }

  /** `Fdt::from_bytes`, calling the two loops. */
  method FromBytes(bytes: seq<byte>) returns (r: Result<Fdt, FdtError>)
    ensures r == Decode(bytes)
  {
    var ranges := BlockRanges(bytes);
    if ranges.Failure? {
      return Failure(ranges.error);
    }
    var (structRange, stringsRange) := ranges.value;
    var checked := CheckRanges(|bytes|, structRange, stringsRange);
    if checked.Fail? {
      return Failure(checked.error);
    }
    stringsRange := FixStringsRange(bytes, stringsRange);
    var fdt := Fdt(bytes, structRange, stringsRange);
    var valid := Validate(fdt);
    r := if valid.Fail? then Failure(valid.error) else Success(fdt);
  }

  /** Wherever the code as written returns, the corrected decoder returns the same. */
  lemma DecodeAgreesWithAsWritten(bytes: seq<byte>)
    ensures DecodeAsWritten(bytes).Returned? ==> DecodeAsWritten(bytes).value == Decode(bytes)
  {
    var ranges := BlockRanges(bytes);
    if ranges.Success? && ranges.value.1.end <= |bytes| {
      var (structRange, stringsRange) := ranges.value;
      var fdt := Fdt(bytes, structRange, Range(stringsRange.start, TrimmedEnd(bytes, stringsRange)));
      AsWrittenOfTrimmed(bytes, structRange, stringsRange);
      DecodeOfTrimmed(bytes, structRange, stringsRange);
      var v := ValidateAsWritten(fdt);
      assert v.Returned? ==> v.value == ValidateSpec(fdt);
    }
  }

  /** Past the header checks, the code as written is `validate` as written on the trimmed blob. */
  lemma AsWrittenOfTrimmed(bytes: seq<byte>, structRange: Range, stringsRange: Range)
    requires BlockRanges(bytes) == Success((structRange, stringsRange)) && stringsRange.end <= |bytes|
    ensures structRange.Ordered() && stringsRange.Ordered()
    ensures var fdt := Fdt(bytes, structRange, Range(stringsRange.start, TrimmedEnd(bytes, stringsRange)));
      DecodeAsWritten(bytes) == match ValidateAsWritten(fdt)
        case Panicked => Panicked
        case Returned(Fail(e)) => Returned(Failure(e))
        case Returned(Pass) => Returned(Success(fdt))
  {
  }

  /** Past the header checks, the corrected decoder is `validate` on the trimmed blob. */
  lemma DecodeOfTrimmed(bytes: seq<byte>, structRange: Range, stringsRange: Range)
    requires BlockRanges(bytes) == Success((structRange, stringsRange)) && stringsRange.end <= |bytes|
    ensures structRange.Ordered() && stringsRange.Ordered()
    ensures var fdt := Fdt(bytes, structRange, Range(stringsRange.start, TrimmedEnd(bytes, stringsRange)));
      Decode(bytes) == match ValidateSpec(fdt)
        case Fail(e) => Failure(e)
        case Pass => Success(fdt)
  {
    var fdt := Fdt(bytes, structRange, Range(stringsRange.start, TrimmedEnd(bytes, stringsRange)));
    var checked := CheckRanges(|bytes|, structRange, stringsRange);
    TrimmedChecks(|bytes|, structRange, stringsRange, fdt.stringsRange);
    if checked.Fail? {
      assert Decode(bytes) == Failure(checked.error);
      assert ValidateSpec(fdt) == Fail(checked.error);
    } else {
      assert Decode(bytes) == Validated(bytes, structRange, stringsRange);
    }
  }

  /** Trimming the strings range keeps the outcome of the range checks. */
  lemma TrimmedChecks(len: nat, structRange: Range, stringsRange: Range, trimmed: Range)
    requires stringsRange.end <= len && trimmed.start == stringsRange.start && trimmed.end <= stringsRange.end
    ensures CheckRanges(len, structRange, trimmed) == CheckRanges(len, structRange, stringsRange)
  {
  }

  /** A header whose strings block ends one byte past a 40-byte input. */
  const STRINGS_PAST_END: Header :=
    Header(FDT_MAGIC, HEADER_SIZE, HEADER_SIZE, HEADER_SIZE, HEADER_SIZE, 17, 16, 0, 1, 0)

  /** Any input carrying that header, and nothing more, makes the code as written panic. */
  lemma AsWrittenPanicsOnStringsPastEnd(bytes: seq<byte>)
    requires |bytes| == HEADER_SIZE && HeaderFromBytes(bytes) == Some(STRINGS_PAST_END)
    ensures DecodeAsWritten(bytes) == Panicked
    ensures Decode(bytes) == Failure(StringsEndOutOfRange)
  {
  }

  /**
   * A 44-byte blob whose strings block is empty at offset 0 and whose
   * structure block, at 40..44, holds only FDT_END.
   */
  const OFFSET_UNDERFLOWS: Header :=
    Header(FDT_MAGIC, 44, HEADER_SIZE, 0, HEADER_SIZE, 17, 16, 0, 0, 4)

  /**
   * That blob is valid, yet the code as written panics in a debug build: the
   * first pass of `validate`'s loop computes `0 - 4`.
   */
  lemma AsWrittenPanicsOnOffsetUnderflow(bytes: seq<byte>)
    requires |bytes| == 44 && HeaderFromBytes(bytes) == Some(OFFSET_UNDERFLOWS) && bytes[HEADER_SIZE..] == TokenWord(FDT_END)
    ensures DecodeAsWritten(bytes) == Panicked
    ensures Decode(bytes) == Success(Fdt(bytes, Range(40, 44), Range(0, 0)))
  {
    assert BlockRanges(bytes) == Success((Range(40, 44), Range(0, 0)));
    OffsetUnderflowBlocks(bytes);
  }

  /** The blocks of that blob: the decoders run on them. */
  lemma OffsetUnderflowBlocks(bytes: seq<byte>)
    requires |bytes| == 44 && bytes[HEADER_SIZE..] == TokenWord(FDT_END)
    requires BlockRanges(bytes) == Success((Range(40, 44), Range(0, 0)))
    ensures DecodeAsWritten(bytes) == Panicked
    ensures Decode(bytes) == Success(Fdt(bytes, Range(40, 44), Range(0, 0)))
  {
    var structRange, stringsRange := Range(40, 44), Range(0, 0);
    assert TrimmedEnd(bytes, stringsRange) == 0;
    var fdt := Fdt(bytes, structRange, stringsRange);
    assert StructBlock(fdt) == bytes[HEADER_SIZE..];
    assert ValidateAsWritten(fdt) == Panicked;
    ParseEnd([]);
    assert TokenWord(FDT_END) + [] == TokenWord(FDT_END);
    assert ValidateTokens(StructBlock(fdt), 0, 0) == Pass;
    assert Validated(bytes, structRange, stringsRange) == Success(fdt);
  }

  /** Such an input exists: the header followed by FDT_END. */
  lemma OffsetUnderflowEncodes(h: Header, rest: seq<byte>)
    requires h == OFFSET_UNDERFLOWS && rest == TokenWord(FDT_END)
    ensures |EncodeHeader(h) + rest| == 44 && (EncodeHeader(h) + rest)[HEADER_SIZE..] == rest
    ensures HeaderFromBytes(EncodeHeader(h) + rest) == Some(h)
  {
    assert forall w <- HeaderWords(h) :: w < U32_LIMIT by {
      assert HeaderWords(h) == [FDT_MAGIC, 44, HEADER_SIZE, 0, HEADER_SIZE, 17, 16, 0, 0, 4];
    }
    HeaderRoundTrip(h, rest);
  }

  /** Such an input exists: the encoding of that header alone. */
  lemma StringsPastEndEncodes(h: Header)
    requires h == STRINGS_PAST_END
    ensures |EncodeHeader(h)| == HEADER_SIZE
    ensures HeaderFromBytes(EncodeHeader(h)) == Some(h)
  {
    assert forall w <- HeaderWords(h) :: w < U32_LIMIT by {
      assert HeaderWords(h) == [FDT_MAGIC, HEADER_SIZE, HEADER_SIZE, HEADER_SIZE, HEADER_SIZE, 17, 16, 0, 1, 0];
    }
    HeaderEncodes(h);
  }

  /** A header whose fields fit 32 bits is read back from its 40 bytes alone. */
  lemma HeaderEncodes(h: Header)
    requires forall w <- HeaderWords(h) :: w < U32_LIMIT
    ensures HeaderFromBytes(EncodeHeader(h)) == Some(h)
  {
    HeaderRoundTrip(h, []);
    assert EncodeHeader(h) + [] == EncodeHeader(h);
  }

  // ---------------------------------------------------------------------
  // What a successful decode guarantees

  /** The strings block is empty or ends in a NUL. */
  predicate Terminated(strings: seq<byte>)
  {
    strings == [] || strings[|strings| - 1] == 0
  }

  /** Everything `from_bytes` establishes about the blob it returns. */
  predicate WellFormed(fdt: Fdt)
  {
    && InBounds(fdt)
    && Terminated(StringsBlock(fdt))
    && ValidateTokens(StructBlock(fdt), 0, |StringsBlock(fdt)|) == Pass
  }

  /** A blob that passes validation after trimming is well formed. */
  lemma ValidatedWellFormed(bytes: seq<byte>, structRange: Range, stringsRange: Range)
    requires structRange.Ordered() && stringsRange.Ordered() && stringsRange.end <= |bytes|
    requires Validated(bytes, structRange, stringsRange).Success?
    ensures WellFormed(Validated(bytes, structRange, stringsRange).value)
  {
    var e := TrimmedEnd(bytes, stringsRange);
    var fdt := Fdt(bytes, structRange, Range(stringsRange.start, e));
    assert ValidateSpec(fdt) == Pass;
    if e > stringsRange.start {
      assert StringsBlock(fdt)[e - stringsRange.start - 1] == bytes[e - 1];
    }
  }

  /** A successful decode gives a well-formed blob over the input, at the header's offsets. */
  lemma DecodeWellFormed(bytes: seq<byte>)
    requires Decode(bytes).Success?
    ensures WellFormed(Decode(bytes).value)
    ensures Decode(bytes).value.raw == bytes
    ensures Decode(bytes).value.structRange.start == HeaderFromBytes(bytes).value.offDtStruct
    ensures Decode(bytes).value.stringsRange.start == HeaderFromBytes(bytes).value.offDtStrings
  {
    var ranges := BlockRanges(bytes);
    assert CheckRanges(|bytes|, ranges.value.0, ranges.value.1) == Pass;
    assert Decode(bytes) == Validated(bytes, ranges.value.0, ranges.value.1);
    ValidatedWellFormed(bytes, ranges.value.0, ranges.value.1);
  }

  /** `from_bytes` fails unless the input starts with a 40-byte header carrying the magic number. */
  lemma DecodeNeedsHeader(bytes: seq<byte>)
    requires Decode(bytes).Success?
    ensures |bytes| >= HEADER_SIZE && Field(bytes, 0) == FDT_MAGIC
    ensures HeaderFromBytes(bytes).value.totalsize <= |bytes|
  {
  }

  // ---------------------------------------------------------------------
  // Depth bookkeeping over a remainder of the structure block

  /** How a token changes the nesting depth. */
  function Delta(op: OpRaw): int
  {
    match op
    case BeginNode(_) => 1
    case EndNode => -1
    case Prop(_, _) => 0
  }

  /**
   * The nesting depth implied at the start of `input`: the depth FDT_END must
   * be reached at 0 from.
   */
  function Level(input: seq<byte>): int
    decreases |input|
  {
    var p := Parse(input);
    if p.Malformed? || p.op.None? then 0 else Level(p.rest) - Delta(p.op.value)
  }

  /** A validation run can only succeed from the depth the remainder implies. */
  lemma {:induction false} ValidatedLevel(input: seq<byte>, depth: nat, n: nat)
    requires ValidateTokens(input, depth, n) == Pass
    ensures Level(input) == depth
    decreases |input|
  {
    var p := Parse(input);
    if p.Parsed? && p.op.Some? {
      ValidatedLevel(p.rest, StepDepth(p.op.value, depth, n).value, n);
    }
  }

  /**
   * A remainder of a validated structure block: parsing goes on from here to
   * FDT_END without error, with property offsets below `n`.
   */
  predicate Sound(input: seq<byte>, n: nat)
  {
    Level(input) >= 0 && ValidateTokens(input, Level(input) as nat, n) == Pass
  }

  /** The whole structure block of a well-formed blob is sound, at depth 0. */
  lemma WellFormedSound(fdt: Fdt)
    requires WellFormed(fdt)
    ensures Sound(StructBlock(fdt), |StringsBlock(fdt)|) && Level(StructBlock(fdt)) == 0
  {
    ValidatedLevel(StructBlock(fdt), 0, |StringsBlock(fdt)|);
  }

  /**
   * One token from a sound remainder: it parses, its depth change keeps the
   * depth non-negative, a property offset is inside the strings block, and
   * what is left is sound again.
   */
  lemma SoundStep(input: seq<byte>, n: nat)
    requires Sound(input, n)
    ensures Parse(input).Parsed?
    ensures Parse(input).op.None? ==> Level(input) == 0
    ensures Parse(input).op.Some? ==> Sound(Parse(input).rest, n)
    ensures Parse(input).op.Some? ==> Level(Parse(input).rest) == Level(input) + Delta(Parse(input).op.value)
    ensures Parse(input).op.Some? && Parse(input).op.value.Prop? ==> Parse(input).op.value.nameOffset < n
  {
    var p := Parse(input);
    if p.Parsed? && p.op.Some? {
      ValidatedLevel(p.rest, StepDepth(p.op.value, Level(input) as nat, n).value, n);
    }
  }

  // ---------------------------------------------------------------------
  // One step of the cursor

  /** `rest` is a suffix of `s`. */
  predicate IsSuffix(rest: seq<byte>, s: seq<byte>)
  {
    |rest| <= |s| && rest == s[|s| - |rest|..]
  }

  /**
   * The cursor can take a step: the token parses (`OpIter::next` unwraps the
   * parse) and a property name resolves (`Op::from_raw` panics otherwise).
   */
  predicate CanStep(fdt: Fdt, remain: seq<byte>)
    requires InBounds(fdt)
  {
    var p := Parse(remain);
    p.Parsed? && (p.op.Some? && p.op.value.Prop? ==> NameResolvable(StringsBlock(fdt), p.op.value.nameOffset))
  }

  /** The token the cursor yields at `remain`, its name resolved. */
  function StepOp(fdt: Fdt, remain: seq<byte>): (op: Option<Op>)
    requires InBounds(fdt) && CanStep(fdt, remain)
    ensures op.None? <==> Parse(remain).op.None?
  {
    var p := Parse(remain);
    if p.op.None? then None else Some(FromRaw(p.op.value, StringsBlock(fdt)))
  }

  /**
   * The safety invariant of validation: from any sound remainder of a
   * well-formed blob the cursor can step, and every property name resolves.
   */
  lemma WellFormedCanStep(fdt: Fdt, remain: seq<byte>)
    requires WellFormed(fdt) && Sound(remain, |StringsBlock(fdt)|)
    ensures CanStep(fdt, remain)
  {
    SoundStep(remain, |StringsBlock(fdt)|);
    var p := Parse(remain);
    if p.op.Some? && p.op.value.Prop? {
      ResolvableWhenTerminated(StringsBlock(fdt), p.op.value.nameOffset);
    }
  }

  /** `OpIter`: a cursor over the remainder of the structure block. */
  class OpIter {
    const fdt: Fdt
    var remain: seq<byte>

    ghost predicate Valid()
      reads this
    {
      InBounds(fdt) && IsSuffix(remain, StructBlock(fdt))
    }

    constructor (fdt: Fdt, remain: seq<byte>)
      requires InBounds(fdt) && IsSuffix(remain, StructBlock(fdt))
      ensures Valid() && this.fdt == fdt && this.remain == remain
    {
      this.fdt := fdt;
      this.remain := remain;
    }

    /** `OpIter::offset`: the byte offset of the cursor in the blob. */
    function Offset(): (r: nat)
      reads this
      requires Valid()
      ensures fdt.structRange.start <= r <= fdt.structRange.end
      ensures fdt.raw[r..fdt.structRange.end] == remain
    {
      TokenOffset(fdt, remain)
    }

    /**
     * `OpIter::peek`: what `Next` would yield, without moving: `None` exactly
     * at FDT_END, otherwise the token with its NUL-free name, a property with
     * the value it was stored with.
     */
    function Peek(): (op: Option<Op>)
      reads this
      requires Valid() && CanStep(fdt, remain)
      ensures op.None? <==> Parse(remain).op.None?
      ensures op.Some? ==> (op.value.BeginNode? <==> Parse(remain).op.value.BeginNode?)
      ensures op.Some? ==> (op.value.EndNode? <==> Parse(remain).op.value.EndNode?)
      ensures op.Some? && !op.value.EndNode? ==> 0 !in op.value.name
      ensures op.Some? && op.value.Prop? ==> op.value.value == Parse(remain).op.value.value
      ensures op.Some? && op.value.BeginNode? ==> op.value.name == Parse(remain).op.value.name
      ensures op.Some? && op.value.Prop? ==>
        op.value.name + [0] <= StringsBlock(fdt)[Parse(remain).op.value.nameOffset..]
    {
      var p := Parse(remain);
      if p.op.Some? && p.op.value.BeginNode? then
        ParsedNameHasNoNul(remain);
        StepOp(fdt, remain)
      else
        StepOp(fdt, remain)
    }

    /** `OpIter::next`: parses one token and resolves its name. */
    method Next() returns (op: Option<Op>)
      requires Valid() && CanStep(fdt, remain)
      modifies this
      ensures Valid()
      ensures op == old(Peek())
      ensures remain == Parse(old(remain)).rest
      ensures |remain| < |old(remain)|
    {
      var parsed := ParseOp(remain);
      remain := parsed.rest;
      op := match parsed.op
        case None => None
        case Some(raw) => Some(FromRaw(raw, fdt.raw[fdt.stringsRange.start..fdt.stringsRange.end]));
    }
  }
}
