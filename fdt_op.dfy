/**
 * Structure-block tokens of a flattened devicetree (section 5.4.1 of the
 * Devicetree Specification): the raw token parser and the resolution of
 * property names against the strings block.
 *
 * A C string is represented by its bytes without the terminating NUL (what
 * `CStr::to_bytes` gives); it never contains a 0 byte.
 */
module FdtOp {
  import opened Wrappers
  import opened Bytes

  const FDT_BEGIN_NODE: nat := 0x1
  const FDT_END_NODE: nat := 0x2
  const FDT_PROP: nat := 0x3
  const FDT_NOP: nat := 0x4
  const FDT_END: nat := 0x9

  /** A token as parsed, with the property name still an offset into the strings block. */
  datatype OpRaw =
    | BeginNode(name: seq<byte>)
    | EndNode
    | Prop(nameOffset: nat, value: seq<byte>)

  /** A token with its property name resolved. */
  datatype Op =
    | BeginNode(name: seq<byte>)
    | EndNode
    | Prop(name: seq<byte>, value: seq<byte>)

  /**
   * The outcome of parsing one token: the remaining input and the token, or
   * `None` for FDT_END; `Malformed` is any parser error.
   */
  datatype ParseResult =
    | Parsed(rest: seq<byte>, op: Option<OpRaw>)
    | Malformed

  /** Index of the first NUL byte of `s`. */
  function FirstNul(s: seq<byte>): (r: Option<nat>)
    ensures r.None? <==> 0 !in s
    ensures r.Some? ==> r.value < |s| && s[r.value] == 0 && 0 !in s[..r.value]
  {
    if s == [] then None
    else if s[0] == 0 then Some(0)
    else
      match FirstNul(s[1..])
      case None => None
      case Some(i) =>
        assert s[..i + 1] == [s[0]] + s[1..][..i];
        Some(i + 1)
  }

  /**
   * Splits `input` just after its first NUL: the string before it and the
   * rest; `None` when there is no NUL.
   */
  function ReadCString(input: seq<byte>): (r: Option<(seq<byte>, seq<byte>)>)
    ensures r.None? <==> 0 !in input
    ensures r.Some? ==> r.value.0 + [0] + r.value.1 == input && 0 !in r.value.0
    ensures r.Some? ==> FirstNul(input) == Some(|r.value.0|)
  {
    match FirstNul(input)
    case None => None
    case Some(p) =>
      assert input == input[..p] + [0] + input[p + 1..];
      Some((input[..p], input[p + 1..]))
  }

  /** The first NUL after a NUL-free prefix is the one that ends it. */
  lemma {:induction false} FirstNulAfter(s: seq<byte>, rest: seq<byte>)
    requires 0 !in s
    ensures FirstNul(s + [0] + rest) == Some(|s|)
  {
    if s != [] {
      assert (s + [0] + rest)[1..] == s[1..] + [0] + rest;
      FirstNulAfter(s[1..], rest);
    }
  }

  /** The split is the only one whose string part holds no NUL. */
  lemma ReadCStringOf(s: seq<byte>, rest: seq<byte>)
    requires 0 !in s
    ensures ReadCString(s + [0] + rest) == Some((s, rest))
  {
    var input := s + [0] + rest;
    FirstNulAfter(s, rest);
    assert input[..|s|] == s;
    assert input[|s| + 1..] == rest;
  }

  /** The number of padding bytes that bring `len` up to a multiple of 4. */
  function PaddingLen(len: nat): (r: nat)
    ensures r <= 3 && (len + r) % 4 == 0
    ensures len % 4 == 0 ==> r == 0
  {
    (len + 3) / 4 * 4 - len
  }

  /** The big-endian word at the start of `s`. */
  function Word(s: seq<byte>): nat
    requires |s| >= 4
  {
    BeValue(s[..4])
  }

  /** `rest` is what is left of `input` after consuming a non-empty prefix. */
  predicate ShorterSuffix(rest: seq<byte>, input: seq<byte>)
  {
    |rest| < |input| && rest == input[|input| - |rest|..]
  }

  /** The body of an FDT_BEGIN_NODE token: the NUL-terminated name, then padding to 4 bytes. */
  function ParseBeginNode(after: seq<byte>): (r: ParseResult)
    ensures r.Parsed? ==> ShorterSuffix(r.rest, after) && r.op.Some? && r.op.value.BeginNode?
  {
    match ReadCString(after)
    case None => Malformed
    case Some((name, rest)) =>
      var pad := PaddingLen(|name| + 1);
      if |rest| < pad then Malformed else Parsed(rest[pad..], Some(OpRaw.BeginNode(name)))
  }

  /**
   * Whatever the padding bytes are, an FDT_BEGIN_NODE body fails exactly when
   * it has no NUL or the padding is cut short; otherwise the name and its NUL
   * open the body, and the name, the NUL and the padding are consumed.
   */
  lemma ParseBeginNodeExact(after: seq<byte>)
    ensures ParseBeginNode(after).Malformed? <==>
      FirstNul(after).None? || |after| < FirstNul(after).value + 1 + PaddingLen(FirstNul(after).value + 1)
    ensures ParseBeginNode(after).Parsed? ==>
      var name := ParseBeginNode(after).op.value.name;
      && |after| - |ParseBeginNode(after).rest| == |name| + 1 + PaddingLen(|name| + 1)
      && 0 !in name
      && after[..|name| + 1] == name + [0]
  {
    if ReadCString(after).Some? {
      var (name, rest) := ReadCString(after).value;
      assert after[..|name| + 1] == name + [0];
    }
  }

  /** The body of an FDT_PROP token: `len`, `nameoff`, `len` value bytes, then padding to 4 bytes. */
  function ParseProp(after: seq<byte>): (r: ParseResult)
    ensures r.Parsed? ==> ShorterSuffix(r.rest, after) && r.op.Some? && r.op.value.Prop?
  {
    if |after| < 8 then Malformed
    else
      var len := Word(after);
      var nameOffset := Word(after[4..]);
      var data := after[8..];
      if |data| < len then Malformed
      else
        var pad := PaddingLen(len);
        if |data| - len < pad then Malformed
        else Parsed(data[len + pad..], Some(OpRaw.Prop(nameOffset, data[..len])))
  }

  /**
   * Whatever the padding bytes are, an FDT_PROP body fails exactly when it
   * is shorter than the two words, the value and the padding; otherwise the
   * value is the `len` bytes after the words, and all of them are consumed.
   */
  lemma ParsePropExact(after: seq<byte>)
    ensures ParseProp(after).Malformed? <==> |after| < 8 || |after| - 8 < Word(after) + PaddingLen(Word(after))
    ensures ParseProp(after).Parsed? ==>
      && ParseProp(after).op.value == OpRaw.Prop(Word(after[4..]), after[8..8 + Word(after)])
      && |after| - |ParseProp(after).rest| == 8 + Word(after) + PaddingLen(Word(after))
  {
  }

  /** One token whose 4-byte word has been read, FDT_NOP aside. */
  function ParseToken(token: nat, after: seq<byte>): (r: ParseResult)
    ensures r.Parsed? ==> |r.rest| <= |after| && r.rest == after[|after| - |r.rest|..]
    ensures r.Parsed? ==> token in {FDT_BEGIN_NODE, FDT_END_NODE, FDT_PROP, FDT_END}
    ensures r.Parsed? && r.op.None? ==> r.rest == []
  {
    if token == FDT_END then
      if after == [] then Parsed([], None) else Malformed
    else if token == FDT_BEGIN_NODE then ParseBeginNode(after)
    else if token == FDT_END_NODE then Parsed(after, Some(OpRaw.EndNode))
    else if token == FDT_PROP then ParseProp(after)
    else Malformed
  }

  /**
   * `OpRaw::parse`: skips FDT_NOP words, then reads one token. FDT_END must be
   * the last word of the input.
   */
  function Parse(input: seq<byte>): (r: ParseResult)
    ensures r.Parsed? ==> ShorterSuffix(r.rest, input)
    ensures r.Parsed? ==> |input| >= 4 && Word(input) in {FDT_BEGIN_NODE, FDT_END_NODE, FDT_PROP, FDT_NOP, FDT_END}
    ensures r.Parsed? && r.op.None? ==> r.rest == []
    decreases |input|
  {
    if |input| < 4 then Malformed
    else if Word(input) == FDT_NOP then Parse(input[4..])
    else ParseToken(Word(input), input[4..])
  }

  /** A node name never holds a NUL: it is the C string before the first one. */
  lemma {:induction false} ParsedNameHasNoNul(input: seq<byte>)
    requires Parse(input).Parsed? && Parse(input).op.Some? && Parse(input).op.value.BeginNode?
    ensures 0 !in Parse(input).op.value.name
    decreases |input|
  {
    if Word(input) == FDT_NOP {
      ParsedNameHasNoNul(input[4..]);
    }
  }

  /** `OpRaw::parse` as the code runs it: a loop that reassigns the input cursor past each FDT_NOP. */
  method ParseOp(input: seq<byte>) returns (r: ParseResult)
    ensures r == Parse(input)
  {
    var cur := input;
    while |cur| >= 4 && Word(cur) == FDT_NOP
      invariant Parse(cur) == Parse(input)
      decreases |cur|
    {
      cur := cur[4..];
    }
    if |cur| < 4 {
      return Malformed;
    }
    var token := Word(cur);
    cur := cur[4..];
    if token == FDT_END {
      r := if cur == [] then Parsed(cur, None) else Malformed;
    } else if token == FDT_BEGIN_NODE {
      var s := ReadCString(cur);
      if s.None? {
        return Malformed;
      }
      var (name, rest) := s.value;
      var pad := PaddingLen(|name| + 1);
      if |rest| < pad {
        return Malformed;
      }
      r := Parsed(rest[pad..], Some(OpRaw.BeginNode(name)));
    } else if token == FDT_END_NODE {
      r := Parsed(cur, Some(OpRaw.EndNode));
    } else if token == FDT_PROP {
      if |cur| < 8 {
        return Malformed;
      }
      var len := Word(cur);
      var nameOffset := Word(cur[4..]);
      cur := cur[8..];
      if |cur| < len {
        return Malformed;
      }
      var value := cur[..len];
      cur := cur[len..];
      var pad := PaddingLen(len);
      if |cur| < pad {
        return Malformed;
      }
      r := Parsed(cur[pad..], Some(OpRaw.Prop(nameOffset, value)));
    } else {
      r := Malformed;
    }
  }

  // ---------------------------------------------------------------------
  // Encoding, the inverse of parsing

  /** The 4-byte big-endian token word. */
  function TokenWord(token: byte): (r: seq<byte>)
    ensures |r| == 4
  {
    [0, 0, 0, token]
  }

  /** `k` FDT_NOP words. */
  function Nops(k: nat): (r: seq<byte>)
    ensures |r| == 4 * k
  {
    if k == 0 then [] else TokenWord(FDT_NOP) + Nops(k - 1)
  }

  /** A token the 32-bit fields of the format can hold. */
  predicate Encodable(op: OpRaw)
  {
    match op
    case BeginNode(name) => 0 !in name
    case EndNode => true
    case Prop(nameOffset, value) => nameOffset < U32_LIMIT && |value| < U32_LIMIT
  }

  /** The bytes of one token, with zero padding. */
  function EncodeOp(op: OpRaw): seq<byte>
  {
    match op
    case BeginNode(name) => TokenWord(FDT_BEGIN_NODE) + name + [0] + Zeros(PaddingLen(|name| + 1))
    case EndNode => TokenWord(FDT_END_NODE)
    case Prop(nameOffset, value) =>
      TokenWord(FDT_PROP) + BeBytes(|value|, 4) + BeBytes(nameOffset, 4) + value + Zeros(PaddingLen(|value|))
  }

  lemma TokenWordValue(token: byte, rest: seq<byte>)
    ensures Word(TokenWord(token) + rest) == token
  {
    assert (TokenWord(token) + rest)[..4] == TokenWord(token);
    WordValue(TokenWord(token));
  }

  /** One FDT_NOP word is skipped. */
  lemma ParseNop(input: seq<byte>)
    requires |input| >= 4 && Word(input) == FDT_NOP
    ensures Parse(input) == Parse(input[4..])
  {
  }

  /** A token word other than FDT_NOP hands the rest of the input to `ParseToken`. */
  lemma ParseTokenWord(token: byte, tail: seq<byte>)
    requires token != FDT_NOP
    ensures Parse(TokenWord(token) + tail) == ParseToken(token, tail)
  {
    TokenWordValue(token, tail);
    assert (TokenWord(token) + tail)[4..] == tail;
  }

  /** A 4-byte big-endian field at the front of `tail` reads back as its value. */
  lemma WordOfBeBytes(x: nat, tail: seq<byte>)
    requires x < U32_LIMIT
    ensures |BeBytes(x, 4) + tail| >= 4 && Word(BeBytes(x, 4) + tail) == x
  {
    assert Pow256(4) == U32_LIMIT;
    assert (BeBytes(x, 4) + tail)[..4] == BeBytes(x, 4);
    BeRoundTrip(x, 4);
  }

  lemma ParseBeginBody(name: seq<byte>, rest: seq<byte>)
    requires 0 !in name
    ensures ParseBeginNode(name + [0] + (Zeros(PaddingLen(|name| + 1)) + rest)) == Parsed(rest, Some(OpRaw.BeginNode(name)))
  {
    var pad := Zeros(PaddingLen(|name| + 1));
    ReadCStringOf(name, pad + rest);
    assert (pad + rest)[|pad|..] == rest;
  }

  lemma ParseEncodedBegin(name: seq<byte>, rest: seq<byte>)
    requires 0 !in name
    ensures Parse(EncodeOp(OpRaw.BeginNode(name)) + rest) == Parsed(rest, Some(OpRaw.BeginNode(name)))
  {
    var body := name + [0] + (Zeros(PaddingLen(|name| + 1)) + rest);
    assert EncodeOp(OpRaw.BeginNode(name)) + rest == TokenWord(FDT_BEGIN_NODE) + body;
    ParseTokenWord(FDT_BEGIN_NODE, body);
    ParseBeginBody(name, rest);
  }

  lemma ParsePropBody(nameOffset: nat, value: seq<byte>, rest: seq<byte>)
    requires nameOffset < U32_LIMIT && |value| < U32_LIMIT
    ensures ParseProp(BeBytes(|value|, 4) + (BeBytes(nameOffset, 4) + (value + (Zeros(PaddingLen(|value|)) + rest))))
      == Parsed(rest, Some(OpRaw.Prop(nameOffset, value)))
  {
    var pad := Zeros(PaddingLen(|value|));
    var data := value + (pad + rest);
    var after := BeBytes(|value|, 4) + (BeBytes(nameOffset, 4) + data);
    WordOfBeBytes(|value|, BeBytes(nameOffset, 4) + data);
    assert after[4..] == BeBytes(nameOffset, 4) + data;
    WordOfBeBytes(nameOffset, data);
    assert after[8..] == data;
    assert data[..|value|] == value;
    assert data[|value| + |pad|..] == rest;
  }

  lemma ParseEncodedProp(nameOffset: nat, value: seq<byte>, rest: seq<byte>)
    requires nameOffset < U32_LIMIT && |value| < U32_LIMIT
    ensures Parse(EncodeOp(OpRaw.Prop(nameOffset, value)) + rest) == Parsed(rest, Some(OpRaw.Prop(nameOffset, value)))
  {
    var body := BeBytes(|value|, 4) + (BeBytes(nameOffset, 4) + (value + (Zeros(PaddingLen(|value|)) + rest)));
    assert EncodeOp(OpRaw.Prop(nameOffset, value)) + rest == TokenWord(FDT_PROP) + body;
    ParseTokenWord(FDT_PROP, body);
    ParsePropBody(nameOffset, value, rest);
  }

  /** Parsing the encoding of a token gives the token back and consumes exactly its bytes. */
  lemma ParseEncoded(op: OpRaw, rest: seq<byte>)
    requires Encodable(op)
    ensures Parse(EncodeOp(op) + rest) == Parsed(rest, Some(op))
  {
    match op
    case BeginNode(name) => ParseEncodedBegin(name, rest);
    case EndNode =>
      TokenWordValue(FDT_END_NODE, rest);
      assert (EncodeOp(op) + rest)[4..] == rest;
    case Prop(nameOffset, value) => ParseEncodedProp(nameOffset, value, rest);
  }

  /** FDT_NOP words before a token are skipped: they change nothing about the parse. */
  lemma {:induction false} SkipNops(k: nat, rest: seq<byte>)
    ensures Parse(Nops(k) + rest) == Parse(rest)
  {
    if k == 0 {
      assert Nops(k) + rest == rest;
    } else {
      calc {
        Parse(Nops(k) + rest);
        { NopsCons(k, rest); }
        Parse(TokenWord(FDT_NOP) + (Nops(k - 1) + rest));
        { ParseNopWord(Nops(k - 1) + rest); }
        Parse(Nops(k - 1) + rest);
        { SkipNops(k - 1, rest); }
        Parse(rest);
      }
    }
  }

  lemma NopsCons(k: nat, rest: seq<byte>)
    requires k > 0
    ensures Nops(k) + rest == TokenWord(FDT_NOP) + (Nops(k - 1) + rest)
  {
  }

  lemma ParseNopWord(tail: seq<byte>)
    ensures Parse(TokenWord(FDT_NOP) + tail) == Parse(tail)
  {
    var input := TokenWord(FDT_NOP) + tail;
    TokenWordValue(FDT_NOP, tail);
    assert input[4..] == tail;
    ParseNop(input);
  }

  /** FDT_END ends the parse only as the very last word; trailing bytes are an error. */
  lemma ParseEnd(rest: seq<byte>)
    ensures Parse(TokenWord(FDT_END) + rest) == if rest == [] then Parsed([], None) else Malformed
  {
    TokenWordValue(FDT_END, rest);
    assert (TokenWord(FDT_END) + rest)[4..] == rest;
  }

  // ---------------------------------------------------------------------
  // Name resolution (`Op::from_raw`)

  /** The strings block holds a NUL-terminated string at `offset` (otherwise `from_raw` panics). */
  predicate NameResolvable(strings: seq<byte>, offset: nat)
  {
    offset <= |strings| && 0 in strings[offset..]
  }

  /**
   * `Op::from_raw`: node tokens pass through; a property name is the C string
   * starting at its offset in the strings block.
   */
  function FromRaw(raw: OpRaw, strings: seq<byte>): (op: Op)
    requires raw.Prop? ==> NameResolvable(strings, raw.nameOffset)
    ensures raw.BeginNode? <==> op.BeginNode?
    ensures raw.BeginNode? ==> op.name == raw.name
    ensures raw.EndNode? <==> op.EndNode?
    ensures raw.Prop? ==> op.Prop? && op.value == raw.value
    ensures raw.Prop? ==> 0 !in op.name && op.name + [0] <= strings[raw.nameOffset..]
  {
    match raw
    case BeginNode(name) => Op.BeginNode(name)
    case EndNode => Op.EndNode
    case Prop(nameOffset, value) =>
      var s := ReadCString(strings[nameOffset..]).value;
      assert s.0 + [0] == (s.0 + [0] + s.1)[..|s.0| + 1];
      Op.Prop(s.0, value)
  }

  /** A property name resolves exactly when the strings block is NUL-terminated after its offset. */
  lemma ResolvableWhenTerminated(strings: seq<byte>, offset: nat)
    requires offset < |strings| && strings[|strings| - 1] == 0
    ensures NameResolvable(strings, offset)
  {
    assert strings[offset..][|strings| - 1 - offset] == 0;
  }
}
