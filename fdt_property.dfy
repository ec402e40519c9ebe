/**
 * Decoders for the standard property value types of a devicetree
 * (section 2.2.4 of the Devicetree Specification): `<stringlist>`,
 * `<string>`, `<u32>`, `<u64>`, lists of `<u32>`, `reg` and `status`.
 * The iterators the code returns are modelled as the sequences they yield.
 */
module FdtProperty {
  import opened Wrappers
  import opened Bytes
  import opened Arith
  import opened FdtOp

  // ---------------------------------------------------------------------
  // <stringlist> and <string>

  /** The strings, each followed by its NUL. */
  function JoinNul(strs: seq<seq<byte>>): (r: seq<byte>)
    ensures strs != [] ==> r != [] && r[|r| - 1] == 0
  {
    if strs == [] then [] else strs[0] + [0] + JoinNul(strs[1..])
  }

  /** Splits just after each NUL of a NUL-terminated `data`, dropping the NULs. */
  function SplitNul(data: seq<byte>): (r: seq<seq<byte>>)
    requires data == [] || data[|data| - 1] == 0
    ensures JoinNul(r) == data
    ensures forall s <- r :: 0 !in s
    decreases |data|
  {
    if data == [] then []
    else
      assert data[|data| - 1] in data;
      var (s, rest) := ReadCString(data).value;
      assert rest != [] ==> rest[|rest| - 1] == (s + [0] + rest)[|data| - 1];
      [s] + SplitNul(rest)
  }

  /**
   * `string_list`: a `<stringlist>` value is empty or ends with a NUL; its
   * strings are the NUL-terminated pieces.
   */
  function StringList(data: seq<byte>): (r: Option<seq<seq<byte>>>)
    ensures r.Some? <==> data == [] || data[|data| - 1] == 0
    ensures r.Some? ==> JoinNul(r.value) == data && forall s <- r.value :: 0 !in s
  {
    if data == [] || data[|data| - 1] == 0 then Some(SplitNul(data)) else None
  }

  /** Joining NUL-free strings and splitting them again gives them back. */
  lemma {:induction false} SplitJoin(strs: seq<seq<byte>>)
    requires forall s <- strs :: 0 !in s
    ensures SplitNul(JoinNul(strs)) == strs
  {
    if strs != [] {
      assert strs[0] in strs;
      ReadCStringOf(strs[0], JoinNul(strs[1..]));
      assert forall s <- strs[1..] :: s in strs;
      SplitJoin(strs[1..]);
    }
  }

  /** A joined list of NUL-free strings is a valid `<stringlist>` of exactly those strings. */
  lemma StringListOfJoin(strs: seq<seq<byte>>)
    requires forall s <- strs :: 0 !in s
    ensures StringList(JoinNul(strs)) == Some(strs)
  {
    SplitJoin(strs);
  }

  /** The first example of `string_list`'s documentation: a `compatible` list of two strings. */
  lemma StringListExample(a: seq<byte>, b: seq<byte>)
    requires a == Ascii("fsl,mpc8641") && b == Ascii("ns16550")
    ensures StringList(a + [0] + b + [0]) == Some([a, b])
  {
    assert 0 !in a;
    assert 0 !in b;
    var strs := [a, b];
    StringListOfJoin(strs);
    assert strs[1..] == [b];
    assert [b][1..] == [];
    assert JoinNul([b]) == b + [0];
    assert JoinNul(strs) == a + [0] + JoinNul([b]);
    assert a + [0] + (b + [0]) == a + [0] + b + [0];
  }

  /** The second example: a value whose last string lacks its NUL. */
  lemma StringListUnterminated(a: seq<byte>, b: seq<byte>)
    requires a == Ascii("terminated") && b == Ascii("not-terminated")
    ensures StringList(a + [0] + b) == None
  {
    assert b[|b| - 1] == 0x64;
  }

  /** `string`: exactly one NUL, at the end; the string is what precedes it. */
  function String(data: seq<byte>): (r: Option<seq<byte>>)
    ensures r.Some? <==> data != [] && data[|data| - 1] == 0 && 0 !in data[..|data| - 1]
    ensures r.Some? ==> data == r.value + [0]
  {
    if data != [] && data[|data| - 1] == 0 && 0 !in data[..|data| - 1] then Some(data[..|data| - 1]) else None
  }

  lemma StringOf(s: seq<byte>)
    requires 0 !in s
    ensures String(s + [0]) == Some(s)
  {
    assert (s + [0])[..|s|] == s;
  }

  /** Two strings are not a `<string>`. */
  lemma StringRejectsTwo(s: seq<byte>, t: seq<byte>)
    ensures String(s + [0] + t + [0]) == None
  {
    var data := s + [0] + t + [0];
    assert data[..|data| - 1][|s|] == 0;
  }

  /** The examples of `string`'s documentation. */
  lemma StringExamples()
    ensures String(Ascii("okay") + [0]) == Some(Ascii("okay"))
    ensures String(Ascii("two-strings") + [0] + Ascii("is-invalid") + [0]) == None
  {
    StringOf(Ascii("okay"));
    StringRejectsTwo(Ascii("two-strings"), Ascii("is-invalid"));
  }

  // ---------------------------------------------------------------------
  // Integers

  /** `u32`: exactly four big-endian bytes. */
  function U32(data: seq<byte>): (r: Option<nat>)
    ensures r.Some? <==> |data| == 4
    ensures r.Some? ==> r.value < U32_LIMIT
  {
    if |data| == 4 then WordBound(data); Some(BeValue(data)) else None
  }

  lemma U32RoundTrip(x: nat)
    requires x < U32_LIMIT
    ensures U32(BeBytes(x, 4)) == Some(x)
  {
    assert Pow256(4) == U32_LIMIT;
    BeRoundTrip(x, 4);
  }

  /**
   * `unsigned`: the bytes right-aligned in an 8-byte big-endian buffer.
   * More than 8 bytes panic, although the documentation promises `None`.
   */
  function Unsigned(data: seq<byte>): (r: nat)
    requires |data| <= 8
    ensures r == BeValue(data)
    ensures r < Pow256(8)
  {
    var buffer := Zeros(8 - |data|) + data;
    LeadingZeros(8 - |data|, data);
    BeValueBound(buffer);
    BeValue(buffer)
  }

  /** The examples of `unsigned`'s documentation: 0 bytes, 1 GHz in four bytes, 5 GHz in eight. */
  lemma UnsignedExamples()
    ensures Unsigned([]) == 0
    ensures Unsigned([0x3b, 0x9a, 0xca, 0x00]) == 1_000_000_000
    ensures Unsigned([0x00, 0x00, 0x00, 0x01, 0x2a, 0x05, 0xf2, 0x00]) == 5_000_000_000
  {
    WordValue([0x3b, 0x9a, 0xca, 0x00]);
    var hi: seq<byte> := [0x00, 0x00, 0x00, 0x01];
    var lo: seq<byte> := [0x2a, 0x05, 0xf2, 0x00];
    WordValue(hi);
    WordValue(lo);
    BeValueAppend(hi, lo);
    assert Pow256(4) == 0x1_0000_0000;
    assert hi + lo == [0x00, 0x00, 0x00, 0x01, 0x2a, 0x05, 0xf2, 0x00];
  }

  /** The big-endian words of `data`, whose length is a multiple of 4. */
  function Words(data: seq<byte>): (r: seq<nat>)
    requires |data| % 4 == 0
    ensures |r| == |data| / 4
    ensures BeWords(r) == data
    decreases |data|
  {
    if data == [] then []
    else
      var w := BeValue(data[..4]);
      WordBound(data[..4]);
      assert Pow256(4) == U32_LIMIT;
      BeBytesOfValue(data[..4]);
      assert data == data[..4] + data[4..];
      [w] + Words(data[4..])
  }

  /** `u32_list`: the value as `<u32>` cells, if its length is a whole number of cells. */
  function U32List(data: seq<byte>): (r: Option<seq<nat>>)
    ensures r.Some? <==> |data| % 4 == 0
    ensures r.Some? ==> BeWords(r.value) == data && |r.value| == |data| / 4
  {
    if |data| % 4 == 0 then Some(Words(data)) else None
  }

  /** Encoding 32-bit words and reading them back as `<u32>` cells gives the words. */
  lemma {:induction false} U32ListRoundTrip(ws: seq<nat>)
    requires forall w <- ws :: w < U32_LIMIT
    ensures U32List(BeWords(ws)) == Some(ws)
  {
    if ws != [] {
      assert ws[0] in ws;
      assert forall w <- ws[1..] :: w in ws;
      U32ListRoundTrip(ws[1..]);
      var data := BeWords(ws);
      assert data[..4] == BeBytes(ws[0], 4);
      assert data[4..] == BeWords(ws[1..]);
      assert Pow256(4) == U32_LIMIT;
      BeRoundTrip(ws[0], 4);
      assert Words(data) == [BeValue(data[..4])] + Words(data[4..]);
      assert ws == [ws[0]] + ws[1..];
    }
  }

  // ---------------------------------------------------------------------
  // reg

  /** The address and size parts, concatenated in order. */
  function JoinPairs(ps: seq<(seq<byte>, seq<byte>)>): seq<byte>
  {
    if ps == [] then [] else ps[0].0 + ps[0].1 + JoinPairs(ps[1..])
  }

  /** Every address part has `a` bytes and every size part `s` bytes. */
  predicate Shaped(ps: seq<(seq<byte>, seq<byte>)>, a: nat, s: nat)
  {
    forall i :: 0 <= i < |ps| ==> |ps[i].0| == a && |ps[i].1| == s
  }

  lemma {:induction false} JoinPairsLength(ps: seq<(seq<byte>, seq<byte>)>, a: nat, s: nat)
    requires Shaped(ps, a, s)
    ensures |JoinPairs(ps)| == |ps| * (a + s)
  {
    if ps != [] {
      JoinPairsLength(ps[1..], a, s);
      var n, k := |ps| - 1, a + s;
      assert |JoinPairs(ps)| == k + n * k;
      assert (n + 1) * k == n * k + k;
    }
  }

  /** A whole number of `k`-byte chunks stays whole after one is removed. */
  lemma ChunkStep(n: nat, k: nat)
    requires k > 0 && n % k == 0 && n > 0
    ensures n >= k && (n - k) % k == 0
  {
    var q := n / k;
    assert n == k * q;
    if q >= 1 {
      MulMono(q, k);
    }
    assert n - k == k * (q - 1);
    MultipleMod(q - 1, k);
  }

  /** Cuts `data` into `4 * (addressCells + sizeCells)`-byte chunks, each split after its address. */
  function SplitRegs(data: seq<byte>, addressCells: nat, sizeCells: nat): (r: seq<(seq<byte>, seq<byte>)>)
    requires addressCells + sizeCells > 0 && |data| % (4 * (addressCells + sizeCells)) == 0
    ensures JoinPairs(r) == data
    ensures Shaped(r, 4 * addressCells, 4 * sizeCells)
    decreases |data|
  {
    if data == [] then []
    else
      var k := 4 * (addressCells + sizeCells);
      ChunkStep(|data|, k);
      var chunk := data[..k];
      assert data == chunk[..4 * addressCells] + chunk[4 * addressCells..] + data[k..];
      [(chunk[..4 * addressCells], chunk[4 * addressCells..])] + SplitRegs(data[k..], addressCells, sizeCells)
  }

  /** Splitting the concatenation of well-shaped pairs gives the pairs back. */
  lemma {:induction false} SplitJoinPairs(ps: seq<(seq<byte>, seq<byte>)>, addressCells: nat, sizeCells: nat)
    requires addressCells + sizeCells > 0 && Shaped(ps, 4 * addressCells, 4 * sizeCells)
    ensures |JoinPairs(ps)| % (4 * (addressCells + sizeCells)) == 0
    ensures SplitRegs(JoinPairs(ps), addressCells, sizeCells) == ps
  {
    JoinPairsLength(ps, 4 * addressCells, 4 * sizeCells);
    assert |ps| * (4 * addressCells + 4 * sizeCells) == (4 * (addressCells + sizeCells)) * |ps|;
    MultipleMod(|ps|, 4 * (addressCells + sizeCells));
    if ps != [] {
      SplitJoinPairs(ps[1..], addressCells, sizeCells);
      var k := 4 * (addressCells + sizeCells);
      var data := JoinPairs(ps);
      assert data == (ps[0].0 + ps[0].1) + JoinPairs(ps[1..]);
      assert data[..k] == ps[0].0 + ps[0].1;
      assert data[k..] == JoinPairs(ps[1..]);
      assert (ps[0].0 + ps[0].1)[..4 * addressCells] == ps[0].0;
      assert (ps[0].0 + ps[0].1)[4 * addressCells..] == ps[0].1;
    }
  }

  /**
   * `reg_list_raw`: `(address, size)` byte pairs. A zero chunk length
   * (`chunks_exact(0)`) and an overflowing `4 * (address_cells + size_cells)` panic.
   */
  function RegListRaw(data: seq<byte>, addressCells: nat, sizeCells: nat): (r: Option<seq<(seq<byte>, seq<byte>)>>)
    requires addressCells + sizeCells > 0 && 4 * (addressCells + sizeCells) < USIZE_LIMIT
    ensures r.Some? <==> |data| % (4 * (addressCells + sizeCells)) == 0
    ensures r.Some? ==> JoinPairs(r.value) == data && Shaped(r.value, 4 * addressCells, 4 * sizeCells)
  {
    if |data| % (4 * (addressCells + sizeCells)) == 0 then Some(SplitRegs(data, addressCells, sizeCells)) else None
  }

  /** Each pair read with `unsigned`. */
  function RegValues(ps: seq<(seq<byte>, seq<byte>)>): (r: seq<(nat, nat)>)
    requires forall p <- ps :: |p.0| <= 8 && |p.1| <= 8
    ensures |r| == |ps|
    ensures forall i :: 0 <= i < |ps| ==> r[i] == (BeValue(ps[i].0), BeValue(ps[i].1))
  {
    seq(|ps|, i requires 0 <= i < |ps| => (Unsigned(ps[i].0), Unsigned(ps[i].1)))
  }

  /** The cell counts `reg_list` accepts; others panic. */
  predicate RegCells(addressCells: nat, sizeCells: nat)
  {
    1 <= addressCells <= 2 && sizeCells <= 2
  }

  /** `reg_list`: `(address, size)` pairs of at most 64-bit values. */
  function RegList(data: seq<byte>, addressCells: nat, sizeCells: nat): (r: Option<seq<(nat, nat)>>)
    requires RegCells(addressCells, sizeCells)
    ensures r.Some? <==> |data| % (4 * (addressCells + sizeCells)) == 0
    ensures r.Some? ==> |r.value| == |data| / (4 * (addressCells + sizeCells))
    ensures sizeCells == 0 && r.Some? ==> forall i :: 0 <= i < |r.value| ==> r.value[i].1 == 0
    ensures r.Some? ==> forall i :: 0 <= i < |r.value| ==>
      RegAt(data, r.value[i], 4 * addressCells, ChunkOffset(4 * (addressCells + sizeCells), i), 4 * (addressCells + sizeCells))
  {
    match RegListRaw(data, addressCells, sizeCells)
    case None => None
    case Some(ps) =>
      RegChunks(ps, addressCells, sizeCells);
      RegValuesAt(ps, addressCells, sizeCells);
      Some(RegValues(ps))
  }

  /** Each value read by `reg_list` is the big-endian number in its part of its chunk. */
  lemma RegValuesAt(ps: seq<(seq<byte>, seq<byte>)>, addressCells: nat, sizeCells: nat)
    requires Shaped(ps, 4 * addressCells, 4 * sizeCells) && forall p <- ps :: |p.0| <= 8 && |p.1| <= 8
    ensures forall i :: 0 <= i < |ps| ==> RegAt(JoinPairs(ps), RegValues(ps)[i], 4 * addressCells, ChunkOffset(4 * (addressCells + sizeCells), i), 4 * (addressCells + sizeCells))
  {
    forall i | 0 <= i < |ps|
      ensures RegAt(JoinPairs(ps), RegValues(ps)[i], 4 * addressCells, ChunkOffset(4 * (addressCells + sizeCells), i), 4 * (addressCells + sizeCells))
    {
      RegValueOf(ps, addressCells, sizeCells, i);
    }
  }

  /** The pair at index `i`, for `RegValuesAt`. */
  lemma RegValueOf(ps: seq<(seq<byte>, seq<byte>)>, addressCells: nat, sizeCells: nat, i: nat)
    requires Shaped(ps, 4 * addressCells, 4 * sizeCells) && forall p <- ps :: |p.0| <= 8 && |p.1| <= 8
    requires i < |ps|
    ensures RegAt(JoinPairs(ps), RegValues(ps)[i], 4 * addressCells, ChunkOffset(4 * (addressCells + sizeCells), i), 4 * (addressCells + sizeCells))
  {
    var k := 4 * (addressCells + sizeCells);
    JoinPairsAt(ps, 4 * addressCells, 4 * sizeCells, k, i);
    var data, at := JoinPairs(ps), ChunkOffset(k, i);
    var address, size := data[at..at + 4 * addressCells], data[at + 4 * addressCells..at + k];
    assert address == ps[i].0 && size == ps[i].1;
    assert RegValues(ps)[i] == (BeValue(address), BeValue(size));
  }

  /**
   * `v` is the pair of big-endian numbers held by the `k` bytes of `data` at
   * `at`: the first `a` bytes, then the rest.
   */
  predicate RegAt(data: seq<byte>, v: (nat, nat), a: nat, at: nat, k: nat)
  {
    a <= k && at + k <= |data| && v.0 == BeValue(data[at..at + a]) && v.1 == BeValue(data[at + a..at + k])
  }

  /** The byte offset of the `i`-th chunk of `k` bytes: `k` added up `i` times. */
  function ChunkOffset(k: nat, i: nat): nat
  {
    if i == 0 then 0 else ChunkOffset(k, i - 1) + k
  }

  lemma {:induction false} ChunkOffsetIsProduct(k: nat, i: nat)
    ensures ChunkOffset(k, i) == k * i
  {
    if i > 0 {
      ChunkOffsetIsProduct(k, i - 1);
      assert k * i == k * (i - 1) + k;
    }
  }

  /** `data` holds the pair `p` at byte `at`, its first part `a` bytes long and both `k` bytes long. */
  predicate PairAt(data: seq<byte>, p: (seq<byte>, seq<byte>), a: nat, at: nat, k: nat)
  {
    a <= k && at + k <= |data| && data[at..at + a] == p.0 && data[at + a..at + k] == p.1
  }

  /** The `i`-th pair sits `i` pair sizes into the concatenation. */
  lemma {:induction false} JoinPairsAt(ps: seq<(seq<byte>, seq<byte>)>, a: nat, s: nat, k: nat, i: nat)
    requires Shaped(ps, a, s) && k == a + s && i < |ps|
    ensures PairAt(JoinPairs(ps), ps[i], a, ChunkOffset(k, i), k)
    decreases i
  {
    var head := ps[0].0 + ps[0].1;
    var tail := JoinPairs(ps[1..]);
    assert JoinPairs(ps) == head + tail;
    if i == 0 {
      assert (head + tail)[..a] == ps[0].0;
      assert (head + tail)[a..a + s] == ps[0].1;
    } else {
      assert Shaped(ps[1..], a, s) by {
        forall j | 0 <= j < |ps[1..]| ensures |ps[1..][j].0| == a && |ps[1..][j].1| == s {
          assert ps[1..][j] == ps[j + 1];
        }
      }
      JoinPairsAt(ps[1..], a, s, k, i - 1);
      assert ps[1..][i - 1] == ps[i];
      PairAtShift(head, tail, ps[i], a, ChunkOffset(k, i - 1), k);
    }
  }

  /** A pair found in `tail` is found again, shifted, after `head`. */
  lemma PairAtShift(head: seq<byte>, tail: seq<byte>, p: (seq<byte>, seq<byte>), a: nat, at: nat, k: nat)
    requires PairAt(tail, p, a, at, k)
    ensures PairAt(head + tail, p, a, |head| + at, k)
  {
    assert (head + tail)[|head| + at..|head| + at + a] == tail[at..at + a];
    assert (head + tail)[|head| + at + a..|head| + at + k] == tail[at + a..at + k];
  }

  /** Pairs of `reg` cells: one per chunk, each half at most eight bytes. */
  lemma RegChunks(ps: seq<(seq<byte>, seq<byte>)>, addressCells: nat, sizeCells: nat)
    requires RegCells(addressCells, sizeCells) && Shaped(ps, 4 * addressCells, 4 * sizeCells)
    ensures |ps| == |JoinPairs(ps)| / (4 * (addressCells + sizeCells))
    ensures forall p <- ps :: |p.0| <= 8 && |p.1| <= 8
  {
    var k := 4 * (addressCells + sizeCells);
    JoinPairsLength(ps, 4 * addressCells, 4 * sizeCells);
    assert |ps| * (4 * addressCells + 4 * sizeCells) == k * |ps|;
    MultipleMod(|ps|, k);
    assert forall i :: 0 <= i < |ps| ==> ps[i] in ps;
  }

  /** An empty `reg` value is an empty list of regions. */
  lemma RegListOfEmpty(addressCells: nat, sizeCells: nat)
    requires RegCells(addressCells, sizeCells)
    ensures RegList([], addressCells, sizeCells) == Some([])
  {
    assert SplitRegs([], addressCells, sizeCells) == [];
  }

  /** The `reg` encoding of `(address, size)` pairs with the given cell counts. */
  function EncodeRegs(regs: seq<(nat, nat)>, addressCells: nat, sizeCells: nat): (r: seq<(seq<byte>, seq<byte>)>)
    ensures |r| == |regs|
    ensures Shaped(r, 4 * addressCells, 4 * sizeCells)
  {
    if regs == [] then []
    else [(BeBytes(regs[0].0, 4 * addressCells), BeBytes(regs[0].1, 4 * sizeCells))] + EncodeRegs(regs[1..], addressCells, sizeCells)
  }

  /** The pairs fit their cells. */
  predicate RegsFit(regs: seq<(nat, nat)>, addressCells: nat, sizeCells: nat)
  {
    forall reg <- regs :: reg.0 < Pow256(4 * addressCells) && reg.1 < Pow256(4 * sizeCells)
  }

  lemma {:induction false} EncodeRegsValues(regs: seq<(nat, nat)>, addressCells: nat, sizeCells: nat)
    requires RegCells(addressCells, sizeCells) && RegsFit(regs, addressCells, sizeCells)
    ensures RegValues(EncodeRegs(regs, addressCells, sizeCells)) == regs
  {
    var ps := EncodeRegs(regs, addressCells, sizeCells);
    forall i | 0 <= i < |regs|
      ensures ps[i] == (BeBytes(regs[i].0, 4 * addressCells), BeBytes(regs[i].1, 4 * sizeCells))
    {
      EncodeRegsAt(regs, addressCells, sizeCells, i);
    }
    forall i | 0 <= i < |regs|
      ensures RegValues(ps)[i] == regs[i]
    {
      assert regs[i] in regs;
      BeRoundTrip(regs[i].0, 4 * addressCells);
      BeRoundTrip(regs[i].1, 4 * sizeCells);
    }
  }

  lemma {:induction false} EncodeRegsAt(regs: seq<(nat, nat)>, addressCells: nat, sizeCells: nat, i: nat)
    requires i < |regs|
    ensures EncodeRegs(regs, addressCells, sizeCells)[i] == (BeBytes(regs[i].0, 4 * addressCells), BeBytes(regs[i].1, 4 * sizeCells))
  {
    if i > 0 {
      EncodeRegsAt(regs[1..], addressCells, sizeCells, i - 1);
    }
  }

  /** `reg_list` reads back every list of pairs that fits the cells. */
  lemma RegListRoundTrip(regs: seq<(nat, nat)>, addressCells: nat, sizeCells: nat)
    requires RegCells(addressCells, sizeCells) && RegsFit(regs, addressCells, sizeCells)
    ensures RegList(JoinPairs(EncodeRegs(regs, addressCells, sizeCells)), addressCells, sizeCells) == Some(regs)
  {
    var ps := EncodeRegs(regs, addressCells, sizeCells);
    SplitJoinPairs(ps, addressCells, sizeCells);
    EncodeRegsValues(regs, addressCells, sizeCells);
  }

  /**
   * The example of `reg_list`'s documentation: 2 GiB at 0 and 4 GiB at
   * 4 GiB, with two address and two size cells.
   */
  lemma RegListExample(regs: seq<(nat, nat)>)
    requires regs == [(0, 0x8000_0000), (0x1_0000_0000, 0x1_0000_0000)]
    ensures RegList(JoinPairs(EncodeRegs(regs, 2, 2)), 2, 2) == Some(regs)
  {
    assert Pow256(8) == 0x1_0000_0000_0000_0000;
    RegListRoundTrip(regs, 2, 2);
  }

  /**
   * The bytes of that example, as the documentation writes them (`cells` is
   * 2): address, size, address, size, eight bytes each.
   */
  lemma RegListExampleBytes(regs: seq<(nat, nat)>, cells: nat)
    requires regs == [(0, 0x8000_0000), (0x1_0000_0000, 0x1_0000_0000)] && cells == 2
    ensures JoinPairs(EncodeRegs(regs, cells, cells)) ==
      [0, 0, 0, 0, 0, 0, 0, 0] + [0, 0, 0, 0, 0x80, 0, 0, 0] + [0, 0, 0, 1, 0, 0, 0, 0] + [0, 0, 0, 1, 0, 0, 0, 0]
  {
    TwoRegsBytes(regs, cells, cells);
    ExampleCells(cells);
  }

  lemma TwoRegsBytes(regs: seq<(nat, nat)>, addressCells: nat, sizeCells: nat)
    requires |regs| == 2
    ensures JoinPairs(EncodeRegs(regs, addressCells, sizeCells)) ==
      BeBytes(regs[0].0, 4 * addressCells) + BeBytes(regs[0].1, 4 * sizeCells)
      + BeBytes(regs[1].0, 4 * addressCells) + BeBytes(regs[1].1, 4 * sizeCells)
  {
    var ps := EncodeRegs(regs, addressCells, sizeCells);
    EncodeRegsAt(regs, addressCells, sizeCells, 0);
    EncodeRegsAt(regs, addressCells, sizeCells, 1);
    assert JoinPairs(ps[1..]) == ps[1].0 + ps[1].1 + JoinPairs([]);
  }

  lemma ExampleCells(cells: nat)
    requires cells == 2
    ensures BeBytes(0, 4 * cells) == [0, 0, 0, 0, 0, 0, 0, 0]
    ensures BeBytes(0x8000_0000, 4 * cells) == [0, 0, 0, 0, 0x80, 0, 0, 0]
    ensures BeBytes(0x1_0000_0000, 4 * cells) == [0, 0, 0, 1, 0, 0, 0, 0]
  {
    assert Pow256(3) == 0x100_0000 && Pow256(4) == 0x1_0000_0000;
    ZeroBytes(8);
    BeBytesShift(0x80, 8, 3);
    BeBytesShift(1, 8, 4);
    assert Zeros(3) == [0, 0, 0] && Zeros(4) == [0, 0, 0, 0];
  }

  /** Zero is written as `n` zero bytes. */
  lemma {:induction false} ZeroBytes(n: nat)
    ensures BeBytes(0, n) == Zeros(n)
  {
    if n > 0 {
      ZeroBytes(n - 1);
    }
  }

  /** A value below 256 shifted up by `k` whole bytes. */
  lemma {:induction false} BeBytesShift(b: nat, n: nat, k: nat)
    requires 0 < b < 256 && k < n
    ensures BeBytes(b * Pow256(k), n) == Zeros(n - k - 1) + [b] + Zeros(k)
  {
    if k == 0 {
      assert BeBytes(b, n) == BeBytes(0, n - 1) + [b];
      ZeroBytes(n - 1);
    } else {
      assert (b * Pow256(k)) / 256 == b * Pow256(k - 1) && (b * Pow256(k)) % 256 == 0 by {
        assert b * Pow256(k) == 256 * (b * Pow256(k - 1));
      }
      BeBytesShift(b, n - 1, k - 1);
      assert Zeros(k) == Zeros(k - 1) + [0];
    }
  }

  // ---------------------------------------------------------------------
  // status

  /** The value of the standard property `status`. */
  datatype Status =
    | Okay
    | Disabled
    | Reserved
    /** `fail`, or `fail-` followed by a reason. */
    | Fail(reason: Option<seq<byte>>)
  {
    /** `Status::is_okay`: the status written as `okay`. */
    predicate IsOkay()
      ensures IsOkay() <==> StatusText(this) == OKAY
    {
      Keywords();
      assert Fail? && reason.Some? ==> StatusText(this)[0] == FAIL[0];
      this == Okay
    }
  }

  const OKAY: seq<byte> := Ascii("okay")
  const DISABLED: seq<byte> := Ascii("disabled")
  const RESERVED: seq<byte> := Ascii("reserved")
  const FAIL: seq<byte> := Ascii("fail")
  const FAIL_PREFIX: seq<byte> := Ascii("fail-")

  /** `Status::from_bytes`: the `<string>` value matched against the four keywords, `fail-` by prefix. */
  function StatusFromBytes(data: seq<byte>): (r: Option<Status>)
    ensures r.Some? ==> String(data).Some?
  {
    match String(data)
    case None => None
    case Some(s) =>
      if s == OKAY then Some(Okay)
      else if s == DISABLED then Some(Disabled)
      else if s == RESERVED then Some(Reserved)
      else if s == FAIL then Some(Status.Fail(None))
      else if |s| >= |FAIL_PREFIX| && s[..|FAIL_PREFIX|] == FAIL_PREFIX then Some(Status.Fail(Some(s[|FAIL_PREFIX|..])))
      else None
  }

  /** The `<string>` text of a status, without its NUL. */
  function StatusText(st: Status): seq<byte>
  {
    match st
    case Okay => OKAY
    case Disabled => DISABLED
    case Reserved => RESERVED
    case Fail(None) => FAIL
    case Fail(Some(reason)) => FAIL_PREFIX + reason
  }

  /** A status whose reason holds no NUL, so that it can be written as a `<string>`. */
  predicate Writable(st: Status)
  {
    st.Fail? && st.reason.Some? ==> 0 !in st.reason.value
  }

  lemma Keywords()
    ensures 0 !in OKAY && 0 !in DISABLED && 0 !in RESERVED && 0 !in FAIL && 0 !in FAIL_PREFIX
    ensures |OKAY| == 4 && |DISABLED| == 8 && |RESERVED| == 8 && |FAIL| == 4 && |FAIL_PREFIX| == 5
    ensures OKAY[0] == 0x6f && DISABLED[0] == 0x64 && RESERVED[0] == 0x72 && FAIL[0] == 0x66
    ensures FAIL_PREFIX[..4] == FAIL && FAIL_PREFIX[4] == 0x2d
  {
  }

  /** Writing a status and parsing it gives the status back. */
  lemma StatusRoundTrip(st: Status)
    requires Writable(st)
    ensures StatusFromBytes(StatusText(st) + [0]) == Some(st)
  {
    Keywords();
    var text := StatusText(st);
    if st.Fail? && st.reason.Some? {
      var reason := st.reason.value;
      assert text[..5] == FAIL_PREFIX && text[5..] == reason;
      assert text[0] == FAIL[0];
      assert 0 !in text by {
        forall k | 0 <= k < |text| ensures text[k] != 0 {
          if k < 5 {
            assert text[k] == FAIL_PREFIX[k];
          } else {
            assert text[k] == reason[k - 5];
          }
        }
      }
    }
    StringOf(text);
  }

  /** Parsing succeeds only on the written form of the status it returns. */
  lemma StatusFromBytesExact(data: seq<byte>)
    requires StatusFromBytes(data).Some?
    ensures data == StatusText(StatusFromBytes(data).value) + [0]
    ensures Writable(StatusFromBytes(data).value)
  {
    var s := String(data).value;
    if StatusFromBytes(data).value.Fail? && StatusFromBytes(data).value.reason.Some? {
      assert s == s[..5] + s[5..];
      assert forall b <- s[5..] :: b in s;
    }
  }

  /** `is_okay` holds for the value `okay` and for no other. */
  lemma OnlyOkayIsOkay(data: seq<byte>)
    requires StatusFromBytes(data).Some?
    ensures StatusFromBytes(data).value.IsOkay() <==> data == OKAY + [0]
  {
    StatusFromBytesExact(data);
    Keywords();
    StringOf(OKAY);
  }
}
