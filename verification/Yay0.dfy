/** The Yay0 codec of docs/gc-font-tool.cpp: an LZ77 compressor over three streams (mask bits, two-byte
    links, chunks) and its decompressor. */
module Yay0 {
  import opened Radix

  const WIDTH32: nat := 0x1_0000_0000
  const WINDOW: nat := 0x1000
  const MAX_LINK_LEN: nat := 255 + 18

  datatype Result = Ok(bytes: seq<Byte>) | Error

  // ------------------------------------------------------------------- mask bits

  /** Bit k of a byte, the most significant first. */
  predicate Bit(b: Byte, k: int)
    requires 0 <= k < 8
  {
    b / Pow2(7 - k) % 2 == 1
  }

  /** Bytes that carry bits, padded with zeros. */
  ghost predicate Carries(data: seq<Byte>, bits: seq<bool>) {
    && |data| == (|bits| + 7) / 8
    && (forall i :: 0 <= i < |bits| ==> Bit(data[i / 8], i % 8) == bits[i])
    && (|bits| % 8 != 0 ==> data[|data| - 1] % Pow2(8 - |bits| % 8) == 0)
  }

  /** Adding less than 2^m to a multiple of 2^m leaves the higher bits. */
  lemma HigherBits(b: nat, r: nat, m: nat, j: nat)
    requires b % Pow2(m) == 0 && r < Pow2(m)
    ensures (b + r) / Pow2(m + j) == b / Pow2(m + j)
  {
    Pow2Add(m, j);
    DivDiv(b + r, Pow2(m), Pow2(j));
    DivDiv(b, Pow2(m), Pow2(j));
    var q := b / Pow2(m);
    QuotientIs(b + r, Pow2(m), q, r);
  }

  /** b with bit k, still clear, given the value v: adding is or-ing here. */
  function WithBit(b: Byte, k: int, v: bool): nat
    requires 0 <= k < 8
  {
    b + if v then Pow2(7 - k) else 0
  }

  /** The bit itself, and the ones below it. */
  lemma SetBit(b: Byte, k: int, v: bool)
    requires 0 <= k < 8 && b % Pow2(8 - k) == 0
    ensures WithBit(b, k, v) / Pow2(7 - k) % 2 == (if v then 1 else 0) && WithBit(b, k, v) % Pow2(7 - k) == 0
  {
    hide Pow2, WithBit;
    var m := 7 - k;
    var q := b / Pow2(m + 1);
    Pow2Double(m);
    TwiceTimes(Pow2(m), q);
    assert b == 2 * Pow2(m) * q;
    WithBitIs(b, k, v);
    QuotientIs(WithBit(b, k, v), Pow2(m), 2 * q + (if v then 1 else 0), 0);
  }

  lemma WithBitIs(b: Byte, k: int, v: bool)
    requires 0 <= k < 8
    ensures WithBit(b, k, v) == b + if v then Pow2(7 - k) else 0
  {
  }

  lemma TwiceTimes(d: int, q: int)
    ensures 2 * d * q == d * (2 * q) && d * (2 * q + 1) == d * (2 * q) + d
  {
  }

  /** The bits above it, and the size. */
  lemma KeepBits(b: Byte, k: int, v: bool)
    requires 0 <= k < 8 && b % Pow2(8 - k) == 0
    ensures WithBit(b, k, v) < 256
    ensures forall j :: 0 <= j < k ==> Bit(WithBit(b, k, v), j) == Bit(b, j)
  {
    var m := 7 - k;
    var d := WithBit(b, k, v) - b;
    Pow2Double(m);
    Pow2Of8();
    hide Pow2;
    HigherBits(b, d, m + 1, k);
    assert m + 1 + k == 8;
    assert (b + d) / 256 == b / 256 == 0;
    forall j | 0 <= j < k
      ensures Bit(WithBit(b, k, v), j) == Bit(b, j)
    {
      HigherBits(b, d, m + 1, k - 1 - j);
    }
  }

  /** The bytes after one more bit. */
  lemma CarriesMore(data: seq<Byte>, bits: seq<bool>, bit: bool)
    requires Carries(data, bits)
    ensures var d := if |bits| % 8 == 0 then data + [0] else data;
            var k := |bits| % 8;
            && |d| > 0 && WithBit(d[|d| - 1], k, bit) < 256 && |d| == |bits| / 8 + 1
            && Carries(d[|d| - 1 := WithBit(d[|d| - 1], k, bit)], bits + [bit])
  {
    var d := if |bits| % 8 == 0 then data + [0] else data;
    var k, n := |bits| % 8, |bits| / 8;
    assert |d| == n + 1;
    hide Pow2;
    ZeroModulo(Pow2(8 - k));
    SetBit(d[n], k, bit);
    KeepBits(d[n], k, bit);
    var e := d[n := WithBit(d[n], k, bit)];
    forall i | 0 <= i <= |bits|
      ensures Bit(e[i / 8], i % 8) == (bits + [bit])[i]
    {
      if i / 8 == n && i < |bits| {
        assert i % 8 < k;
      }
    }
    assert k == 7 || (8 - (|bits| + 1) % 8) == 7 - k;
  }

  lemma ZeroModulo(d: int)
    requires d > 0
    ensures 0 % d == 0
  {
  }

  /** mask_vector_writer. */
  class MaskWriter {
    var data: seq<Byte>
    var nextOffset: int
    ghost var bits: seq<bool>

    constructor ()
      ensures Valid() && bits == []
    {
      data, nextOffset, bits := [], -1, [];
    }

    ghost predicate Valid()
      reads this
    {
      Carries(data, bits) && nextOffset == 8 * |data| - |bits| - 1
    }

    /** Appends one bit, in a new byte when the last one is full. */
    method PushBack(bit: bool)
      requires Valid()
      modifies this
      ensures Valid() && bits == old(bits) + [bit]
    {
      hide Pow2, Bit, Carries, WithBit;
      CarriesMore(data, bits, bit);
      if nextOffset < 0 {
        data := data + [0];
        nextOffset := 7;
      }
      data := data[|data| - 1 := WithBit(data[|data| - 1], 7 - nextOffset, bit)];
      nextOffset := nextOffset - 1;
      bits := bits + [bit];
    }
  }

  /** mask_vector_reader. */
  class MaskReader {
    const input: seq<Byte>
    ghost const start: nat
    var offset: nat
    var nextBit: nat
    ghost var count: nat

    constructor (input: seq<Byte>, offset: nat)
      ensures Valid() && this.input == input && start == offset && count == 0
    {
      this.input, this.offset, start, nextBit, count := input, offset, offset, 0, 0;
    }

    ghost predicate Valid()
      reads this
    {
      nextBit <= 8 && 8 * offset + nextBit == 8 * start + count
    }

    /** Takes the next bit; not ok when the input has no more bytes. */
    method PopFront() returns (ok: bool, value: bool)
      requires Valid()
      modifies this
      ensures Valid() && count == old(count) + 1
      ensures ok == (start + old(count) / 8 < |input|)
      ensures ok ==> value == Bit(input[start + old(count) / 8], old(count) % 8)
    {
      hide Bit;
      if nextBit == 8 {
        nextBit := 0;
        offset := offset + 1;
      }
      assert offset == start + count / 8 && nextBit == count % 8;
      ok := offset < |input|;
      value := ok && Bit(input[offset], nextBit);
      nextBit := nextBit + 1;
      count := count + 1;
    }
  }

  // ------------------------------------------------------------------ byte order

  function ReadBe16(input: seq<Byte>, o: nat): nat
    requires o + 2 <= |input|
  {
    0x100 * (input[o] as int) + input[o + 1]
  }

  function ReadBe32(input: seq<Byte>, o: nat): nat
    requires o + 4 <= |input|
  {
    0x1_0000 * ReadBe16(input, o) + ReadBe16(input, o + 2)
  }

  /** The bytes write_be16 appends for a value cut to 16 bits. */
  function Be16(v: nat): seq<Byte> {
    [v / 0x100 % 0x100, v % 0x100]
  }

  /** The bytes write_be32 appends for a value cut to 32 bits. */
  function Be32(v: nat): seq<Byte> {
    Be16(v / 0x1_0000) + Be16(v)
  }

  lemma Be16Read(s: seq<Byte>, o: nat, v: nat)
    requires o + 2 <= |s| && s[o] == Be16(v)[0] && s[o + 1] == Be16(v)[1]
    ensures ReadBe16(s, o) == v % 0x1_0000
  {
    WordBytes(v);
  }

  lemma Be32Read(s: seq<Byte>, o: nat, v: nat)
    requires o + 4 <= |s| && s[o..o + 4] == Be32(v)
    ensures ReadBe32(s, o) == v % WIDTH32
  {
    var t := s[o..o + 4];
    assert s[o] == t[0] && s[o + 1] == t[1] && s[o + 2] == t[2] && s[o + 3] == t[3];
    assert t[0] == Be16(v / 0x1_0000)[0] && t[1] == Be16(v / 0x1_0000)[1] && t[2] == Be16(v)[0] && t[3] == Be16(v)[1];
    hide Be16, ReadBe16;
    Be16Read(s, o, v / 0x1_0000);
    Be16Read(s, o + 2, v);
    SplitWord(v);
  }

  lemma SplitWord(v: nat)
    ensures v % WIDTH32 == 0x1_0000 * (v / 0x1_0000 % 0x1_0000) + v % 0x1_0000
  {
  }

  // ------------------------------------------------------------------ what is found

  /** The n bytes from pos on repeat those off earlier; the two runs may overlap. */
  ghost predicate Matches(x: seq<Byte>, pos: int, off: int, n: int) {
    0 <= n && 1 <= off <= pos && pos + n <= |x| && forall i :: pos <= i < pos + n ==> x[i - off] == x[i]
  }

  /** The comparison stops here at the latest. */
  function Cap(x: seq<Byte>, pos: nat): (c: int)
    requires pos < |x|
    ensures c > 0
  {
    if |x| - pos < MAX_LINK_LEN + 1 then |x| - pos else MAX_LINK_LEN + 1
  }

  /** No match in the window is longer than n, those that run into the limit not counted. */
  ghost predicate NoneLonger(x: seq<Byte>, pos: nat, last: nat, n: nat)
    requires pos < |x|
  {
    forall off, m :: off <= last && Matches(x, pos, off, m) && m < Cap(x, pos) ==> m <= n
  }

  /** The comparison loop for one offset. */
  method Compare(x: seq<Byte>, pos: nat, off: nat) returns (count: nat, reached: bool)
    requires pos < |x| && 1 <= off <= pos
    ensures Matches(x, pos, off, count) && count <= Cap(x, pos) && (reached <==> count == Cap(x, pos))
    ensures forall m :: Matches(x, pos, off, m) && m <= Cap(x, pos) ==> m <= count
  {
    count, reached := 0, false;
    while x[pos - off + count] == x[pos + count]
      invariant Matches(x, pos, off, count) && count < Cap(x, pos)
      decreases |x| - count
    {
      count := count + 1;
      if count > MAX_LINK_LEN || pos + count >= |x| {
        reached := true;
        break;
      }
    }
  }

  /** The search of the last 4096 bytes: a longest match below the limit. */
  method Search(x: seq<Byte>, pos: nat) returns (count: nat, off: nat)
    requires pos < |x|
    ensures count < Cap(x, pos) && (count > 0 ==> off <= WINDOW && Matches(x, pos, off, count))
    ensures NoneLonger(x, pos, WINDOW, count)
  {
    count, off := 0, 0;
    var offset := 1;
    while offset <= WINDOW && offset <= pos
      invariant 1 <= offset
      invariant count < Cap(x, pos) && (count > 0 ==> off <= WINDOW && Matches(x, pos, off, count))
      invariant NoneLonger(x, pos, offset - 1, count)
    {
      var n, reached := Compare(x, pos, offset);
      if reached {
        count, off := n - 1, offset;
        return;
      }
      if n > count {
        count, off := n, offset;
      }
      offset := offset + 1;
    }
  }

  // ----------------------------------------------------------------------- items

  /** One step of the decoder: a byte of its own, or a run of earlier ones. */
  datatype Step = Chunk(b: Byte) | Link(off: nat, count: nat)

  type Item = it: Step | it.Chunk? || (1 <= it.off <= WINDOW && 3 <= it.count <= MAX_LINK_LEN) witness Chunk(0)

  function Size(it: Item): nat {
    match it
    case Chunk(_) => 1
    case Link(_, count) => count
  }

  function End(items: seq<Item>): nat {
    if items == [] then 0 else End(items[..|items| - 1]) + Size(items[|items| - 1])
  }

  /** An item the greedy search gives at pos: a link of at least three bytes as long as any, or a byte
      when there is none. */
  ghost predicate Greedy(x: seq<Byte>, pos: nat, it: Item) {
    pos < |x| && match it
    case Chunk(b) => b == x[pos] && NoneLonger(x, pos, WINDOW, 2)
    case Link(off, count) => Matches(x, pos, off, count) && count < Cap(x, pos) && NoneLonger(x, pos, WINDOW, count)
  }

  /** The items cut x up from its beginning, greedily. */
  ghost predicate Parse(x: seq<Byte>, items: seq<Item>) {
    forall i :: 0 <= i < |items| ==> Greedy(x, End(items[..i]), items[i])
  }

  // the three streams

  function Masks(items: seq<Item>): (m: seq<bool>)
    ensures |m| == |items|
  {
    seq(|items|, i requires 0 <= i < |items| => items[i].Chunk?)
  }

  /** The two bytes of a link: length code and distance; a length of 18 or more goes to the chunks. */
  function LinkBytes(it: Item): seq<Byte> {
    match it
    case Chunk(_) => []
    case Link(off, count) => Be16((if count >= 18 then 0 else count - 2) * 0x1000 + (off - 1))
  }

  function ChunkBytes(it: Item): seq<Byte> {
    match it
    case Chunk(b) => [b]
    case Link(_, count) => if count >= 18 then [count - 18] else []
  }

  function Links(items: seq<Item>): seq<Byte> {
    if items == [] then [] else Links(items[..|items| - 1]) + LinkBytes(items[|items| - 1])
  }

  function Chunks(items: seq<Item>): seq<Byte> {
    if items == [] then [] else Chunks(items[..|items| - 1]) + ChunkBytes(items[|items| - 1])
  }

  function MaskSize(items: seq<Item>): nat {
    (|items| + 7) / 8
  }

  /** A Yay0 file: magic, three 32-bit numbers, then the masks, links and chunks. */
  ghost predicate Encodes(file: seq<Byte>, size: nat, items: seq<Item>) {
    var m, l, c := MaskSize(items), |Links(items)|, |Chunks(items)|;
    && |file| == 16 + m + l + c
    && file[..4] == [0x59, 0x61, 0x79, 0x30]
    && file[4..8] == Be32(size) && file[8..12] == Be32(16 + m) && file[12..16] == Be32(16 + m + l)
    && Carries(file[16..16 + m], Masks(items))
    && file[16 + m..16 + m + l] == Links(items) && file[16 + m + l..] == Chunks(items)
  }

  /** yay0_compress. */
  method Compress(x: seq<Byte>) returns (file: seq<Byte>, ghost items: seq<Item>)
    ensures Parse(x, items) && End(items) == |x|
    ensures Encodes(file, |x|, items)
  {
    hide Parse, Greedy, Links, Chunks, Masks, End, Encodes, Be16, Be32, NoneLonger, Matches, Cap, Carries, MaskSize;
    var pos := 0;
    var masks := new MaskWriter();
    var links, chunks: seq<Byte> := [], [];
    items := [];
    NoItems(x);
    while pos < |x|
      invariant fresh(masks) && masks.Valid() && pos <= |x|
      invariant Parse(x, items) && End(items) == pos
      invariant masks.bits == Masks(items) && links == Links(items) && chunks == Chunks(items)
    {
      var count, off := Search(x, pos);
      ghost var it := Found(x, pos, count, off);
      Appended(x, items, it);
      items := items + [it];
      if count >= 3 {
        var header := 0;
        if count >= 18 {
          chunks := chunks + [count - 18];
        } else {
          header := count - 2;
        }
        links := links + Be16(header * 0x1000 + (off - 1));
        masks.PushBack(false);
        pos := pos + count;
      } else {
        chunks := chunks + [x[pos]];
        masks.PushBack(true);
        pos := pos + 1;
      }
    }
    file := [0x59, 0x61, 0x79, 0x30];
    file := file + Be32(|x|);
    file := file + Be32(16 + |masks.data|);
    file := file + Be32(16 + |masks.data| + |links|);
    file := file + masks.data;
    file := file + links;
    file := file + chunks;
    Assembled(|x|, items, masks.data);
  }

  /** What the search found, as an item. */
  ghost function Found(x: seq<Byte>, pos: nat, count: nat, off: nat): (it: Item)
    requires pos < |x| && count < Cap(x, pos) && (count > 0 ==> off <= WINDOW && Matches(x, pos, off, count))
    requires NoneLonger(x, pos, WINDOW, count)
    ensures Greedy(x, pos, it) && it == if count >= 3 then Link(off, count) else Chunk(x[pos])
    ensures count >= 3 ==> off >= 1 && count <= MAX_LINK_LEN
  {
    if count >= 3 then Link(off, count) else Chunk(x[pos])
  }

  lemma NoItems(x: seq<Byte>)
    ensures Parse(x, []) && End([]) == 0 && Masks([]) == [] && Links([]) == [] && Chunks([]) == []
  {
  }

  lemma Assembled(size: nat, items: seq<Item>, data: seq<Byte>)
    requires Carries(data, Masks(items))
    ensures Encodes([0x59, 0x61, 0x79, 0x30] + Be32(size) + Be32(16 + |data|) + Be32(16 + |data| + |Links(items)|)
                    + data + Links(items) + Chunks(items), size, items)
  {
    Be32Length(size);
    Be32Length(16 + |data|);
    Be32Length(16 + |data| + |Links(items)|);
    MaskLength(items, data);
    hide Carries, Links, Chunks, Be32, Masks, MaskSize;
    Parts([0x59, 0x61, 0x79, 0x30], Be32(size), Be32(16 + |data|), Be32(16 + |data| + |Links(items)|), data,
        Links(items), Chunks(items));
  }

  lemma Be32Length(v: nat)
    ensures |Be32(v)| == 4
  {
  }

  lemma Parts(a: seq<Byte>, b: seq<Byte>, c: seq<Byte>, d: seq<Byte>, m: seq<Byte>, l: seq<Byte>, e: seq<Byte>)
    requires |a| == 4 && |b| == 4 && |c| == 4 && |d| == 4
    ensures var f := a + b + c + d + m + l + e;
            && |f| == 16 + |m| + |l| + |e|
            && f[..4] == a && f[4..8] == b && f[8..12] == c && f[12..16] == d && f[16..16 + |m|] == m
            && f[16 + |m|..16 + |m| + |l|] == l && f[16 + |m| + |l|..] == e
  {
    var h := a + b + c + d;
    assert |h| == 16 && h[..4] == a && h[4..8] == b && h[8..12] == c && h[12..16] == d;
    var f := h + m + l + e;
    assert f[..4] == h[..4] && f[4..8] == h[4..8] && f[8..12] == h[8..12] && f[12..16] == h[12..16];
  }

  lemma MaskLength(items: seq<Item>, data: seq<Byte>)
    requires Carries(data, Masks(items))
    ensures |data| == MaskSize(items)
  {
  }

  lemma Appended(x: seq<Byte>, items: seq<Item>, it: Item)
    requires Parse(x, items) && Greedy(x, End(items), it)
    ensures var more := items + [it];
            && Parse(x, more) && End(more) == End(items) + Size(it) && Masks(more) == Masks(items) + [it.Chunk?]
            && Links(more) == Links(items) + LinkBytes(it) && Chunks(more) == Chunks(items) + ChunkBytes(it)
  {
    var more := items + [it];
    assert more[..|more| - 1] == items;
    forall i | 0 <= i < |more|
      ensures Greedy(x, End(more[..i]), more[i])
    {
      if i < |items| {
        assert more[..i] == items[..i];
      }
    }
  }

  // --------------------------------------------------------------------- decoding

  /** out with n bytes appended, each the one off before it. */
  function Extended(out: seq<Byte>, off: nat, n: nat): (r: seq<Byte>)
    requires 1 <= off <= |out|
    ensures |r| == |out| + n && r[..|out|] == out
    decreases n
  {
    if n == 0 then out else Extended(out + [out[|out| - off]], off, n - 1)
  }

  /** Bits taken, the two running 32-bit offsets, the output so far. */
  datatype State = State(bit: nat, links: nat, chunks: nat, out: seq<Byte>) | Failed

  /** The length code of a link word. */
  function LengthCode(word: nat): nat {
    word / 0x1000
  }

  /** Its distance. */
  function Distance(word: nat): nat {
    word % 0x1000 + 1
  }

  /** A link's count: from the word, or when that says 0 from the chunks. */
  function LinkCount(input: seq<Byte>, word: nat, chunks: nat): (n: int)
    requires LengthCode(word) == 0 ==> chunks < |input|
    ensures n > 0
  {
    if LengthCode(word) == 0 then input[chunks] + 18 else LengthCode(word) + 2
  }

  /** 32-bit arithmetic. */
  function Wrap(v: nat): nat {
    v % WIDTH32
  }

  lemma NoWrap(v: nat)
    requires v < WIDTH32
    ensures Wrap(v) == v
  {
  }

  /** One round of the decoding loop. */
  function Round(input: seq<Byte>, s: State): (s': State)
    requires s.State?
    ensures s'.State? ==> |s'.out| > |s.out|
  {
    if 16 + s.bit / 8 >= |input| then Failed
    else if Bit(input[16 + s.bit / 8], s.bit % 8) then
      if s.chunks >= |input| then Failed
      else State(s.bit + 1, s.links, Wrap(s.chunks + 1), s.out + [input[s.chunks]])
    else if s.links + 2 > |input| then Failed
    else
      var word := ReadBe16(input, s.links);
      if LengthCode(word) == 0 && s.chunks >= |input| then Failed
      else if Distance(word) > |s.out| then Failed
      else State(s.bit + 1, Wrap(s.links + 2), if LengthCode(word) == 0 then Wrap(s.chunks + 1) else s.chunks,
                 Extended(s.out, Distance(word), LinkCount(input, word, s.chunks)))
  }

  /** The decoding loop from a state on. */
  function Replay(input: seq<Byte>, final: nat, s: State): Result
    decreases if s.State? then final - |s.out| else -1
  {
    if s.Failed? then Error
    else if |s.out| >= final then Ok(s.out)
    else Replay(input, final, Round(input, s))
  }

  function Decode(input: seq<Byte>): Result {
    if |input| < 16 || input[..4] != [0x59, 0x61, 0x79, 0x30] then Error
    else Replay(input, ReadBe32(input, 4), State(0, ReadBe32(input, 8), ReadBe32(input, 12), []))
  }

  /** The copying loop; it reads what it has just written when the distance is short. */
  method CopyBack(out: seq<Byte>, off: nat, count: nat) returns (result: seq<Byte>)
    requires 1 <= off <= |out|
    ensures result == Extended(out, off, count)
  {
    result := out;
    var i := 0;
    while i < count
      invariant i <= count && |result| == |out| + i && Extended(result, off, count - i) == Extended(out, off, count)
    {
      result := result + [result[|result| - off]];
      i := i + 1;
    }
  }

  /** yay0_decompress; every exception it throws is Error. */
  method Decompress(input: seq<Byte>) returns (r: Result)
    ensures r == Decode(input)
    ensures |input| < 16 || input[0] != 0x59 || input[1] != 0x61 || input[2] != 0x79 || input[3] != 0x30 ==> r == Error
  {
    hide Bit, ReadBe16, ReadBe32, Round, MaskReader.Valid;
    if |input| < 16 || input[..4] != [0x59, 0x61, 0x79, 0x30] {
      return Error;
    }
    var final: nat, links: nat, chunks: nat := ReadBe32(input, 4), ReadBe32(input, 8), ReadBe32(input, 12);
    var masks := new MaskReader(input, 16);
    var out: seq<Byte> := [];
    while |out| < final
      invariant fresh(masks) && masks.Valid() && masks.input == input && masks.start == 16
      invariant Replay(input, final, State(masks.count, links, chunks, out)) == Decode(input)
      decreases final - |out|
    {
      ghost var s := State(masks.count, links, chunks, out);
      var ok;
      ok, links, chunks, out := ReplayOne(input, masks, links, chunks, out);
      if !ok {
        return Error;
      }
    }
    return Ok(out);
  }

  /** The body of the loop. */
  method ReplayOne(input: seq<Byte>, masks: MaskReader, links0: nat, chunks0: nat, out0: seq<Byte>)
    returns (ok: bool, links: nat, chunks: nat, out: seq<Byte>)
    requires masks.Valid() && masks.input == input && masks.start == 16
    modifies masks
    ensures masks.Valid()
    ensures Round(input, State(old(masks.count), links0, chunks0, out0))
         == if ok then State(masks.count, links, chunks, out) else Failed
    ensures ok ==> |out| > |out0|
  {
    hide Bit, ReadBe16, Extended, MaskReader.Valid, Wrap;
    links, chunks, out := links0, chunks0, out0;
    var isChunk;
    ok, isChunk := masks.PopFront();
    if !ok {
      return;
    }
    if isChunk {
      if chunks >= |input| {
        return false, links, chunks, out;
      }
      out := out + [input[chunks]];
      chunks := Wrap(chunks + 1);
    } else {
      if links + 2 > |input| {
        return false, links, chunks, out;
      }
      var word := ReadBe16(input, links);
      links := Wrap(links + 2);
      var count: int := LengthCode(word) + 2;
      if count == 2 {
        if chunks >= |input| {
          return false, links, chunks, out;
        }
        count := (input[chunks] as int) + 18;
        chunks := Wrap(chunks + 1);
      }
      var off := Distance(word);
      if off > |out| {
        return false, links, chunks, out;
      }
      out := CopyBack(out, off, count);
    }
  }

  // -------------------------------------------------------------------- round trip

  lemma {:induction false} EndGrows(items: seq<Item>, i: nat)
    requires i < |items|
    ensures End(items[..i + 1]) == End(items[..i]) + Size(items[i]) && End(items[..i]) < End(items)
    decreases |items|
  {
    var n := |items| - 1;
    if i < n {
      EndGrows(items[..n], i);
      assert items[..n][..i] == items[..i] && items[..n][..i + 1] == items[..i + 1];
    } else {
      assert items[..i + 1] == items && items[..i + 1][..i] == items[..i];
    }
  }

  /** piece lies in whole at position o. */
  predicate LiesAt(whole: seq<Byte>, o: nat, piece: seq<Byte>) {
    o + |piece| <= |whole| && whole[o..o + |piece|] == piece
  }

  /** The bytes of item i among the links. */
  lemma {:induction false} LinksAt(items: seq<Item>, i: nat)
    requires i < |items|
    ensures LiesAt(Links(items), |Links(items[..i])|, LinkBytes(items[i]))
    ensures |Links(items[..i + 1])| == |Links(items[..i])| + |LinkBytes(items[i])|
    decreases |items|
  {
    hide LinkBytes;
    var n := |items| - 1;
    if i < n {
      LinksAt(items[..n], i);
      assert items[..n][..i] == items[..i] && items[..n][..i + 1] == items[..i + 1];
    } else {
      assert items[..i + 1] == items && items[..n] == items[..i];
    }
  }

  /** The bytes of item i among the chunks. */
  lemma {:induction false} ChunksAt(items: seq<Item>, i: nat)
    requires i < |items|
    ensures LiesAt(Chunks(items), |Chunks(items[..i])|, ChunkBytes(items[i]))
    ensures |Chunks(items[..i + 1])| == |Chunks(items[..i])| + |ChunkBytes(items[i])|
    decreases |items|
  {
    hide ChunkBytes;
    var n := |items| - 1;
    if i < n {
      ChunksAt(items[..n], i);
      assert items[..n][..i] == items[..i] && items[..n][..i + 1] == items[..i + 1];
    } else {
      assert items[..i + 1] == items && items[..n] == items[..i];
    }
  }

  lemma LiesInside(file: seq<Byte>, base: nat, whole: seq<Byte>, o: nat, piece: seq<Byte>)
    requires LiesAt(file, base, whole) && LiesAt(whole, o, piece)
    ensures LiesAt(file, base + o, piece)
  {
    forall i | 0 <= i < |piece|
      ensures file[base + o + i] == piece[i]
    {
      assert file[base + o + i] == file[base..base + |whole|][o + i];
      assert whole[o..o + |piece|][i] == whole[o + i];
    }
  }

  /** Copying back over a match yields the bytes of x, also where source and target overlap. */
  lemma {:induction false} ReplaysMatch(x: seq<Byte>, pos: nat, off: nat, n: nat)
    requires Matches(x, pos, off, n)
    ensures pos <= |x| && Extended(x[..pos], off, n) == x[..pos + n]
    decreases n
  {
    if n > 0 {
      assert x[..pos] + [x[pos - off]] == x[..pos + 1] by {
        assert x[pos - off] == x[pos];
      }
      ReplaysMatch(x, pos + 1, off, n - 1);
    }
  }

  /** The link word holds length code and distance apart. */
  lemma LinkWord(s: seq<Byte>, o: nat, it: Item)
    requires it.Link? && o + 2 <= |s| && s[o..o + 2] == LinkBytes(it)
    ensures LengthCode(ReadBe16(s, o)) == (if it.count >= 18 then 0 else it.count - 2) && Distance(ReadBe16(s, o)) == it.off
  {
    var v := (if it.count >= 18 then 0 else it.count - 2) * 0x1000 + (it.off - 1);
    var t := s[o..o + 2];
    assert s[o] == t[0] && s[o + 1] == t[1];
    hide Be16, ReadBe16;
    Be16Read(s, o, v);
  }

  /** The decoder after i items. */
  ghost function After(x: seq<Byte>, items: seq<Item>, i: nat): State
    requires i <= |items| && End(items[..i]) <= |x|
  {
    var l := 16 + MaskSize(items);
    State(i, Wrap(l + |Links(items[..i])|), Wrap(l + |Links(items)| + |Chunks(items[..i])|), x[..End(items[..i])])
  }

  /** Where the decoder finds the mask bit of item i. */
  lemma MaskInFile(file: seq<Byte>, size: nat, items: seq<Item>, i: nat)
    requires Encodes(file, size, items) && i < |items|
    ensures 16 + i / 8 < |file| && Bit(file[16 + i / 8], i % 8) == items[i].Chunk?
  {
    hide Bit, Be32, Links, Chunks;
    var m := MaskSize(items);
    assert file[16..16 + m][i / 8] == file[16 + i / 8];
    assert Masks(items)[i] == items[i].Chunk?;
  }

  /** Where it finds the other bytes of item i. */
  lemma ItemInFile(file: seq<Byte>, size: nat, items: seq<Item>, i: nat)
    requires Encodes(file, size, items) && i < |items|
    ensures var l := 16 + MaskSize(items);
            && LiesAt(file, l + |Links(items[..i])|, LinkBytes(items[i]))
            && LiesAt(file, l + |Links(items)| + |Chunks(items[..i])|, ChunkBytes(items[i]))
  {
    hide Carries, Masks, Be32, LinkBytes, ChunkBytes, Links, Chunks, MaskSize;
    var l := 16 + MaskSize(items);
    LinksAt(items, i);
    ChunksAt(items, i);
    assert LiesAt(file, l, Links(items));
    assert LiesAt(file, l + |Links(items)|, Chunks(items));
    LiesInside(file, l, Links(items), |Links(items[..i])|, LinkBytes(items[i]));
    LiesInside(file, l + |Links(items)|, Chunks(items), |Chunks(items[..i])|, ChunkBytes(items[i]));
  }

  lemma LiesByte(file: seq<Byte>, c: nat, b: Byte)
    requires LiesAt(file, c, [b])
    ensures c < |file| && file[c] == b
  {
    assert file[c] == file[c..c + 1][0];
  }

  /** Below n the decoder reads the right bytes with its 32-bit offset: where the offset has wrapped round
      it happens to find the same byte again. */
  ghost predicate Reads(file: seq<Byte>, n: nat) {
    forall k: nat :: k < n && k < |file| ==> Wrap(k) < |file| && file[Wrap(k)] == file[k]
  }

  /** As long as it does not wrap there is nothing to ask for. */
  lemma ReadsStraight(file: seq<Byte>, n: nat)
    requires n <= WIDTH32
    ensures Reads(file, n)
  {
  }

  lemma WrapOn(c: nat)
    ensures Wrap(Wrap(c) + 1) == Wrap(c + 1)
  {
  }

  /** One round of the decoder on a byte of its own. */
  lemma RoundChunk(file: seq<Byte>, x: seq<Byte>, pos: nat, bit: nat, l: nat, c: nat, b: Byte)
    requires Reads(file, c + 1) && pos < |x| && b == x[pos]
    requires 16 + bit / 8 < |file| && Bit(file[16 + bit / 8], bit % 8) && LiesAt(file, c, [b])
    ensures Round(file, State(bit, l, Wrap(c), x[..pos])) == State(bit + 1, l, Wrap(c + 1), x[..pos + 1])
  {
    LiesByte(file, c, b);
    assert Wrap(c) < |file| && file[Wrap(c)] == file[c];
    WrapOn(c);
    hide Bit, LiesAt, Wrap, Reads;
    assert x[..pos] + [b] == x[..pos + 1];
  }

  lemma MatchInside(x: seq<Byte>, pos: nat, off: nat, n: nat)
    requires Matches(x, pos, off, n)
    ensures pos + n <= |x| && 1 <= off <= pos
  {
  }

  lemma LinkAt(file: seq<Byte>, l: nat, it: Item)
    requires it.Link? && LiesAt(file, l, LinkBytes(it))
    ensures l + 2 <= |file|
    ensures LengthCode(ReadBe16(file, l)) == (if it.count >= 18 then 0 else it.count - 2) && Distance(ReadBe16(file, l)) == it.off
  {
    LinkWord(file, l, it);
  }

  /** A long link's count is read from the chunks; a short one leaves them alone. */
  lemma CountByte(file: seq<Byte>, c: nat, it: Item)
    requires it.Link? && LiesAt(file, c, ChunkBytes(it)) && Reads(file, c + |ChunkBytes(it)|)
    ensures it.count < 18 ==> |ChunkBytes(it)| == 0
    ensures it.count >= 18 ==>
            Wrap(c) < |file| && file[Wrap(c)] == it.count - 18 && Wrap(Wrap(c) + 1) == Wrap(c + |ChunkBytes(it)|)
  {
    if it.count >= 18 {
      LiesByte(file, c, it.count - 18);
      assert Wrap(c) < |file| && file[Wrap(c)] == file[c];
      WrapOn(c);
    }
  }

  /** One round on a link. */
  lemma RoundLink(file: seq<Byte>, x: seq<Byte>, pos: nat, bit: nat, l: nat, c: nat, it: Item)
    requires it.Link? && Matches(x, pos, it.off, it.count) && l < WIDTH32 && Reads(file, c + |ChunkBytes(it)|)
    requires 16 + bit / 8 < |file| && !Bit(file[16 + bit / 8], bit % 8)
    requires LiesAt(file, l, LinkBytes(it)) && LiesAt(file, c, ChunkBytes(it))
    ensures pos + it.count <= |x|
    ensures Round(file, State(bit, Wrap(l), Wrap(c), x[..pos]))
         == State(bit + 1, Wrap(l + 2), Wrap(c + |ChunkBytes(it)|), x[..pos + it.count])
  {
    hide ChunkBytes, Bit, ReadBe16, Extended, Be16, LiesAt, Wrap, LinkBytes, Matches, LengthCode, Distance, Reads;
    CountByte(file, c, it);
    LinkAt(file, l, it);
    NoWrap(l);
    MatchInside(x, pos, it.off, it.count);
    ReplaysMatch(x, pos, it.off, it.count);
  }

  lemma GreedyAt(x: seq<Byte>, items: seq<Item>, i: nat)
    requires Parse(x, items) && i < |items|
    ensures Greedy(x, End(items[..i]), items[i])
  {
  }

  /** The state after one more item. */
  lemma AfterNext(x: seq<Byte>, items: seq<Item>, i: nat)
    requires i < |items| && End(items) == |x|
    ensures End(items[..i]) + Size(items[i]) == End(items[..i + 1]) <= |x|
    ensures After(x, items, i + 1)
         == State(i + 1, Wrap(16 + MaskSize(items) + |Links(items[..i])| + |LinkBytes(items[i])|),
                  Wrap(16 + MaskSize(items) + |Links(items)| + |Chunks(items[..i])| + |ChunkBytes(items[i])|),
                  x[..End(items[..i]) + Size(items[i])])
  {
    hide Links, Chunks, End, MaskSize, Wrap, LiesAt, LinkBytes, ChunkBytes, Size;
    EndGrows(items, i);
    EndUpTo(items, i + 1);
    LinksAt(items, i);
    ChunksAt(items, i);
  }

  /** One item decoded, as long as the 32-bit offsets find its bytes. */
  lemma DecodesItem(file: seq<Byte>, x: seq<Byte>, items: seq<Item>, i: nat)
    requires Parse(x, items) && End(items) == |x| && Encodes(file, |x|, items) && i < |items|
    requires 16 + MaskSize(items) + |Links(items)| <= WIDTH32
    requires Reads(file, 16 + MaskSize(items) + |Links(items)| + |Chunks(items[..i + 1])|)
    ensures End(items[..i]) < End(items[..i + 1]) <= |x|
    ensures Round(file, After(x, items, i)) == After(x, items, i + 1)
  {
    hide Parse, Encodes, Links, Chunks, End, MaskSize, Round, Bit, NoneLonger, Cap, LiesAt, LinkBytes, Wrap, Matches,
        Carries, Reads;
    GreedyAt(x, items, i);
    AfterNext(x, items, i);
    MaskInFile(file, |x|, items, i);
    ItemInFile(file, |x|, items, i);
    LinkBytesLength(items[i]);
    LinksAt(items, i);
    ChunksAt(items, i);
    LiesLength(Links(items), |Links(items[..i])|, LinkBytes(items[i]));
    var l := 16 + MaskSize(items);
    var pos, lo, co := End(items[..i]), l + |Links(items[..i])|, l + |Links(items)| + |Chunks(items[..i])|;
    match items[i] {
      case Chunk(b) => RoundChunk(file, x, pos, i, Wrap(lo), co, b);
      case Link(off, count) => RoundLink(file, x, pos, i, lo, co, items[i]);
    }
  }

  lemma LiesLength(whole: seq<Byte>, o: nat, piece: seq<Byte>)
    requires LiesAt(whole, o, piece)
    ensures o + |piece| <= |whole|
  {
  }

  lemma LinkBytesLength(it: Item)
    ensures |LinkBytes(it)| == if it.Link? then 2 else 0
  {
  }

  lemma {:induction false} EndUpTo(items: seq<Item>, i: nat)
    requires i <= |items|
    ensures End(items[..i]) <= End(items)
    decreases |items| - i
  {
    if i < |items| {
      EndGrows(items, i);
    } else {
      assert items[..i] == items;
    }
  }

  lemma StreamSizes(file: seq<Byte>, x: seq<Byte>, items: seq<Item>)
    requires Encodes(file, |x|, items)
    ensures |file| == 16 + MaskSize(items) + |Links(items)| + |Chunks(items)|
  {
  }

  /** The links of an input below 4 GiB end below 2^32. */
  lemma LinksFit(x: seq<Byte>, items: seq<Item>)
    requires End(items) == |x| < WIDTH32
    ensures 16 + MaskSize(items) + |Links(items)| <= WIDTH32
  {
    LinkShare(items);
    hide Links, End;
  }

  /** A link takes two bytes and stands for three or more. */
  lemma {:induction false} LinkShare(items: seq<Item>)
    ensures |items| + |Links(items)| <= End(items) && |Links(items)| <= 2 * |items|
  {
    if items != [] {
      LinkShare(items[..|items| - 1]);
      LinkBytesLength(items[|items| - 1]);
      hide LinkBytes;
    }
  }

  lemma ReadsLess(file: seq<Byte>, m: nat, n: nat)
    requires Reads(file, n) && m <= n
    ensures Reads(file, m)
  {
  }

  lemma {:induction false} DecodesAll(file: seq<Byte>, x: seq<Byte>, items: seq<Item>, i: nat)
    requires Parse(x, items) && End(items) == |x| < WIDTH32 && Encodes(file, |x|, items) && i <= |items|
    requires Reads(file, |file|)
    ensures End(items[..i]) <= |x| && Replay(file, |x|, After(x, items, i)) == Ok(x)
    decreases |items| - i
  {
    hide Parse, Encodes, Round, Links, Chunks, MaskSize, LiesAt, Reads;
    EndUpTo(items, i);
    if i < |items| {
      ChunksAt(items, i);
      LiesLength(Chunks(items), |Chunks(items[..i])|, ChunkBytes(items[i]));
      StreamSizes(file, x, items);
      LinksFit(x, items);
      ReadsLess(file, 16 + MaskSize(items) + |Links(items)| + |Chunks(items[..i + 1])|, |file|);
      DecodesItem(file, x, items, i);
      DecodesAll(file, x, items, i + 1);
    } else {
      assert items[..i] == items && x[..|x|] == x;
    }
  }

  /** Every file the compressor makes of an input below 4 GiB decodes to that input, if every byte past
      2^32 equals the one 2^32 before it, so in particular if there is none. */
  lemma RoundTripWrapped(x: seq<Byte>, items: seq<Item>, file: seq<Byte>)
    requires Parse(x, items) && End(items) == |x| && Encodes(file, |x|, items)
    requires |x| < WIDTH32 && Reads(file, |file|)
    ensures Decode(file) == Ok(x)
  {
    hide Replay, Encodes, Parse, Links, Chunks, End, ReadBe32, Wrap, MaskSize, Reads;
    Header(file, |x|, items);
    NoWrap(|x|);
    DecodesAll(file, x, items, 0);
    NoItems(x);
    assert items[..0] == [] && x[..0] == [];
  }

  /** In particular if the file itself is no longer than 4 GiB. */
  lemma RoundTrip(x: seq<Byte>, items: seq<Item>, file: seq<Byte>)
    requires Parse(x, items) && End(items) == |x| && Encodes(file, |x|, items)
    requires |x| < WIDTH32 && |file| <= WIDTH32
    ensures Decode(file) == Ok(x)
  {
    ReadsStraight(file, |file|);
    RoundTripWrapped(x, items, file);
  }

  lemma Header(file: seq<Byte>, size: nat, items: seq<Item>)
    requires Encodes(file, size, items)
    ensures |file| >= 16 && file[..4] == [0x59, 0x61, 0x79, 0x30] && ReadBe32(file, 4) == Wrap(size)
    ensures ReadBe32(file, 8) == Wrap(16 + MaskSize(items))
    ensures ReadBe32(file, 12) == Wrap(16 + MaskSize(items) + |Links(items)|)
  {
    hide Be32, ReadBe32, Carries, Links, Chunks, Masks;
    Be32Read(file, 4, size);
    Be32Read(file, 8, 16 + MaskSize(items));
    Be32Read(file, 12, 16 + MaskSize(items) + |Links(items)|);
  }

  // --------------------------------------------------------- how large inputs may be

  /** Links and chunks together take no more bytes than they stand for. */
  lemma {:induction false} StreamBound(items: seq<Item>)
    ensures |items| <= End(items) && |Links(items)| + |Chunks(items)| <= End(items)
  {
    if items != [] {
      StreamBound(items[..|items| - 1]);
    }
  }

  /** A compressed file is at most one eighth longer than its input, and the header. */
  lemma FileBound(x: seq<Byte>, items: seq<Item>, file: seq<Byte>)
    requires End(items) == |x| && Encodes(file, |x|, items)
    ensures |file| <= 16 + (|x| + 7) / 8 + |x|
  {
    hide Carries, Be32, Links, Chunks, End;
    StreamBound(items);
  }

  /** So every input up to 3817748692 bytes survives the round trip. */
  lemma RoundTripUpTo(x: seq<Byte>, items: seq<Item>, file: seq<Byte>)
    requires Parse(x, items) && End(items) == |x| && Encodes(file, |x|, items)
    requires |x| <= 3817748692
    ensures Decode(file) == Ok(x)
  {
    hide Parse, Encodes, End;
    FileBound(x, items, file);
    RoundTrip(x, items, file);
  }

  /** What is decoded begins with what was decoded before, and overshoots by less than one link. */
  lemma {:induction false} ReplayGrows(input: seq<Byte>, final: nat, s: State)
    requires s.State?
    ensures var r := Replay(input, final, s);
            r.Ok? ==>
              && |s.out| <= |r.bytes| && r.bytes[..|s.out|] == s.out
              && (|s.out| < final + MAX_LINK_LEN ==> |r.bytes| < final + MAX_LINK_LEN)
    decreases final - |s.out|
  {
    if |s.out| < final {
      var s' := Round(input, s);
      if s'.State? {
        RoundGrows(input, s);
        hide Round;
        ReplayGrows(input, final, s');
        assert s'.out[..|s.out|] == s.out;
      }
    }
  }

  lemma RoundGrows(input: seq<Byte>, s: State)
    requires s.State? && Round(input, s).State?
    ensures var out := Round(input, s).out; |s.out| <= |out| <= |s.out| + MAX_LINK_LEN && out[..|s.out|] == s.out
  {
    hide Bit, Wrap;
  }

  lemma WrapLoses(n: nat)
    requires n >= WIDTH32
    ensures Wrap(n) + WIDTH32 <= n
  {
  }

  /** An input of 4 GiB or more never survives: its size is stored modulo 2^32. */
  lemma TooLong(x: seq<Byte>, items: seq<Item>, file: seq<Byte>)
    requires |x| >= WIDTH32 && Encodes(file, |x|, items)
    ensures Decode(file) != Ok(x)
  {
    hide Encodes, ReadBe32, Replay, Round, Wrap, MaskSize, Links;
    Header(file, |x|, items);
    WrapLoses(|x|);
    ReplayGrows(file, ReadBe32(file, 4), State(0, ReadBe32(file, 8), ReadBe32(file, 12), []));
  }

  // ------------------------------------- the decoder's own offset can pass 2^32 below that

  /** Byte i of an input without repetitions: triples count up in base 85. */
  function Counting(i: nat): Byte {
    var j := i / 3;
    if i % 3 == 0 then j % 85 else if i % 3 == 1 then 85 + j / 85 % 85 else 255
  }

  const HUGE: nat := 0xFFFF_FFFF

  ghost function HugeInput(): (x: seq<Byte>)
    ensures |x| == HUGE
  {
    seq(HUGE, i requires 0 <= i < HUGE => Counting(i))
  }

  /** Numbers a little apart differ in one of their two lowest digits. */
  lemma DigitsDiffer(j: nat, e: nat)
    requires 1 <= e <= j && e <= 1365
    ensures j % 85 != (j - e) % 85 || j / 85 % 85 != (j - e) / 85 % 85
  {
    var f := e / 85;
    assert e == 85 * f + e % 85;
    if e % 85 == 0 {
      assert (j - e) / 85 == j / 85 - f;
    }
  }

  lemma MarkAt(i: nat)
    ensures Counting(i) == 255 <==> i % 3 == 2
  {
  }

  lemma DigitsAt(j: nat)
    ensures Counting(3 * j) == j % 85 && Counting(3 * j + 1) == 85 + j / 85 % 85
  {
  }

  /** Three bytes from i on, and the three off before. */
  predicate SameTriple(i: nat, off: nat)
    requires off <= i
  {
    Counting(i) == Counting(i - off) && Counting(i + 1) == Counting(i + 1 - off)
        && Counting(i + 2) == Counting(i + 2 - off)
  }

  /** Only triples in step can be equal. */
  lemma InStep(i: nat, off: nat)
    requires off <= i && SameTriple(i, off)
    ensures off % 3 == 0
  {
    hide Counting;
    var t := 2 - i % 3;
    MarkAt(i + t);
    MarkAt(i + t - off);
    assert t == 0 || t == 1 || t == 2;
    assert Counting(i + t) == Counting(i + t - off);
    StepApart(i + t, off);
  }

  lemma StepApart(a: nat, off: nat)
    requires off <= a && a % 3 == 2 && (a - off) % 3 == 2
    ensures off % 3 == 0
  {
  }

  /** The number whose digits the triple holds. */
  lemma SameDigits(i: nat, e: nat) returns (j: nat)
    requires 3 * e <= i && SameTriple(i, 3 * e)
    ensures e <= j && j % 85 == (j - e) % 85 && j / 85 % 85 == (j - e) / 85 % 85
  {
    hide Counting;
    j := i / 3;
    assert i == 3 * j + i % 3;
    if i % 3 == 2 {
      j := j + 1;
    }
    DigitsAt(j);
    DigitsAt(j - e);
    if i % 3 == 1 {
      DigitsAt(j + 1);
      DigitsAt(j + 1 - e);
      assert (j + 1) % 85 == (j + 1 - e) % 85;
      OneBack(j, e);
    }
  }

  lemma OneBack(j: nat, e: nat)
    requires e <= j && (j + 1) % 85 == (j + 1 - e) % 85
    ensures j % 85 == (j - e) % 85
  {
  }

  /** No three bytes of it repeat within the window. */
  lemma NoTriple(i: nat, off: nat)
    requires 1 <= off <= i && off <= WINDOW
    ensures !SameTriple(i, off)
  {
    if SameTriple(i, off) {
      InStep(i, off);
      var e := off / 3;
      assert off == 3 * e;
      hide SameTriple;
      var j := SameDigits(i, e);
      DigitsDiffer(j, e);
    }
  }

  ghost function AllChunks(x: seq<Byte>): (items: seq<Item>)
    ensures |items| == |x|
  {
    seq(|x|, i requires 0 <= i < |x| => Chunk(x[i]))
  }

  lemma {:induction false} AllChunksStreams(x: seq<Byte>, n: nat)
    requires n <= |x|
    ensures var p := AllChunks(x)[..n]; End(p) == n && Links(p) == [] && Chunks(p) == x[..n]
    decreases n
  {
    if n > 0 {
      AllChunksStreams(x, n - 1);
      var p := AllChunks(x)[..n];
      assert p[..n - 1] == AllChunks(x)[..n - 1];
      assert x[..n] == x[..n - 1] + [x[n - 1]];
    }
  }

  lemma ShortOnly(i: nat, off: nat, m: nat)
    requires i < HUGE && off <= WINDOW && Matches(HugeInput(), i, off, m)
    ensures m <= 2
  {
    hide Counting;
    var x := HugeInput();
    if m > 2 {
      assert x[i - off] == x[i] && x[i + 1 - off] == x[i + 1] && x[i + 2 - off] == x[i + 2];
      NoTriple(i, off);
    }
  }

  /** The compressor finds no link in it. */
  lemma {:induction false} OnlyChunks(items: seq<Item>, n: nat)
    requires Parse(HugeInput(), items) && n <= |items|
    ensures End(items[..n]) == n <= HUGE && items[..n] == AllChunks(HugeInput())[..n]
    decreases n
  {
    hide Counting, Links, Chunks, NoneLonger, Cap, Matches, Parse;
    if n > 0 {
      OnlyChunks(items, n - 1);
      GreedyAt(HugeInput(), items, n - 1);
      EndGrows(items, n - 1);
      match items[n - 1] {
        case Chunk(_) =>
        case Link(off, count) => ShortOnly(n - 1, off, count);
      }
      assert items[..n] == items[..n - 1] + [items[n - 1]];
    }
  }

  /** The decoder is right as long as it reads the right bytes. */
  lemma {:induction false} RunsUpTo(file: seq<Byte>, x: seq<Byte>, items: seq<Item>, i: nat)
    requires Parse(x, items) && End(items) == |x| && Encodes(file, |x|, items) && i <= |items|
    requires |x| < WIDTH32 && Reads(file, 16 + MaskSize(items) + |Links(items)| + |Chunks(items[..i])|)
    ensures End(items[..i]) <= |x|
    ensures Replay(file, |x|, After(x, items, 0)) == Replay(file, |x|, After(x, items, i))
    decreases i
  {
    hide Parse, Encodes, Round, Links, Chunks, MaskSize, LiesAt, End, Wrap, Reads;
    EndUpTo(items, i);
    if i > 0 {
      ChunksAt(items, i - 1);
      LinksFit(x, items);
      var c := 16 + MaskSize(items) + |Links(items)|;
      ReadsLess(file, c + |Chunks(items[..i - 1])|, c + |Chunks(items[..i])|);
      RunsUpTo(file, x, items, i - 1);
      DecodesItem(file, x, items, i - 1);
    }
  }

  /** For this input of 4 GiB - 1, whose size and table offsets all fit 32 bits, the round trip fails: the
      decoder's running offset into the chunks wraps round to the header. */
  lemma HugeFails(items: seq<Item>, file: seq<Byte>)
    requires Parse(HugeInput(), items) && End(items) == HUGE && Encodes(file, HUGE, items)
    ensures 16 + MaskSize(items) + |Links(items)| < WIDTH32
    ensures Decode(file) != Ok(HugeInput())
  {
    hide Counting, Parse, Encodes, End, Links, Chunks, MaskSize, Replay, Round, Wrap, Decode, ReadBe32, Carries;
    var x := HugeInput();
    HugeItems(items);
    HugeSizes(items);
    var w := 3758096368;
    HugeByte();
    AllChunksStreams(x, w);
    Header(file, HUGE, items);
    assert file[0] == file[..4][0];
    WrapsToZero();
    ReadsStraight(file, WIDTH32);
    ItemInFile(file, HUGE, items, w);
    hide Reads;
    LiesByte(file, WIDTH32, 162);
    FirstMisread(x, items, file, w);
  }

  lemma HugeSizes(items: seq<Item>)
    requires |items| == HUGE
    ensures 16 + MaskSize(items) + 3758096368 == WIDTH32
  {
  }

  lemma DecodeStarts(file: seq<Byte>, x: seq<Byte>, items: seq<Item>)
    requires Encodes(file, |x|, items) && |x| < WIDTH32
    ensures End(items[..0]) <= |x| && Decode(file) == Replay(file, |x|, After(x, items, 0))
  {
    hide Encodes, End, Links, Chunks, MaskSize, Replay, Wrap, ReadBe32;
    Header(file, |x|, items);
    NoWrap(|x|);
    NoItems(x);
    assert items[..0] == [] && x[..0] == [];
  }

  lemma HugeItems(items: seq<Item>)
    requires Parse(HugeInput(), items) && End(items) == HUGE
    ensures items == AllChunks(HugeInput()) && Links(items) == []
  {
    hide Parse, Counting, Links;
    OnlyChunks(items, |items|);
    assert items[..|items|] == items;
    assert AllChunks(HugeInput())[..|items|] == AllChunks(HugeInput());
    AllChunksStreams(HugeInput(), HUGE);
  }

  lemma HugeByte()
    ensures HugeInput()[3758096368] == 162
  {
  }

  /** If the first byte that is read wrongly stands for itself, the input is not restored. */
  lemma FirstMisread(x: seq<Byte>, items: seq<Item>, file: seq<Byte>, w: nat)
    requires Parse(x, items) && End(items) == |x| < WIDTH32 && Encodes(file, |x|, items)
    requires w < |items| && items[w].Chunk?
    requires var c := 16 + MaskSize(items) + |Links(items)| + |Chunks(items[..w])|;
             c < |file| && Reads(file, c) && (Wrap(c) < |file| ==> file[Wrap(c)] != file[c])
    ensures Decode(file) != Ok(x)
  {
    hide Parse, Encodes, Bit, Links, Chunks, MaskSize, End, Round, Wrap, Decode, ReadBe32, Reads, Replay, Carries;
    DecodeStarts(file, x, items);
    RunsUpTo(file, x, items, w);
    MaskInFile(file, |x|, items, w);
    ItemInFile(file, |x|, items, w);
    var s := After(x, items, w);
    var c := 16 + MaskSize(items) + |Links(items)| + |Chunks(items[..w])|;
    LiesByte(file, c, items[w].b);
    GreedyAt(x, items, w);
    EndGrows(items, w);
    Misread(file, |x|, s);
    var r := Replay(file, |x|, s);
    if r.Ok? && Wrap(c) < |file| {
      assert r.bytes[..|s.out| + 1][|s.out|] == file[Wrap(c)];
    }
  }

  /** A round that takes a byte from the chunks leaves that byte in the result. */
  lemma Misread(file: seq<Byte>, final: nat, s: State)
    requires s.State? && |s.out| < final && 16 + s.bit / 8 < |file| && Bit(file[16 + s.bit / 8], s.bit % 8)
    ensures var r := Replay(file, final, s);
            r.Ok? ==> s.chunks < |file| && |s.out| < |r.bytes| && r.bytes[..|s.out| + 1] == s.out + [file[s.chunks]]
  {
    hide Bit, Wrap;
    if s.chunks < |file| {
      ReplayGrows(file, final, Round(file, s));
    }
  }

  lemma WrapsToZero()
    ensures Wrap(WIDTH32) == 0
  {
  }
}
