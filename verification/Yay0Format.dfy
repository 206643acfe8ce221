/** The Yay0 file of docs/gc-font-tool.cpp byte by byte, and what the greedy search looks for, spelled out. */
module Yay0Format {
  import opened Radix
  import opened Yay0

  /** How many of the items are links. */
  function LinkTotal(items: seq<Item>): nat {
    if items == [] then 0 else LinkTotal(items[..|items| - 1]) + if items[|items| - 1].Link? then 1 else 0
  }

  /** How many bytes they put into the chunks: a byte of its own, or the count of a link of 18 bytes or more. */
  function ChunkTotal(items: seq<Item>): nat {
    if items == [] then 0
    else
      var it := items[|items| - 1];
      ChunkTotal(items[..|items| - 1]) + if it.Chunk? || it.count >= 18 then 1 else 0
  }

  lemma {:induction false} StreamLengths(items: seq<Item>)
    ensures |Links(items)| == 2 * LinkTotal(items) && |Chunks(items)| == ChunkTotal(items)
  {
    if items != [] {
      StreamLengths(items[..|items| - 1]);
    }
  }

  function BigEndian(file: seq<Byte>, o: nat): nat
    requires o + 4 <= |file|
  {
    0x100_0000 * (file[o] as int) + 0x1_0000 * (file[o + 1] as int) + 0x100 * (file[o + 2] as int) + file[o + 3]
  }

  /** The header: "Yay0", the size of the original, and where links and chunks begin. */
  lemma HeaderBytes(file: seq<Byte>, size: nat, items: seq<Item>)
    requires Encodes(file, size, items)
    ensures var masks, links := (|items| + 7) / 8, 2 * LinkTotal(items);
      && |file| == 16 + masks + links + ChunkTotal(items)
      && file[0] == 0x59 && file[1] == 0x61 && file[2] == 0x79 && file[3] == 0x30
      && BigEndian(file, 4) == size % 0x1_0000_0000
      && BigEndian(file, 8) == (16 + masks) % 0x1_0000_0000
      && BigEndian(file, 12) == (16 + masks + links) % 0x1_0000_0000
  {
    hide *;
    StreamLengths(items);
    HeaderParts(file, size, items);
    Magic(file);
    BigEndianIs(file, 4, size);
    BigEndianIs(file, 8, 16 + (|items| + 7) / 8);
    BigEndianIs(file, 12, 16 + (|items| + 7) / 8 + |Links(items)|);
  }

  lemma HeaderParts(file: seq<Byte>, size: nat, items: seq<Item>)
    requires Encodes(file, size, items)
    ensures var m, l := (|items| + 7) / 8, |Links(items)|;
      && |file| == 16 + m + l + |Chunks(items)| && file[..4] == [0x59, 0x61, 0x79, 0x30]
      && file[4..8] == Be32(size) && file[8..12] == Be32(16 + m) && file[12..16] == Be32(16 + m + l)
  {
    hide Links, Chunks, Be32, Masks, Carries;
  }

  lemma Magic(file: seq<Byte>)
    requires |file| >= 4 && file[..4] == [0x59, 0x61, 0x79, 0x30]
    ensures file[0] == 0x59 && file[1] == 0x61 && file[2] == 0x79 && file[3] == 0x30
  {
    assert file[0] == file[..4][0] && file[1] == file[..4][1] && file[2] == file[..4][2] && file[3] == file[..4][3];
  }

  lemma BigEndianIs(file: seq<Byte>, o: nat, v: nat)
    requires o + 4 <= |file| && file[o..o + 4] == Be32(v)
    ensures BigEndian(file, o) == v % 0x1_0000_0000
  {
    hide Be32;
    Be32Read(file, o, v);
  }

  /** One item in the three streams: its bit, highest first, is set for a byte of its own; a link is a big-endian
      word with the count less two, 0 from 18 on, above twelve bits with the distance less one. */
  lemma ItemBytes(file: seq<Byte>, size: nat, items: seq<Item>, i: nat)
    requires Encodes(file, size, items) && i < |items|
    ensures var masks := 16 + (|items| + 7) / 8;
      var chunks := masks + 2 * LinkTotal(items);
      var l, c := masks + 2 * LinkTotal(items[..i]), chunks + ChunkTotal(items[..i]);
      && 16 + i / 8 < |file| && file[16 + i / 8] / Pow2(7 - i % 8) % 2 == (if items[i].Chunk? then 1 else 0)
      && match items[i]
         case Chunk(b) => c < |file| && file[c] == b
         case Link(off, count) =>
           && l + 1 < |file|
           && 256 * (file[l] as int) + file[l + 1] == 4096 * (if count >= 18 then 0 else count - 2) + off - 1
           && (count >= 18 ==> c < |file| && file[c] as int == count - 18)
  {
    hide *;
    var it := items[i];
    var m, l, c := (|items| + 7) / 8, |Links(items)|, |Chunks(items)|;
    StreamLengths(items);
    StreamLengths(items[..i]);
    MaskByte(file, size, items, i);
    LinksAt(items, i);
    ChunksAt(items, i);
    StreamsLie(file, size, items);
    LiesInside(file, 16 + m, Links(items), |Links(items[..i])|, LinkBytes(it));
    LiesInside(file, 16 + m + l, Chunks(items), |Chunks(items[..i])|, ChunkBytes(it));
    PieceBytes(file, 16 + m + |Links(items[..i])|, 16 + m + l + |Chunks(items[..i])|, it);
  }

  lemma MaskByte(file: seq<Byte>, size: nat, items: seq<Item>, i: nat)
    requires Encodes(file, size, items) && i < |items|
    ensures 16 + i / 8 < |file| && file[16 + i / 8] / Pow2(7 - i % 8) % 2 == (if items[i].Chunk? then 1 else 0)
  {
    hide Links, Chunks, Be32, Pow2;
    var m := MaskSize(items);
    assert Masks(items)[i] == items[i].Chunk?;
    assert file[16..16 + m][i / 8] == file[16 + i / 8];
    assert Bit(file[16..16 + m][i / 8], i % 8) == Masks(items)[i];
    OneBit(file[16 + i / 8] / Pow2(7 - i % 8));
  }

  lemma OneBit(v: nat)
    ensures v % 2 == 1 || v % 2 == 0
  {
  }

  lemma StreamsLie(file: seq<Byte>, size: nat, items: seq<Item>)
    requires Encodes(file, size, items)
    ensures var m, l := (|items| + 7) / 8, |Links(items)|;
      LiesAt(file, 16 + m, Links(items)) && LiesAt(file, 16 + m + l, Chunks(items))
  {
    var m, l, c := MaskSize(items), |Links(items)|, |Chunks(items)|;
    assert file[16 + m + l..16 + m + l + c] == file[16 + m + l..];
  }

  lemma PieceBytes(file: seq<Byte>, l: nat, c: nat, it: Item)
    requires LiesAt(file, l, LinkBytes(it)) && LiesAt(file, c, ChunkBytes(it))
    ensures match it
      case Chunk(b) => c < |file| && file[c] == b
      case Link(off, count) =>
        && l + 1 < |file|
        && 256 * (file[l] as int) + file[l + 1] == 4096 * (if count >= 18 then 0 else count - 2) + off - 1
        && (count >= 18 ==> c < |file| && file[c] as int == count - 18)
  {
    match it {
      case Chunk(b) => assert file[c] == file[c..c + 1][0];
      case Link(off, count) =>
        var v := (if count >= 18 then 0 else count - 2) * 0x1000 + (off - 1);
        assert file[l] == file[l..l + 2][0] && file[l + 1] == file[l..l + 2][1];
        WordBytes(v);
        if count >= 18 {
          assert file[c] == file[c..c + 1][0];
        }
    }
  }

  // -------------------------------------------------------------------- one round back

  /** Copied bytes repeat what lies off before them, those just copied included. */
  lemma {:induction false} ExtendedIs(out: seq<Byte>, off: nat, n: nat)
    requires 1 <= off <= |out|
    ensures var r := Extended(out, off, n);
      |r| == |out| + n && r[..|out|] == out && forall k :: |out| <= k < |r| ==> r[k] == r[k - off]
    decreases n
  {
    if n > 0 {
      var next := out + [out[|out| - off]];
      ExtendedIs(next, off, n - 1);
      var r := Extended(next, off, n - 1);
      assert r[..|next|] == next;
      assert r[|out|] == next[|out|] && r[|out| - off] == next[|out| - off];
      assert r[..|out|] == next[..|out|];
    }
  }

  /** What a round of the decoder does on any input, byte by byte: a set bit takes one byte from the chunks; a clear
      one a link of a count in the word, less two, or in the chunks, less 18, and of a distance, less one, that must
      not reach beyond the output. Reading past the input fails; offsets wrap at 2^32. */
  lemma RoundBytes(input: seq<Byte>, s: State)
    requires s.State?
    ensures var i, l, c, n, t := 16 + s.bit / 8, s.links, s.chunks, |input|, Round(input, s);
      if i >= n then t.Failed?
      else if input[i] / Pow2(7 - s.bit % 8) % 2 == 1 then
        if c >= n then t.Failed? else t == State(s.bit + 1, l, (c + 1) % 0x1_0000_0000, s.out + [input[c]])
      else if l + 2 > n then t.Failed?
      else
        var w := 256 * (input[l] as int) + input[l + 1];
        if (w < 4096 && c >= n) || w % 4096 + 1 > |s.out| then t.Failed?
        else
          && t.State? && t.bit == s.bit + 1 && t.links == (l + 2) % 0x1_0000_0000
          && t.chunks == (if w < 4096 then (c + 1) % 0x1_0000_0000 else c)
          && |t.out| == |s.out| + (if w < 4096 then input[c] + 18 else w / 4096 + 2) && t.out[..|s.out|] == s.out
          && forall k :: |s.out| <= k < |t.out| ==> t.out[k] == t.out[k - (w % 4096 + 1)]
  {
    var l := s.links;
    if 16 + s.bit / 8 < |input| && l + 2 <= |input| {
      var w := ReadBe16(input, l);
      if LengthCode(w) != 0 || s.chunks < |input| {
        if Distance(w) <= |s.out| {
          ExtendedIs(s.out, Distance(w), LinkCount(input, w, s.chunks));
        }
      }
    }
    hide Extended, Pow2;
  }

  // ---------------------------------------------------------------------- the search

  /** The n bytes from pos on are those off earlier. */
  ghost predicate Repeats(x: seq<Byte>, pos: nat, off: nat, n: nat) {
    1 <= off <= pos && pos + n <= |x| && forall i :: pos <= i < pos + n ==> x[i] == x[i - off]
  }

  /** A match the search can use: at most 4096 back, at most 273 long, ending before the last byte. */
  ghost predicate Eligible(x: seq<Byte>, pos: nat, off: nat, n: nat) {
    off <= 4096 && n <= 273 && pos + n < |x| && Repeats(x, pos, off, n)
  }

  /** The item taken at pos is the byte there when no eligible match has three bytes, else a longest eligible match. */
  lemma GreedyIs(x: seq<Byte>, pos: nat, it: Item)
    ensures Greedy(x, pos, it) <==>
      pos < |x| && match it
      case Chunk(b) => b == x[pos] && forall off: nat, n: nat :: Eligible(x, pos, off, n) ==> n < 3
      case Link(off, count) =>
        Eligible(x, pos, off, count) && forall o: nat, n: nat :: Eligible(x, pos, o, n) ==> n <= count
  {
    if pos < |x| {
      forall off: nat, n: nat
        ensures Eligible(x, pos, off, n) <==> off <= WINDOW && Matches(x, pos, off, n) && n < Cap(x, pos)
      {
        EligibleIs(x, pos, off, n);
      }
      hide Eligible, Matches, Cap;
      NoneLongerIs(x, pos, 2);
      if it.Link? {
        NoneLongerIs(x, pos, it.count);
      }
    }
  }

  lemma EligibleIs(x: seq<Byte>, pos: nat, off: nat, n: nat)
    requires pos < |x|
    ensures Eligible(x, pos, off, n) <==> off <= WINDOW && Matches(x, pos, off, n) && n < Cap(x, pos)
  {
  }

  lemma NoneLongerIs(x: seq<Byte>, pos: nat, n: nat)
    requires pos < |x|
    ensures NoneLonger(x, pos, WINDOW, n) <==> forall off: nat, m: nat :: Eligible(x, pos, off, m) ==> m <= n
  {
    forall off: nat, m: nat
      ensures Eligible(x, pos, off, m) <==> off <= WINDOW && Matches(x, pos, off, m) && m < Cap(x, pos)
    {
      EligibleIs(x, pos, off, m);
    }
    hide Eligible, Matches, Cap;
  }
}
