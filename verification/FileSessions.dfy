/** Whole sessions on one open file: calls of f_read, f_write, f_lseek and f_truncate in any order, against
    a byte sequence with a cursor. */
module FileSessions {
  import opened Radix
  import opened FatVolume
  import opened FileIO
  import opened FileState
  import opened Files

  datatype Call = ReadCall(n: nat) | WriteCall(d: seq<Byte>) | SeekCall(ofs: nat) | TruncateCall
  datatype Answer = Denied | Data(d: seq<Byte>) | Wrote(n: nat) | Moved | Truncated

  /** The plain file. */
  datatype Model = Model(bytes: seq<Byte>, pos: nat)

  /** What a call on the plain file may answer, and leave. Bytes a seek adds may be anything. A write or a
      seek may stop short, for want of clusters, but only past all bytes the file had. */
  predicate Step(canRead: bool, canWrite: bool, m: Model, c: Call, a: Answer, m': Model) {
    m.pos <= |m.bytes| && match c
    case ReadCall(n) =>
      if !canRead then a == Denied && m' == m
      else var k: int := if n < |m.bytes| - m.pos then n else |m.bytes| - m.pos;
           a == Data(m.bytes[m.pos..m.pos + k]) && m' == Model(m.bytes, m.pos + k)
    case WriteCall(d) =>
      if !canWrite then a == Denied && m' == m
      else
        var room: int := if m.pos + |d| < 0x1_0000_0000 then |d| else 0xFFFF_FFFF - m.pos;
        && a.Wrote? && a.n <= room <= |d|
        && m'.pos == m.pos + a.n
        && m'.bytes == m.bytes[..m.pos] + d[..a.n] + (if m'.pos < |m.bytes| then m.bytes[m'.pos..] else [])
        && (a.n == room || m'.pos == |m'.bytes|)
    case SeekCall(ofs) =>
      var target: int := if canWrite || ofs < |m.bytes| then ofs else |m.bytes|;
      && a == Moved && (m'.pos == target || |m.bytes| <= m'.pos < target)
      && |m'.bytes| == (if m'.pos > |m.bytes| then m'.pos else |m.bytes|) && m'.bytes[..|m.bytes|] == m.bytes
    case TruncateCall =>
      if !canWrite then a == Denied && m' == m
      else a == Truncated && m' == Model(m.bytes[..m.pos], m.pos)
  }

  /** A run of the plain file through the states ms. */
  predicate Run(canRead: bool, canWrite: bool, ms: seq<Model>, cs: seq<Call>, answers: seq<Answer>) {
    |answers| <= |cs| && |ms| == |answers| + 1
    && forall i :: 0 <= i < |answers| ==> Step(canRead, canWrite, ms[i], cs[i], answers[i], ms[i + 1])
  }

  /** Sizes and offsets are 32-bit numbers. */
  predicate Legal(c: Call) {
    match c
    case ReadCall(n) => true
    case WriteCall(d) => |d| < 0x1_0000_0000
    case SeekCall(ofs) => ofs < 0x1_0000_0000
    case TruncateCall => true
  }

  ghost function Plain(f: File): Model
    requires f.Steady()
    reads f, f.fs
  {
    Model(f.Bytes(), f.fptr)
  }

  method ServeRead(f: File, n: nat) returns (res: FResult, a: Answer)
    requires f.Valid() && f.err == FR_OK
    modifies f, f.fs
    ensures res == FR_OK ==>
              f.Valid() && f.err == FR_OK && Step(f.canRead, f.canWrite, old(Plain(f)), ReadCall(n), a, Plain(f))
    ensures f.fs.faults >= old(f.fs.faults) && (res != FR_OK ==> f.fs.faults > old(f.fs.faults))
  {
    hide Sound, At, FatFs.Valid, FatFs.Table, Content, File.Now, File.Full, Overwrite;
    f.Cursor();
    var data;
    res, data := f.Read(n);
    a := Denied;
    if res == FR_OK {
      a := Data(data);
    } else if res == FR_DENIED {
      res := FR_OK;
    }
  }

  method ServeWrite(f: File, d: seq<Byte>) returns (res: FResult, a: Answer)
    requires f.Valid() && f.err == FR_OK && |d| < 0x1_0000_0000
    modifies f, f.fs
    ensures res == FR_OK ==>
              f.Valid() && f.err == FR_OK && Step(f.canRead, f.canWrite, old(Plain(f)), WriteCall(d), a, Plain(f))
    ensures f.fs.faults >= old(f.fs.faults) && (res != FR_OK ==> f.fs.faults > old(f.fs.faults))
  {
    hide Sound, At, FatFs.Valid, FatFs.Table, Content, File.Now, File.Full;
    f.Cursor();
    var bw;
    res, bw := f.Write(d);
    a := Denied;
    if res == FR_OK {
      a := Wrote(bw);
      f.Cursor();
    } else if res == FR_DENIED {
      res := FR_OK;
    }
  }

  method ServeSeek(f: File, ofs: nat) returns (res: FResult, a: Answer)
    requires f.Valid() && f.err == FR_OK && ofs < 0x1_0000_0000
    modifies f, f.fs
    ensures res == FR_OK ==>
              f.Valid() && f.err == FR_OK && Step(f.canRead, f.canWrite, old(Plain(f)), SeekCall(ofs), a, Plain(f))
    ensures f.fs.faults >= old(f.fs.faults) && (res != FR_OK ==> f.fs.faults > old(f.fs.faults))
  {
    hide Sound, At, FatFs.Valid, FatFs.Table, Content, File.Now, File.Full, Overwrite;
    f.Cursor();
    res := f.LSeek(ofs);
    a := Moved;
    if res == FR_OK {
      f.Cursor();
    }
  }

  method ServeTruncate(f: File) returns (res: FResult, a: Answer)
    requires f.Valid() && f.err == FR_OK
    modifies f, f.fs
    ensures res == FR_OK ==>
              f.Valid() && f.err == FR_OK && Step(f.canRead, f.canWrite, old(Plain(f)), TruncateCall, a, Plain(f))
    ensures f.fs.faults >= old(f.fs.faults) && (res != FR_OK ==> f.fs.faults > old(f.fs.faults))
  {
    hide Sound, At, FatFs.Valid, FatFs.Table, Content, File.Now, File.Full, Overwrite;
    f.Cursor();
    res := f.Truncate();
    a := Denied;
    if res == FR_OK && f.canWrite {
      a := Truncated;
    } else if res == FR_DENIED {
      res := FR_OK;
    }
  }

  /** One call. It fails only when a transfer does. */
  method Serve(f: File, c: Call) returns (res: FResult, a: Answer)
    requires f.Valid() && f.err == FR_OK && Legal(c)
    modifies f, f.fs
    ensures res == FR_OK ==> f.Valid() && f.err == FR_OK && Step(f.canRead, f.canWrite, old(Plain(f)), c, a, Plain(f))
    ensures f.fs.faults >= old(f.fs.faults) && (res != FR_OK ==> f.fs.faults > old(f.fs.faults))
  {
    hide Step, File.Valid, File.Steady, File.Bytes;
    match c {
      case ReadCall(n) => res, a := ServeRead(f, n);
      case WriteCall(d) => res, a := ServeWrite(f, d);
      case SeekCall(ofs) => res, a := ServeSeek(f, ofs);
      case TruncateCall => res, a := ServeTruncate(f);
    }
  }

  /** Any session, up to its first failure, is a run of the plain file; and without a failed transfer it
      runs to its end. */
  method Session(f: File, cs: seq<Call>) returns (answers: seq<Answer>, ghost ms: seq<Model>)
    requires f.Valid() && f.err == FR_OK && forall c :: c in cs ==> Legal(c)
    modifies f, f.fs
    ensures Run(f.canRead, f.canWrite, ms, cs, answers) && ms[0] == old(Plain(f))
    ensures |answers| == |cs| ==> f.Valid() && ms[|cs|] == Plain(f)
    ensures f.fs.faults == old(f.fs.faults) ==> |answers| == |cs|
  {
    hide Step, Legal, File.Valid, File.Steady, File.Bytes;
    Start(f);
    answers, ms := [], [Plain(f)];
    while |answers| < |cs|
      invariant f.Valid() && f.err == FR_OK && Run(f.canRead, f.canWrite, ms, cs, answers)
      invariant ms[0] == old(Plain(f)) && At(f, ms[|answers|]) && f.fs.faults >= old(f.fs.faults)
      decreases |cs| - |answers|
    {
      var c := cs[|answers|];
      var res, a := Serve(f, c);
      if res != FR_OK {
        return;
      }
      Start(f);
      answers, ms := answers + [a], ms + [Plain(f)];
    }
  }

  lemma Start(f: File)
    requires f.Valid()
    ensures f.Steady()
  {
  }

  ghost predicate At(f: File, m: Model)
    reads f, f.fs
  {
    f.Steady() && Plain(f) == m
  }
}
