/** blob_dump of src/debug.c: a hex dump of a buffer, sixteen bytes to a
    line.  Chunks of zeros are not printed; a line reports how many zero
    bytes were skipped.  The dump is a list of lines, each either a skip
    report or a printed chunk, and Text renders a line as the code prints it. */
module Debug {
  import opened Seqs

  newtype byte = x: int | 0 <= x < 256

  /** sizeof (uint32_t) * 4 */
  const CHUNK_SIZE: nat := 16

  /** A line of the dump: "Skipped N zero bytes." or a chunk at an offset. */
  datatype Line = Skipped(count: nat) | Chunk(offset: nat, bytes: seq<byte>)

  function Zeros(n: nat): (z: seq<byte>)
    ensures |z| == n && forall i :: 0 <= i < n ==> z[i] == 0
  {
    if n == 0 then [] else Zeros(n - 1) + [0]
  }

  /** The bytes a line stands for: the zeros it skipped, or the chunk. */
  function BytesOf(l: Line): seq<byte> {
    match l
    case Skipped(n) => Zeros(n)
    case Chunk(_, b) => b
  }

  /** The bytes a dump stands for, in order. */
  function Expand(out: seq<Line>): seq<byte> {
    if out == [] then [] else Expand(out[..|out| - 1]) + BytesOf(out[|out| - 1])
  }

  predicate AllZero(b: seq<byte>) {
    forall i :: 0 <= i < |b| ==> b[i] == 0
  }

  /** A line may follow the lines prev in a dump of an input of length n:
      a skip report counts at least one byte; a printed chunk sits at its
      place in the input, at a multiple of 16, holds sixteen bytes (fewer
      only at the end of the input), and is not all zeros. */
  predicate Fits(prev: seq<Line>, l: Line, n: nat) {
    match l
    case Skipped(count) => count > 0
    case Chunk(offset, bytes) =>
      offset == |Expand(prev)| && offset % CHUNK_SIZE == 0
      && 0 < |bytes| <= CHUNK_SIZE && (|bytes| < CHUNK_SIZE ==> offset + |bytes| == n)
      && !AllZero(bytes)
  }

  /** What a well-formed dump of an input of length n looks like: every line
      fits after those before it, and a skip report is followed by a printed
      chunk (or ends the dump). */
  predicate WellFormed(out: seq<Line>, n: nat) {
    out == []
    || (WellFormed(out[..|out| - 1], n) && Fits(out[..|out| - 1], out[|out| - 1], n)
        && (|out| >= 2 && out[|out| - 2].Skipped? ==> out[|out| - 1].Chunk?))
  }

  /** Line by line: in a well-formed dump every line fits after the lines
      before it, and no two skip reports are adjacent. */
  lemma {:induction false} WellFormedLines(out: seq<Line>, n: nat, i: nat)
    requires WellFormed(out, n) && i < |out|
    ensures Fits(out[..i], out[i], n)
    ensures i > 0 && out[i - 1].Skipped? ==> out[i].Chunk?
    decreases |out|
  {
    var prev := out[..|out| - 1];
    if i < |out| - 1 {
      WellFormedLines(prev, n, i);
      assert prev[..i] == out[..i];
    }
  }

  lemma ExpandSnoc(out: seq<Line>, l: Line)
    ensures Expand(out + [l]) == Expand(out) + BytesOf(l)
  {
    assert (out + [l])[..|out|] == out;
  }

  lemma ZerosSnoc(n: nat, m: nat)
    ensures Zeros(n) + Zeros(m) == Zeros(n + m)
  {
  }

  /** The sum of the printed chunk sizes and of the reported skips. */
  function Covered(out: seq<Line>): nat {
    if out == [] then 0
    else Covered(out[..|out| - 1]) + match out[|out| - 1] { case Skipped(n) => n case Chunk(_, b) => |b| }
  }

  /** The printed bytes and the reported skips together account for the
      whole input. */
  lemma {:induction false} CoveredIsLength(out: seq<Line>)
    ensures Covered(out) == |Expand(out)|
  {
    if out != [] {
      CoveredIsLength(out[..|out| - 1]);
    }
  }

  /** The dump with the pending skip report written out, when there is
      one. */
  function Flush(out: seq<Line>, skip: nat): seq<Line> {
    if skip == 0 then out else out + [Skipped(skip)]
  }

  /** Flushing adds the skipped zeros to what the dump stands for. */
  lemma FlushExpands(out: seq<Line>, skip: nat)
    ensures Expand(Flush(out, skip)) == Expand(out) + Zeros(skip)
  {
    if skip != 0 {
      ExpandSnoc(out, Skipped(skip));
    }
  }

  /** A skip report of a positive count may follow a chunk. */
  lemma SkipKeepsWellFormed(out: seq<Line>, count: nat, n: nat)
    requires WellFormed(out, n) && count > 0 && (out == [] || out[|out| - 1].Chunk?)
    ensures WellFormed(out + [Skipped(count)], n)
  {
    assert (out + [Skipped(count)])[..|out|] == out;
  }

  /** A chunk that is not all zeros may follow at the end of what the dump
      covers, at a multiple of sixteen. */
  lemma ChunkKeepsWellFormed(out: seq<Line>, offset: nat, bytes: seq<byte>, n: nat)
    requires WellFormed(out, n) && offset == |Expand(out)| && offset % CHUNK_SIZE == 0
    requires 0 < |bytes| <= CHUNK_SIZE && (|bytes| < CHUNK_SIZE ==> offset + |bytes| == n)
    requires !AllZero(bytes)
    ensures WellFormed(out + [Chunk(offset, bytes)], n)
  {
    assert (out + [Chunk(offset, bytes)])[..|out|] == out;
  }

  /** The length of the chunk at offset: sixteen, or what is left. */
  function ChunkLength(n: nat, offset: nat): (c: nat)
    requires offset <= n
    ensures c <= CHUNK_SIZE && offset + c <= n
    ensures offset < n ==> 0 < c && (c < CHUNK_SIZE ==> offset + c == n)
  {
    if n - offset < CHUNK_SIZE then n - offset else CHUNK_SIZE
  }

  /** Where the k-th chunk starts, or the end of the input. */
  function ChunkStart(n: nat, k: nat): nat {
    if CHUNK_SIZE * k < n then CHUNK_SIZE * k else n
  }

  /** Whether the input has a k-th chunk (or k is 0). */
  predicate Scanned(n: nat, k: nat) {
    k == 0 || CHUNK_SIZE * (k - 1) < n
  }

  /** The state of blob_dump after its first k chunks: the lines printed so
      far and the zero bytes skipped since the last printed chunk. */
  function Scan(buffer: seq<byte>, k: nat): (seq<Line>, nat)
    requires Scanned(|buffer|, k)
  {
    if k == 0 then ([], 0)
    else
      var prev := Scan(buffer, k - 1);
      ScanChunk(buffer, prev.0, prev.1, CHUNK_SIZE * (k - 1))
  }

  /** One chunk of blob_dump's loop: an all-zero chunk grows the pending
      skip, any other is printed after the skip is reported. */
  function ScanChunk(buffer: seq<byte>, out: seq<Line>, skip: nat, offset: nat): (seq<Line>, nat)
    requires offset <= |buffer|
  {
    var c := ChunkLength(|buffer|, offset);
    if AllZero(buffer[offset..offset + c]) then (out, skip + c)
    else (Flush(out, skip) + [Chunk(offset, buffer[offset..offset + c])], 0)
  }

  /** The number of chunks of an input of length n. */
  function ChunkCount(n: nat): (k: nat)
    ensures Scanned(n, k) && ChunkStart(n, k) == n
  {
    (n + CHUNK_SIZE - 1) / CHUNK_SIZE
  }

  /** The dump blob_dump prints. */
  function Dump(buffer: seq<byte>): seq<Line> {
    var (out, skip) := Scan(buffer, ChunkCount(|buffer|));
    Flush(out, skip)
  }

  /** What the first k chunks account for: the dump so far and the pending
      skip stand for the bytes before the next chunk, the dump is well
      formed and, when not empty, ends in a printed chunk. */
  predicate Dumping(buffer: seq<byte>, out: seq<Line>, skip: nat, offset: nat) {
    offset <= |buffer|
    && Expand(out) + Zeros(skip) == buffer[..offset]
    && (out == [] || out[|out| - 1].Chunk?)
    && WellFormed(out, |buffer|)
  }

  /** Every state of the scan is accounted for. */
  lemma {:induction false} ScanAccounts(buffer: seq<byte>, k: nat)
    requires Scanned(|buffer|, k)
    ensures Dumping(buffer, Scan(buffer, k).0, Scan(buffer, k).1, ChunkStart(|buffer|, k))
  {
    if k > 0 {
      var offset := CHUNK_SIZE * (k - 1);
      ChunkFacts(|buffer|, k);
      ScanAccounts(buffer, k - 1);
      var prev := Scan(buffer, k - 1);
      ScanStep(buffer, prev.0, prev.1, offset);
    }
  }

  /** Arithmetic on chunk boundaries: the k-th chunk starts where the one
      before it ends. */
  lemma ChunkFacts(n: nat, k: nat)
    requires 0 < k && Scanned(n, k)
    ensures Scanned(n, k - 1) && CHUNK_SIZE * (k - 1) < n
    ensures ChunkStart(n, k - 1) == CHUNK_SIZE * (k - 1)
    ensures (CHUNK_SIZE * (k - 1)) % CHUNK_SIZE == 0
    ensures ChunkStart(n, k) == CHUNK_SIZE * (k - 1) + ChunkLength(n, CHUNK_SIZE * (k - 1))
  {
    var j := k - 1;
    assert CHUNK_SIZE * k == CHUNK_SIZE * j + CHUNK_SIZE;
    if j > 0 {
      assert CHUNK_SIZE * j == CHUNK_SIZE * (j - 1) + CHUNK_SIZE;
    }
  }

  /** One more chunk, zero or not, keeps the scan accounted for. */
  lemma ScanStep(buffer: seq<byte>, out: seq<Line>, skip: nat, offset: nat)
    requires Dumping(buffer, out, skip, offset) && offset < |buffer| && offset % CHUNK_SIZE == 0
    ensures var next := ScanChunk(buffer, out, skip, offset);
      Dumping(buffer, next.0, next.1, offset + ChunkLength(|buffer|, offset))
  {
    var c := ChunkLength(|buffer|, offset);
    if AllZero(buffer[offset..offset + c]) {
      ZeroStep(buffer, out, skip, offset, c);
    } else {
      NonZeroStep(buffer, out, skip, offset, c);
    }
  }

  lemma NonZeroStep(buffer: seq<byte>, out: seq<Line>, skip: nat, offset: nat, c: nat)
    requires Dumping(buffer, out, skip, offset) && offset < |buffer| && c == ChunkLength(|buffer|, offset)
    requires offset % CHUNK_SIZE == 0 && !AllZero(buffer[offset..offset + c])
    ensures var next := ScanChunk(buffer, out, skip, offset);
      Dumping(buffer, next.0, next.1, offset + c)
  {
    var chunk := Chunk(offset, buffer[offset..offset + c]);
    assert ScanChunk(buffer, out, skip, offset) == (Flush(out, skip) + [chunk], 0);
    ChunkStep(buffer, out, skip, offset, c);
  }

  /** An all-zero chunk only grows the pending skip. */
  lemma ZeroStep(buffer: seq<byte>, out: seq<Line>, skip: nat, offset: nat, c: nat)
    requires Dumping(buffer, out, skip, offset) && offset < |buffer| && c == ChunkLength(|buffer|, offset)
    requires AllZero(buffer[offset..offset + c])
    ensures ScanChunk(buffer, out, skip, offset) == (out, skip + c)
    ensures Dumping(buffer, out, skip + c, offset + c)
  {
    TakeSplit(buffer, offset, offset + c);
    assert buffer[offset..offset + c] == Zeros(c);
    ZerosSnoc(skip, c);
    ConcatAssoc(Expand(out), Zeros(skip), Zeros(c));
  }

  /** A chunk that is not all zero is printed after the pending skip. */
  lemma ChunkStep(buffer: seq<byte>, out: seq<Line>, skip: nat, offset: nat, c: nat)
    requires Dumping(buffer, out, skip, offset) && offset < |buffer| && c == ChunkLength(|buffer|, offset)
    requires offset % CHUNK_SIZE == 0 && !AllZero(buffer[offset..offset + c])
    ensures Dumping(buffer, Flush(out, skip) + [Chunk(offset, buffer[offset..offset + c])], 0, offset + c)
  {
    var f := Flush(out, skip);
    if skip != 0 {
      SkipKeepsWellFormed(out, skip, |buffer|);
    }
    ChunkCovers(buffer, out, skip, offset, c);
    ChunkKeepsWellFormed(f, offset, buffer[offset..offset + c], |buffer|);
  }

  /** The flushed dump and the chunk stand for the bytes up to the chunk's
      end. */
  lemma ChunkCovers(buffer: seq<byte>, out: seq<Line>, skip: nat, offset: nat, c: nat)
    requires offset + c <= |buffer| && Expand(out) + Zeros(skip) == buffer[..offset]
    ensures |Expand(Flush(out, skip))| == offset
    ensures Expand(Flush(out, skip) + [Chunk(offset, buffer[offset..offset + c])]) + Zeros(0) == buffer[..offset + c]
  {
    var f := Flush(out, skip);
    var l := Chunk(offset, buffer[offset..offset + c]);
    FlushExpands(out, skip);
    ExpandSnoc(f, l);
    TakeSplit(buffer, offset, offset + c);
    assert Zeros(0) == [];
    ConcatEmpty(Expand(f + [l]));
  }

  /** The dump stands for the whole input and is well formed. */
  lemma DumpIsFaithful(buffer: seq<byte>)
    ensures Expand(Dump(buffer)) == buffer && WellFormed(Dump(buffer), |buffer|)
  {
    var k := ChunkCount(|buffer|);
    ScanAccounts(buffer, k);
    var (out, skip) := Scan(buffer, k);
    if skip != 0 {
      SkipKeepsWellFormed(out, skip, |buffer|);
    }
    FlushExpands(out, skip);
    assert buffer[..|buffer|] == buffer;
  }

  /** The inner loop of blob_dump: whether the chunk is all zeros. */
  method ChunkIsZero(buffer: seq<byte>, offset: nat, chunk: nat) returns (allZeros: bool)
    requires offset + chunk <= |buffer|
    ensures allZeros <==> AllZero(buffer[offset..offset + chunk])
  {
    allZeros := true;
    var i := 0;
    ghost var c := buffer[offset..offset + chunk];
    while i < chunk
      invariant i <= chunk
      invariant allZeros ==> forall j :: offset <= j < offset + i ==> buffer[j] == 0
      invariant !allZeros ==> !AllZero(c)
    {
      if buffer[offset + i] != 0 {
        assert c[i] != 0;
        allZeros := false;
        break;
      }
      i := i + 1;
    }
  }

  /** blob_dump: the dump stands for the whole buffer and is well formed. */
  method BlobDump(buffer: seq<byte>) returns (out: seq<Line>)
    ensures out == Dump(buffer)
    ensures Expand(out) == buffer && WellFormed(out, |buffer|)
  {
    out := [];
    var skip: nat := 0;
    var offset: nat := 0;
    var bytes: int := |buffer|;
    ghost var k: nat := 0;
    while bytes > 0
      invariant bytes >= 0 && offset + bytes == |buffer|
      invariant Scanned(|buffer|, k) && offset == ChunkStart(|buffer|, k)
      invariant (out, skip) == Scan(buffer, k)
    {
      var chunk := if bytes < CHUNK_SIZE then bytes else CHUNK_SIZE;
      var allZeros := ChunkIsZero(buffer, offset, chunk);
      if allZeros {
        skip := skip + chunk;
      } else {
        // Report the zeros skipped before this chunk, then print it.
        out := Flush(out, skip);
        skip := 0;
        out := out + [Chunk(offset, buffer[offset..offset + chunk])];
      }
      bytes := bytes - chunk;
      offset := offset + chunk;
      k := k + 1;
    }
    assert k == ChunkCount(|buffer|);
    out := Flush(out, skip);
    DumpIsFaithful(buffer);
  }

  /** A byte isprint accepts in the C locale. */
  predicate Printable(b: byte) {
    0x20 <= b < 0x7f
  }

  const HEX_DIGITS: string := "0123456789abcdef"

  /** "%02x" */
  function Hex2(b: byte): (h: string)
    ensures |h| == 2 && h[0] in HEX_DIGITS && h[1] in HEX_DIGITS
  {
    [HEX_DIGITS[b as int / 16], HEX_DIGITS[b as int % 16]]
  }

  /** The value of a lowercase hex digit. */
  function HexValue(c: char): nat {
    if '0' <= c <= '9' then c as nat - '0' as nat
    else if 'a' <= c <= 'f' then c as nat - 'a' as nat + 10
    else 0
  }

  /** The hex digits of a chunk, a space before every fourth byte from the
      first. */
  function HexPart(b: seq<byte>): (s: string)
    ensures |s| == 2 * |b| + (|b| + 3) / 4
  {
    if b == [] then []
    else HexPart(b[..|b| - 1]) + (if (|b| - 1) % 4 == 0 then " " else "") + Hex2(b[|b| - 1])
  }

  /** The characters of a chunk, '.' for those not printable, with the same
      spacing. */
  function CharPart(b: seq<byte>): (s: string)
    ensures |s| == |b| + (|b| + 3) / 4
  {
    if b == [] then []
    else CharPart(b[..|b| - 1]) + (if (|b| - 1) % 4 == 0 then " " else "")
         + [if Printable(b[|b| - 1]) then b[|b| - 1] as int as char else '.']
  }

  /** Where the digits of byte i stand in HexPart, and its character in
      CharPart. */
  function HexAt(i: nat): nat { 2 * i + i / 4 + 1 }
  function CharAt(i: nat): nat { i + i / 4 + 1 }

  /** The hex part reads back as the chunk: byte i is the two digits at
      HexAt(i). */
  lemma {:induction false} HexPartReadsBack(b: seq<byte>, i: nat)
    requires i < |b|
    ensures HexAt(i) + 1 < |HexPart(b)|
    ensures HexValue(HexPart(b)[HexAt(i)]) * 16 + HexValue(HexPart(b)[HexAt(i) + 1]) == b[i] as int
    decreases |b|
  {
    var n := |b| - 1;
    HexPartSnoc(b);
    if i < n {
      var pre := b[..n];
      assert pre[i] == b[i];
      HexPartReadsBack(pre, i);
    } else {
      assert i == n;
      Hex2ReadsBack(b[i]);
    }
  }

  /** HexPart of a chunk extends HexPart of its prefix: the digits before
      the last byte stay where they were, and those of the last byte come at
      HexAt. */
  lemma HexPartSnoc(b: seq<byte>)
    requires |b| > 0
    ensures var n := |b| - 1; var hp := HexPart(b[..n]);
      HexAt(n) + 1 < |HexPart(b)|
      && (forall j :: 0 <= j < |hp| ==> HexPart(b)[j] == hp[j])
      && HexPart(b)[HexAt(n)] == Hex2(b[n])[0] && HexPart(b)[HexAt(n) + 1] == Hex2(b[n])[1]
  {
    var n := |b| - 1;
    var sep: string := if n % 4 == 0 then " " else "";
    var hp := HexPart(b[..n]);
    assert HexPart(b) == (hp + sep) + Hex2(b[n]);
    CeilQuarter(n);
    assert |hp + sep| == HexAt(n);
  }

  /** The two digits of "%02x" read back as the byte. */
  lemma Hex2ReadsBack(x: byte)
    ensures HexValue(Hex2(x)[0]) * 16 + HexValue(Hex2(x)[1]) == x as int
  {
    var v := x as int;
    HexDigitValue(v / 16);
    HexDigitValue(v % 16);
    assert v == v / 16 * 16 + v % 16;
  }

  lemma CeilQuarter(n: nat)
    ensures (n + 3) / 4 == n / 4 + (if n % 4 == 0 then 0 else 1)
  {
  }

  lemma HexDigitValue(d: nat)
    requires d < 16
    ensures HexValue(HEX_DIGITS[d]) == d
  {
  }

  /** The character part shows byte i at CharAt(i), or '.' when isprint
      rejects it. */
  lemma {:induction false} CharPartShows(b: seq<byte>, i: nat)
    requires i < |b|
    ensures CharAt(i) < |CharPart(b)|
    ensures CharPart(b)[CharAt(i)] == if Printable(b[i]) then b[i] as int as char else '.'
  {
    var n := |b| - 1;
    var pre := b[..n];
    var sep: string := if n % 4 == 0 then " " else "";
    var cp := CharPart(pre);
    var c: string := [if Printable(b[n]) then b[n] as int as char else '.'];
    assert CharPart(b) == (cp + sep) + c;
    if i < n {
      assert pre[i] == b[i];
      CharPartShows(pre, i);
      assert CharPart(b)[CharAt(i)] == cp[CharAt(i)];
    } else {
      CeilQuarter(n);
      assert |cp + sep| == CharAt(n);
    }
  }

  /** "%d" of a non-negative int. */
  function Decimal(n: nat): (s: string)
    ensures |s| > 0 && forall i :: 0 <= i < |s| ==> '0' <= s[i] <= '9'
  {
    if n < 10 then [('0' as int + n) as char] else Decimal(n / 10) + [('0' as int + n % 10) as char]
  }

  function DecimalValue(s: string): nat {
    if s == [] then 0
    else DecimalValue(s[..|s| - 1]) * 10 + (if '0' <= s[|s| - 1] <= '9' then s[|s| - 1] as int - '0' as int else 0)
  }

  /** The printed offset reads back as the offset. */
  lemma {:induction false} DecimalReadsBack(n: nat)
    ensures DecimalValue(Decimal(n)) == n
  {
    if n >= 10 {
      var s := Decimal(n);
      assert s[..|s| - 1] == Decimal(n / 10);
      DecimalReadsBack(n / 10);
    }
  }

  /** The text printf and putchar produce for one line. */
  function Text(l: Line): string {
    match l
    case Skipped(n) => "  Skipped " + Decimal(n) + " zero bytes.\n"
    case Chunk(offset, b) => "  " + Decimal(offset) + (":" + HexPart(b) + "  " + CharPart(b) + "\n")
  }

  /** A printed chunk's line starts with two spaces and the offset, which
      reads back as the chunk's place in the input, followed by a colon. */
  lemma ChunkLineOffset(offset: nat, b: seq<byte>)
    ensures var t := Text(Chunk(offset, b));
      var d := |Decimal(offset)|;
      |t| > d + 2 && t[..2] == "  " && DecimalValue(t[2..2 + d]) == offset && t[2 + d] == ':'
  {
    DecimalReadsBack(offset);
    var d := Decimal(offset);
    var rest := ":" + HexPart(b) + "  " + CharPart(b) + "\n";
    Middle("  ", d, rest);
  }

  lemma Middle(a: string, d: string, r: string)
    ensures var t := a + d + r; t[..|a|] == a && t[|a|..|a| + |d|] == d && t[|a| + |d|..] == r
  {
  }

}
