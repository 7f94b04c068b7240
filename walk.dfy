/**
 * Walk: for every file name listed in an input file, the 32-bit one-at-a-time hash of the
 * file's bytes, written as eight lowercase hexadecimal digits followed by the name.
 */
module Walk {
  import opened Seqs

  /** A byte of a file, as the eight bits Java stores in a byte. */
  type byte = bv8

  /** The hash written when a file cannot be opened or read. */
  const INVALID_HASH: string := "00000000"

  /** The capacity of the read buffer. */
  const BUFFER_SIZE: nat := 4096

  /** Java's widening of a (signed) byte to int: the sign bit is copied into the upper 24 bits. */
  function Widen(b: byte): (w: bv32)
    ensures b < 0x80 ==> w < 0x80
    ensures b >= 0x80 ==> w >= 0xFFFF_FF80
  {
    if b < 0x80 then b as bv32 else (b as bv32) | 0xFFFF_FF00
  }

  /** bytes[b] & 0xff: the byte's unsigned value, 0 to 255, whatever its sign. */
  function Unsigned(b: byte): (u: bv32)
    ensures u == b as bv32 && u < 256
  {
    Widen(b) & 0xFF
  }

  /** One step of the mixing loop: hash += b; hash += hash << 10; hash ^= hash >>> 6. */
  function Step(h: bv32, b: byte): bv32
  {
    var h1 := h + Unsigned(b);
    var h2 := h1 + (h1 << 10);
    h2 ^ (h2 >> 6)
  }

  /** The finaliser: hash += hash << 3; hash ^= hash >>> 11; hash += hash << 15. */
  function Finish(h: bv32): bv32
  {
    var h1 := h + (h << 3);
    var h2 := h1 ^ (h1 >> 11);
    h2 + (h2 << 15)
  }

  /** The mixing loop run from h over the given bytes, in order. */
  function Accumulate(h: bv32, bytes: seq<byte>): bv32
  {
    if |bytes| == 0 then h else Step(Accumulate(h, bytes[..|bytes| - 1]), bytes[|bytes| - 1])
  }

  /** The one-at-a-time hash of a whole file. */
  function Hash(bytes: seq<byte>): bv32
  {
    Finish(Accumulate(0, bytes))
  }

  /** Mixing over a + b is mixing over a, then continuing over b. */
  lemma {:induction false} AccumulateAppend(h: bv32, a: seq<byte>, b: seq<byte>)
    ensures Accumulate(h, a + b) == Accumulate(Accumulate(h, a), b)
  {
    if |b| > 0 {
      var b' := b[..|b| - 1];
      assert (a + b)[..|a + b| - 1] == a + b';
      assert (a + b)[|a + b| - 1] == b[|b| - 1];
      AccumulateAppend(h, a, b');
    } else {
      assert a + b == a;
    }
  }

  /** The state after mixing the chunks read so far, one read at a time. */
  function AccumulateChunks(h: bv32, chunks: seq<seq<byte>>): bv32
  {
    if |chunks| == 0 then h
    else Accumulate(AccumulateChunks(h, chunks[..|chunks| - 1]), chunks[|chunks| - 1])
  }

  /** One more read continues the mixing over the bytes it delivered. */
  lemma AccumulateChunksNext(h: bv32, chunks: seq<seq<byte>>, r: nat)
    requires r < |chunks|
    ensures AccumulateChunks(h, chunks[..r + 1]) == Accumulate(AccumulateChunks(h, chunks[..r]), chunks[r])
  {
    assert chunks[..r + 1][..r] == chunks[..r];
  }

  /** However the file is split into chunks, the mixing state is that of the whole content. */
  lemma {:induction false} ChunkingIrrelevant(h: bv32, chunks: seq<seq<byte>>)
    ensures AccumulateChunks(h, chunks) == Accumulate(h, Concat(chunks))
  {
    if |chunks| > 0 {
      var init := chunks[..|chunks| - 1];
      ChunkingIrrelevant(h, init);
      AccumulateAppend(h, Concat(init), chunks[|chunks| - 1]);
    }
  }

  /** Zero bytes leave a zero state at zero, so a file of zero bytes hashes like an empty one. */
  lemma {:induction false} ZeroBytesKeepZero(bytes: seq<byte>)
    requires forall i :: 0 <= i < |bytes| ==> bytes[i] == 0
    ensures Accumulate(0, bytes) == 0
  {
    if |bytes| > 0 {
      ZeroBytesKeepZero(bytes[..|bytes| - 1]);
      assert Unsigned(bytes[|bytes| - 1]) == 0;
    }
  }

  /** The empty file and every file of zero bytes hash to the same digits as a failure. */
  lemma EmptyFileHashIsInvalidHash(bytes: seq<byte>)
    requires forall i :: 0 <= i < |bytes| ==> bytes[i] == 0
    ensures Format(Hash(bytes)) == INVALID_HASH
  {
    ZeroBytesKeepZero(bytes);
    assert Finish(0) == 0;
    ZeroFormat();
  }

  /** The lowercase hexadecimal digit of a value below 16. */
  function HexDigit(n: bv32): (c: char)
    requires n < 16
    ensures IsHexDigit(c)
  {
    if n < 10 then ('0' as int + n as int) as char else ('a' as int + n as int - 10) as char
  }

  /** The characters "%x" produces. */
  predicate IsHexDigit(c: char)
  {
    '0' <= c <= '9' || 'a' <= c <= 'f'
  }

  /** The value of a lowercase hexadecimal digit. */
  function DigitValue(c: char): (n: bv32)
    requires IsHexDigit(c)
    ensures n < 16
  {
    if c <= '9' then (c as int - '0' as int) as bv32 else (c as int - 'a' as int + 10) as bv32
  }

  lemma DigitRoundTrip(n: bv32)
    requires n < 16
    ensures DigitValue(HexDigit(n)) == n
  {
  }

  /** String.format("%08x", hash): the 32 bits of hash as eight hexadecimal digits, high first. */
  function Format(h: bv32): (s: string)
    ensures |s| == 8 && forall i :: 0 <= i < 8 ==> IsHexDigit(s[i])
  {
    [ HexDigit((h >> 28) & 0xF), HexDigit((h >> 24) & 0xF), HexDigit((h >> 20) & 0xF),
      HexDigit((h >> 16) & 0xF), HexDigit((h >> 12) & 0xF), HexDigit((h >> 8) & 0xF),
      HexDigit((h >> 4) & 0xF), HexDigit(h & 0xF) ]
  }

  /** Reads eight hexadecimal digits back into 32 bits. */
  function Parse(s: string): (h: bv32)
    requires |s| == 8 && forall i :: 0 <= i < 8 ==> IsHexDigit(s[i])
  {
    (DigitValue(s[0]) << 28) | (DigitValue(s[1]) << 24) | (DigitValue(s[2]) << 20)
      | (DigitValue(s[3]) << 16) | (DigitValue(s[4]) << 12) | (DigitValue(s[5]) << 8)
      | (DigitValue(s[6]) << 4) | DigitValue(s[7])
  }

  /** The eight nibbles of a 32-bit value put back together give the value. */
  lemma NibblesRebuild(h: bv32)
    ensures (((h >> 28) & 0xF) << 28) | (((h >> 24) & 0xF) << 24) | (((h >> 20) & 0xF) << 20)
      | (((h >> 16) & 0xF) << 16) | (((h >> 12) & 0xF) << 12) | (((h >> 8) & 0xF) << 8)
      | (((h >> 4) & 0xF) << 4) | (h & 0xF) == h
  {
  }

  /** The printed digits determine the hash: parsing them gives it back. */
  lemma FormatRoundTrip(h: bv32)
    ensures Parse(Format(h)) == h
  {
    var s := Format(h);
    DigitRoundTrip((h >> 28) & 0xF);
    DigitRoundTrip((h >> 24) & 0xF);
    DigitRoundTrip((h >> 20) & 0xF);
    DigitRoundTrip((h >> 16) & 0xF);
    DigitRoundTrip((h >> 12) & 0xF);
    DigitRoundTrip((h >> 8) & 0xF);
    DigitRoundTrip((h >> 4) & 0xF);
    DigitRoundTrip(h & 0xF);
    NibblesRebuild(h);
  }

  /** The zero hash prints as INVALID_HASH. */
  lemma ZeroFormat()
    ensures Format(0) == INVALID_HASH
  {
    assert HexDigit(0) == '0';
  }

  /**
   * What opening and reading a named file yields: it cannot be opened (a missing file, a bad
   * path, a security manager refusal), or it delivers its content in reads of at most
   * BUFFER_SIZE bytes, possibly followed by an I/O error (on a later read or on closing).
   */
  datatype FileSource = Unopenable | Readable(chunks: seq<seq<byte>>, failsAfter: bool)

  /** Every read returns at most as many bytes as the buffer holds. */
  predicate WellFormedSource(f: FileSource)
  {
    f.Readable? ==> forall i :: 0 <= i < |f.chunks| ==> |f.chunks[i]| <= BUFFER_SIZE
  }

  /** The digits countHash returns for a file. */
  function HashLine(f: FileSource): string
  {
    if f.Unopenable? || f.failsAfter then INVALID_HASH else Format(Hash(Concat(f.chunks)))
  }

  /**
   * countHash: chunks the file through a BUFFER_SIZE buffer, mixes every byte read into the
   * hash, finalises and formats it; any failure gives INVALID_HASH.
   */
  method CountHash(f: FileSource) returns (result: string)
    requires WellFormedSource(f)
    ensures result == HashLine(f)
    ensures |result| == 8 && forall i :: 0 <= i < 8 ==> IsHexDigit(result[i])
  {
    if f.Unopenable? {
      return INVALID_HASH;
    }
    var bytes := new byte[BUFFER_SIZE];
    var hash: bv32 := 0;
    var r := 0;
    while r < |f.chunks|
      invariant 0 <= r <= |f.chunks|
      invariant hash == AccumulateChunks(0, f.chunks[..r])
    {
      var chunk := f.chunks[r];
      var cnt := |chunk|;
      forall k | 0 <= k < cnt {
        bytes[k] := chunk[k];
      }
      ghost var start := hash;
      for b := 0 to cnt
        invariant hash == Accumulate(start, chunk[..b])
      {
        hash := Step(hash, bytes[b]);
        assert chunk[..b + 1][..b] == chunk[..b];
      }
      assert chunk[..cnt] == chunk;
      AccumulateChunksNext(0, f.chunks, r);
      r := r + 1;
    }
    if f.failsAfter {
      return INVALID_HASH;
    }
    assert f.chunks[..r] == f.chunks;
    ChunkingIrrelevant(0, f.chunks);
    hash := Finish(hash);
    result := Format(hash);
  }

  /** The line main writes for one file name. */
  function OutputLine(files: string -> FileSource, fileName: string, lineSeparator: string): string
  {
    HashLine(files(fileName)) + " " + fileName + lineSeparator
  }

  /**
   * main's loop: one line per file name read, in order, each the hash, a space, the name and
   * the line separator. files stands for the file system.
   */
  method WriteHashes(fileNames: seq<string>, files: string -> FileSource, lineSeparator: string)
    returns (out: seq<string>)
    requires forall name :: WellFormedSource(files(name))
    ensures |out| == |fileNames|
    ensures forall i :: 0 <= i < |fileNames| ==> out[i] == OutputLine(files, fileNames[i], lineSeparator)
  {
    out := [];
    var i := 0;
    while i < |fileNames|
      invariant 0 <= i <= |fileNames| && |out| == i
      invariant forall j :: 0 <= j < i ==> out[j] == OutputLine(files, fileNames[j], lineSeparator)
    {
      var fileName := fileNames[i];
      var hash := CountHash(files(fileName));
      out := out + [hash + " " + fileName + lineSeparator];
      i := i + 1;
    }
  }

  /** Every written line starts with eight hexadecimal digits and a space, then the name. */
  lemma OutputLineShape(files: string -> FileSource, fileName: string, lineSeparator: string)
    ensures var line := OutputLine(files, fileName, lineSeparator);
      && |line| == 9 + |fileName| + |lineSeparator|
      && (forall i :: 0 <= i < 8 ==> IsHexDigit(line[i]))
      && line[8] == ' '
      && line[9..9 + |fileName|] == fileName
  {
    var h := HashLine(files(fileName));
    assert |h| == 8 && forall i :: 0 <= i < 8 ==> IsHexDigit(h[i]);
  }
}
