/** The OpenSubtitles movie hash as Hasher computes it (src/hash.h): the file
    size plus the 64-bit little-endian words of the first 64 KiB and of a
    second 64 KiB window, modulo 2^64.  The file is read through an input
    stream, and the stream's eofbit and failbit decide what the second
    window contributes; the model keeps that stream state explicitly. */
module Hash {
  import opened Wrappers
  import opened Text

  const WindowBytes: nat := 65536
  /** 65536 / sizeof(uint64_t) */
  const WindowWords: nat := 8192
  const TwoTo64: nat := 0x1_0000_0000_0000_0000

  // ---------------------------------------------------------------------
  // Words

  function Pow256(n: nat): nat {
    if n == 0 then 1 else 256 * Pow256(n - 1)
  }

  /** Bytes read as an unsigned little-endian number. */
  function LittleEndian(bs: seq<bv8>): (r: nat)
    ensures r < Pow256(|bs|)
  {
    if |bs| == 0 then 0 else bs[0] as nat + 256 * LittleEndian(bs[1..])
  }

  /** The uint64_t that an 8-byte read at `off` fills in. */
  function Word(data: seq<bv8>, off: nat): (w: nat)
    requires off + 8 <= |data|
    ensures w < TwoTo64
  {
    assert Pow256(8) == TwoTo64;
    LittleEndian(data[off..off + 8])
  }

  /** Reference sum: every whole 8-byte word of `bs`, in order, a trailing
      partial word left out (no wrap-around). */
  function WordsSum(bs: seq<bv8>): nat
    decreases |bs|
  {
    if |bs| < 8 then 0 else LittleEndian(bs[..8]) + WordsSum(bs[8..])
  }

  /** The sum the read loops accumulate: `n` words from byte `off` on,
      counted from the last one read (no wrap-around). */
  function LoopSum(data: seq<bv8>, off: nat, n: nat): nat
    requires off + 8 * n <= |data|
  {
    if n == 0 then 0 else LoopSum(data, off, n - 1) + Word(data, off + 8 * (n - 1))
  }

  lemma {:induction false} WordsSumAppend(a: seq<bv8>, b: seq<bv8>)
    requires |a| % 8 == 0
    ensures WordsSum(a + b) == WordsSum(a) + WordsSum(b)
    decreases |a|
  {
    if |a| == 0 {
      assert a + b == b;
    } else {
      assert (a + b)[..8] == a[..8];
      assert (a + b)[8..] == a[8..] + b;
      WordsSumAppend(a[8..], b);
    }
  }

  /** The loop's sum is the reference sum of the bytes it covered. */
  lemma {:induction false} LoopSumIsWordsSum(data: seq<bv8>, off: nat, n: nat)
    requires off + 8 * n <= |data|
    ensures LoopSum(data, off, n) == WordsSum(data[off..off + 8 * n])
  {
    if n == 0 {
    } else {
      var prefix := data[off..off + 8 * (n - 1)];
      var last := data[off + 8 * (n - 1)..off + 8 * n];
      assert data[off..off + 8 * n] == prefix + last;
      LoopSumIsWordsSum(data, off, n - 1);
      WordsSumAppend(prefix, last);
      assert last[..8] == last && |last[8..]| == 0;
    }
  }

  /** A trailing partial word adds nothing. */
  lemma {:induction false} WordsSumWhole(bs: seq<bv8>)
    ensures WordsSum(bs) == WordsSum(bs[..8 * (|bs| / 8)])
  {
    var cut := 8 * (|bs| / 8);
    var rest := bs[cut..];
    assert |rest| < 8;
    assert WordsSum(rest) == 0;
    assert bs == bs[..cut] + rest;
    WordsSumAppend(bs[..cut], rest);
  }

  // ---------------------------------------------------------------------
  // The input stream

  /** The std::ifstream the hasher reads: the file, the read position, and
      the eofbit and failbit. */
  datatype Stream = Stream(data: seq<bv8>, pos: nat, eof: bool, fail: bool)

  /** istream::read of one 8-byte word.  The sentry refuses to read from a
      stream that is not good, and sets failbit; a short read moves to the
      end, sets eofbit and failbit, and yields no word. */
  function Read8(f: Stream): (Stream, Option<nat>) {
    if f.eof || f.fail then (f.(fail := true), None)
    else if f.pos + 8 <= |f.data| then (f.(pos := f.pos + 8), Some(Word(f.data, f.pos)))
    else (f.(pos := if f.pos < |f.data| then |f.data| else f.pos, eof := true, fail := true), None)
  }

  /** istream::seekg(pos) as of C++11: eofbit is cleared first, and a stream
      whose failbit is set does not move. */
  function SeekG(f: Stream, pos: nat): Stream {
    var cleared := f.(eof := false);
    if cleared.fail then cleared else cleared.(pos := pos)
  }

  /** Hasher::Max, which takes and returns `int`. */
  function Max(x: Int32, y: Int32): Int32 {
    if x > y then x else y
  }

  /** The argument of the second seekg: Max(0, (MpcHash)fsize - 65536).  The
      uint64 difference is converted to `int` on its way into Max, so the
      offset is the last 64 KiB only while that difference fits in `int`. */
  function TailOffset(size: nat): (off: nat)
    ensures WindowBytes <= size ==> off + WindowBytes <= size
    ensures WindowBytes <= size < WindowBytes + 0x8000_0000 ==> off == size - WindowBytes
  {
    var diff := (size - WindowBytes) % TwoTo64;
    assert WindowBytes <= size ==> diff <= size - WindowBytes;
    Max(0, ToInt32(diff))
  }

  // ---------------------------------------------------------------------
  // The hash

  /** The hash in closed form: below 64 KiB the first read loop ends on a
      failed read, the stream stays failed through the seek, and only the
      whole words of the file count; from 64 KiB on, the first window and
      the window at TailOffset both count, overlapping below 128 KiB. */
  function HashOf(data: seq<bv8>): (h: nat)
    ensures h < TwoTo64
  {
    var size := |data|;
    if size < WindowBytes then Wrap(size + WordsSum(data))
    else
      var off := TailOffset(size);
      Wrap(size + WordsSum(data[..WindowBytes]) + WordsSum(data[off..off + WindowBytes]))
  }

  /** Arithmetic on uint64_t: the value modulo 2^64. */
  function Wrap(x: nat): (r: nat)
    ensures r < TwoTo64
  {
    x % TwoTo64
  }

  lemma ModAdd(a: nat, b: nat)
    ensures Wrap(Wrap(a) + b) == Wrap(a + b)
  {
    var q := a / TwoTo64;
    assert a == q * TwoTo64 + a % TwoTo64;
    assert a + b == q * TwoTo64 + (a % TwoTo64 + b);
  }

  /** One more word added to the running hash keeps it the loop sum modulo 2^64. */
  lemma {:induction false} AddWord(data: seq<bv8>, start: nat, i: nat, hash: nat, h: nat)
    requires start + 8 * (i + 1) <= |data|
    requires h == Wrap(hash + LoopSum(data, start, i))
    ensures Wrap(h + Word(data, start + 8 * i)) == Wrap(hash + LoopSum(data, start, i + 1))
  {
    ModAdd(hash + LoopSum(data, start, i), Word(data, start + 8 * i));
  }

  /** A read that finds no whole word left ends the loop after every whole word. */
  lemma ShortReadCount(size: nat, start: nat, i: nat)
    requires start + 8 * i <= size < start + 8 * i + 8
    ensures i == (size - start) / 8
  {
  }

  /** What one read loop does to the stream and the running hash.  A failed
      stream reads nothing.  A good stream that holds a whole 64 KiB window
      from its position is read through it and stays good; otherwise every
      whole word up to the end is read, and the short read leaves the stream
      at the end with eofbit and failbit set. */
  function WindowRead(f: Stream, hash: nat): (Stream, nat)
    requires !f.fail ==> f.pos <= |f.data|
  {
    if f.fail then (f, hash)
    else if f.pos + WindowBytes <= |f.data| then
      (f.(pos := f.pos + WindowBytes), Wrap(hash + LoopSum(f.data, f.pos, WindowWords)))
    else
      (Stream(f.data, |f.data|, true, true), Wrap(hash + LoopSum(f.data, f.pos, (|f.data| - f.pos) / 8)))
  }

  /** After `n` words of the read loop on the good stream `f`: the stream has
      moved over them and the hash has added them. */
  predicate ReadSoFar(f: Stream, hash: nat, g: Stream, h: nat, n: nat) {
    && n <= WindowWords && f.pos + 8 * n <= |f.data|
    && g == f.(pos := f.pos + 8 * n)
    && h == Wrap(hash + LoopSum(f.data, f.pos, n))
  }

  /** A whole word left: the read succeeds and the loop moves on by one word. */
  lemma ReadStep(f: Stream, hash: nat, g: Stream, h: nat, n: nat)
    requires !f.fail && !f.eof && ReadSoFar(f, hash, g, h, n)
    requires g.pos + 8 <= |g.data|
    ensures Read8(g).1.Some?
    ensures n < WindowWords ==> ReadSoFar(f, hash, Read8(g).0, Wrap(h + Read8(g).1.value), n + 1)
  {
    assert Read8(g) == (g.(pos := g.pos + 8), Some(Word(f.data, f.pos + 8 * n)));
    if n < WindowWords {
      AddWord(f.data, f.pos, n, hash, h);
    }
  }

  /** No whole word left: the read fails and the loop ends as WindowRead says. */
  lemma ReadShort(f: Stream, hash: nat, g: Stream, h: nat, n: nat)
    requires !f.fail && !f.eof && ReadSoFar(f, hash, g, h, n)
    requires n < WindowWords && |g.data| < g.pos + 8
    ensures Read8(g).1.None?
    ensures n == (|f.data| - f.pos) / 8 && (Read8(g).0, h) == WindowRead(f, hash)
  {
    ShortReadCount(|f.data|, f.pos, n);
    assert |f.data| < f.pos + WindowBytes;
    assert Read8(g).0 == Stream(f.data, |f.data|, true, true);
  }

  /** The read loop on a good stream, returning how many words it read. */
  method ReadFrom(f: Stream, hash: nat) returns (g: Stream, h: nat, n: nat)
    requires hash < TwoTo64
    requires !f.fail && !f.eof && f.pos <= |f.data|
    ensures n == if f.pos + WindowBytes <= |f.data| then WindowWords else (|f.data| - f.pos) / 8
    ensures (g, h) == WindowRead(f, hash)
  {
    g, h := f, hash;
    n := 0;
    while n < WindowWords
      invariant ReadSoFar(f, hash, g, h, n)
    {
      if g.pos + 8 <= |g.data| {
        ReadStep(f, hash, g, h, n);
      } else {
        ReadShort(f, hash, g, h, n);
      }
      var (next, word) := Read8(g);
      if word.None? {
        return next, h, n;
      }
      g := next;
      n := n + 1;
      h := Wrap(h + word.value);
    }
  }

  /** One of Hasher::ComputeHash's two read loops: up to 8192 reads of one
      word each, stopping at the first failed read, every word read added
      to the hash modulo 2^64. */
  method ReadWindow(f: Stream, hash: nat) returns (g: Stream, h: nat)
    requires hash < TwoTo64
    requires !f.fail ==> !f.eof && f.pos <= |f.data|
    ensures (g, h) == WindowRead(f, hash)
  {
    if f.fail {
      var (next, _) := Read8(f);
      g, h := next, hash;
    } else {
      var n;
      g, h, n := ReadFrom(f, hash);
    }
  }

  /** Adding in three steps, wrapping after each, wraps the whole sum. */
  lemma WrapThree(n: nat, a: nat, b: nat)
    ensures Wrap(Wrap(Wrap(n) + a) + b) == Wrap(n + a + b)
  {
    ModAdd(n, a);
    ModAdd(n + a, b);
  }

  /** Below 64 KiB: the size, then the file's whole words. */
  lemma {:induction false} SmallHashSteps(data: seq<bv8>)
    requires |data| < WindowBytes
    ensures Wrap(Wrap(|data|) + LoopSum(data, 0, |data| / 8)) == HashOf(data)
  {
    ModAdd(|data|, LoopSum(data, 0, |data| / 8));
    LoopSumIsWordsSum(data, 0, |data| / 8);
    WordsSumWhole(data);
  }

  /** From 64 KiB on: the size, the first window, then the window at TailOffset. */
  lemma {:induction false} LargeHashSteps(data: seq<bv8>, off: nat)
    requires WindowBytes <= |data| && off == TailOffset(|data|)
    ensures Wrap(Wrap(Wrap(|data|) + LoopSum(data, 0, WindowWords)) + LoopSum(data, off, WindowWords)) == HashOf(data)
  {
    WrapThree(|data|, LoopSum(data, 0, WindowWords), LoopSum(data, off, WindowWords));
    LoopSumIsWordsSum(data, 0, WindowWords);
    LoopSumIsWordsSum(data, off, WindowWords);
  }

  /** The first read loop, from the start of the file, on the hash seeded with the size. */
  function FirstWindow(data: seq<bv8>): (Stream, nat) {
    WindowRead(Stream(data, 0, false, false), Wrap(|data|))
  }

  /** Below 64 KiB the first loop fails, the seek keeps the failed stream, and
      the second loop adds nothing. */
  lemma {:induction false} SmallTwoWindows(data: seq<bv8>)
    requires |data| < WindowBytes
    ensures SeekG(FirstWindow(data).0, TailOffset(|data|)).fail
    ensures WindowRead(SeekG(FirstWindow(data).0, TailOffset(|data|)), FirstWindow(data).1).1 == HashOf(data)
  {
    SmallHashSteps(data);
  }

  /** From 64 KiB on the first loop leaves the stream good, and the seek moves
      it to TailOffset, where a whole window is left. */
  lemma {:induction false} LargeTwoWindows(data: seq<bv8>)
    requires WindowBytes <= |data|
    ensures SeekG(FirstWindow(data).0, TailOffset(|data|)) == Stream(data, TailOffset(|data|), false, false)
    ensures WindowRead(SeekG(FirstWindow(data).0, TailOffset(|data|)), FirstWindow(data).1).1 == HashOf(data)
  {
    var off := TailOffset(|data|);
    var first := FirstWindow(data);
    assert first == (Stream(data, WindowBytes, false, false), Wrap(Wrap(|data|) + LoopSum(data, 0, WindowWords)));
    var second := SeekG(first.0, off);
    assert second == Stream(data, off, false, false);
    assert WindowRead(second, first.1).1 == Wrap(first.1 + LoopSum(data, off, WindowWords));
    LargeHashSteps(data, off);
  }

  /** The two read loops around the seek compute the closed form. */
  lemma {:induction false} TwoWindowsHash(data: seq<bv8>)
    ensures var second := SeekG(FirstWindow(data).0, TailOffset(|data|));
            (second.fail || second.pos <= |data|) && WindowRead(second, FirstWindow(data).1).1 == HashOf(data)
  {
    if |data| < WindowBytes {
      SmallTwoWindows(data);
    } else {
      LargeTwoWindows(data);
    }
  }

  /** Hasher::ComputeHash: the size, then the first read loop, the seek to
      TailOffset, and the second read loop, on the stream as the C++ drives
      it, compute the closed form. */
  method ComputeHash(data: seq<bv8>) returns (hash: nat)
    ensures hash == HashOf(data)
  {
    var fsize := |data|;
    var f := Stream(data, 0, false, false);
    hash := Wrap(fsize);
    f, hash := ReadWindow(f, hash);
    TwoWindowsHash(data);
    f := SeekG(f, TailOffset(fsize));
    f, hash := ReadWindow(f, hash);
  }

  // ---------------------------------------------------------------------
  // The hex rendering

  function HexDigit(d: nat): char
    requires d < 16
  {
    "0123456789abcdef"[d]
  }

  predicate IsLowerHex(c: char) {
    '0' <= c <= '9' || 'a' <= c <= 'f'
  }

  function HexDigitValue(c: char): nat
    requires IsLowerHex(c)
  {
    if c <= '9' then c as int - '0' as int else c as int - 'a' as int + 10
  }

  /** The value of a run of lowercase hex digits, most significant first. */
  function HexValue(s: string): nat
    requires forall i | 0 <= i < |s| :: IsLowerHex(s[i])
  {
    if |s| == 0 then 0 else 16 * HexValue(s[..|s| - 1]) + HexDigitValue(s[|s| - 1])
  }

  function Pow16(n: nat): nat {
    if n == 0 then 1 else 16 * Pow16(n - 1)
  }

  lemma Pow16Sixteen()
    ensures Pow16(16) == TwoTo64
  {
    assert Pow16(4) == 0x1_0000;
    assert Pow16(8) == 0x1_0000_0000;
    assert Pow16(12) == 0x1_0000_0000_0000;
  }

  /** `n` in `width` lowercase hex digits, zero-padded on the left
      (std::setw(width), std::setfill('0'), std::hex). */
  function Hex(n: nat, width: nat): (r: string)
    ensures |r| == width
    ensures forall i | 0 <= i < |r| :: IsLowerHex(r[i])
  {
    if width == 0 then "" else Hex(n / 16, width - 1) + [HexDigit(n % 16)]
  }

  /** Every value that fits the width reads back from its digits. */
  lemma {:induction false} HexRoundTrip(n: nat, width: nat)
    requires n < Pow16(width)
    ensures HexValue(Hex(n, width)) == n
  {
    if width > 0 {
      var r := Hex(n, width);
      assert r[..|r| - 1] == Hex(n / 16, width - 1);
      HexRoundTrip(n / 16, width - 1);
      assert HexDigitValue(HexDigit(n % 16)) == n % 16;
    }
  }

  /** Hasher::ComputeHashAsString: always exactly 16 lowercase hex digits,
      and they read back as the hash. */
  method ComputeHashAsString(data: seq<bv8>) returns (s: string)
    ensures |s| == 16
    ensures forall i | 0 <= i < |s| :: IsLowerHex(s[i])
    ensures HexValue(s) == HashOf(data)
  {
    var hash := ComputeHash(data);
    s := Hex(hash, 16);
    Pow16Sixteen();
    HexRoundTrip(hash, 16);
  }

  // ---------------------------------------------------------------------
  // Properties of the hash

  /** An empty file hashes to 0, rendered as sixteen zeros. */
  lemma EmptyFileHash()
    ensures HashOf([]) == 0
    ensures Hex(HashOf([]), 16) == "0000000000000000"
  {
    assert Hex(0, 4) == "0000";
    assert Hex(0, 8) == "00000000";
    assert Hex(0, 12) == "000000000000";
  }

  /** Below 64 KiB the second window adds nothing: the hash is the size plus
      the file's whole words, each counted once. */
  lemma {:induction false} SmallFileHash(data: seq<bv8>)
    requires |data| < WindowBytes
    ensures HashOf(data) == Wrap(|data| + LoopSum(data, 0, |data| / 8))
  {
    assert HashOf(data) == Wrap(|data| + WordsSum(data));
    LoopSumIsWordsSum(data, 0, |data| / 8);
    WordsSumWhole(data);
  }

  /** From 64 KiB on, while the size minus 64 KiB fits in `int`, the hash is
      the size plus the first 64 KiB plus the last 64 KiB. */
  lemma {:induction false} LargeFileHash(data: seq<bv8>)
    requires WindowBytes <= |data| < WindowBytes + 0x8000_0000
    ensures HashOf(data)
         == Wrap(|data| + WordsSum(data[..WindowBytes]) + WordsSum(data[|data| - WindowBytes..]))
  {
    var off := TailOffset(|data|);
    assert off == |data| - WindowBytes;
    assert data[off..off + WindowBytes] == data[|data| - WindowBytes..];
  }

  /** From 128 KiB on the two windows are disjoint. */
  lemma WindowsDisjointFrom128K(size: nat)
    requires 2 * WindowBytes <= size < WindowBytes + 0x8000_0000
    ensures WindowBytes <= TailOffset(size)
  {
  }

  /** Between 64 KiB and 128 KiB the windows overlap and the shared words are
      counted twice (shown for a size that keeps both windows word-aligned). */
  lemma {:induction false} OverlapCountedTwice(data: seq<bv8>)
    requires WindowBytes <= |data| < 2 * WindowBytes && |data| % 8 == 0
    ensures HashOf(data)
         == Wrap(|data| + WordsSum(data[..|data| - WindowBytes])
              + 2 * WordsSum(data[|data| - WindowBytes..WindowBytes])
              + WordsSum(data[WindowBytes..]))
  {
    var off := |data| - WindowBytes;
    WindowsSplitAt(data, off);
    assert data[off..off + WindowBytes] == data[off..];
    assert HashOf(data) == Wrap(|data| + WordsSum(data[..WindowBytes]) + WordsSum(data[off..]));
  }

  /** The first window split at a word-aligned `off`, and the window from
      `off` split at the end of the first window. */
  lemma {:induction false} WindowsSplitAt(data: seq<bv8>, off: nat)
    requires off % 8 == 0 && off <= WindowBytes <= |data|
    ensures WordsSum(data[..WindowBytes]) == WordsSum(data[..off]) + WordsSum(data[off..WindowBytes])
    ensures WordsSum(data[off..]) == WordsSum(data[off..WindowBytes]) + WordsSum(data[WindowBytes..])
  {
    assert data[..WindowBytes] == data[..off] + data[off..WindowBytes];
    WordsSumAppend(data[..off], data[off..WindowBytes]);
    assert data[off..] == data[off..WindowBytes] + data[WindowBytes..];
    WordsSumAppend(data[off..WindowBytes], data[WindowBytes..]);
  }

  /** A file of exactly 64 KiB counts every word twice. */
  lemma {:induction false} WholeWindowCountedTwice(data: seq<bv8>)
    requires |data| == WindowBytes
    ensures HashOf(data) == Wrap(WindowBytes + 2 * WordsSum(data))
  {
    assert data[..WindowBytes] == data;
    assert data[0..0 + WindowBytes] == data;
  }

  // ---------------------------------------------------------------------
  // The offset truncation, and the offset the algorithm intends

  /** As written, a file whose size minus 64 KiB is at least 2^31 and below
      2^32 gets the offset 0 for its second window, which then repeats the
      first: a 2 GiB + 64 KiB file is hashed as size + 2 * first window. */
  lemma {:induction false} TailOffsetTruncated(data: seq<bv8>)
    requires WindowBytes + 0x8000_0000 <= |data| < WindowBytes + TwoTo32
    ensures TailOffset(|data|) == 0
    ensures HashOf(data) == Wrap(|data| + 2 * WordsSum(data[..WindowBytes]))
  {
    assert (|data| - WindowBytes) % TwoTo64 == |data| - WindowBytes;
    assert data[0..0 + WindowBytes] == data[..WindowBytes];
  }

  /** The offset the movie-hash algorithm intends: the last 64 KiB, computed
      without leaving 64-bit arithmetic. */
  function IntendedTailOffset(size: nat): (off: nat)
    requires WindowBytes <= size
    ensures off + WindowBytes == size
  {
    size - WindowBytes
  }

  /** The hash with the intended offset. */
  function IntendedHashOf(data: seq<bv8>): (h: nat)
    ensures h < TwoTo64
  {
    var size := |data|;
    if size < WindowBytes then HashOf(data)
    else
      var off := IntendedTailOffset(size);
      Wrap(size + WordsSum(data[..WindowBytes]) + WordsSum(data[off..off + WindowBytes]))
  }

  /** With the intended offset the second window is always the last 64 KiB. */
  lemma {:induction false} IntendedHashUsesLastWindow(data: seq<bv8>)
    requires WindowBytes <= |data|
    ensures IntendedHashOf(data)
         == Wrap(|data| + WordsSum(data[..WindowBytes]) + WordsSum(data[|data| - WindowBytes..]))
  {
    var off := IntendedTailOffset(|data|);
    assert data[off..off + WindowBytes] == data[|data| - WindowBytes..];
  }

  /** The intended hash agrees with the as-written one wherever the `int`
      conversion of the offset does not bite. */
  lemma {:induction false} IntendedHashAgrees(data: seq<bv8>)
    requires |data| < WindowBytes + 0x8000_0000
    ensures IntendedHashOf(data) == HashOf(data)
  {
    if WindowBytes <= |data| {
      assert TailOffset(|data|) == IntendedTailOffset(|data|);
    }
  }
}
