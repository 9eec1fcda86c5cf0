/**
 * The streaming cache iterator's page reader.
 *
 * A page file holds an 8-byte header (the body's byte count, then the number of terms, each a
 * big-endian two's-complement 32-bit int) followed by the body. readPage opens the file,
 * reads the header into the front of the shared term buffer, decodes the two ints, reads the
 * body right behind the header, logs the bytes read, and then appends the first numTerms
 * pool terms to the term cache. Short reads are fatal; an I/O failure is reported with the
 * page's path.
 */
module StreamingPages {
  import opened Wrappers

  newtype byte = x: int | 0 <= x < 256

  const HeaderSize: int := 8

  datatype PageError =
    | Unreadable(path: string)
    | BufferIndexOutOfBounds(offset: int, length: int)
    | ShortHeaderRead(path: string, expected: int, readSize: int)
    | ShortTermsRead(path: string, expected: int, readSize: int)
    | PoolIndexOutOfBounds(index: int, size: int)

  // ---------------------------------------------------------------------------
  // 32-bit ints in the buffer

  /** ByteBuffer.getInt in its default byte order: big-endian, two's complement. */
  function DecodeInt32(b: seq<byte>): (x: int)
    requires |b| == 4
    ensures -0x8000_0000 <= x < 0x8000_0000
    ensures x < 0 <==> b[0] >= 128
  {
    var u := (b[0] as int) * 0x100_0000 + (b[1] as int) * 0x1_0000 + (b[2] as int) * 0x100 + (b[3] as int);
    if u >= 0x8000_0000 then u - 0x1_0000_0000 else u
  }

  /** The four bytes a writer puts down for x. */
  function EncodeInt32(x: int): (b: seq<byte>)
    requires -0x8000_0000 <= x < 0x8000_0000
    ensures |b| == 4
  {
    var u := if x < 0 then x + 0x1_0000_0000 else x;
    var q1 := u / 0x100;
    var q2 := q1 / 0x100;
    var q3 := q2 / 0x100;
    [q3 as byte, (q2 % 0x100) as byte, (q1 % 0x100) as byte, (u % 0x100) as byte]
  }

  lemma DecodeEncodeInt32(x: int)
    requires -0x8000_0000 <= x < 0x8000_0000
    ensures DecodeInt32(EncodeInt32(x)) == x
  {
    var u := if x < 0 then x + 0x1_0000_0000 else x;
    var q1 := u / 0x100;
    var q2 := q1 / 0x100;
    var q3 := q2 / 0x100;
    assert u == q1 * 0x100 + u % 0x100;
    assert q1 == q2 * 0x100 + q1 % 0x100;
    assert q2 == q3 * 0x100 + q2 % 0x100;
    assert q3 < 0x100;
  }

  lemma EncodeDecodeInt32(b: seq<byte>)
    requires |b| == 4
    ensures EncodeInt32(DecodeInt32(b)) == b
  {
    var u := (b[0] as int) * 0x100_0000 + (b[1] as int) * 0x1_0000 + (b[2] as int) * 0x100 + (b[3] as int);
    var q1 := (b[0] as int) * 0x1_0000 + (b[1] as int) * 0x100 + (b[2] as int);
    var q2 := (b[0] as int) * 0x100 + (b[1] as int);
    assert u == q1 * 0x100 + b[3] as int;
    assert u / 0x100 == q1 && u % 0x100 == b[3] as int;
    assert q1 / 0x100 == q2 && q1 % 0x100 == b[2] as int;
    assert q2 / 0x100 == b[0] as int && q2 % 0x100 == b[1] as int;
  }

  // ---------------------------------------------------------------------------
  // Reading from the file

  /**
   * What FileInputStream.read(b, off, len) returns on a regular file with `available` bytes
   * left: 0 when nothing is asked for, -1 at end of file, otherwise as many as are there.
   */
  function StreamRead(available: int, len: int): (n: int)
    requires len >= 0
    ensures n == -1 || 0 <= n <= len
    ensures n == len <==> len == 0 || available >= len
    ensures n == -1 <==> len > 0 && available <= 0
  {
    if len == 0 then 0
    else if available <= 0 then -1
    else if len < available then len else available
  }

  /** buf with src written over it from off on. */
  function Overwrite(buf: seq<byte>, off: nat, src: seq<byte>): (r: seq<byte>)
    requires off + |src| <= |buf|
    ensures |r| == |buf|
    ensures forall j :: 0 <= j < |buf| ==> r[j] == if off <= j < off + |src| then src[j - off] else buf[j]
  {
    buf[..off] + src + buf[off + |src|..]
  }

  /** The bytes a read of len bytes at file offset `consumed` delivers. */
  function Delivered(content: seq<byte>, consumed: nat, len: nat): (d: seq<byte>)
    requires consumed <= |content|
    ensures |d| == if StreamRead(|content| - consumed, len) > 0 then StreamRead(|content| - consumed, len) else 0
    ensures d <= content[consumed..]
  {
    var n := StreamRead(|content| - consumed, len);
    if n > 0 then content[consumed..consumed + n] else []
  }

  /**
   * One FileInputStream.read(b, off, len) into the buffer, `consumed` bytes into the file:
   * the range check comes first, then the bytes delivered are copied one by one.
   */
  method ReadInto(content: seq<byte>, consumed: nat, b: array<byte>, off: int, len: int)
    returns (r: Result<int, PageError>)
    requires consumed <= |content|
    modifies b
    ensures off < 0 || len < 0 || len > b.Length - off ==>
              r == Failure(BufferIndexOutOfBounds(off, len)) && b[..] == old(b[..])
    ensures !(off < 0 || len < 0 || len > b.Length - off) ==>
              r == Success(StreamRead(|content| - consumed, len))
              && b[..] == Overwrite(old(b[..]), off, Delivered(content, consumed, len))
  {
    if off < 0 || len < 0 || len > b.Length - off {
      return Failure(BufferIndexOutOfBounds(off, len));
    }
    var n := StreamRead(|content| - consumed, len);
    ghost var d := Delivered(content, consumed, len);
    var k := 0;
    while k < n
      invariant 0 <= k <= |d|
      invariant forall j :: 0 <= j < b.Length ==>
                  b[j] == if off <= j < off + k then d[j - off] else old(b[j])
    {
      b[off + k] := content[consumed + k];
      k := k + 1;
    }
    assert b[..] == Overwrite(old(b[..]), off, d);
    r := Success(n);
  }

  // ---------------------------------------------------------------------------
  // readPage as a function of its inputs

  /** Pool slots 0 .. n-1, in order. */
  function Slots(n: nat): (s: seq<nat>)
    ensures |s| == n
    ensures forall i :: 0 <= i < n ==> s[i] == i
  {
    seq(n, i => i)
  }

  /**
   * Everything one readPage call does: its outcome, the buffer afterwards, the byte count it
   * logs and the pool slots it appends to the cache.
   */
  datatype PageRead = PageRead(outcome: Outcome<PageError>, buffer: seq<byte>, logged: int, appended: seq<nat>)

  function ReadPageSpec(path: string, file: Option<seq<byte>>, buffer: seq<byte>, poolSize: nat): PageRead {
    if file.None? then PageRead(Fail(Unreadable(path)), buffer, 0, [])
    else
      var content := file.value;
      if HeaderSize > |buffer| then PageRead(Fail(BufferIndexOutOfBounds(0, HeaderSize)), buffer, 0, [])
      else
        var headerRead := StreamRead(|content|, HeaderSize);
        var buffer1 := Overwrite(buffer, 0, Delivered(content, 0, HeaderSize));
        if headerRead != HeaderSize then
          PageRead(Fail(ShortHeaderRead(path, HeaderSize, headerRead)), buffer1, 0, [])
        else
          var termsSize := DecodeInt32(buffer1[0..4]);
          var numTerms := DecodeInt32(buffer1[4..8]);
          if termsSize < 0 || termsSize > |buffer| - HeaderSize then
            PageRead(Fail(BufferIndexOutOfBounds(HeaderSize, termsSize)), buffer1, 0, [])
          else
            var termsRead := StreamRead(|content| - HeaderSize, termsSize);
            var buffer2 := Overwrite(buffer1, HeaderSize, Delivered(content, HeaderSize, termsSize));
            if termsRead != termsSize then
              PageRead(Fail(ShortTermsRead(path, termsSize, termsRead)), buffer2, 0, [])
            else if numTerms > poolSize then
              PageRead(Fail(PoolIndexOutOfBounds(poolSize, poolSize)), buffer2, HeaderSize + termsSize, Slots(poolSize))
            else
              PageRead(Pass, buffer2, HeaderSize + termsSize, Slots(if numTerms < 0 then 0 else numTerms))
  }

  /** The page a writer produces for a body holding numTerms terms. */
  function EncodePage(body: seq<byte>, numTerms: int): (page: seq<byte>)
    requires |body| < 0x8000_0000 && -0x8000_0000 <= numTerms < 0x8000_0000
    ensures |page| == HeaderSize + |body|
  {
    EncodeInt32(|body|) + EncodeInt32(numTerms) + body
  }

  /** The body size and term count a page's header declares. */
  function DeclaredSize(content: seq<byte>): int
    requires |content| >= HeaderSize
  {
    DecodeInt32(content[0..4])
  }

  function DeclaredTerms(content: seq<byte>): int
    requires |content| >= HeaderSize
  {
    DecodeInt32(content[4..8])
  }

  /** A full header read puts the file's first eight bytes at the front of the buffer. */
  lemma HeaderLandsInFront(content: seq<byte>, buffer: seq<byte>)
    requires |content| >= HeaderSize && |buffer| >= HeaderSize
    ensures var buffer1 := Overwrite(buffer, 0, Delivered(content, 0, HeaderSize));
            buffer1[0..4] == content[0..4] && buffer1[4..8] == content[4..8]
  {
  }

  /**
   * A page is accepted exactly when the file can be read, the buffer holds the header, the
   * file holds a full header and the declared body, the declared body fits the buffer, and
   * the pool has a term for every declared term.
   */
  lemma ReadPageSucceedsIff(path: string, file: Option<seq<byte>>, buffer: seq<byte>, poolSize: nat)
    ensures ReadPageSpec(path, file, buffer, poolSize).outcome == Pass <==>
              && file.Some?
              && |buffer| >= HeaderSize
              && |file.value| >= HeaderSize
              && 0 <= DeclaredSize(file.value) <= |buffer| - HeaderSize
              && DeclaredSize(file.value) <= |file.value| - HeaderSize
              && DeclaredTerms(file.value) <= poolSize
  {
    if file.Some? && |buffer| >= HeaderSize && |file.value| >= HeaderSize {
      HeaderLandsInFront(file.value, buffer);
    }
  }

  /**
   * After an accepted page the buffer holds the header and the body, the rest of the buffer
   * is untouched, the header and body bytes are logged, and the cache gains the first
   * numTerms pool slots (none for a negative count).
   */
  lemma AcceptedPageEffects(path: string, content: seq<byte>, buffer: seq<byte>, poolSize: nat)
    requires ReadPageSpec(path, Some(content), buffer, poolSize).outcome == Pass
    ensures |content| >= HeaderSize
    ensures var r := ReadPageSpec(path, Some(content), buffer, poolSize);
            var n := HeaderSize + DeclaredSize(content);
            && 0 <= DeclaredSize(content)
            && n <= |buffer| && n <= |content|
            && r.buffer[..n] == content[..n]
            && r.buffer[n..] == buffer[n..]
            && r.logged == n
            && r.appended == Slots(if DeclaredTerms(content) < 0 then 0 else DeclaredTerms(content))
  {
    ReadPageSucceedsIff(path, Some(content), buffer, poolSize);
    HeaderLandsInFront(content, buffer);
  }

  /**
   * A rejected page logs nothing and adds nothing to the cache, except when the pool runs
   * out: then the bytes were already logged and the whole pool has been appended.
   */
  lemma RejectedPageEffects(path: string, file: Option<seq<byte>>, buffer: seq<byte>, poolSize: nat)
    requires ReadPageSpec(path, file, buffer, poolSize).outcome.Fail?
    ensures var r := ReadPageSpec(path, file, buffer, poolSize);
            if r.outcome.error.PoolIndexOutOfBounds? then
              && file.Some? && |file.value| >= HeaderSize
              && r.logged == HeaderSize + DeclaredSize(file.value)
              && r.appended == Slots(poolSize)
              && DeclaredTerms(file.value) > poolSize
            else
              r.logged == 0 && r.appended == []
  {
    if file.Some? && |buffer| >= HeaderSize && |file.value| >= HeaderSize {
      HeaderLandsInFront(file.value, buffer);
    }
  }

  /** A file shorter than the header is reported with the bytes it did deliver (-1 if none). */
  lemma ShortHeaderReported(path: string, content: seq<byte>, buffer: seq<byte>, poolSize: nat)
    requires |content| < HeaderSize && |buffer| >= HeaderSize
    ensures ReadPageSpec(path, Some(content), buffer, poolSize).outcome
            == Fail(ShortHeaderRead(path, HeaderSize, if |content| == 0 then -1 else |content|))
  {
  }

  /** A body shorter than declared is reported with the bytes it did deliver (-1 if none). */
  lemma ShortBodyReported(path: string, content: seq<byte>, buffer: seq<byte>, poolSize: nat)
    requires |content| >= HeaderSize && |buffer| >= HeaderSize
    requires 0 <= DeclaredSize(content) <= |buffer| - HeaderSize
    requires DeclaredSize(content) > |content| - HeaderSize
    ensures ReadPageSpec(path, Some(content), buffer, poolSize).outcome
            == Fail(ShortTermsRead(path, DeclaredSize(content),
                                   if |content| == HeaderSize then -1 else |content| - HeaderSize))
  {
    HeaderLandsInFront(content, buffer);
  }

  /**
   * Reading back a page as a writer lays it out yields its body in the buffer, logs its
   * size and hands out one pool slot per term.
   */
  lemma EncodedPageReadsBack(path: string, body: seq<byte>, numTerms: int, buffer: seq<byte>, poolSize: nat)
    requires |body| < 0x8000_0000 && -0x8000_0000 <= numTerms < 0x8000_0000
    requires numTerms <= poolSize
    requires HeaderSize + |body| <= |buffer|
    ensures var page := EncodePage(body, numTerms);
            ReadPageSpec(path, Some(page), buffer, poolSize)
            == PageRead(Pass, page + buffer[HeaderSize + |body|..], HeaderSize + |body|,
                        Slots(if numTerms < 0 then 0 else numTerms))
  {
    var page := EncodePage(body, numTerms);
    assert page[0..4] == EncodeInt32(|body|);
    assert page[4..8] == EncodeInt32(numTerms);
    DecodeEncodeInt32(|body|);
    DecodeEncodeInt32(numTerms);
    ExactPageAccepted(path, page, buffer, poolSize);
  }

  /** A page exactly as long as its header declares is accepted, and lands whole at the front of the buffer. */
  lemma ExactPageAccepted(path: string, page: seq<byte>, buffer: seq<byte>, poolSize: nat)
    requires |page| >= HeaderSize && |buffer| >= |page|
    requires DeclaredSize(page) == |page| - HeaderSize
    requires DeclaredTerms(page) <= poolSize
    ensures ReadPageSpec(path, Some(page), buffer, poolSize)
            == PageRead(Pass, page + buffer[|page|..], |page|,
                        Slots(if DeclaredTerms(page) < 0 then 0 else DeclaredTerms(page)))
  {
    ReadPageSucceedsIff(path, Some(page), buffer, poolSize);
    AcceptedPageEffects(path, page, buffer, poolSize);
    var r := ReadPageSpec(path, Some(page), buffer, poolSize);
    assert r.buffer == r.buffer[..|page|] + r.buffer[|page|..];
  }

  /**
   * Bytes after the declared body are never looked at: an accepted page stays accepted,
   * with the same effects, whatever follows it in the file.
   */
  lemma TrailingBytesIgnored(path: string, page: seq<byte>, extra: seq<byte>, buffer: seq<byte>, poolSize: nat)
    requires ReadPageSpec(path, Some(page), buffer, poolSize).outcome == Pass
    ensures ReadPageSpec(path, Some(page + extra), buffer, poolSize) == ReadPageSpec(path, Some(page), buffer, poolSize)
  {
    ReadPageSucceedsIff(path, Some(page), buffer, poolSize);
    var content := page + extra;
    assert content[0..4] == page[0..4] && content[4..8] == page[4..8];
    var ts := DeclaredSize(page);
    assert Delivered(content, 0, HeaderSize) == Delivered(page, 0, HeaderSize);
    assert Delivered(content, HeaderSize, ts) == Delivered(page, HeaderSize, ts);
  }

  /** Reading the same page again, into the buffer the first read left, repeats its effects. */
  lemma ReadPageIdempotent(path: string, file: Option<seq<byte>>, buffer: seq<byte>, poolSize: nat)
    ensures var first := ReadPageSpec(path, file, buffer, poolSize);
            ReadPageSpec(path, file, first.buffer, poolSize) == first
  {
    var first := ReadPageSpec(path, file, buffer, poolSize);
    if file.Some? && |buffer| >= HeaderSize {
      var content := file.value;
      var d1 := Delivered(content, 0, HeaderSize);
      var buffer1 := Overwrite(buffer, 0, d1);
      assert Overwrite(buffer1, 0, d1) == buffer1;
      if StreamRead(|content|, HeaderSize) == HeaderSize {
        var ts := DecodeInt32(buffer1[0..4]);
        if 0 <= ts <= |buffer| - HeaderSize {
          var d2 := Delivered(content, HeaderSize, ts);
          var buffer2 := Overwrite(buffer1, HeaderSize, d2);
          var again1 := Overwrite(buffer2, 0, d1);
          assert again1 == buffer2;
          assert again1[0..4] == buffer1[0..4] && again1[4..8] == buffer1[4..8];
          assert Overwrite(again1, HeaderSize, d2) == buffer2;
        }
      }
    }
  }

  // ---------------------------------------------------------------------------
  // The iterator's state

  class SGDStreamingCacheIterator {
    /** The shared term buffer's backing array; both reads land here. */
    const termBuffer: array<byte>
    /** The number of term objects in the pool. */
    const poolSize: nat
    /** The cache, as the pool slots of the terms it holds, in order. */
    var termCache: seq<nat>
    /** The running disk-read counter the iterator logs into. */
    var diskBytesRead: int

    constructor (termBuffer: array<byte>, poolSize: nat)
      ensures this.termBuffer == termBuffer && this.poolSize == poolSize
      ensures termCache == [] && diskBytesRead == 0
    {
      this.termBuffer := termBuffer;
      this.poolSize := poolSize;
      termCache := [];
      diskBytesRead := 0;
    }

    /**
     * Reads one page into the term buffer and appends its terms (as pool slots) to the
     * cache. `file` is the page's contents, or None when the file cannot be opened or read.
     */
    method ReadPage(path: string, file: Option<seq<byte>>) returns (outcome: Outcome<PageError>)
      modifies this, termBuffer
      ensures var s := ReadPageSpec(path, file, old(termBuffer[..]), poolSize);
              && outcome == s.outcome
              && termBuffer[..] == s.buffer
              && diskBytesRead == old(diskBytesRead) + s.logged
              && termCache == old(termCache) + s.appended
    {
      if file.None? {
        return Fail(Unreadable(path));
      }
      var content := file.value;

      // First read the term size information.
      var readSize := ReadInto(content, 0, termBuffer, 0, HeaderSize);
      if readSize.Failure? {
        return Fail(readSize.error);
      }
      if readSize.value != HeaderSize {
        return Fail(ShortHeaderRead(path, HeaderSize, readSize.value));
      }

      var termsSize := DecodeInt32(termBuffer[0..4]);
      var numTerms := DecodeInt32(termBuffer[4..8]);

      // Now read in all the terms.
      readSize := ReadInto(content, HeaderSize, termBuffer, HeaderSize, termsSize);
      if readSize.Failure? {
        return Fail(readSize.error);
      }
      if readSize.value != termsSize {
        return Fail(ShortTermsRead(path, termsSize, readSize.value));
      }

      diskBytesRead := diskBytesRead + HeaderSize + termsSize;

      // Hand out the pool's terms in slot order.
      ghost var pageBytes := termBuffer[..];
      var i := 0;
      while i < numTerms
        invariant 0 <= i <= poolSize
        invariant termBuffer[..] == pageBytes
        invariant diskBytesRead == old(diskBytesRead) + HeaderSize + termsSize
        invariant i <= numTerms || i == 0
        invariant termCache == old(termCache) + Slots(i)
        decreases numTerms - i
      {
        if i >= poolSize {
          return Fail(PoolIndexOutOfBounds(i, poolSize));
        }
        termCache := termCache + [i];
        i := i + 1;
      }
      outcome := Pass;
    }
  }
}
