/**
 * The byte-cursor reader (src/internal/reader.c).
 *
 * The source wraps a stdio FILE handle; this model is a cursor over the
 * file's bytes, which do not change while the reader is open. The cursor
 * (ftell) may lie past the end of the data, because a skip seeks without a
 * bound check. The end-of-file indicator is set by a read that comes up
 * short and cleared by every successful seek, as stdio does.
 */
module Reader {
  import opened ByteOrder

  const ShortReadMessage: string := "Error: Read less than requested amount of bytes."
  const EndOfFileMessage: string := "Error: End of file reached."

  function Min(a: int, b: int): int { if a <= b then a else b }
  function Max(a: int, b: int): int { if a <= b then b else a }

  /** A path handed to the open call: NULL, a file that cannot be opened, or a readable file. */
  datatype Source = NullPath | Unopenable | File(bytes: seq<byte>)

  class Reader {
    /** The file's contents; the size the source asks for with sd_reader_filesize is |data|. */
    const data: seq<byte>
    /** The stream position (ftell). */
    var pos: int
    /** The last error message, copied in by a failing operation. */
    var err: string
    /** The stream's end-of-file indicator (feof). */
    var eof: bool
    /** Whether the handle has been closed. */
    var closed: bool

    ghost predicate Valid()
      reads this
    {
      0 <= pos && (eof ==> pos >= |data|)
    }

    /** Bytes that a read at the current position can still deliver. */
    function Remaining(): (n: nat)
      reads this
      ensures n <= |data|
      ensures 0 <= pos <= |data| ==> n == |data| - pos
    {
      if 0 <= pos < |data| then |data| - pos else 0
    }

    /**
     * The effect of a read of len bytes on the cursor state: the position
     * moves past the bytes that were there (all len of them, or up to the end
     * of the data); only a short read touches the error text and sets the
     * end-of-file indicator.
     */
    twostate predicate Consumed(len: nat)
      reads this
    {
      pos == old(pos) + Min(len, old(Remaining())) &&
      closed == old(closed) &&
      (len <= old(Remaining()) ==> err == old(err) && eof == old(eof)) &&
      (len > old(Remaining()) ==> err == ShortReadMessage && eof && pos == Max(old(pos), |data|))
    }

    /**
     * The effect of sd_peek_buf on the cursor state, as the source has it: a
     * read that gets all len bytes leaves the cursor advanced by len; a short
     * read seeks to len bytes before where the read stopped (a seek to a
     * negative offset fails and leaves the cursor at the end).
     */
    twostate predicate PeekedAsWritten(len: nat)
      reads this
    {
      closed == old(closed) &&
      (len <= old(Remaining()) ==>
         pos == old(pos) + len && err == old(err) && eof == old(eof)) &&
      (len > old(Remaining()) ==>
         err == ShortReadMessage &&
         var stop := Max(old(pos), |data|);
         if stop - len >= 0 then pos == stop - len && !eof
         else pos == stop && eof)
    }

    constructor (bytes: seq<byte>)
      ensures Valid() && data == bytes && pos == 0 && !eof && !closed
    {
      data := bytes;
      pos := 0;
      err := "";
      eof := false;
      closed := false;
    }

    /** sd_reader_close: release the handle. */
    method Close()
      modifies this
      ensures closed && pos == old(pos) && eof == old(eof) && err == old(err)
    {
      closed := true;
    }

    /** sd_reader_ok: 0 with the end-of-file message once the end has been hit, 1 otherwise. */
    method Ok() returns (rc: int)
      requires Valid()
      modifies this`err
      ensures Valid()
      ensures eof ==> rc == 0 && err == EndOfFileMessage
      ensures !eof ==> rc == 1 && err == old(err)
    {
      if eof {
        err := EndOfFileMessage;
        return 0;
      }
      return 1;
    }

    /** sd_reader_pos: the current position; nothing changes. */
    method Pos() returns (p: int)
      ensures p == pos
    {
      p := pos;
    }

    /** sd_reader_set: seek to an absolute position (clears the end-of-file indicator). */
    method Set(p: nat)
      modifies this`pos, this`eof
      ensures Valid() && pos == p && !eof
    {
      pos := p;
      eof := false;
    }

    /** sd_skip: seek nbytes forward from the current position, with no check against the data length. */
    method Skip(nbytes: nat)
      requires Valid()
      modifies this`pos, this`eof
      ensures Valid() && pos == old(pos) + nbytes && !eof
    {
      pos := pos + nbytes;
      eof := false;
    }

    /**
     * sd_read_buf: read len bytes into buf. ok (1 in the source) exactly when
     * len bytes remained. The bytes that were there land at the front of buf
     * and the rest of buf keeps what it held.
     */
    method ReadBuf(buf: array<byte>, len: nat) returns (ok: bool)
      requires Valid() && len <= buf.Length
      modifies this`pos, this`err, this`eof, buf
      ensures Valid() && Consumed(len)
      ensures ok <==> len <= old(Remaining())
      ensures var n := Min(len, old(Remaining()));
        (n > 0 ==> buf[..n] == data[old(pos)..old(pos) + n]) && buf[n..] == old(buf[n..])
    {
      var n := Min(len, Remaining());
      forall k | 0 <= k < n {
        buf[k] := data[pos + k];
      }
      pos := pos + n;
      if n != len {
        err := ShortReadMessage;
        eof := true;
        return false;
      }
      return true;
    }

    /**
     * sd_peek_buf as written: it returns 0 when the read succeeds, and then
     * does NOT move the cursor back; only a short read seeks back by len from
     * where the read stopped, and returns 1.
     */
    method PeekBuf(buf: array<byte>, len: nat) returns (rc: int)
      requires Valid() && len <= buf.Length
      modifies this`pos, this`err, this`eof, buf
      ensures Valid() && PeekedAsWritten(len)
      ensures rc == 0 <==> len <= old(Remaining())
      ensures rc == 0 || rc == 1
      ensures var n := Min(len, old(Remaining()));
        (n > 0 ==> buf[..n] == data[old(pos)..old(pos) + n]) && buf[n..] == old(buf[n..])
    {
      var ok := ReadBuf(buf, len);
      if ok {
        return 0;
      }
      var target := pos - len;
      if target >= 0 {
        pos := target;
        eof := false;
      }
      return 1;
    }

    /** sd_read_ubyte: one byte. */
    method ReadUByte() returns (d: byte)
      requires Valid()
      modifies this`pos, this`err, this`eof
      ensures Valid() && Consumed(1)
      ensures 1 <= old(Remaining()) ==> d == data[old(pos)]
    {
      var b := new byte[1];
      var _ := ReadBuf(b, 1);
      d := b[0];
    }

    /** sd_read_uword: two bytes, little-endian. */
    method ReadUWord() returns (d: u16)
      requires Valid()
      modifies this`pos, this`err, this`eof
      ensures Valid() && Consumed(2)
      ensures 2 <= old(Remaining()) ==> d == LeValue(data[old(pos)..old(pos) + 2])
    {
      var b := new byte[2];
      var _ := ReadBuf(b, 2);
      assert b[..] == b[..2];
      Widths();
      d := LeValue(b[..]);
    }

    /** sd_read_udword: four bytes, little-endian. */
    method ReadUDword() returns (d: u32)
      requires Valid()
      modifies this`pos, this`err, this`eof
      ensures Valid() && Consumed(4)
      ensures 4 <= old(Remaining()) ==> d == LeValue(data[old(pos)..old(pos) + 4])
    {
      var b := new byte[4];
      var _ := ReadBuf(b, 4);
      assert b[..] == b[..4];
      Widths();
      d := LeValue(b[..]);
    }

    /** sd_read_byte: one byte, two's complement. */
    method ReadByte() returns (d: i8)
      requires Valid()
      modifies this`pos, this`err, this`eof
      ensures Valid() && Consumed(1)
      ensures 1 <= old(Remaining()) ==> d == ToSigned(data[old(pos)], 1)
    {
      var b := new byte[1];
      var _ := ReadBuf(b, 1);
      Widths();
      d := ToSigned(b[0], 1);
    }

    /** sd_read_word: two bytes, little-endian two's complement. */
    method ReadWord() returns (d: i16)
      requires Valid()
      modifies this`pos, this`err, this`eof
      ensures Valid() && Consumed(2)
      ensures 2 <= old(Remaining()) ==> d == ToSigned(LeValue(data[old(pos)..old(pos) + 2]), 2)
    {
      var b := new byte[2];
      var _ := ReadBuf(b, 2);
      assert b[..] == b[..2];
      Widths();
      d := ToSigned(LeValue(b[..]), 2);
    }

    /** sd_read_dword: four bytes, little-endian two's complement. */
    method ReadDword() returns (d: i32)
      requires Valid()
      modifies this`pos, this`err, this`eof
      ensures Valid() && Consumed(4)
      ensures 4 <= old(Remaining()) ==> d == ToSigned(LeValue(data[old(pos)..old(pos) + 4]), 4)
    {
      var b := new byte[4];
      var _ := ReadBuf(b, 4);
      assert b[..] == b[..4];
      Widths();
      d := ToSigned(LeValue(b[..]), 4);
    }

    /** sd_peek_ubyte: as sd_peek_buf on one byte. */
    method PeekUByte() returns (d: byte)
      requires Valid()
      modifies this`pos, this`err, this`eof
      ensures Valid() && PeekedAsWritten(1)
      ensures 1 <= old(Remaining()) ==> d == data[old(pos)]
    {
      var b := new byte[1];
      var _ := PeekBuf(b, 1);
      d := b[0];
    }

    /** sd_peek_uword: as sd_peek_buf on two bytes, little-endian. */
    method PeekUWord() returns (d: u16)
      requires Valid()
      modifies this`pos, this`err, this`eof
      ensures Valid() && PeekedAsWritten(2)
      ensures 2 <= old(Remaining()) ==> d == LeValue(data[old(pos)..old(pos) + 2])
    {
      var b := new byte[2];
      var _ := PeekBuf(b, 2);
      assert b[..] == b[..2];
      Widths();
      d := LeValue(b[..]);
    }

    /** sd_peek_udword: as sd_peek_buf on four bytes, little-endian. */
    method PeekUDword() returns (d: u32)
      requires Valid()
      modifies this`pos, this`err, this`eof
      ensures Valid() && PeekedAsWritten(4)
      ensures 4 <= old(Remaining()) ==> d == LeValue(data[old(pos)..old(pos) + 4])
    {
      var b := new byte[4];
      var _ := PeekBuf(b, 4);
      assert b[..] == b[..4];
      Widths();
      d := LeValue(b[..]);
    }

    /** sd_peek_byte: as sd_peek_buf on one byte, two's complement. */
    method PeekByte() returns (d: i8)
      requires Valid()
      modifies this`pos, this`err, this`eof
      ensures Valid() && PeekedAsWritten(1)
      ensures 1 <= old(Remaining()) ==> d == ToSigned(data[old(pos)], 1)
    {
      var b := new byte[1];
      var _ := PeekBuf(b, 1);
      Widths();
      d := ToSigned(b[0], 1);
    }

    /** sd_peek_word: as sd_peek_buf on two bytes, little-endian two's complement. */
    method PeekWord() returns (d: i16)
      requires Valid()
      modifies this`pos, this`err, this`eof
      ensures Valid() && PeekedAsWritten(2)
      ensures 2 <= old(Remaining()) ==> d == ToSigned(LeValue(data[old(pos)..old(pos) + 2]), 2)
    {
      var b := new byte[2];
      var _ := PeekBuf(b, 2);
      assert b[..] == b[..2];
      Widths();
      d := ToSigned(LeValue(b[..]), 2);
    }

    /** sd_peek_dword: as sd_peek_buf on four bytes, little-endian two's complement. */
    method PeekDword() returns (d: i32)
      requires Valid()
      modifies this`pos, this`err, this`eof
      ensures Valid() && PeekedAsWritten(4)
      ensures 4 <= old(Remaining()) ==> d == ToSigned(LeValue(data[old(pos)..old(pos) + 4]), 4)
    {
      var b := new byte[4];
      var _ := PeekBuf(b, 4);
      assert b[..] == b[..4];
      Widths();
      d := ToSigned(LeValue(b[..]), 4);
    }

    /**
     * sd_match: fetch |buf| bytes with sd_peek_buf and compare them with buf.
     * When the bytes are there the answer is exact; after a short fetch the
     * comparison reads an uninitialised tail, so nothing is promised.
     */
    method Match(buf: seq<byte>) returns (rc: int)
      requires Valid()
      modifies this`pos, this`err, this`eof
      ensures Valid() && PeekedAsWritten(|buf|)
      ensures rc == 0 || rc == 1
      ensures old(pos) + |buf| <= |data| ==> (rc == 1 <==> data[old(pos)..old(pos) + |buf|] == buf)
    {
      var t := new byte[|buf|];
      var _ := PeekBuf(t, |buf|);
      if t[..] == buf {
        return 1;
      }
      return 0;
    }
  }

  /** sd_reader_open: a reader at position 0, or null when the file cannot be opened. */
  method Open(src: Source) returns (r: Reader?)
    requires !src.NullPath?
    ensures src.Unopenable? ==> r == null
    ensures src.File? ==>
      r != null && fresh(r) && r.Valid() && r.data == src.bytes && r.pos == 0 && !r.eof && !r.closed
  {
    if src.Unopenable? {
      return null;
    }
    r := new Reader(src.bytes);
  }
}
