/**
 * The byte-cursor writer that sd_rec_save drives. Its source (writer.c) is
 * not part of this model: the writer is an append-only byte sequence with
 * the same little-endian, two's complement encodings as the reader, and
 * writes do not fail.
 */
module Writer {
  import opened ByteOrder

  /** A path handed to the open call: NULL, one that cannot be created, or a writable one. */
  datatype Dest = NullPath | Unopenable | Writable

  class Writer {
    /** Everything written so far. */
    var out: seq<byte>
    var closed: bool

    constructor ()
      ensures out == [] && !closed
    {
      out := [];
      closed := false;
    }

    method Close()
      modifies this`closed
      ensures closed
    {
      closed := true;
    }

    method WriteBuf(bs: seq<byte>)
      modifies this`out
      ensures out == old(out) + bs
    {
      out := out + bs;
    }

    method WriteFill(v: byte, n: nat)
      modifies this`out
      ensures out == old(out) + Fill(v, n)
    {
      out := out + Fill(v, n);
    }

    method WriteUByte(v: byte)
      modifies this`out
      ensures out == old(out) + [v]
    {
      out := out + [v];
    }

    method WriteUDword(v: u32)
      modifies this`out
      ensures out == old(out) + LeBytes(v, 4)
    {
      Widths();
      out := out + LeBytes(v, 4);
    }

    method WriteByte(x: i8)
      modifies this`out
      ensures out == old(out) + [ToUnsigned(x, 1)]
    {
      Widths();
      out := out + [ToUnsigned(x, 1)];
    }

    method WriteWord(x: i16)
      modifies this`out
      ensures out == old(out) + LeBytes(ToUnsigned(x, 2), 2)
    {
      Widths();
      out := out + LeBytes(ToUnsigned(x, 2), 2);
    }

    method WriteDword(x: i32)
      modifies this`out
      ensures out == old(out) + LeBytes(ToUnsigned(x, 4), 4)
    {
      Widths();
      out := out + LeBytes(ToUnsigned(x, 4), 4);
    }
  }

  /** A writer with nothing written, or null when the destination cannot be created. */
  method Open(dest: Dest) returns (w: Writer?)
    requires !dest.NullPath?
    ensures dest.Unopenable? ==> w == null
    ensures dest.Writable? ==> w != null && fresh(w) && w.out == [] && !w.closed
  {
    if dest.Unopenable? {
      return null;
    }
    w := new Writer();
  }
}
