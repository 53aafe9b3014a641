/**
 * The REC replay codec and its move list (src/rec.c): a RecFile record that
 * sd_rec_load fills from a file through the byte cursor, that sd_rec_save
 * writes out through the writer, and whose move list the editing calls
 * change in place.
 */
module Rec {
  import opened ByteOrder
  import opened Actions
  import opened RecFormat
  import opened MoveList
  import R = Reader
  import W = Writer

  /** The source's return codes. */
  datatype Status = Success | InvalidInput | FileOpenError | FileParseError | OutOfMemory

  datatype Option<T> = None | Some(value: T)

  /**
   * A player profile as the external profile codec produced it. That codec
   * is not part of this model; the profile is the bytes it consumed.
   */
  datatype Pilot = Pilot(bytes: seq<byte>)

  class RecFile {
    var pilots: seq<Option<Pilot>>
    var hackTime: seq<seq<byte>>
    var scores: seq<u32>
    var scalars: Scalars
    /** move_count; the editing calls change it before the allocation that can fail. */
    var moveCount: int
    var moves: seq<Move>

    ghost predicate Valid()
      reads this
    {
      |pilots| == 2 && HeaderShaped(hackTime, scores) && moveCount == |moves| && AllWellFormed(moves)
    }

    /** Every field holds what sd_rec_load reads from data, for a profile codec that consumes ps bytes. */
    ghost predicate LoadedFrom(data: seq<byte>, ps: nat)
      requires ps <= HackTimeSize && |data| >= MinFileSize
      reads this
    {
      hackTime == [HackTimeAt(data, ps, 0), HackTimeAt(data, ps, 1)] &&
      pilots == [Some(Pilot(data[SlotStart(ps, 0)..SlotStart(ps, 0) + ps])),
                 Some(Pilot(data[SlotStart(ps, 1)..SlotStart(ps, 1) + ps]))] &&
      scores == [ScoreAt(data, ps, 0), ScoreAt(data, ps, 1)] &&
      scalars == ScalarsAt(data, ps) &&
      moves == MovesAt(data, ps) &&
      moveCount == |moves|
    }
  }

  /** sd_rec_create: clear every field. */
  method Create(rec: RecFile?) returns (st: Status)
    modifies rec
    ensures rec == null ==> st == InvalidInput
    ensures rec != null ==> st == Success && rec.Valid()
    ensures rec != null ==>
      rec.pilots == [None, None] &&
      rec.hackTime == [Fill(0, HackTimeSize), Fill(0, HackTimeSize)] &&
      rec.scores == [0, 0] &&
      rec.scalars == Scalars(0, 0, 0, 0, 0, 0, 0, 0, 0, 0, 0, 0, 0) &&
      rec.moveCount == 0 && rec.moves == []
  {
    if rec == null {
      return InvalidInput;
    }
    rec.pilots := [None, None];
    rec.hackTime := [Fill(0, HackTimeSize), Fill(0, HackTimeSize)];
    rec.scores := [0, 0];
    rec.scalars := Scalars(0, 0, 0, 0, 0, 0, 0, 0, 0, 0, 0, 0, 0);
    rec.moveCount := 0;
    rec.moves := [];
    return Success;
  }

  /**
   * sd_pilot_create and sd_pilot_load, which are not part of this model: the
   * profile is the ps bytes at the cursor, and loading it consumes them.
   */
  method LoadPilot(r: R.Reader, ps: nat) returns (p: Pilot)
    requires r.Valid()
    modifies r`pos, r`err, r`eof
    ensures r.Valid() && r.Consumed(ps)
    ensures old(r.pos) + ps <= |r.data| ==> p == Pilot(r.data[old(r.pos)..old(r.pos) + ps])
  {
    var b := new byte[ps];
    var _ := r.ReadBuf(b, ps);
    assert b[..] == b[..ps];
    p := Pilot(b[..]);
  }

  // The typed reads of the header and the record heads, at positions where
  // the bytes are known to be there: each moves the cursor by its width and
  // touches neither the error text nor the end-of-file indicator. They call
  // the reader's typed reads and draw this consequence once, so that the
  // load loops do not carry the short-read cases they cannot meet.

  method ReadU8(r: R.Reader) returns (x: byte)
    requires r.Valid() && r.pos + 1 <= |r.data|
    modifies r`pos, r`err, r`eof
    ensures r.Valid() && r.pos == old(r.pos) + 1 && r.eof == old(r.eof) && r.err == old(r.err)
    ensures x == r.data[old(r.pos)]
  {
    x := r.ReadUByte();
  }

  method ReadU32(r: R.Reader) returns (x: u32)
    requires r.Valid() && r.pos + 4 <= |r.data|
    modifies r`pos, r`err, r`eof
    ensures r.Valid() && r.pos == old(r.pos) + 4 && r.eof == old(r.eof) && r.err == old(r.err)
    ensures x == LeValue(r.data[old(r.pos)..old(r.pos) + 4])
  {
    x := r.ReadUDword();
  }

  method ReadI8(r: R.Reader) returns (x: i8)
    requires r.Valid() && r.pos + 1 <= |r.data|
    modifies r`pos, r`err, r`eof
    ensures r.Valid() && r.pos == old(r.pos) + 1 && r.eof == old(r.eof) && r.err == old(r.err)
    ensures x == ToSigned(r.data[old(r.pos)], 1)
  {
    x := r.ReadByte();
  }

  method ReadI16(r: R.Reader) returns (x: i16)
    requires r.Valid() && r.pos + 2 <= |r.data|
    modifies r`pos, r`err, r`eof
    ensures r.Valid() && r.pos == old(r.pos) + 2 && r.eof == old(r.eof) && r.err == old(r.err)
    ensures x == Word(r.data[old(r.pos)], r.data[old(r.pos) + 1])
  {
    x := r.ReadWord();
    ghost var p := old(r.pos);
    assert r.data[p..p + 2] == [r.data[p], r.data[p + 1]];
  }

  method ReadI32(r: R.Reader) returns (x: i32)
    requires r.Valid() && r.pos + 4 <= |r.data|
    modifies r`pos, r`err, r`eof
    ensures r.Valid() && r.pos == old(r.pos) + 4 && r.eof == old(r.eof) && r.err == old(r.err)
    ensures x == Dword(r.data[old(r.pos)], r.data[old(r.pos) + 1], r.data[old(r.pos) + 2], r.data[old(r.pos) + 3])
  {
    x := r.ReadDword();
    ghost var p := old(r.pos);
    assert r.data[p..p + 4] == [r.data[p], r.data[p + 1], r.data[p + 2], r.data[p + 3]];
  }

  // Three sequence facts the move loop needs, each proved in a context of
  // its own: proved inline, among the loop's frame and DecodeFrom facts,
  // they cost the solver far more.

  /** Moving the record just read from the records still to come to the records kept. */
  lemma ShiftOne<T>(prev: seq<T>, x: T, later: seq<T>, step: seq<T>, all: seq<T>)
    requires step == [x] + later && prev + step == all
    ensures (prev + [x]) + later == all
  {
  }

  /** With nothing left to decode, the records kept are all of them. */
  lemma NothingLeft<T>(got: seq<T>, rest: seq<T>, all: seq<T>)
    requires rest == [] && got + rest == all
    ensures got == all
  {
  }

  /** The prefix of the whole length is the whole sequence. */
  lemma WholePrefix<T>(a: seq<T>, n: int)
    requires n == |a|
    ensures a[..n] == a
  {
  }

  /** The thirteen header scalars, read in file order with the signed accessors. */
  method ReadScalars(r: R.Reader) returns (s: Scalars)
    requires r.Valid() && r.pos + ScalarsSize <= |r.data|
    modifies r`pos, r`err, r`eof
    ensures r.Valid() && r.pos == old(r.pos) + ScalarsSize && r.eof == old(r.eof)
    ensures s == ParseScalars(r.data[old(r.pos)..old(r.pos) + ScalarsSize])
  {
    var a := ReadI8(r);
    var b := ReadI8(r);
    var c := ReadI8(r);
    var d := ReadI16(r);
    var e := ReadI16(r);
    var f := ReadI16(r);
    var g := ReadI16(r);
    var h := ReadI16(r);
    var i := ReadI16(r);
    var j := ReadI16(r);
    var k := ReadI16(r);
    var l := ReadI32(r);
    var m := ReadI8(r);
    s := Scalars(a, b, c, d, e, f, g, h, i, j, k, l, m);
  }

  /** The first seven bytes of a move record: tick, extra, player id and action byte. */
  method ReadRecordHead(r: R.Reader) returns (m: Move)
    requires r.Valid() && r.pos + ShortRecordSize <= |r.data|
    modifies r`pos, r`err, r`eof
    ensures r.Valid() && r.pos == old(r.pos) + ShortRecordSize && r.eof == old(r.eof) && r.err == old(r.err)
    ensures m == HeadAt(r.data, old(r.pos))
  {
    var tick := ReadU32(r);
    var extra := ReadU8(r);
    var playerId := ReadU8(r);
    var action := ReadU8(r);
    m := Move(tick, extra, playerId, action, DecodeAction(action), []);
  }

  /**
   * One pass of the move-decoding loop of sd_rec_load: the record head, and
   * for a record with extra > 2 its 7 payload bytes. budget is the number of
   * 7-byte slots the loop still counts on; the record is the first one
   * DecodeFrom keeps from the cursor, and the rest of them start where the
   * cursor stops. A record with extra > 2 met with one slot left and fewer
   * than 14 bytes left has a short payload read, which sets the end-of-file
   * indicator.
   */
  method ReadRecord(r: R.Reader, ghost budget: int) returns (m: Move)
    requires r.Valid() && !r.eof && budget >= 1 && r.pos + ShortRecordSize * budget <= |r.data|
    modifies r`pos, r`err, r`eof
    ensures r.Valid()
    ensures RecordSlots(m) <= budget ==> r.pos == old(r.pos) + ShortRecordSize * RecordSlots(m) && !r.eof
    ensures RecordSlots(m) <= budget ==>
      DecodeFrom(r.data, old(r.pos), budget) == [m] + DecodeFrom(r.data, r.pos, budget - RecordSlots(m))
    ensures RecordSlots(m) > budget ==>
      DecodeFrom(r.data, old(r.pos), budget) == [] &&
      (|r.data| < old(r.pos) + LongRecordSize ==> r.eof && r.err == R.ShortReadMessage)
  {
    m := ReadRecordHead(r);
    if m.extra > 2 {
      var extraData := new byte[ExtraDataSize];
      var _ := r.ReadBuf(extraData, ExtraDataSize);
      assert extraData[..] == extraData[..ExtraDataSize];
      m := m.(extraData := extraData[..]);
    }
  }

  /**
   * One pass of the move-decoding loop, stated as the loop's own bookkeeping:
   * the record read joins the records already kept, and the count drops by
   * one for a record with extra > 2. When that drop leaves fewer slots than
   * records read, the record's payload read came up short.
   */
  ghost predicate Reading(data: seq<byte>, pos: int, eof: bool, left: int, got: seq<Move>,
                          all: seq<Move>, rsize: int)
  {
    0 <= pos <= |data| && !eof &&
    |data| - pos == ShortRecordSize * left + rsize % ShortRecordSize &&
    got + DecodeFrom(data, pos, left) == all
  }

  method ReadCounted(r: R.Reader, buf: array<Move>, i: nat, moveCount: int, ghost left: int,
                     ghost got: seq<Move>, ghost all: seq<Move>, ghost rsize: int)
    returns (m: Move, count: int, ghost nextLeft: int)
    requires r.Valid() && i < moveCount && moveCount <= buf.Length && buf[..i] == got
    requires left == moveCount - i && Reading(r.data, r.pos, r.eof, left, got, all, rsize)
    modifies r`pos, r`err, r`eof, buf
    ensures r.Valid() && count == if m.extra > 2 then moveCount - 1 else moveCount
    ensures nextLeft == count - (i + 1)
    ensures buf[..i + 1] == got + [m]
    ensures count >= i + 1 ==> Reading(r.data, r.pos, r.eof, nextLeft, got + [m], all, rsize)
    ensures count < i + 1 ==> count == i && got == all && r.eof && r.err == R.ShortReadMessage
  {
    ghost var p0 := r.pos;
    m := ReadRecord(r, left);
    ghost var p1 := r.pos;
    count := moveCount;
    if m.extra > 2 {
      count := moveCount - 1;
    }
    nextLeft := left - RecordSlots(m);
    if count >= i + 1 {
      assert DecodeFrom(r.data, p0, left) == [m] + DecodeFrom(r.data, p1, nextLeft);
      ShiftOne(got, m, DecodeFrom(r.data, p1, nextLeft), DecodeFrom(r.data, p0, left), all);
    }
    buf[i] := m;
    assert buf[..i + 1] == buf[..i] + [m];
  }

  /**
   * The move-decoding loop of sd_rec_load. move_count starts at remaining / 7
   * and is the loop's bound; a record with extra > 2 reads 7 more bytes and
   * decrements move_count while i still advances, so the remaining bytes stay
   * exactly 7 * (move_count - i) plus the stray remainder. The final realloc
   * to move_count keeps every record read, except a trailing extra > 2 record
   * met with one slot left: its payload read came up short, and it is cut off.
   */
  method ReadMoves(r: R.Reader) returns (moves: seq<Move>, ghost visited: nat)
    requires r.Valid() && r.pos <= |r.data| && !r.eof
    modifies r`pos, r`err, r`eof
    ensures r.Valid()
    ensures var s := old(r.data[r.pos..]); moves == DecodeMoves(s, |s| / ShortRecordSize)
    ensures |moves| == visited || (|moves| == visited - 1 && r.eof && r.err == R.ShortReadMessage)
  {
    var start := r.Pos();
    var rsize := |r.data| - start;
    DecodeFromIsDecodeMoves(r.data, start, rsize / ShortRecordSize);
    moves, visited := ReadMoveArray(r, rsize / ShortRecordSize, rsize);
  }

  /** The loop itself, over the array sd_rec_load allocates for move_count records. */
  method ReadMoveArray(r: R.Reader, count: int, ghost rsize: int) returns (moves: seq<Move>, ghost visited: nat)
    requires r.Valid() && r.pos <= |r.data| && !r.eof
    requires rsize == |r.data| - r.pos && count == rsize / ShortRecordSize
    modifies r`pos, r`err, r`eof
    ensures r.Valid()
    ensures moves == DecodeFrom(r.data, old(r.pos), count)
    ensures |moves| == visited || (|moves| == visited - 1 && r.eof && r.err == R.ShortReadMessage)
  {
    var moveCount := count;
    ghost var all := DecodeFrom(r.data, r.pos, moveCount);
    var buf := new Move[moveCount];
    var i := 0;
    ghost var got: seq<Move> := [];
    ghost var left := moveCount;
    while i < moveCount
      invariant r.Valid() && moveCount <= buf.Length && 0 <= i <= moveCount + 1
      invariant i <= buf.Length && |got| == i && buf[..i] == got && left == moveCount - i
      invariant moveCount >= i ==> Reading(r.data, r.pos, r.eof, left, got, all, rsize)
      invariant moveCount < i ==>
        moveCount == i - 1 && got[..moveCount] == all && r.eof && r.err == R.ShortReadMessage
      decreases moveCount - i
    {
      var m;
      m, moveCount, left := ReadCounted(r, buf, i, moveCount, left, got, all, rsize);
      assert (got + [m])[..i] == got;
      i := i + 1;
      got := got + [m];
    }
    if moveCount >= i {
      NothingLeft(got, DecodeFrom(r.data, r.pos, left), all);
      WholePrefix(got, moveCount);
    }
    assert buf[..moveCount] == got[..moveCount];
    moves := buf[..moveCount];
    visited := i;
  }

  /** One pass of the slot loop: slot i's hack_time block and profile; the cursor ends at the next slot. */
  method ReadSlot(r: R.Reader, ps: nat, i: nat) returns (block: seq<byte>, pilot: Pilot)
    requires ps <= HackTimeSize && |r.data| >= MinFileSize && i < 2
    requires r.Valid() && !r.eof && r.pos == SlotStart(ps, i)
    modifies r`pos, r`err, r`eof
    ensures r.Valid() && !r.eof && r.pos == SlotStart(ps, i + 1)
    ensures block == HackTimeAt(r.data, ps, i)
    ensures pilot == Pilot(r.data[SlotStart(ps, i)..SlotStart(ps, i) + ps])
  {
    HeaderFits(ps);
    var ppos := r.Pos();
    var buf := new byte[HackTimeSize];
    var _ := r.ReadBuf(buf, HackTimeSize);
    assert buf[..] == buf[..HackTimeSize];
    block := buf[..];
    r.Set(ppos);
    pilot := LoadPilot(r, ps);
    r.Skip(TrailerSize);
  }

  /**
   * The slot loop of sd_rec_load: for each player, copy the 428-byte
   * hack_time block, seek back, let the profile codec consume its ps bytes,
   * and skip the 168 trailer bytes.
   */
  method ReadSlots(r: R.Reader, ps: nat) returns (hackTime: seq<seq<byte>>, pilots: seq<Option<Pilot>>)
    requires ps <= HackTimeSize && |r.data| >= MinFileSize
    requires r.Valid() && !r.eof && r.pos == 0
    modifies r`pos, r`err, r`eof
    ensures r.Valid() && !r.eof && r.pos == ScoresStart(ps)
    ensures hackTime == [HackTimeAt(r.data, ps, 0), HackTimeAt(r.data, ps, 1)]
    ensures pilots == [Some(Pilot(r.data[SlotStart(ps, 0)..SlotStart(ps, 0) + ps])),
                       Some(Pilot(r.data[SlotStart(ps, 1)..SlotStart(ps, 1) + ps]))]
  {
    HeaderFits(ps);
    hackTime := [];
    pilots := [];
    for i := 0 to 2
      invariant r.Valid() && !r.eof && r.pos == SlotStart(ps, i)
      invariant |hackTime| == i && |pilots| == i
      invariant forall k :: 0 <= k < i ==> hackTime[k] == HackTimeAt(r.data, ps, k)
      invariant forall k :: 0 <= k < i ==>
        pilots[k] == Some(Pilot(r.data[SlotStart(ps, k)..SlotStart(ps, k) + ps]))
    {
      var block, pilot := ReadSlot(r, ps, i);
      hackTime := hackTime + [block];
      pilots := pilots + [Some(pilot)];
    }
  }

  /** The score loop of sd_rec_load: two u32 values after the slots. */
  method ReadScores(r: R.Reader, ps: nat) returns (scores: seq<u32>)
    requires ps <= HackTimeSize && |r.data| >= MinFileSize
    requires r.Valid() && !r.eof && r.pos == ScoresStart(ps)
    modifies r`pos, r`err, r`eof
    ensures r.Valid() && !r.eof && r.pos == ScalarsStart(ps)
    ensures scores == [ScoreAt(r.data, ps, 0), ScoreAt(r.data, ps, 1)]
  {
    HeaderFits(ps);
    scores := [];
    for i := 0 to 2
      invariant r.Valid() && !r.eof && r.pos == ScoresStart(ps) + 4 * i
      invariant |scores| == i && forall k :: 0 <= k < i ==> scores[k] == ScoreAt(r.data, ps, k)
    {
      var score := ReadU32(r);
      scores := scores + [score];
    }
  }

  /** The reads of sd_rec_load between the length check and the final close, in file order. */
  method ReadAll(r: R.Reader, ps: nat)
    returns (pilots: seq<Option<Pilot>>, hackTime: seq<seq<byte>>, scores: seq<u32>, scalars: Scalars, moves: seq<Move>)
    requires ps <= HackTimeSize && |r.data| >= MinFileSize
    requires r.Valid() && !r.eof && r.pos == 0
    modifies r`pos, r`err, r`eof
    ensures r.Valid()
    ensures hackTime == [HackTimeAt(r.data, ps, 0), HackTimeAt(r.data, ps, 1)]
    ensures pilots == [Some(Pilot(r.data[SlotStart(ps, 0)..SlotStart(ps, 0) + ps])),
                       Some(Pilot(r.data[SlotStart(ps, 1)..SlotStart(ps, 1) + ps]))]
    ensures scores == [ScoreAt(r.data, ps, 0), ScoreAt(r.data, ps, 1)]
    ensures scalars == ScalarsAt(r.data, ps)
    ensures moves == MovesAt(r.data, ps)
  {
    HeaderFits(ps);
    hackTime, pilots := ReadSlots(r, ps);
    scores := ReadScores(r, ps);
    scalars := ReadScalars(r);
    ghost var visited;
    moves, visited := ReadMoves(r);
  }

  /**
   * sd_rec_load. A NULL record or path is invalid input; a file that cannot
   * be opened is an open error; a file shorter than 1224 bytes is a parse
   * error, after the reader is closed. Otherwise every field is read as
   * LoadedFrom describes and the reader is closed. The reads inside do not
   * check their results: with the profile inside its 428-byte overlay, the
   * header reads all find their bytes in a file of 1224 bytes or more.
   */
  method Load(rec: RecFile?, file: R.Source, ps: nat) returns (st: Status, ghost reader: R.Reader?)
    requires ps <= HackTimeSize
    modifies rec
    ensures rec == null || file.NullPath? ==> st == InvalidInput && reader == null
    ensures rec != null && file.Unopenable? ==> st == FileOpenError && reader == null
    ensures rec != null && file.File? && |file.bytes| < MinFileSize ==>
      st == FileParseError && reader != null && reader.closed
    ensures rec != null && st != Success ==> unchanged(rec)
    ensures rec != null && file.File? && |file.bytes| >= MinFileSize ==>
      st == Success && reader != null && reader.closed && rec.Valid() && rec.LoadedFrom(file.bytes, ps)
  {
    reader := null;
    if rec == null || file.NullPath? {
      return InvalidInput, reader;
    }
    var r := R.Open(file);
    if r == null {
      return FileOpenError, reader;
    }
    reader := r;
    if |r.data| < MinFileSize {
      r.Close();
      return FileParseError, reader;
    }
    var pilots, hackTime, scores, scalars, moves := ReadAll(r, ps);

    rec.pilots := pilots;
    rec.hackTime := hackTime;
    rec.scores := scores;
    rec.scalars := scalars;
    rec.moveCount := |moves|;
    rec.moves := moves;
    r.Close();
    return Success, reader;
  }

  /** The thirteen header scalars, written in file order with the signed accessors. */
  method WriteScalars(w: W.Writer, s: Scalars)
    modifies w`out
    ensures w.out == old(w.out) + ScalarsBytes(s)
  {
    ghost var o := w.out;
    w.WriteByte(s.unknownA);
    w.WriteByte(s.unknownB);
    w.WriteByte(s.unknownC);
    w.WriteWord(s.unknownD);
    w.WriteWord(s.unknownE);
    w.WriteWord(s.unknownF);
    w.WriteWord(s.unknownG);
    w.WriteWord(s.unknownH);
    w.WriteWord(s.unknownI);
    w.WriteWord(s.unknownJ);
    w.WriteWord(s.unknownK);
    w.WriteDword(s.unknownL);
    w.WriteByte(s.unknownM);
    ScalarsBytesInPieces(o, s);
  }

  /** ScalarsBytes is the thirteen fields' bytes one after the other. */
  lemma ScalarsBytesInPieces(o: seq<byte>, s: Scalars)
    ensures o + [Byte(s.unknownA)] + [Byte(s.unknownB)] + [Byte(s.unknownC)]
      + WordBytes(s.unknownD) + WordBytes(s.unknownE) + WordBytes(s.unknownF) + WordBytes(s.unknownG)
      + WordBytes(s.unknownH) + WordBytes(s.unknownI) + WordBytes(s.unknownJ) + WordBytes(s.unknownK)
      + DwordBytes(s.unknownL) + [Byte(s.unknownM)]
      == o + ScalarsBytes(s)
  {
    var b := ScalarsBytes(s);
    var t := o + [Byte(s.unknownA)] + [Byte(s.unknownB)] + [Byte(s.unknownC)];
    assert t == o + b[..3];
    t := t + WordBytes(s.unknownD) + WordBytes(s.unknownE) + WordBytes(s.unknownF) + WordBytes(s.unknownG);
    assert t == o + b[..11];
    t := t + WordBytes(s.unknownH) + WordBytes(s.unknownI) + WordBytes(s.unknownJ) + WordBytes(s.unknownK);
    assert t == o + b[..19];
    t := t + DwordBytes(s.unknownL) + [Byte(s.unknownM)];
    assert b[..24] == b;
  }

  /** The slot loop of sd_rec_save: each hack_time block, then 168 zero bytes. */
  method WriteSlots(w: W.Writer, hackTime: seq<seq<byte>>)
    requires |hackTime| == 2
    modifies w`out
    ensures w.out == old(w.out) + hackTime[0] + Fill(0, TrailerSize) + hackTime[1] + Fill(0, TrailerSize)
  {
    ghost var o := w.out;
    for i := 0 to 2
      invariant i == 0 ==> w.out == o
      invariant i == 1 ==> w.out == o + hackTime[0] + Fill(0, TrailerSize)
      invariant i == 2 ==> w.out == o + hackTime[0] + Fill(0, TrailerSize) + hackTime[1] + Fill(0, TrailerSize)
    {
      w.WriteBuf(hackTime[i]);
      w.WriteFill(0, TrailerSize);
    }
  }

  /** The score loop of sd_rec_save. */
  method WriteScores(w: W.Writer, scores: seq<u32>)
    requires |scores| == 2
    modifies w`out
    ensures w.out == old(w.out) + LeBytes(scores[0], 4) + LeBytes(scores[1], 4)
  {
    ghost var o := w.out;
    Widths();
    for i := 0 to 2
      invariant i == 0 ==> w.out == o
      invariant i == 1 ==> w.out == o + LeBytes(scores[0], 4)
      invariant i == 2 ==> w.out == o + LeBytes(scores[0], 4) + LeBytes(scores[1], 4)
    {
      w.WriteUDword(scores[i]);
    }
  }

  /**
   * The move loop of sd_rec_save: for each move, tick, extra and player id;
   * then, for a record with extra > 2, the stored raw action byte and the 7
   * payload bytes, and otherwise the action re-encoded from its flags.
   */
  method WriteMoves(w: W.Writer, moves: seq<Move>)
    requires AllWellFormed(moves)
    modifies w`out
    ensures w.out == old(w.out) + EncodeMoves(moves)
  {
    ghost var o := w.out;
    assert o == o + EncodeMoves(moves[..0]);
    for i := 0 to |moves|
      invariant w.out == o + EncodeMoves(moves[..i])
    {
      EncodeMovesAppend(moves[..i], moves[i]);
      assert moves[..i + 1] == moves[..i] + [moves[i]];
      WriteMove(w, moves[i]);
    }
    assert moves[..|moves|] == moves;
  }

  /** One pass of the move loop of sd_rec_save. */
  method WriteMove(w: W.Writer, m: Move)
    requires WellFormed(m)
    modifies w`out
    ensures w.out == old(w.out) + EncodeMove(m)
  {
    w.WriteUDword(m.tick);
    w.WriteUByte(m.extra);
    w.WriteUByte(m.playerId);
    if m.extra > 2 {
      w.WriteUByte(m.rawAction);
      w.WriteBuf(m.extraData);
      return;
    }
    w.WriteUByte(EncodeAction(m.action));
  }

  /**
   * sd_rec_save. A NULL record or path is invalid input; a destination that
   * cannot be created is an open error; otherwise the file written is
   * Serialize of the record's hack_time blocks, scores, scalars and moves,
   * and the writer is closed. The profiles are never written: the hack_time
   * blocks stand in for them.
   */
  method Save(rec: RecFile?, dest: W.Dest) returns (st: Status, out: seq<byte>, ghost writer: W.Writer?)
    requires rec != null ==> rec.Valid()
    ensures rec == null || dest.NullPath? ==> st == InvalidInput && out == []
    ensures rec != null && dest.Unopenable? ==> st == FileOpenError && out == []
    ensures rec != null && dest.Writable? ==>
      st == Success && out == Serialize(rec.hackTime, rec.scores, rec.scalars, rec.moves) &&
      writer != null && writer.closed
  {
    writer := null;
    if rec == null || dest.NullPath? {
      return InvalidInput, [], writer;
    }
    var w := W.Open(dest);
    if w == null {
      return FileOpenError, [], writer;
    }
    writer := w;
    WriteSlots(w, rec.hackTime);
    WriteScores(w, rec.scores);
    WriteScalars(w, rec.scalars);
    WriteMoves(w, rec.moves[..rec.moveCount]);
    assert rec.moves[..rec.moveCount] == rec.moves;
    w.Close();
    return Success, w.out, writer;
  }

  /**
   * sd_rec_delete_action, with its intended sequence semantics: remove move
   * number, keeping the others in order. The source reads move_count before
   * testing rec for NULL, so rec must not be NULL. realloc returning NULL
   * (which realloc to size 0 may do when the last move is deleted) is the
   * parameter reallocFails: the moves are then lost, move_count stays
   * decremented, and the result is an out-of-memory error.
   *
   * The source's memmove copies move_count - 1 elements from
   * moves + number + 1 to moves + number whatever number is, so for
   * number > 0 it reads number elements past the end of the buffer and
   * writes number - 1 elements past it; the elements it leaves within the
   * shrunk buffer are the intended ones.
   */
  method DeleteAction(rec: RecFile?, number: nat, reallocFails: bool) returns (st: Status)
    requires rec != null && rec.Valid()
    modifies rec
    ensures number >= old(rec.moveCount) ==> st == InvalidInput && unchanged(rec)
    ensures number < old(rec.moveCount) && reallocFails ==>
      st == OutOfMemory && rec.moveCount == old(rec.moveCount) - 1 && rec.moves == []
    ensures number < old(rec.moveCount) && !reallocFails ==>
      st == Success && rec.Valid() && rec.moves == RemoveAt(old(rec.moves), number)
    ensures rec.pilots == old(rec.pilots) && rec.hackTime == old(rec.hackTime) &&
      rec.scores == old(rec.scores) && rec.scalars == old(rec.scalars)
  {
    if number >= rec.moveCount {
      return InvalidInput;
    }
    var shifted := rec.moves[..number] + rec.moves[number + 1..];
    rec.moveCount := rec.moveCount - 1;
    if reallocFails {
      rec.moves := [];
      return OutOfMemory;
    }
    rec.moves := shifted;
    return Success;
  }

  /**
   * sd_rec_insert_action, with its intended sequence semantics: put move at
   * index number, clamped to move_count, shifting later moves one place on.
   * realloc returning NULL is the parameter reallocFails: the moves are then
   * lost, move_count stays incremented, and the result is an out-of-memory
   * error.
   *
   * The source computes start = number * sizeof(sd_rec_move), a byte
   * offset, and adds it (and sizeof(sd_rec_move) more) to a sd_rec_move
   * pointer as an element offset, so every target is scaled by
   * sizeof(sd_rec_move). Only an insertion into an empty list comes out
   * right. At number 0 on a non-empty list the memmove moves the old moves
   * to element sizeof(sd_rec_move) rather than element 1, partly or wholly
   * past the buffer, and the memcpy then overwrites the old first move. For
   * number > 0 the memmove moves the tail from element
   * number * sizeof(sd_rec_move) to element (number + 1) * sizeof(sd_rec_move),
   * and the memcpy writes the new move at element number * sizeof(sd_rec_move);
   * each is outside the buffer once that offset passes its end. The test
   * number < move_count runs
   * after move_count is incremented and always passes.
   */
  method InsertAction(rec: RecFile?, number: nat, move: Move, reallocFails: bool) returns (st: Status)
    requires rec != null ==> rec.Valid()
    requires WellFormed(move)
    modifies rec
    ensures rec == null ==> st == InvalidInput
    ensures rec != null && reallocFails ==>
      st == OutOfMemory && rec.moveCount == old(rec.moveCount) + 1 && rec.moves == []
    ensures rec != null && !reallocFails ==>
      st == Success && rec.Valid() && rec.moves == InsertAt(old(rec.moves), number, move)
    ensures rec != null ==>
      rec.pilots == old(rec.pilots) && rec.hackTime == old(rec.hackTime) &&
      rec.scores == old(rec.scores) && rec.scalars == old(rec.scalars)
  {
    if rec == null {
      return InvalidInput;
    }
    var n := number;
    if n >= rec.moveCount {
      n := rec.moveCount;
    }
    rec.moveCount := rec.moveCount + 1;
    if reallocFails {
      rec.moves := [];
      return OutOfMemory;
    }
    rec.moves := rec.moves[..n] + [move] + rec.moves[n..];
    return Success;
  }

  /**
   * sd_rec_save followed by sd_rec_load of the file it wrote, into a second
   * record, with the profile codec consuming exactly its 428-byte overlay.
   * The load succeeds and gives back the hack_time blocks, the scores and the
   * scalars unchanged, and every move as Reloaded describes; each profile is
   * the hack_time block that overlays it.
   */
  method SaveThenLoad(rec: RecFile, rec2: RecFile) returns (st: Status)
    requires rec.Valid()
    modifies rec2
    ensures st == Success && rec2.Valid()
    ensures rec2.hackTime == old(rec.hackTime) && rec2.scores == old(rec.scores) &&
      rec2.scalars == old(rec.scalars)
    ensures rec2.moves == ReloadAll(old(rec.moves)) && rec2.moveCount == |old(rec.moves)|
    ensures rec2.pilots == [Some(Pilot(old(rec.hackTime[0]))), Some(Pilot(old(rec.hackTime[1])))]
  {
    var saved, out, writer := Save(rec, W.Writable);
    LoadAfterSave(rec.hackTime, rec.scores, rec.scalars, rec.moves);
    SerializeRegions(rec.hackTime, rec.scores, rec.scalars, rec.moves);
    ghost var reader;
    st, reader := Load(rec2, R.File(out), HackTimeSize);
  }
}
