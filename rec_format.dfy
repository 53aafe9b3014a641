/**
 * The byte layout of a REC replay file (src/rec.c), as pure functions: what
 * sd_rec_save writes, what sd_rec_load reads back from each region, and the
 * lemmas that connect the two.
 *
 * Layout, for a profile codec that consumes ps bytes:
 *   slot 0 at 0, slot 1 at ps + 168: each a 428-byte hack_time block that
 *   overlays the profile's own ps bytes, then 168 trailer bytes after the
 *   profile; then two u32 scores, thirteen header scalars (24 bytes), and
 *   the move records.
 */
module RecFormat {
  import opened ByteOrder
  import opened Actions

  const HackTimeSize: nat := 428
  const TrailerSize: nat := 168
  const ScalarsSize: nat := 24
  /** The smallest file sd_rec_load accepts. */
  const MinFileSize: nat := 1224
  /** The bytes of a record with extra <= 2; sd_rec_load's budget unit. */
  const ShortRecordSize: nat := 7
  /** The bytes of a record with extra > 2. */
  const LongRecordSize: nat := 14
  const ExtraDataSize: nat := 7

  /** The thirteen header scalars, in file order: three bytes, eight words, a dword and a byte. */
  datatype Scalars = Scalars(
    unknownA: i8, unknownB: i8, unknownC: i8,
    unknownD: i16, unknownE: i16, unknownF: i16, unknownG: i16,
    unknownH: i16, unknownI: i16, unknownJ: i16, unknownK: i16,
    unknownL: i32, unknownM: i8)

  /**
   * One move record. extraData holds the 7 payload bytes of a record with
   * extra > 2; for a record with extra <= 2 the source leaves the field
   * unset, and the model keeps it empty after a load.
   */
  datatype Move = Move(tick: u32, extra: byte, playerId: byte, rawAction: byte, action: Action, extraData: seq<byte>)

  /** What the source's fixed-size extra_data array guarantees. */
  predicate WellFormed(m: Move)
  {
    m.extra > 2 ==> |m.extraData| == ExtraDataSize
  }

  predicate AllWellFormed(ms: seq<Move>)
  {
    forall i :: 0 <= i < |ms| ==> WellFormed(ms[i])
  }

  // ---------------------------------------------------------------------
  // Header scalars

  /**
   * The byte sd_write_byte emits for a signed value. Byte, Word and Dword name
   * the ByteOrder conversions the reader and writer contracts state, so that
   * the header layout reads field by field.
   */
  function Byte(x: i8): byte
  {
    Widths();
    ToUnsigned(x, 1)
  }

  /** The two bytes of a word, little-endian two's complement. */
  function WordBytes(x: i16): (bs: seq<byte>)
    ensures |bs| == 2
  {
    Widths();
    LeBytes(ToUnsigned(x, 2), 2)
  }

  /** The four bytes of a dword, little-endian two's complement. */
  function DwordBytes(x: i32): (bs: seq<byte>)
    ensures |bs| == 4
  {
    Widths();
    LeBytes(ToUnsigned(x, 4), 4)
  }

  /** The 24 bytes sd_rec_save writes for the header scalars, in write order. */
  function ScalarsBytes(s: Scalars): (bs: seq<byte>)
    ensures |bs| == ScalarsSize
  {
    var d, e, f, g := WordBytes(s.unknownD), WordBytes(s.unknownE), WordBytes(s.unknownF), WordBytes(s.unknownG);
    var h, i, j, k := WordBytes(s.unknownH), WordBytes(s.unknownI), WordBytes(s.unknownJ), WordBytes(s.unknownK);
    var l := DwordBytes(s.unknownL);
    [Byte(s.unknownA), Byte(s.unknownB), Byte(s.unknownC),
     d[0], d[1], e[0], e[1], f[0], f[1], g[0], g[1],
     h[0], h[1], i[0], i[1], j[0], j[1], k[0], k[1],
     l[0], l[1], l[2], l[3], Byte(s.unknownM)]
  }

  /** The word sd_read_word makes of two bytes. */
  function Word(lo: byte, hi: byte): i16
  {
    Widths();
    ToSigned(LeValue([lo, hi]), 2)
  }

  /** The dword sd_read_dword makes of four bytes. */
  function Dword(b0: byte, b1: byte, b2: byte, b3: byte): i32
  {
    Widths();
    ToSigned(LeValue([b0, b1, b2, b3]), 4)
  }

  /** The header scalars sd_rec_load reads from 24 bytes. */
  function ParseScalars(bs: seq<byte>): Scalars
    requires |bs| == ScalarsSize
  {
    Widths();
    Scalars(
      ToSigned(bs[0], 1), ToSigned(bs[1], 1), ToSigned(bs[2], 1),
      Word(bs[3], bs[4]), Word(bs[5], bs[6]), Word(bs[7], bs[8]), Word(bs[9], bs[10]),
      Word(bs[11], bs[12]), Word(bs[13], bs[14]), Word(bs[15], bs[16]), Word(bs[17], bs[18]),
      Dword(bs[19], bs[20], bs[21], bs[22]), ToSigned(bs[23], 1))
  }

  lemma WordRoundTrip(x: i16)
    ensures var bs := WordBytes(x); Word(bs[0], bs[1]) == x
  {
    Widths();
    var bs := WordBytes(x);
    assert [bs[0], bs[1]] == bs;
    LeValueOfBytes(ToUnsigned(x, 2), 2);
    SignedRoundTrip(0, x, 2);
  }

  lemma DwordRoundTrip(x: i32)
    ensures var bs := DwordBytes(x); Dword(bs[0], bs[1], bs[2], bs[3]) == x
  {
    Widths();
    var bs := DwordBytes(x);
    assert [bs[0], bs[1], bs[2], bs[3]] == bs;
    LeValueOfBytes(ToUnsigned(x, 4), 4);
    SignedRoundTrip(0, x, 4);
  }

  lemma ByteRoundTrip(x: i8)
    ensures ToSigned(Byte(x), 1) == x
  {
    Widths();
    SignedRoundTrip(0, x, 1);
  }

  /** The header scalars round-trip: what save writes, load reads back unchanged. */
  lemma ScalarsRoundTrip(s: Scalars)
    ensures ParseScalars(ScalarsBytes(s)) == s
  {
    ByteRoundTrip(s.unknownA);
    ByteRoundTrip(s.unknownB);
    ByteRoundTrip(s.unknownC);
    WordRoundTrip(s.unknownD);
    WordRoundTrip(s.unknownE);
    WordRoundTrip(s.unknownF);
    WordRoundTrip(s.unknownG);
    WordRoundTrip(s.unknownH);
    WordRoundTrip(s.unknownI);
    WordRoundTrip(s.unknownJ);
    WordRoundTrip(s.unknownK);
    DwordRoundTrip(s.unknownL);
    ByteRoundTrip(s.unknownM);
  }

  lemma ByteOfSigned(b: byte)
    ensures Byte(ToSigned(b, 1)) == b
  {
    Widths();
    SignedRoundTrip(b, 0, 1);
  }

  lemma WordBytesOfWord(lo: byte, hi: byte)
    ensures WordBytes(Word(lo, hi)) == [lo, hi]
  {
    Widths();
    LeBytesOfValue([lo, hi]);
    SignedRoundTrip(LeValue([lo, hi]), 0, 2);
  }

  lemma DwordBytesOfDword(b0: byte, b1: byte, b2: byte, b3: byte)
    ensures DwordBytes(Dword(b0, b1, b2, b3)) == [b0, b1, b2, b3]
  {
    Widths();
    LeBytesOfValue([b0, b1, b2, b3]);
    SignedRoundTrip(LeValue([b0, b1, b2, b3]), 0, 4);
  }

  /** The other direction: any 24 header bytes that load parses are written back byte for byte by save. */
  lemma ParseScalarsRoundTrip(bs: seq<byte>)
    requires |bs| == ScalarsSize
    ensures ScalarsBytes(ParseScalars(bs)) == bs
  {
    ByteOfSigned(bs[0]);
    ByteOfSigned(bs[1]);
    ByteOfSigned(bs[2]);
    WordBytesOfWord(bs[3], bs[4]);
    WordBytesOfWord(bs[5], bs[6]);
    WordBytesOfWord(bs[7], bs[8]);
    WordBytesOfWord(bs[9], bs[10]);
    WordBytesOfWord(bs[11], bs[12]);
    WordBytesOfWord(bs[13], bs[14]);
    WordBytesOfWord(bs[15], bs[16]);
    WordBytesOfWord(bs[17], bs[18]);
    DwordBytesOfDword(bs[19], bs[20], bs[21], bs[22]);
    ByteOfSigned(bs[23]);
  }

  // ---------------------------------------------------------------------
  // Slices of slices

  /** Concatenation is associative; a lemma of its own so that callers can apply it to large terms cheaply. */
  lemma AppendAssoc<T>(a: seq<T>, b: seq<T>, c: seq<T>)
    ensures (a + b) + c == a + (b + c)
  {
  }

  lemma SuffixOfSuffix<T>(s: seq<T>, p: nat, k: nat)
    requires p + k <= |s|
    ensures s[p..][k..] == s[p + k..]
  {
    var l, r := s[p..][k..], s[p + k..];
    forall j | 0 <= j < |l|
      ensures l[j] == r[j]
    {
      assert l[j] == s[p..][k + j];
    }
  }

  lemma SliceOfSuffix<T>(s: seq<T>, p: nat, a: nat, b: nat)
    requires a <= b && p + b <= |s|
    ensures s[p..][a..b] == s[p + a..p + b]
  {
    var l, r := s[p..][a..b], s[p + a..p + b];
    forall j | 0 <= j < |l|
      ensures l[j] == r[j]
    {
      assert l[j] == s[p..][a + j];
    }
  }

  // ---------------------------------------------------------------------
  // Move records

  /** The 7-byte slots one record takes up: two for a record with extra > 2. */
  function RecordSlots(m: Move): nat
  {
    if m.extra > 2 then 2 else 1
  }

  function Slots(ms: seq<Move>): (n: nat)
    ensures n >= |ms|
  {
    if ms == [] then 0 else RecordSlots(ms[0]) + Slots(ms[1..])
  }

  /** The bytes sd_rec_save writes for one move. */
  function EncodeMove(m: Move): (bs: seq<byte>)
    requires WellFormed(m)
    ensures |bs| == if m.extra > 2 then LongRecordSize else ShortRecordSize
    ensures bs[4] == m.extra && bs[5] == m.playerId
    ensures bs[6] == if m.extra > 2 then m.rawAction else EncodeAction(m.action)
  {
    Widths();
    LeBytes(m.tick, 4) + [m.extra, m.playerId]
    + (if m.extra > 2 then [m.rawAction] + m.extraData else [EncodeAction(m.action)])
  }

  /** The move section sd_rec_save writes: the records in order. */
  function EncodeMoves(ms: seq<Move>): (bs: seq<byte>)
    requires AllWellFormed(ms)
    ensures |bs| == ShortRecordSize * Slots(ms)
  {
    if ms == [] then [] else EncodeMove(ms[0]) + EncodeMoves(ms[1..])
  }

  lemma {:induction false} EncodeMovesAppend(ms: seq<Move>, m: Move)
    requires AllWellFormed(ms) && WellFormed(m)
    ensures AllWellFormed(ms + [m])
    ensures EncodeMoves(ms + [m]) == EncodeMoves(ms) + EncodeMove(m)
  {
    if ms == [] {
      assert [m][1..] == [];
    } else {
      assert (ms + [m])[1..] == ms[1..] + [m];
      EncodeMovesAppend(ms[1..], m);
    }
  }

  /** The first seven bytes of a record, decoded as sd_rec_load does. */
  function DecodeRecordHead(s: seq<byte>): (m: Move)
    requires |s| >= ShortRecordSize
    ensures m.extra == s[4] && m.playerId == s[5] && m.rawAction == s[6]
    ensures m.action == DecodeAction(s[6]) && m.extraData == []
  {
    Widths();
    Move(LeValue(s[..4]), s[4], s[5], s[6], DecodeAction(s[6]), [])
  }

  /**
   * The moves sd_rec_load keeps from the move section s, given budget =
   * move_count - i slots left. A 7-byte record uses one slot; a record with
   * extra > 2 reads 7 more bytes and uses two (i advances and move_count
   * drops). A record with extra > 2 met with one slot left is read but then
   * cut off by the final realloc to move_count.
   */
  function DecodeMoves(s: seq<byte>, budget: int): (ms: seq<Move>)
    requires ShortRecordSize * budget <= |s|
    ensures |ms| <= if budget < 0 then 0 else budget
    ensures AllWellFormed(ms)
    decreases budget
  {
    if budget <= 0 then []
    else
      var m := DecodeRecordHead(s);
      if m.extra <= 2 then [m] + DecodeMoves(s[ShortRecordSize..], budget - 1)
      else if budget == 1 then []
      else [m.(extraData := s[ShortRecordSize..LongRecordSize])] + DecodeMoves(s[LongRecordSize..], budget - 2)
  }

  /** DecodeRecordHead on the record at offset at of data. */
  function HeadAt(data: seq<byte>, at: nat): (m: Move)
    requires at + ShortRecordSize <= |data|
    ensures m.extra == data[at + 4] && m.extraData == []
  {
    Widths();
    Move(LeValue(data[at..at + 4]), data[at + 4], data[at + 5], data[at + 6], DecodeAction(data[at + 6]), [])
  }

  /**
   * The head at an offset is the head of the suffix from that offset. The
   * loop in sd_rec_load sees the file through a cursor, so Rec reads with
   * HeadAt and DecodeFrom on offsets; the round-trip lemmas work on the move
   * section as a sequence of its own, with DecodeRecordHead and DecodeMoves.
   */
  lemma HeadAtIsRecordHead(data: seq<byte>, at: nat)
    requires at + ShortRecordSize <= |data|
    ensures HeadAt(data, at) == DecodeRecordHead(data[at..])
  {
    SliceOfSuffix(data, at, 0, 4);
  }

  /** DecodeMoves on the bytes of data from offset at. */
  function DecodeFrom(data: seq<byte>, at: nat, budget: int): (ms: seq<Move>)
    requires at <= |data| && at + ShortRecordSize * budget <= |data|
    decreases budget
  {
    if budget <= 0 then []
    else
      var m := HeadAt(data, at);
      if m.extra <= 2 then [m] + DecodeFrom(data, at + ShortRecordSize, budget - 1)
      else if budget == 1 then []
      else
        var long := m.(extraData := data[at + ShortRecordSize..at + LongRecordSize]);
        [long] + DecodeFrom(data, at + LongRecordSize, budget - 2)
  }

  lemma {:induction false} DecodeFromIsDecodeMoves(data: seq<byte>, at: nat, budget: int)
    requires at <= |data| && at + ShortRecordSize * budget <= |data|
    ensures DecodeFrom(data, at, budget) == DecodeMoves(data[at..], budget)
    decreases budget
  {
    if budget > 0 {
      var s := data[at..];
      var m := HeadAt(data, at);
      SliceOfSuffix(data, at, 0, 4);
      assert m == DecodeRecordHead(s);
      if m.extra <= 2 {
        DecodeFromIsDecodeMoves(data, at + ShortRecordSize, budget - 1);
        SuffixOfSuffix(data, at, ShortRecordSize);
        var rest := DecodeFrom(data, at + ShortRecordSize, budget - 1);
        assert DecodeFrom(data, at, budget) == [m] + rest;
        assert s[ShortRecordSize..] == data[at + ShortRecordSize..];
        assert DecodeMoves(s, budget) == [m] + DecodeMoves(s[ShortRecordSize..], budget - 1);
      } else if budget > 1 {
        DecodeFromIsDecodeMoves(data, at + LongRecordSize, budget - 2);
        SuffixOfSuffix(data, at, LongRecordSize);
        SliceOfSuffix(data, at, ShortRecordSize, LongRecordSize);
        var long := m.(extraData := data[at + ShortRecordSize..at + LongRecordSize]);
        var rest := DecodeFrom(data, at + LongRecordSize, budget - 2);
        assert DecodeFrom(data, at, budget) == [long] + rest;
        assert s[LongRecordSize..] == data[at + LongRecordSize..];
        assert s[ShortRecordSize..LongRecordSize] == data[at + ShortRecordSize..at + LongRecordSize];
        assert DecodeMoves(s, budget) == [long] + DecodeMoves(s[LongRecordSize..], budget - 2);
      }
    }
  }

  /**
   * A move as a save followed by a load gives it back: a record with
   * extra > 2 keeps its raw byte and payload; a record with extra <= 2 gets
   * the byte re-encoded from its action; either way the action is decoded
   * from the byte written.
   */
  function Reloaded(m: Move): (r: Move)
    requires WellFormed(m)
    ensures r.tick == m.tick && r.extra == m.extra && r.playerId == m.playerId
    ensures m.extra > 2 ==> r.rawAction == m.rawAction && r.extraData == m.extraData
    ensures WellFormed(r)
  {
    if m.extra > 2 then m.(action := DecodeAction(m.rawAction))
    else Move(m.tick, m.extra, m.playerId, EncodeAction(m.action), Kept(m.action), [])
  }

  /** A reloaded move's action is the decoding of its action byte. */
  lemma ReloadedDecodes(m: Move)
    requires WellFormed(m)
    ensures Reloaded(m).action == DecodeAction(Reloaded(m).rawAction)
  {
    DecodeEncode(m.action);
  }

  /**
   * A record with extra <= 2 keeps its action through a save and a load
   * exactly when its directions are none or one of the eight listed
   * combinations.
   */
  lemma ReloadedKeepsAction(m: Move)
    requires WellFormed(m) && m.extra <= 2
    ensures Reloaded(m).action == m.action <==> Directions(m.action) == NoAction || Directions(m.action) in Combos
  {
  }

  function ReloadAll(ms: seq<Move>): (rs: seq<Move>)
    requires AllWellFormed(ms)
    ensures |rs| == |ms| && forall i :: 0 <= i < |ms| ==> rs[i] == Reloaded(ms[i])
  {
    if ms == [] then [] else [Reloaded(ms[0])] + ReloadAll(ms[1..])
  }

  /** A second save and load changes nothing: a reloaded move is its own reload. */
  lemma ReloadedIsStable(m: Move)
    requires WellFormed(m)
    ensures Reloaded(Reloaded(m)) == Reloaded(m)
  {
    if m.extra <= 2 {
      KeptIsStable(m.action);
    }
  }

  /** Decoding the head of an encoded record gives the reloaded move (without its payload). */
  lemma DecodeHeadOfEncoded(m: Move, rest: seq<byte>)
    requires WellFormed(m)
    ensures DecodeRecordHead(EncodeMove(m) + rest) == Reloaded(m).(extraData := [])
  {
    Widths();
    var s := EncodeMove(m) + rest;
    assert s[..4] == LeBytes(m.tick, 4);
    LeValueOfBytes(m.tick, 4);
    DecodeEncode(m.action);
  }

  /**
   * The move section round-trips: when the bytes after the header are exactly
   * the encoded records followed by fewer than 7 stray bytes, the budget
   * remaining / 7 is exactly the records' slot count and the decoding loop
   * keeps every record.
   */
  lemma {:induction false} DecodeEncodedMoves(ms: seq<Move>, tail: seq<byte>)
    requires AllWellFormed(ms) && |tail| < ShortRecordSize
    ensures (|EncodeMoves(ms)| + |tail|) / ShortRecordSize == Slots(ms)
    ensures DecodeMoves(EncodeMoves(ms) + tail, Slots(ms)) == ReloadAll(ms)
  {
    BudgetOfSlots(Slots(ms), |tail|);
    if ms != [] {
      DecodeEncodedMoves(ms[1..], tail);
      DecodeEncodedCons(ms, tail);
    }
  }

  /** The inductive step of DecodeEncodedMoves: the first record, then the rest as the hypothesis gives them. */
  lemma DecodeEncodedCons(ms: seq<Move>, tail: seq<byte>)
    requires AllWellFormed(ms) && |tail| < ShortRecordSize && ms != []
    requires DecodeMoves(EncodeMoves(ms[1..]) + tail, Slots(ms[1..])) == ReloadAll(ms[1..])
    ensures DecodeMoves(EncodeMoves(ms) + tail, Slots(ms)) == ReloadAll(ms)
  {
    EncodeMovesCons(ms, tail);
    ReloadAllCons(ms);
    assert Slots(ms) == Slots(ms[1..]) + RecordSlots(ms[0]);
    DecodeStep(ms[0], EncodeMoves(ms[1..]) + tail, Slots(ms[1..]), EncodeMoves(ms) + tail, Slots(ms));
  }

  /** The encoded section with a tail, split after its first record. */
  lemma EncodeMovesCons(ms: seq<Move>, tail: seq<byte>)
    requires AllWellFormed(ms) && ms != []
    ensures EncodeMoves(ms) + tail == EncodeMove(ms[0]) + (EncodeMoves(ms[1..]) + tail)
  {
    EncodeMovesUnfold(ms);
    AppendAssoc(EncodeMove(ms[0]), EncodeMoves(ms[1..]), tail);
  }

  /** One unfolding of EncodeMoves, kept apart so the inductive step sees only this fact. */
  lemma EncodeMovesUnfold(ms: seq<Move>)
    requires AllWellFormed(ms) && ms != []
    ensures EncodeMoves(ms) == EncodeMove(ms[0]) + EncodeMoves(ms[1..])
  {
  }

  /** One unfolding of ReloadAll, kept apart so the inductive step sees only this fact. */
  lemma ReloadAllCons(ms: seq<Move>)
    requires AllWellFormed(ms) && ms != []
    ensures ReloadAll(ms) == [Reloaded(ms[0])] + ReloadAll(ms[1..])
  {
  }

  /** One step of the decoding loop on an encoded record: it yields the reloaded move and uses its slots. */
  lemma DecodeStep(m: Move, rest: seq<byte>, k: nat, s: seq<byte>, budget: int)
    requires WellFormed(m) && ShortRecordSize * k <= |rest|
    requires s == EncodeMove(m) + rest && budget == k + RecordSlots(m)
    ensures ShortRecordSize * budget <= |s|
    ensures DecodeMoves(s, budget) == [Reloaded(m)] + DecodeMoves(rest, k)
  {
    DecodeHeadOfEncoded(m, rest);
    if m.extra <= 2 {
      assert s[ShortRecordSize..] == rest;
    } else {
      assert s[ShortRecordSize..LongRecordSize] == m.extraData;
      assert s[LongRecordSize..] == rest;
    }
  }

  /** The starting budget rsize / 7 of a section of n slots plus fewer than 7 stray bytes. */
  lemma BudgetOfSlots(n: nat, t: nat)
    requires t < ShortRecordSize
    ensures (ShortRecordSize * n + t) / ShortRecordSize == n
  {
  }

  // ---------------------------------------------------------------------
  // The whole file

  /** Where slot i (0 or 1) starts, for a profile codec that consumes ps bytes. */
  function SlotStart(ps: nat, i: nat): nat { i * (ps + TrailerSize) }
  function ScoresStart(ps: nat): nat { 2 * (ps + TrailerSize) }
  function ScalarsStart(ps: nat): nat { ScoresStart(ps) + 8 }
  function MovesStart(ps: nat): nat { ScalarsStart(ps) + ScalarsSize }

  /** With the profile inside its hack_time overlay, the header fits in the smallest accepted file. */
  lemma HeaderFits(ps: nat)
    requires ps <= HackTimeSize
    ensures SlotStart(ps, 1) + HackTimeSize <= MinFileSize && MovesStart(ps) <= MinFileSize
    ensures ps == HackTimeSize ==> MovesStart(ps) == MinFileSize
  {
  }

  predicate HeaderShaped(hackTime: seq<seq<byte>>, scores: seq<u32>)
  {
    |hackTime| == 2 && |hackTime[0]| == HackTimeSize && |hackTime[1]| == HackTimeSize && |scores| == 2
  }

  /** The file sd_rec_save writes. */
  function Serialize(hackTime: seq<seq<byte>>, scores: seq<u32>, s: Scalars, ms: seq<Move>): (bs: seq<byte>)
    requires HeaderShaped(hackTime, scores) && AllWellFormed(ms)
    ensures |bs| == MinFileSize + |EncodeMoves(ms)|
  {
    Widths();
    hackTime[0] + Fill(0, TrailerSize) + hackTime[1] + Fill(0, TrailerSize)
    + LeBytes(scores[0], 4) + LeBytes(scores[1], 4) + ScalarsBytes(s) + EncodeMoves(ms)
  }

  /** The hack_time block sd_rec_load copies for slot i. */
  function HackTimeAt(data: seq<byte>, ps: nat, i: nat): (bs: seq<byte>)
    requires ps <= HackTimeSize && |data| >= MinFileSize && i < 2
    ensures |bs| == HackTimeSize
  {
    data[SlotStart(ps, i)..SlotStart(ps, i) + HackTimeSize]
  }

  /** The score sd_rec_load reads for slot i. */
  function ScoreAt(data: seq<byte>, ps: nat, i: nat): u32
    requires ps <= HackTimeSize && |data| >= MinFileSize && i < 2
  {
    Widths();
    LeValue(data[ScoresStart(ps) + 4 * i..ScoresStart(ps) + 4 * i + 4])
  }

  function ScalarsAt(data: seq<byte>, ps: nat): Scalars
    requires ps <= HackTimeSize && |data| >= MinFileSize
  {
    ParseScalars(data[ScalarsStart(ps)..MovesStart(ps)])
  }

  /** The move list sd_rec_load ends with: the budget starts at remaining / 7. */
  function MovesAt(data: seq<byte>, ps: nat): seq<Move>
    requires ps <= HackTimeSize && |data| >= MinFileSize
  {
    var s := data[MovesStart(ps)..];
    DecodeMoves(s, |s| / ShortRecordSize)
  }

  /** Where each field lands in the file sd_rec_save writes. */
  lemma SerializeRegions(hackTime: seq<seq<byte>>, scores: seq<u32>, s: Scalars, ms: seq<Move>)
    requires HeaderShaped(hackTime, scores) && AllWellFormed(ms)
    ensures var data := Serialize(hackTime, scores, s, ms);
      data[0..428] == hackTime[0] && data[428..596] == Fill(0, TrailerSize) &&
      data[596..1024] == hackTime[1] && data[1024..1192] == Fill(0, TrailerSize) &&
      data[1192..1196] == LeBytes(scores[0], 4) && data[1196..1200] == LeBytes(scores[1], 4) &&
      data[1200..1224] == ScalarsBytes(s) && data[1224..] == EncodeMoves(ms)
  {
    Widths();
    var data := Serialize(hackTime, scores, s, ms);
    var p1 := hackTime[0] + Fill(0, TrailerSize);
    var p2 := p1 + hackTime[1] + Fill(0, TrailerSize);
    var p3 := p2 + LeBytes(scores[0], 4) + LeBytes(scores[1], 4);
    var p4 := p3 + ScalarsBytes(s);
    assert data == p4 + EncodeMoves(ms);
    assert |p1| == 596 && |p2| == 1192 && |p3| == 1200 && |p4| == 1224;
    assert data[..1224] == p4;
    assert p4[..1200] == p3;
    assert p3[..1192] == p2;
    assert p2[..596] == p1;
  }

  /**
   * Save then load: when the profile codec consumes exactly its 428-byte
   * overlay, loading what save wrote gives back both hack_time blocks byte
   * for byte, both scores, the thirteen scalars, and every move as Reloaded
   * describes it.
   */
  lemma LoadAfterSave(hackTime: seq<seq<byte>>, scores: seq<u32>, s: Scalars, ms: seq<Move>)
    requires HeaderShaped(hackTime, scores) && AllWellFormed(ms)
    ensures var data := Serialize(hackTime, scores, s, ms);
      HackTimeAt(data, HackTimeSize, 0) == hackTime[0] &&
      HackTimeAt(data, HackTimeSize, 1) == hackTime[1] &&
      ScoreAt(data, HackTimeSize, 0) == scores[0] &&
      ScoreAt(data, HackTimeSize, 1) == scores[1] &&
      ScalarsAt(data, HackTimeSize) == s &&
      MovesAt(data, HackTimeSize) == ReloadAll(ms)
  {
    SerializeRegions(hackTime, scores, s, ms);
    ScoresReadBack(Serialize(hackTime, scores, s, ms), scores);
    ScalarsRoundTrip(s);
    MovesReadBack(Serialize(hackTime, scores, s, ms), ms);
  }

  lemma ScoresReadBack(data: seq<byte>, scores: seq<u32>)
    requires |data| >= MinFileSize && |scores| == 2
    requires data[1192..1196] == LeBytes(scores[0], 4) && data[1196..1200] == LeBytes(scores[1], 4)
    ensures ScoreAt(data, HackTimeSize, 0) == scores[0] && ScoreAt(data, HackTimeSize, 1) == scores[1]
  {
    Widths();
    LeValueOfBytes(scores[0], 4);
    LeValueOfBytes(scores[1], 4);
  }

  lemma MovesReadBack(data: seq<byte>, ms: seq<Move>)
    requires |data| >= MinFileSize && AllWellFormed(ms) && data[1224..] == EncodeMoves(ms)
    ensures MovesAt(data, HackTimeSize) == ReloadAll(ms)
  {
    var s := data[MovesStart(HackTimeSize)..];
    assert s == EncodeMoves(ms) + [];
    DecodeEncodedMoves(ms, []);
    assert |s| / ShortRecordSize == Slots(ms);
    assert MovesAt(data, HackTimeSize) == DecodeMoves(EncodeMoves(ms) + [], Slots(ms));
  }

  // ---------------------------------------------------------------------
  // A loaded record through save and load

  /** What sd_rec_load stores for a move: the action decoded from its byte, and no payload for a short record. */
  predicate AsLoaded(m: Move)
  {
    m.action == DecodeAction(m.rawAction) && (m.extra <= 2 ==> m.extraData == [])
  }

  /** Every move the decoding loop keeps is stored as sd_rec_load stores it. */
  lemma {:induction false} DecodedMovesAsLoaded(s: seq<byte>, budget: int)
    requires ShortRecordSize * budget <= |s|
    ensures forall i :: 0 <= i < |DecodeMoves(s, budget)| ==> AsLoaded(DecodeMoves(s, budget)[i])
    decreases budget
  {
    if budget > 0 {
      var m := DecodeRecordHead(s);
      if m.extra <= 2 {
        DecodedMovesAsLoaded(s[ShortRecordSize..], budget - 1);
      } else if budget > 1 {
        DecodedMovesAsLoaded(s[LongRecordSize..], budget - 2);
      }
    }
  }

  /**
   * A move as loaded survives a save and a load: a long one unchanged, a
   * short one up to its action byte, which is re-encoded from its action.
   */
  lemma ReloadedOfLoaded(m: Move)
    requires WellFormed(m) && AsLoaded(m)
    ensures m.extra > 2 ==> Reloaded(m) == m
    ensures m.extra <= 2 ==> Reloaded(m) == m.(rawAction := EncodeAction(m.action))
  {
    DecodeActionFields(m.rawAction);
  }

  /**
   * Every move of a loaded file survives save then load: tick, extra, player
   * id and action all come back, and a long move also keeps its raw byte and
   * payload. Only a short move's raw byte may change, to the re-encoding of
   * its action.
   */
  lemma LoadedMovesSurvive(data: seq<byte>)
    requires |data| >= MinFileSize
    ensures var ms := MovesAt(data, HackTimeSize);
      forall i :: 0 <= i < |ms| ==> Reloaded(ms[i]).(rawAction := ms[i].rawAction) == ms[i]
    ensures var ms := MovesAt(data, HackTimeSize);
      forall i :: 0 <= i < |ms| && ms[i].extra > 2 ==> Reloaded(ms[i]) == ms[i]
  {
    var s := data[MovesStart(HackTimeSize)..];
    var ms := MovesAt(data, HackTimeSize);
    DecodedMovesAsLoaded(s, |s| / ShortRecordSize);
    forall i | 0 <= i < |ms|
      ensures Reloaded(ms[i]).(rawAction := ms[i].rawAction) == ms[i]
      ensures ms[i].extra > 2 ==> Reloaded(ms[i]) == ms[i]
    {
      ReloadedOfLoaded(ms[i]);
    }
  }
}
