/**
 * The per-move action byte of a REC file and its decoded flag word
 * (src/rec.c, the switch in sd_rec_load and its inverse in sd_rec_save).
 *
 * Bit 0 of the byte is Punch and bit 1 is Kick; the high nibble selects one
 * of eight direction combinations; bits 2 and 3 carry nothing the model
 * keeps. The flag constants SD_REC_PUNCH and SD_REC_KICK are taken to be
 * 1 and 2, and SD_MOVE_MASK to select exactly the four direction flags.
 */
module Actions {
  import opened ByteOrder

  /** The decoded action word: one field per SD_REC_* flag bit. */
  datatype Action = Action(punch: bool, kick: bool, up: bool, down: bool, left: bool, right: bool)

  const NoAction := Action(false, false, false, false, false, false)

  /** action & SD_MOVE_MASK: the direction flags only. */
  function Directions(a: Action): Action
  {
    a.(punch := false, kick := false)
  }

  /** The Punch and Kick flags only. */
  function Buttons(a: Action): Action
  {
    a.(up := false, down := false, left := false, right := false)
  }

  function Dir(up: bool, down: bool, left: bool, right: bool): Action
  {
    Action(false, false, up, down, left, right)
  }

  /** The eight direction combinations the byte can carry, in table order. */
  const Combos: set<Action> := {
    Dir(true, false, false, false), Dir(true, false, false, true),
    Dir(false, false, false, true), Dir(false, true, false, true),
    Dir(false, true, false, false), Dir(false, true, true, false),
    Dir(false, false, true, false), Dir(true, false, true, false)}

  /** The direction table: the value of the byte's high nibble (byte & 0xF0) to its directions. */
  function NibbleDirections(high: int): Action
  {
    if high == 16 then Dir(true, false, false, false)
    else if high == 32 then Dir(true, false, false, true)
    else if high == 48 then Dir(false, false, false, true)
    else if high == 64 then Dir(false, true, false, true)
    else if high == 80 then Dir(false, true, false, false)
    else if high == 96 then Dir(false, true, true, false)
    else if high == 112 then Dir(false, false, true, false)
    else if high == 128 then Dir(true, false, true, false)
    else NoAction
  }

  /** The inverse table: a direction combination to its high-nibble value, 0 for one not listed. */
  function DirectionsCode(d: Action): byte
  {
    if d == Dir(true, false, false, false) then 16
    else if d == Dir(true, false, false, true) then 32
    else if d == Dir(false, false, false, true) then 48
    else if d == Dir(false, true, false, true) then 64
    else if d == Dir(false, true, false, false) then 80
    else if d == Dir(false, true, true, false) then 96
    else if d == Dir(false, false, true, false) then 112
    else if d == Dir(true, false, true, false) then 128
    else 0
  }

  /** Decoding an action byte, as sd_rec_load does for every move record. */
  function DecodeAction(raw: byte): Action
  {
    NibbleDirections(raw / 16 * 16).(punch := raw % 2 == 1, kick := raw / 2 % 2 == 1)
  }

  /**
   * Bit 0 gives Punch, bit 1 gives Kick, and the high nibble gives the
   * directions through the table: no direction, or one of the eight listed.
   */
  lemma DecodeActionFields(raw: byte)
    ensures DecodeAction(raw).punch <==> raw % 2 == 1
    ensures DecodeAction(raw).kick <==> raw / 2 % 2 == 1
    ensures Directions(DecodeAction(raw)) == NibbleDirections(raw / 16 * 16)
    ensures Directions(DecodeAction(raw)) == NoAction || Directions(DecodeAction(raw)) in Combos
  {
    DirectionTables(raw / 16 * 16, NoAction);
  }

  /**
   * Encoding an action, as sd_rec_save does for a move with extra <= 2: the
   * direction code ORed with 1 for Punch and 2 for Kick. The code is a
   * multiple of 16, so the OR is a sum.
   */
  function EncodeAction(a: Action): byte
  {
    DirectionsCode(Directions(a)) + (if a.punch then 1 else 0) + (if a.kick then 2 else 0)
  }

  /**
   * The byte written carries Punch in bit 0 and Kick in bit 1, leaves bits 2
   * and 3 clear, and holds the direction code in its high nibble.
   */
  lemma EncodeActionFields(a: Action)
    ensures EncodeAction(a) % 2 == 1 <==> a.punch
    ensures EncodeAction(a) / 2 % 2 == 1 <==> a.kick
    ensures EncodeAction(a) % 16 < 4 && EncodeAction(a) / 16 <= 8
    ensures EncodeAction(a) / 16 * 16 == DirectionsCode(Directions(a))
  {
    DirectionTables(0, Directions(a));
  }

  /**
   * The two direction tables: the nibble table yields directions only, one
   * of the eight combinations exactly for the eight listed values; the code
   * table yields a multiple of 16 up to 128, non-zero exactly for the eight
   * combinations; and the two are inverse to each other on those.
   */
  lemma DirectionTables(high: int, d: Action)
    ensures Directions(NibbleDirections(high)) == NibbleDirections(high)
    ensures NibbleDirections(high) == NoAction || NibbleDirections(high) in Combos
    ensures NibbleDirections(high) != NoAction <==> high in {16, 32, 48, 64, 80, 96, 112, 128}
    ensures DirectionsCode(d) % 16 == 0 && DirectionsCode(d) <= 128
    ensures DirectionsCode(d) != 0 <==> d in Combos
    ensures high in {16, 32, 48, 64, 80, 96, 112, 128} ==> DirectionsCode(NibbleDirections(high)) == high
    ensures d in Combos ==> NibbleDirections(DirectionsCode(d)) == d
    ensures d !in Combos ==> DirectionsCode(d) == 0 && NibbleDirections(DirectionsCode(d)) == NoAction
  {
  }

  /**
   * Re-encoding a decoded byte gives the byte back exactly when bits 2 and 3
   * are clear and the high nibble is one of 0, 16, ..., 128.
   */
  lemma EncodeDecodeExact(raw: byte)
    ensures EncodeAction(DecodeAction(raw)) == raw <==> raw % 16 < 4 && raw / 16 <= 8
  {
    var q, r := raw / 16, raw % 16;
    var p, k := raw % 2, raw / 2 % 2;
    assert raw == 16 * q + r;
    assert r == p + 2 * k + 4 * (r / 4);
    var a := DecodeAction(raw);
    assert Directions(a) == NibbleDirections(16 * q);
    var code := DirectionsCode(Directions(a));
    assert EncodeAction(a) == code + p + 2 * k;
    if 1 <= q <= 8 {
      assert 16 * q in {16, 32, 48, 64, 80, 96, 112, 128};
      DirectionTables(16 * q, Directions(a));
      assert code == 16 * q;
    } else {
      assert code == 0;
    }
  }

  /**
   * What a save and a load leave of an action: all of it when its directions
   * are none or one of the listed combinations; otherwise Punch and Kick only.
   */
  function Kept(a: Action): Action
  {
    if Directions(a) == NoAction || Directions(a) in Combos then a else Buttons(a)
  }

  /** Decoding an encoded action gives Kept of it. */
  lemma DecodeEncode(a: Action)
    ensures DecodeAction(EncodeAction(a)) == Kept(a)
  {
    var raw := EncodeAction(a);
    DirectionTables(raw / 16 * 16, Directions(a));
  }

  /** Kept changes nothing a second time, and writes the same byte as the action it came from. */
  lemma KeptIsStable(a: Action)
    ensures Kept(Kept(a)) == Kept(a)
    ensures EncodeAction(Kept(a)) == EncodeAction(a)
  {
    DirectionTables(0, Directions(a));
  }
}
