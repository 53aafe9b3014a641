# REC replay files and the byte cursor, in Dafny

This project models two parts of the shadowdive library (the file-format
layer of OpenOMF) and proves properties of them.

- **The byte-cursor reader** (`src/internal/reader.c`). The reader is a
  class over the file's bytes. It holds a position (`ftell`), the last error
  text and the end-of-file indicator (`feof`). `sd_read_buf` is the one real
  primitive. The typed reads and peeks assemble its bytes little-endian,
  with two's complement for the signed ones. `sd_skip` seeks with no bound
  check, so the position may pass the end of the data.
  `sd_peek_buf` is modelled as the code has it:
  - a read that gets all its bytes returns 0 and leaves the cursor
    advanced;
  - only a short read seeks back by `len` and returns 1.

  The contract of `Reader.Reader.PeekBuf` states this outright, so the peek
  is not "non-consuming" in this model.
- **The REC replay codec** (`src/rec.c`). A REC file holds:
  - two 428-byte `hack_time` blocks, each followed by 168 trailer bytes;
  - two `u32` scores;
  - thirteen header scalars (three bytes, eight words, a dword, a byte);
  - a list of 7- or 14-byte move records.

  `RecFormat` gives the layout as pure functions:
  - `Serialize` is the file `sd_rec_save` writes;
  - `HackTimeAt`, `ScoreAt`, `ScalarsAt` and `MovesAt` are what
    `sd_rec_load` reads from each region;
  - the action byte's bit remapping lives in `Actions`.

  `Rec` holds the operations: `sd_rec_create`, `sd_rec_load`,
  `sd_rec_save`, `sd_rec_delete_action` and `sd_rec_insert_action`. They
  are methods on a `RecFile` class, and the load and save loops run over
  the reader and writer classes. Each method is proved against the format
  functions. The format functions are then connected by lemmas: the header
  round-trips, and the move section round-trips record for record
  (`LoadAfterSave`).

The move-decoding loop of `sd_rec_load` is modelled as written:
- `move_count` starts at the remaining bytes divided by 7 and bounds the
  loop;
- a record with `extra > 2` reads 7 more bytes and decrements `move_count`
  while `i` still advances.

The loop's invariant (`Rec.Reading`) keeps the remaining bytes at exactly
`7 * (move_count - i)` plus the stray remainder. So the final count is the
number of records read. The one exception is a trailing `extra > 2` record
met with a single slot left: its payload read comes up short, and the final
`realloc` cuts it off. However many `extra > 2` records the file holds,
the reported length is exact apart from that one case (`Rec.ReadMoveArray`,
`RecFormat.DecodeEncodedMoves`).

Modules:
- `ByteOrder`: byte widths and the little-endian and two's complement
  conversions.
- `Reader`: `src/internal/reader.c`.
- `Writer`: the append-only writer `sd_rec_save` drives.
- `Actions`: the action byte.
- `RecFormat`: the file layout and the round-trip lemmas.
- `MoveList`: the sequence meaning of the editing calls.
- `Rec`: the `RecFile` class and its operations.

## Model

| member | source | states |
|---|---|---|
| Reader.Reader.constructor | src/internal/reader.c:11-21 | a fresh reader sits at position 0 over the file's bytes, with the end-of-file indicator clear |
| Reader.Open | src/internal/reader.c:11-21 | an unopenable file gives null; a readable one gives a fresh reader at position 0 over its bytes |
| Reader.Reader.Close | src/internal/reader.c:23-26 | closing marks the handle closed and leaves position, indicator and error text as they were |
| Reader.Reader.Ok | src/internal/reader.c:28-34 | returns 0 and sets the end-of-file message exactly when the end has been hit, otherwise 1 with the error text untouched |
| Reader.Reader.Pos | src/internal/reader.c:36-38 | returns the current position and changes nothing |
| Reader.Reader.Set | src/rec.c:48-50 | seeking sets the position and clears the end-of-file indicator |
| Reader.Reader.Skip | src/internal/reader.c:137-139 | the position grows by exactly nbytes, with no bound against the data length, and the indicator is cleared |
| Reader.Reader.ReadBuf | src/internal/reader.c:40-46 | succeeds iff len bytes remain. The bytes that were there land at the front of buf and the rest of buf is untouched. The cursor advances by the bytes read. A short read leaves the cursor at the end, sets the short-read message and sets the end-of-file indicator |
| Reader.Reader.PeekBuf | src/internal/reader.c:48-54 | as written: a full read returns 0 and leaves the cursor advanced by len. A short read returns 1 and seeks to len bytes before where it stopped; when that offset would be negative, the seek fails and the cursor stays at the end |
| Reader.Reader.ReadUByte | src/internal/reader.c:56-60 | consumes one byte as ReadBuf does and returns it |
| Reader.Reader.ReadUWord | src/internal/reader.c:62-66 | consumes two bytes and returns their little-endian value |
| Reader.Reader.ReadUDword | src/internal/reader.c:68-72 | consumes four bytes and returns their little-endian value |
| Reader.Reader.ReadByte | src/internal/reader.c:74-78 | consumes one byte and returns it read as two's complement |
| Reader.Reader.ReadWord | src/internal/reader.c:80-84 | consumes two bytes and returns their little-endian two's complement value |
| Reader.Reader.ReadDword | src/internal/reader.c:86-90 | consumes four bytes and returns their little-endian two's complement value |
| Reader.Reader.PeekUByte | src/internal/reader.c:92-96 | moves the cursor exactly as PeekBuf on one byte, and returns the byte when it was there |
| Reader.Reader.PeekUWord | src/internal/reader.c:98-102 | moves the cursor exactly as PeekBuf on two bytes, and returns their little-endian value when they were there |
| Reader.Reader.PeekUDword | src/internal/reader.c:104-108 | moves the cursor exactly as PeekBuf on four bytes, and returns their little-endian value when they were there |
| Reader.Reader.PeekByte | src/internal/reader.c:110-114 | moves the cursor exactly as PeekBuf on one byte, and returns its two's complement reading when it was there |
| Reader.Reader.PeekWord | src/internal/reader.c:116-120 | moves the cursor exactly as PeekBuf on two bytes, and returns their two's complement value when they were there |
| Reader.Reader.PeekDword | src/internal/reader.c:122-126 | moves the cursor exactly as PeekBuf on four bytes, and returns their two's complement value when they were there |
| Reader.Reader.Match | src/internal/reader.c:128-135 | moves the cursor as PeekBuf does and returns 0 or 1. When the bytes are all there, it returns 1 iff they equal buf |
| Writer.Open | src/rec.c:135-137 | an uncreatable destination gives null; a writable one gives a fresh, empty writer |
| Writer.Writer.WriteBuf | src/rec.c:142 | appends the bytes given |
| Writer.Writer.WriteFill | src/rec.c:143 | appends n copies of the byte |
| Writer.Writer.WriteUDword | src/rec.c:148 | appends the four little-endian bytes of the value |
| Writer.Writer.WriteUByte | src/rec.c:168 | appends the byte |
| Writer.Writer.WriteByte | src/rec.c:151 | appends the two's complement byte of the value |
| Writer.Writer.WriteWord | src/rec.c:154 | appends the two little-endian two's complement bytes of the value |
| Writer.Writer.WriteDword | src/rec.c:162 | appends the four little-endian two's complement bytes of the value |
| Writer.Writer.Close | src/rec.c:195 | the writer is closed |
| ByteOrder.LeValue | src/internal/reader.c:62-72 | the value of bytes read little-endian, below 256 to the number of bytes; the first byte is the least significant |
| ByteOrder.LeBytes | src/internal/reader.c:62-72 | the n bytes that hold a value little-endian, the first being the value mod 256 |
| ByteOrder.ToSigned | src/internal/reader.c:74-90 | the two's complement reading of an n-byte pattern: in the signed range, equal to the pattern or the pattern minus 256 to the n, and negative exactly when the pattern is at least half the range |
| ByteOrder.ToUnsigned | src/internal/reader.c:74-90 | the n-byte pattern of a signed value: below 256 to the n, equal to the value or the value plus 256 to the n |
| ByteOrder.LeValueOfBytes | src/internal/reader.c:62-72 | reading back the little-endian bytes of a value gives the value |
| ByteOrder.LeBytesOfValue | src/internal/reader.c:62-72 | writing the little-endian value of some bytes gives the same bytes |
| ByteOrder.SignedRoundTrip | src/internal/reader.c:74-90 | the two's complement reading and writing of an n-byte value are inverse to each other both ways |
| Actions.DecodeActionFields | src/rec.c:92-108 | Punch is set iff bit 0 is, and Kick iff bit 1 is. The directions come from the high nibble through the table, so they are none or one of the eight listed combinations |
| Actions.EncodeActionFields | src/rec.c:176-191 | the byte written carries Punch in bit 0 and Kick in bit 1. Bits 2 and 3 are clear, and the high nibble is the direction code, at most 8 |
| Actions.NibbleDirections | src/rec.c:99-108 | the switch on the high nibble: 16 up, 32 up and right, 48 right, 64 down and right, 80 down, 96 down and left, 112 left, 128 up and left, anything else no direction; characterised by DirectionTables |
| Actions.DirectionsCode | src/rec.c:177-186 | the switch on the direction flags: the same eight combinations to 16, ..., 128, anything else to 0; characterised by DirectionTables |
| Actions.DecodeAction | src/rec.c:92-108 | the flag word of an action byte: Punch from bit 0, Kick from bit 1, directions from the high nibble through NibbleDirections; its properties are DecodeActionFields, EncodeDecodeExact and DecodeEncode |
| Actions.EncodeAction | src/rec.c:176-191 | the byte written for a flag word: the direction code plus 1 for Punch and 2 for Kick; its properties are EncodeActionFields, EncodeDecodeExact and DecodeEncode |
| Actions.DirectionTables | src/rec.c:99-108 | the decode table yields directions only, and a listed combination exactly for 16, 32, ..., 128. The encode table yields a multiple of 16 up to 128, non-zero exactly on the eight combinations. The two tables are inverse both ways on those, and an unlisted combination encodes to 0 |
| Actions.EncodeDecodeExact | src/rec.c:176-191 | re-encoding a decoded byte gives it back iff bits 2 and 3 are clear and the high nibble is 0, 16, ..., 128 |
| Actions.DecodeEncode | src/rec.c:92-108 | decoding an encoded action gives Kept of it: the whole action when its directions are none or listed, otherwise only Punch and Kick |
| Actions.KeptIsStable | src/rec.c:176-191 | what survives one save and load survives another unchanged, and it encodes to the same byte |
| RecFormat.ByteRoundTrip | src/rec.c:64-66 | a header byte written by save is read back unchanged by load |
| RecFormat.WordRoundTrip | src/rec.c:67-74 | a header word written by save is read back unchanged by load |
| RecFormat.DwordRoundTrip | src/rec.c:75 | a header dword written by save is read back unchanged by load |
| RecFormat.ScalarsRoundTrip | src/rec.c:63-76 | the 24 bytes save writes for the thirteen scalars parse back to the same thirteen scalars |
| RecFormat.ScalarsBytes | src/rec.c:150-163 | the 24 bytes of the thirteen scalars in write order: three bytes, eight little-endian words, a dword and a byte |
| RecFormat.Byte | src/rec.c:151 | the two's complement byte of a signed value, the same conversion Writer.Writer.WriteByte states; ByteRoundTrip and ByteOfSigned show it inverse to the signed reading |
| RecFormat.Word | src/internal/reader.c:80-84 | the signed little-endian word of two bytes, the value Reader.Reader.ReadWord states; WordRoundTrip and WordBytesOfWord show it inverse to WordBytes |
| RecFormat.Dword | src/internal/reader.c:86-90 | the signed little-endian dword of four bytes, the value Reader.Reader.ReadDword states; DwordRoundTrip and DwordBytesOfDword show it inverse to DwordBytes |
| RecFormat.WordBytes | src/rec.c:154-161 | a header word is written as two bytes |
| RecFormat.DwordBytes | src/rec.c:162 | a header dword is written as four bytes |
| RecFormat.ParseScalars | src/rec.c:63-76 | the thirteen scalars load reads from 24 bytes, each at its offset and width; ScalarsRoundTrip and ParseScalarsRoundTrip show it is inverse to ScalarsBytes both ways |
| RecFormat.ByteOfSigned | src/rec.c:64-66 | a header byte read by load is written back unchanged by save |
| RecFormat.WordBytesOfWord | src/rec.c:67-74 | the two bytes of a header word read by load are written back unchanged by save |
| RecFormat.DwordBytesOfDword | src/rec.c:75 | the four bytes of a header dword read by load are written back unchanged by save |
| RecFormat.ParseScalarsRoundTrip | src/rec.c:63-76 | any 24 header bytes that load parses are written back byte for byte by save |
| RecFormat.EncodeMove | src/rec.c:166-192 | a record is 14 bytes when extra > 2 and 7 otherwise. Byte 4 is extra and byte 5 the player id. Byte 6 is the stored raw action for a long record and the re-encoded action otherwise |
| RecFormat.EncodeMoves | src/rec.c:165-193 | the move section is 7 bytes per slot: one slot per short record, two per long one |
| RecFormat.EncodeMovesAppend | src/rec.c:165-193 | writing one more move appends exactly its record to the section |
| RecFormat.DecodeRecordHead | src/rec.c:86-108 | the record head gives extra, player id and the raw action byte as stored, the action decoded from that byte, and no payload |
| RecFormat.DecodeMoves | src/rec.c:80-117 | the loop keeps at most as many moves as the budget of 7-byte slots, and every long move it keeps has its 7 payload bytes |
| RecFormat.HeadAt | src/rec.c:86-91 | the head of the record at an offset has that record's extra byte and no payload |
| RecFormat.HeadAtIsRecordHead | src/rec.c:86-91 | the record head read at an offset of the file is the head of the suffix from that offset |
| RecFormat.DecodeFrom | src/rec.c:80-117 | the decoding loop on the file from the cursor's offset: a short record uses one slot, a long one two and brings its payload, and a long record met with one slot left is dropped; DecodeFromIsDecodeMoves equates it with DecodeMoves |
| RecFormat.DecodeFromIsDecodeMoves | src/rec.c:80-117 | decoding from an offset of the file is decoding its suffix from that offset |
| RecFormat.Reloaded | src/rec.c:166-191 | a saved and reloaded move keeps tick, extra and player id. A long move also keeps its raw byte and payload |
| RecFormat.ReloadedDecodes | src/rec.c:92-108 | a reloaded move's action is the decoding of its action byte |
| RecFormat.ReloadedKeepsAction | src/rec.c:176-191 | a short move's action survives a save and a load iff its directions are none or one of the eight listed combinations |
| RecFormat.ReloadAll | src/rec.c:165-193 | reloading a list reloads each move in place, with the length kept |
| RecFormat.ReloadedIsStable | src/rec.c:165-193 | a second save and load changes nothing |
| RecFormat.DecodeHeadOfEncoded | src/rec.c:86-108 | the head decoded from an encoded record is the reloaded move without its payload |
| RecFormat.DecodeStep | src/rec.c:85-113 | one pass of the loop on an encoded record yields the reloaded move and uses exactly its slots |
| RecFormat.DecodeEncodedMoves | src/rec.c:80-117 | a section of encoded records plus fewer than 7 stray bytes gives a starting budget of exactly the records' slot count. The loop then keeps every record, reloaded |
| RecFormat.DecodeEncodedCons | src/rec.c:85-113 | the inductive step of the section round-trip: the first record, then the rest |
| RecFormat.BudgetOfSlots | src/rec.c:80-81 | the starting budget of a section of n slots plus stray bytes is n |
| RecFormat.HeaderFits | src/rec.c:41-43 | with the profile inside its 428-byte overlay, both slots and the header fit in the 1224-byte minimum, and a full-size profile puts the moves at exactly 1224 |
| RecFormat.Serialize | src/rec.c:139-193 | the file written is 1224 header bytes plus the move section |
| RecFormat.HackTimeAt | src/rec.c:48-50 | a slot's hack_time block is 428 bytes |
| RecFormat.ScoreAt | src/rec.c:59-61 | a slot's score is the little-endian u32 at 4 times the slot past the scores' start |
| RecFormat.ScalarsAt | src/rec.c:63-76 | the scalars are ParseScalars of the 24 bytes after the scores |
| RecFormat.MovesAt | src/rec.c:78-117 | the moves are the decoding loop run on everything after the header, with a budget of its length divided by 7 |
| RecFormat.SerializeRegions | src/rec.c:139-163 | the written file has each hack_time block, 168 zero bytes after each, both scores, the scalars and the moves at fixed offsets |
| RecFormat.LoadAfterSave | src/rec.c:45-117 | when the profile codec consumes exactly its 428-byte overlay, loading what save wrote returns both hack_time blocks byte for byte, both scores, the thirteen scalars and every move as reloaded |
| RecFormat.ScoresReadBack | src/rec.c:59-61 | the scores save writes are the scores load reads |
| RecFormat.MovesReadBack | src/rec.c:80-117 | a move section written by save is read back as the reloaded moves |
| RecFormat.DecodedMovesAsLoaded | src/rec.c:85-113 | every move the loop keeps has its action decoded from its byte, and a short one has no payload |
| RecFormat.ReloadedOfLoaded | src/rec.c:92-191 | a move as loaded survives a save and a load unchanged when long, and up to its action byte, re-encoded from its action, when short |
| RecFormat.LoadedMovesSurvive | src/rec.c:80-193 | every move of a loaded file keeps tick, extra, player id and action through save then load, and a long move also keeps its raw byte and payload |
| MoveList.RemoveAt | src/rec.c:203-211 | one element fewer: the earlier ones stay, the later ones move one place down, and the multiset loses exactly the removed element |
| MoveList.Clamp | src/rec.c:224-226 | the insertion index is n when n is within the list, and never past the end otherwise (that it is then the end, so the insertion appends, is InsertPastEndAppends) |
| MoveList.InsertAt | src/rec.c:227-245 | one element more, at the clamped index: the earlier ones stay, the later ones move one place up, and the multiset gains exactly the element |
| MoveList.InsertPastEndAppends | src/rec.c:224-226 | an insertion at or past the end appends |
| MoveList.InsertUndoesRemove | src/rec.c:199-248 | deleting index n and inserting the deleted element at n gives the list back |
| MoveList.RemoveUndoesInsert | src/rec.c:199-248 | inserting and deleting at the clamped index gives the list back |
| Rec.Create | src/rec.c:9-15 | a NULL record is invalid input. Otherwise every field is zero: no profiles, zeroed hack_time blocks, scores and scalars, and no moves |
| Rec.LoadPilot | src/rec.c:53-55 | the profile is the ps bytes at the cursor, and loading it consumes them |
| Rec.ReadU8 | src/rec.c:87-89 | at a position with a byte left: returns that byte, advances by one, and the error state is untouched |
| Rec.ReadU32 | src/rec.c:60-61 | at a position with four bytes left: returns their little-endian value and advances by four |
| Rec.ReadI8 | src/rec.c:64-66 | at a position with a byte left: returns its signed value and advances by one |
| Rec.ReadI16 | src/rec.c:67-74 | at a position with two bytes left: returns the word of those bytes and advances by two |
| Rec.ReadI32 | src/rec.c:75 | at a position with four bytes left: returns the dword of those bytes and advances by four |
| Rec.ReadScalars | src/rec.c:63-76 | the thirteen scalars are ParseScalars of the 24 bytes at the cursor, and the cursor moves past them |
| Rec.ReadRecordHead | src/rec.c:86-108 | the record head at the cursor, decoded as HeadAt; the cursor moves 7 bytes |
| Rec.ReadRecord | src/rec.c:85-112 | the record read is the first one the loop keeps from the cursor, and the rest start where the cursor stops. A long record met with one slot left is dropped, and when its payload is short the end-of-file indicator is set |
| Rec.ReadCounted | src/rec.c:85-113 | one loop pass: the record joins the kept records and the count drops by one for a long record. The loop invariant is kept, or the pass is the final short payload read |
| Rec.ReadMoveArray | src/rec.c:80-117 | the moves kept are the loop's decoding from the cursor. Their number is the passes made, or one fewer after a short payload read |
| Rec.ReadMoves | src/rec.c:78-117 | the moves kept are DecodeMoves of the rest of the file with a budget of its length divided by 7 |
| Rec.ReadSlot | src/rec.c:46-57 | one slot: the 428-byte block at the slot's start, with the cursor reset there for the profile and then 168 bytes skipped to the next slot |
| Rec.ReadSlots | src/rec.c:46-57 | both slots' hack_time blocks and profiles; the cursor ends at the scores |
| Rec.ReadScores | src/rec.c:59-61 | both scores, read little-endian after the slots |
| Rec.ReadAll | src/rec.c:45-117 | every field as the format functions read it from the file |
| Rec.Load | src/rec.c:30-126 | a NULL record or path is invalid input, and an unopenable file is an open error. A file under 1224 bytes is a parse error, with the reader closed. Otherwise the record holds exactly what LoadedFrom reads, with move_count equal to the number of moves, and the reader is closed. A failed load leaves the record untouched |
| Rec.WriteScalars | src/rec.c:150-163 | appends exactly ScalarsBytes of the scalars |
| Rec.ScalarsBytesInPieces | src/rec.c:150-163 | the thirteen writes in order make up the 24 bytes ScalarsBytes describes |
| Rec.WriteSlots | src/rec.c:139-144 | appends each hack_time block followed by 168 zero bytes |
| Rec.WriteScores | src/rec.c:146-148 | appends both scores little-endian |
| Rec.WriteMove | src/rec.c:166-192 | appends exactly the move's record |
| Rec.WriteMoves | src/rec.c:165-193 | appends the records of all moves in order |
| Rec.Save | src/rec.c:128-197 | a NULL record or path is invalid input, and an uncreatable destination is an open error. Otherwise the file written is Serialize of the record and the writer is closed |
| Rec.SaveThenLoad | src/rec.c:30-197 | saving a valid record and loading the file it wrote, with the profile codec consuming exactly its 428-byte overlay, succeeds and gives back the hack_time blocks, scores and scalars unchanged, every move as reloaded with move_count equal to their number, and each profile as the hack_time block that overlays it |
| Rec.DeleteAction | src/rec.c:199-218 | an index at or past move_count is invalid input, with nothing changed. Otherwise the list loses exactly that element, order kept. When realloc fails the moves are lost, the count stays decremented and the result is out of memory. The header fields never change |
| Rec.InsertAction | src/rec.c:220-248 | a NULL record is invalid input. Otherwise the move lands at the index clamped to move_count, with the others kept in order. When realloc fails the moves are lost, the count stays incremented and the result is out of memory. The header fields never change |

## Left out

- `src/game/protos/scene.c` is not part of this model. It is scene callback dispatch and rendering, with no bearing on the file formats.
- The profile codec (`sd_pilot_create`, `sd_pilot_load`, `sd_pilot_free`) is not part of this model. A profile is the `ps` bytes it consumes from the cursor (`Rec.LoadPilot`). Save never writes profiles, only the hack_time blocks that overlay them.
- `writer.c` is not part of this model. The writer is an append-only byte sequence whose writes do not fail, with the same encodings as the reader.
- `sd_reader_filesize` and `sd_reader_set` are not part of this model. They are taken as the length of the data and a plain seek that clears the end-of-file indicator.
- `sd_rec_free`, `malloc`/`free`, `fopen`/`fclose` and handle lifetime are left out. Closing is a flag.
- A `realloc` that fails is the parameter `reallocFails` of the editing calls. The shrinking `realloc` at the end of `sd_rec_load` is taken to succeed and keep the data, as the code assumes.
- Host byte order is fixed as little-endian. The `sizeof(sd_rec_move)` memory layout is replaced by element-indexed sequences.
- The `SD_REC_*` flag values and `SD_MOVE_MASK` are left out. The flag word is a record of six booleans. `SD_REC_PUNCH` is taken as 1 and `SD_REC_KICK` as 2, matching the literal 1 and 2 that save ORs in, and `SD_MOVE_MASK` as selecting exactly the four directions.
- The bytes of `extra_data` for a record with `extra <= 2` are left unset by the code. The model keeps them empty after a load and never writes them.
- Rec.Load: requires the profile codec to consume at most its 428-byte overlay. A larger profile would push the header reads past the 1224-byte minimum, and the unsigned remaining-size computation could wrap.
- Rec.DeleteAction: states the intended removal, not the code's memory effect. The `memmove` copies `move_count - 1` elements from `moves + number + 1` to `moves + number`, whatever `number` is. So for `number > 0` it reads `number` elements past the end of the buffer and writes `number - 1` elements past it. The elements left inside the shrunk buffer are the intended ones. The code also reads `move_count` before testing `rec` for NULL, so the model requires a non-NULL record.
- Rec.InsertAction: states the intended insertion, not the code's memory effect. `start` is computed as a byte offset (`number * sizeof(sd_rec_move)`) but added to a `sd_rec_move` pointer as an element offset, so every `memmove` and `memcpy` target is scaled by `sizeof(sd_rec_move)`. Only an insertion into an empty list comes out right. At `number == 0` on a non-empty list, the old moves are moved to element `sizeof(sd_rec_move)` instead of element 1, partly or wholly past the buffer, and the `memcpy` overwrites the old first move. For `number > 0` the `memmove` moves the tail from element `number * sizeof(sd_rec_move)` to element `(number + 1) * sizeof(sd_rec_move)`, and the `memcpy` writes the new move at element `number * sizeof(sd_rec_move)`; each is outside the buffer once that offset passes its end. The guard `number < move_count` runs after the increment and always holds.
- Rec.Save: requires a consistent record, with move_count equal to the number of moves held. After a failed `realloc` in the editing calls, the code would write `move_count` records through a NULL pointer, which the model does not follow.
- Reader.Reader.Match: promises nothing about the result after a short fetch. The comparison then reads an uninitialised tail of the local buffer.
- Reader.Open: requires a non-NULL path, since `fopen` of NULL is undefined. `sd_rec_load` and `sd_rec_save` test the path for NULL before opening it.
- Writer.Open: requires a non-NULL path, for the same reason.
