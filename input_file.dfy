/** input_file.c: reading fixed-size fields from the input stream and
    decoding one texture record at an arbitrary offset. Each C function is a
    method on the shared run state, proved against a pure function of the
    input bytes and the old position (BufferRead, FieldRead, DecodeFile); the
    lemmas state what those functions mean in terms of the record layout. */
module InputFile {
  import opened ByteOrder
  import opened Globals

  datatype Option<T> = None | Some(value: T)

  // ---------------------------------------------------------------------
  // get_buffer and get_buffer_endian
  // ---------------------------------------------------------------------

  /** Status, bytes obtained and new position of get_buffer. */
  datatype BufferResult = BufferResult(ret: int, bytes: seq<byte>, cursor: nat)

  /** get_buffer(buffer, size): fread size bytes; 0 when all of them came,
      -EIO otherwise. The position moves past the bytes actually read. */
  function BufferRead(input: seq<byte>, cursor: nat, size: nat): (r: BufferResult)
    ensures r.ret == 0 <==> size == 0 || cursor + size <= |input|
    ensures r.ret != 0 ==> r.ret == -EIO
    ensures |r.bytes| == Min(size, Available(input, cursor))
    ensures forall k :: 0 <= k < |r.bytes| ==> r.bytes[k] == input[cursor + k]
    ensures r.cursor == cursor + |r.bytes|
  {
    var got := Fread(input, cursor, size);
    BufferResult(if |got| == size then 0 else -EIO, got, cursor + |got|)
  }

  /** The widths get_buffer_endian converts. */
  predicate FieldWidth(size: nat)
  {
    size == 1 || size == 2 || size == 4 || size == 8
  }

  /** Status, field value and new position of get_buffer_endian. The value
      is meaningful only when the status is 0. */
  datatype FieldResult = FieldResult(ret: int, value: nat, cursor: nat)

  /** get_buffer_endian(buffer, size): read the bytes, then read them as a
      little-endian unsigned integer. A short read is -EIO; a width other than
      1, 2, 4 or 8 is -EINVAL once its bytes have been consumed. */
  function FieldRead(input: seq<byte>, cursor: nat, size: nat): (r: FieldResult)
    ensures r.ret <= 0
    ensures r.cursor == cursor + Min(size, Available(input, cursor))
    ensures r.ret == 0 <==> FieldWidth(size) && cursor + size <= |input|
    ensures r.ret < 0 && (size == 0 || cursor + size <= |input|) ==> r.ret == -EINVAL
    ensures r.ret < 0 && !(size == 0 || cursor + size <= |input|) ==> r.ret == -EIO
    ensures r.ret == 0 ==> r.value == LeDecode(input[cursor .. cursor + size]) && r.value < Pow256(size)
  {
    if size != 0 && |input| < cursor + size then FieldResult(-EIO, 0, Max(cursor, |input|))
    else if FieldWidth(size) then FieldResult(0, LeDecode(input[cursor .. cursor + size]), cursor + size)
    else FieldResult(-EINVAL, 0, cursor + size)
  }

  /** get_buffer_endian is get_buffer followed by the conversion: same
      status and position, and on success the little-endian value of the
      bytes obtained. */
  lemma FieldReadIsBufferRead(input: seq<byte>, cursor: nat, size: nat)
    ensures var b, f := BufferRead(input, cursor, size), FieldRead(input, cursor, size);
      && f.cursor == b.cursor
      && (b.ret < 0 ==> f.ret == b.ret)
      && (b.ret == 0 ==> f.ret == (if FieldWidth(size) then 0 else -EINVAL))
      && (f.ret == 0 ==> f.value == LeDecode(b.bytes))
  {
    var b := BufferRead(input, cursor, size);
    if b.ret == 0 && size > 0 {
      assert b.bytes == input[cursor .. cursor + size];
    }
  }

  method GetBuffer(g: Globals, size: nat) returns (ret: int, bytes: seq<byte>)
    requires g.Valid()
    modifies g`cursor
    ensures g.Valid()
    ensures BufferRead(g.input, old(g.cursor), size) == BufferResult(ret, bytes, g.cursor)
  {
    bytes := Fread(g.input, g.cursor, size);
    g.cursor := g.cursor + |bytes|;
    if |bytes| == size {
      return 0, bytes;
    }
    return -EIO, bytes;
  }

  /** The bytes land in the caller's variable in memory; for 2, 4 and 8 bytes
      the host loads them as one word and converts it with leNNtoh. */
  method GetBufferEndian(g: Globals, size: nat) returns (ret: int, value: nat)
    requires g.Valid()
    modifies g`cursor
    ensures g.Valid()
    ensures FieldRead(g.input, old(g.cursor), size) == FieldResult(ret, value, g.cursor)
  {
    FieldReadIsBufferRead(g.input, g.cursor, size);
    var bytes;
    ret, bytes := GetBuffer(g, size);
    if ret < 0 {
      return ret, 0;
    }
    if size == 1 {
      // a single byte has no byte order
      value := HostLoad(bytes, g.env.host);
      SingleByteUnchanged(bytes[0], g.env.host);
      assert bytes == [bytes[0]];
    } else if size == 2 || size == 4 || size == 8 {
      value := LeToHost(HostLoad(bytes, g.env.host), size, g.env.host);
      LeToHostIndependent(bytes, g.env.host);
    } else {
      return -EINVAL, 0;
    }
    return 0, value;
  }

  // ---------------------------------------------------------------------
  // The record header: seven fields read in a fixed order
  // ---------------------------------------------------------------------

  /** Widths of width, height, format, texture_format, pixel_type,
      is_hires_tex and size, in the order convert_file reads them. */
  const RecordFieldWidths: seq<nat> := [4, 4, 4, 2, 2, 1, 4]

  /** Bytes of the record header. */
  const RecordHeaderSize: nat := 21

  function Sum(ws: seq<nat>): (total: nat)
  {
    if |ws| == 0 then 0 else ws[0] + Sum(ws[1..])
  }

  /** Offset of field j from the start of a run of fields of the given widths. */
  function FieldStart(widths: seq<nat>, j: nat): (start: nat)
    requires j <= |widths|
  {
    Sum(widths[..j])
  }

  /** Status, values read so far and new position of a run of get_item calls. */
  datatype FieldsResult = FieldsResult(ret: int, values: seq<nat>, cursor: nat)

  /** Fields of the given widths read one after another, stopping at the
      first failing read, whose status is returned; on success the status is
      that of the last read. */
  function ReadFields(input: seq<byte>, cursor: nat, widths: seq<nat>): (r: FieldsResult)
    ensures r.ret <= 0
    ensures r.ret == 0 ==> |r.values| == |widths|
    ensures r.ret < 0 ==> |r.values| < |widths|
    decreases |widths|
  {
    if |widths| == 0 then FieldsResult(0, [], cursor)
    else
      var f := FieldRead(input, cursor, widths[0]);
      if f.ret < 0 then FieldsResult(f.ret, [], f.cursor)
      else
        var rest := ReadFields(input, f.cursor, widths[1..]);
        FieldsResult(rest.ret, [f.value] + rest.values, rest.cursor)
  }

  lemma SumCons(ws: seq<nat>, j: nat)
    requires 1 <= j <= |ws|
    ensures FieldStart(ws, j) == ws[0] + FieldStart(ws[1..], j - 1)
  {
    assert ws[..j][1..] == ws[1..][..j - 1];
  }

  lemma {:induction false} SumSnoc(ws: seq<nat>, j: nat)
    requires j < |ws|
    ensures FieldStart(ws, j + 1) == FieldStart(ws, j) + ws[j]
    decreases j
  {
    if j == 0 {
      assert ws[..1][1..] == [] && ws[..0] == [];
    } else {
      SumCons(ws, j + 1);
      SumSnoc(ws[1..], j - 1);
      SumCons(ws, j);
    }
  }

  /** Field j is read at offset FieldStart(widths, j) past the start, in
      order: every value obtained is the little-endian value of its own bytes,
      which all lie inside the input. */
  lemma {:induction false} ReadFieldsInOrder(input: seq<byte>, cursor: nat, widths: seq<nat>)
    ensures var r := ReadFields(input, cursor, widths);
      forall j :: 0 <= j < |r.values| ==>
        && cursor + FieldStart(widths, j) + widths[j] <= |input|
        && r.values[j] == LeDecode(input[cursor + FieldStart(widths, j) .. cursor + FieldStart(widths, j) + widths[j]])
    decreases |widths|
  {
    var r := ReadFields(input, cursor, widths);
    if |widths| == 0 {
      return;
    }
    var f := FieldRead(input, cursor, widths[0]);
    if f.ret < 0 {
      return;
    }
    var ws := widths[1..];
    ReadFieldsInOrder(input, f.cursor, ws);
    var rest := ReadFields(input, f.cursor, ws);
    assert r.values == [f.value] + rest.values;
    forall j | 0 <= j < |r.values|
      ensures cursor + FieldStart(widths, j) + widths[j] <= |input|
      ensures r.values[j] == LeDecode(input[cursor + FieldStart(widths, j) .. cursor + FieldStart(widths, j) + widths[j]])
    {
      if j > 0 {
        SumCons(widths, j);
        assert widths[j] == ws[j - 1] && r.values[j] == rest.values[j - 1];
      } else {
        assert widths[..0] == [];
      }
    }
  }

  /** Among valid widths the run succeeds exactly when all its bytes are
      there. The first short read returns -EIO with the position at the end
      of the input, and no later field is read; on success the position is
      just past the last field. */
  lemma {:induction false} ReadFieldsStopsAtFirstFailure(input: seq<byte>, cursor: nat, widths: seq<nat>)
    requires forall j :: 0 <= j < |widths| ==> FieldWidth(widths[j])
    ensures var r := ReadFields(input, cursor, widths);
      && (r.ret == 0 <==> |widths| == 0 || cursor + Sum(widths) <= |input|)
      && (r.ret == 0 ==> r.cursor == cursor + Sum(widths))
      && (r.ret < 0 ==>
            && r.ret == -EIO
            && r.cursor == Max(cursor, |input|)
            && |input| < cursor + FieldStart(widths, |r.values|) + widths[|r.values|]
            && |input| < cursor + Sum(widths))
    decreases |widths|
  {
    var r := ReadFields(input, cursor, widths);
    if |widths| == 0 {
      return;
    }
    var f := FieldRead(input, cursor, widths[0]);
    assert Sum(widths) == widths[0] + Sum(widths[1..]);
    if f.ret < 0 {
      assert widths[..0] == [];
      return;
    }
    var ws := widths[1..];
    ReadFieldsStopsAtFirstFailure(input, f.cursor, ws);
    var rest := ReadFields(input, f.cursor, ws);
    if r.ret < 0 {
      var m := |rest.values|;
      assert |r.values| == m + 1;
      SumCons(widths, m + 1);
      assert widths[m + 1] == ws[m];
    }
  }

  /** Where each header field lies within a record. */
  lemma RecordFieldOffsets()
    ensures FieldStart(RecordFieldWidths, 0) == 0
    ensures FieldStart(RecordFieldWidths, 1) == 4
    ensures FieldStart(RecordFieldWidths, 2) == 8
    ensures FieldStart(RecordFieldWidths, 3) == 12
    ensures FieldStart(RecordFieldWidths, 4) == 14
    ensures FieldStart(RecordFieldWidths, 5) == 16
    ensures FieldStart(RecordFieldWidths, 6) == 17
    ensures Sum(RecordFieldWidths) == RecordHeaderSize
    ensures forall j :: 0 <= j < |RecordFieldWidths| ==> FieldWidth(RecordFieldWidths[j])
  {
    var w := RecordFieldWidths;
    assert w[..0] == [];
    SumSnoc(w, 0);
    SumSnoc(w, 1);
    SumSnoc(w, 2);
    SumSnoc(w, 3);
    SumSnoc(w, 4);
    SumSnoc(w, 5);
    SumSnoc(w, 6);
    assert w[..7] == w;
  }

  // ---------------------------------------------------------------------
  // convert_file
  // ---------------------------------------------------------------------

  /** Status, position, output and whether a payload buffer was allocated
      after convert_file. */
  datatype FileResult = FileResult(ret: int, cursor: nat, output: seq<OutItem>, bufferAllocated: bool)

  /** convert_file(pos, checksum): seek to the record, read its header, skip
      an empty record, read the payload, have it prepared and written. A
      preparation failure is forgiven under ignore_error; nothing else is. */
  function DecodeFile(input: seq<byte>, env: Env, cursor: nat, output: seq<OutItem>,
                      pos: nat, checksum: nat): (r: FileResult)
    ensures r.ret <= 0
    ensures AddsEntries(output, r.output, 1)
    ensures r.output != output ==> r.ret == 0 && r.bufferAllocated
    ensures r.bufferAllocated ==> pos < LongLimit
  {
    if pos >= LongLimit then FileResult(-1, cursor, output, false)
    else DecodeRecord(input, env, output, pos, checksum)
  }

  /** convert_file after a successful seek to pos. */
  function DecodeRecord(input: seq<byte>, env: Env, output: seq<OutItem>,
                        pos: nat, checksum: nat): (r: FileResult)
    ensures r.ret <= 0
    ensures AddsEntries(output, r.output, 1)
    ensures r.output != output ==> r.ret == 0 && r.bufferAllocated
  {
    var h := HeaderRead(input, pos);
    if h.ret < 0 then FileResult(h.ret, h.cursor, output, false)
    else if h.values[6] == 0 then FileResult(h.ret, h.cursor, output, false)
    else DecodePayload(input, env, output, h.cursor, checksum, h.values)
  }

  /** The rest of convert_file once a header with a non-zero size is read:
      allocate and fill the payload buffer, then deliver the record. */
  function DecodePayload(input: seq<byte>, env: Env, output: seq<OutItem>, cursor: nat,
                         checksum: nat, header: seq<nat>): (r: FileResult)
    requires |header| == 7
    ensures r.ret <= 0 && r.bufferAllocated
    ensures AddsEntries(output, r.output, 1)
    ensures r.output != output ==> r.ret == 0 && r.bufferAllocated
  {
    var b := BufferRead(input, cursor, header[6]);
    if b.ret < 0 then FileResult(b.ret, b.cursor, output, true)
    else
      Deliver(env, output, b.cursor,
              Record(checksum, header[0], header[1], header[2], header[3], header[4], header[5],
                     header[6], b.bytes))
  }

  /** prepare_file then write_file on a record whose payload is in memory;
      write_file is given the record as prepare_file left it. */
  function Deliver(env: Env, output: seq<OutItem>, cursor: nat, file: Record): (r: FileResult)
    ensures r.ret <= 0 && r.bufferAllocated && r.cursor == cursor
    ensures r.output == output
            || (r.ret == 0 && r.output == output + [Entry(env.prepareFile(file).file)])
  {
    var p := env.prepareFile(file);
    if p.ret < 0 then FileResult(if env.ignoreError then 0 else p.ret, cursor, output, true)
    else
      var w := env.writeFile(output, p.file);
      if w < 0 then FileResult(w, cursor, output, true)
      else FileResult(0, cursor, output + [Entry(p.file)], true)
  }

  /** The record at pos, read straight from the byte layout: a 21-byte
      little-endian header (width, height, format at 0, 4, 8; texture_format
      and pixel_type at 12 and 14; is_hires_tex at 16; size at 17) followed by
      size payload bytes. None when the record is cut short or empty. */
  function RecordAt(input: seq<byte>, pos: nat, checksum: nat): (rec: Option<Record>)
  {
    if pos + RecordHeaderSize <= |input| then
      var size := LeDecode(input[pos + 17 .. pos + 21]);
      if 0 < size && pos + RecordHeaderSize + size <= |input| then
        Some(Record(checksum,
                    LeDecode(input[pos .. pos + 4]),
                    LeDecode(input[pos + 4 .. pos + 8]),
                    LeDecode(input[pos + 8 .. pos + 12]),
                    LeDecode(input[pos + 12 .. pos + 14]),
                    LeDecode(input[pos + 14 .. pos + 16]),
                    LeDecode(input[pos + 16 .. pos + 17]),
                    size,
                    input[pos + 21 .. pos + 21 + size]))
      else None
    else None
  }

  /** The seven header fields of the record at pos taken straight from the
      layout: all of them when the 21 header bytes are there, otherwise -EIO
      with the position at the end of the input. */
  function HeaderRead(input: seq<byte>, pos: nat): (h: FieldsResult)
    ensures h.ret <= 0
    ensures h.ret == 0 ==> |h.values| == |RecordFieldWidths|
  {
    if pos + RecordHeaderSize <= |input| then
      FieldsResult(0, [LeDecode(input[pos .. pos + 4]),
                       LeDecode(input[pos + 4 .. pos + 8]),
                       LeDecode(input[pos + 8 .. pos + 12]),
                       LeDecode(input[pos + 12 .. pos + 14]),
                       LeDecode(input[pos + 14 .. pos + 16]),
                       LeDecode(input[pos + 16 .. pos + 17]),
                       LeDecode(input[pos + 17 .. pos + 21])],
                   pos + RecordHeaderSize)
    else FieldsResult(-EIO, [], Max(pos, |input|))
  }

  /** The header read succeeds exactly when the 21 header bytes are there;
      otherwise it fails with -EIO at the end of the input. */
  lemma HeaderReadStatus(input: seq<byte>, pos: nat)
    ensures var h := ReadFields(input, pos, RecordFieldWidths);
      && (h.ret == 0 <==> pos + RecordHeaderSize <= |input|)
      && (h.ret == 0 ==> h.cursor == pos + RecordHeaderSize)
      && (h.ret < 0 ==> h.ret == -EIO && h.cursor == Max(pos, |input|))
  {
    RecordFieldOffsets();
    ReadFieldsStopsAtFirstFailure(input, pos, RecordFieldWidths);
  }

  /** Reading the seven fields one by one, stopping at the first failure,
      gives the status, position and (on success) values of the layout. */
  lemma ReadFieldsIsHeaderRead(input: seq<byte>, pos: nat)
    ensures var r := ReadFields(input, pos, RecordFieldWidths);
      var h := HeaderRead(input, pos);
      && r.ret == h.ret && r.cursor == h.cursor
      && (r.ret == 0 ==> r.values == h.values)
  {
    HeaderReadStatus(input, pos);
    if pos + RecordHeaderSize <= |input| {
      HeaderFieldsMatchLayout(input, pos);
    }
  }

  /** A complete header yields its seven fields in order, each the
      little-endian value of its bytes. */
  lemma HeaderFieldsMatchLayout(input: seq<byte>, pos: nat)
    requires pos + RecordHeaderSize <= |input|
    ensures ReadFields(input, pos, RecordFieldWidths)
            == FieldsResult(0, [LeDecode(input[pos .. pos + 4]),
                                LeDecode(input[pos + 4 .. pos + 8]),
                                LeDecode(input[pos + 8 .. pos + 12]),
                                LeDecode(input[pos + 12 .. pos + 14]),
                                LeDecode(input[pos + 14 .. pos + 16]),
                                LeDecode(input[pos + 16 .. pos + 17]),
                                LeDecode(input[pos + 17 .. pos + 21])],
                            pos + RecordHeaderSize)
  {
    var w := RecordFieldWidths;
    var h := ReadFields(input, pos, w);
    HeaderReadStatus(input, pos);
    RecordFieldOffsets();
    ReadFieldsInOrder(input, pos, w);
    assert h.values[0] == LeDecode(input[pos .. pos + 4]);
    assert h.values[1] == LeDecode(input[pos + 4 .. pos + 8]);
    assert h.values[2] == LeDecode(input[pos + 8 .. pos + 12]);
    assert h.values[3] == LeDecode(input[pos + 12 .. pos + 14]);
    assert h.values[4] == LeDecode(input[pos + 14 .. pos + 16]);
    assert h.values[5] == LeDecode(input[pos + 16 .. pos + 17]);
    assert h.values[6] == LeDecode(input[pos + 17 .. pos + 21]);
  }

  /** The payload of a record present in the layout is read whole, from just
      past its header. */
  lemma PayloadReadAt(input: seq<byte>, pos: nat, checksum: nat)
    requires RecordAt(input, pos, checksum).Some?
    ensures var rec := RecordAt(input, pos, checksum).value;
      BufferRead(input, pos + RecordHeaderSize, rec.size)
      == BufferResult(0, rec.data, pos + RecordHeaderSize + rec.size)
  {
  }

  /** A record present in the layout reaches prepare_file exactly as the
      layout gives it, and Deliver, with the position just past its payload. */
  lemma DecodeFileDeliversRecordAt(input: seq<byte>, env: Env, cursor: nat, output: seq<OutItem>,
                                   pos: nat, checksum: nat)
    requires pos < LongLimit
    requires RecordAt(input, pos, checksum).Some?
    ensures var rec := RecordAt(input, pos, checksum).value;
      DecodeFile(input, env, cursor, output, pos, checksum)
      == Deliver(env, output, pos + RecordHeaderSize + rec.size, rec)
  {
    var rec := RecordAt(input, pos, checksum).value;
    var header := [rec.width, rec.height, rec.format, rec.textureFormat, rec.pixelType,
                   rec.isHiresTex, rec.size];
    assert HeaderRead(input, pos) == FieldsResult(0, header, pos + RecordHeaderSize);
    PayloadReadAt(input, pos, checksum);
    assert DecodeRecord(input, env, output, pos, checksum)
           == DecodePayload(input, env, output, pos + RecordHeaderSize, checksum, header);
  }

  /** A record present in the layout is written as exactly one entry, in
      the form prepare_file gave it, when prepare_file and write_file both
      succeed; a preparation failure writes
      nothing and returns 0 under ignore_error or its own code otherwise; a
      write failure is returned whatever ignore_error says. */
  lemma DecodeFileWritesRecordAt(input: seq<byte>, env: Env, cursor: nat, output: seq<OutItem>,
                                 pos: nat, checksum: nat)
    requires pos < LongLimit
    requires RecordAt(input, pos, checksum).Some?
    ensures var rec := RecordAt(input, pos, checksum).value;
      var r := DecodeFile(input, env, cursor, output, pos, checksum);
      var p := env.prepareFile(rec);
      var w := env.writeFile(output, p.file);
      && r.bufferAllocated
      && r.cursor == pos + RecordHeaderSize + rec.size
      && (p.ret < 0 ==> r.output == output && r.ret == (if env.ignoreError then 0 else p.ret))
      && (p.ret >= 0 && w < 0 ==> r.output == output && r.ret == w)
      && (p.ret >= 0 && w >= 0 ==> r.output == output + [Entry(p.file)] && r.ret == 0)
  {
    DecodeFileDeliversRecordAt(input, env, cursor, output, pos, checksum);
  }

  /** A record whose size field is 0 is skipped: status 0 (that of the last
      header read), nothing allocated, prepared or written, and the position
      just past its header. */
  lemma ZeroSizeRecordSkipped(input: seq<byte>, env: Env, cursor: nat, output: seq<OutItem>,
                              pos: nat, checksum: nat)
    requires pos < LongLimit
    requires pos + RecordHeaderSize <= |input|
    requires LeDecode(input[pos + 17 .. pos + 21]) == 0
    ensures DecodeFile(input, env, cursor, output, pos, checksum)
            == FileResult(0, pos + RecordHeaderSize, output, false)
  {
  }

  /** A record cut short by the end of the input fails with -EIO and writes
      nothing; its payload buffer was allocated exactly when the whole header
      was there, and the position is left at the end of the input. */
  lemma TruncatedRecordFails(input: seq<byte>, env: Env, cursor: nat, output: seq<OutItem>,
                             pos: nat, checksum: nat)
    requires pos < LongLimit
    requires RecordAt(input, pos, checksum).None?
    requires pos + RecordHeaderSize <= |input| ==> LeDecode(input[pos + 17 .. pos + 21]) != 0
    ensures var r := DecodeFile(input, env, cursor, output, pos, checksum);
      && r.ret == -EIO
      && r.output == output
      && r.cursor == Max(pos, |input|)
      && (r.bufferAllocated <==> pos + RecordHeaderSize <= |input|)
  {
  }

  /** What a successful convert_file of the record at pos adds to the
      output, read from the layout: one entry, as prepare_file left it, when
      the record is present and both prepare_file and write_file succeed;
      nothing otherwise. */
  function RecordOutput(input: seq<byte>, env: Env, output: seq<OutItem>, pos: nat,
                        checksum: nat): (written: seq<OutItem>)
  {
    match RecordAt(input, pos, checksum)
    case None => output
    case Some(rec) =>
      var p := env.prepareFile(rec);
      if p.ret >= 0 && env.writeFile(output, p.file) >= 0 then output + [Entry(p.file)]
      else output
  }

  /** When convert_file succeeds, its output is the layout's: the prepared
      record of a present record that was written, and nothing for a record
      that was skipped because its size is 0 or its preparation failed under
      ignore_error. */
  lemma DecodeFileSuccessOutput(input: seq<byte>, env: Env, cursor: nat, output: seq<OutItem>,
                                pos: nat, checksum: nat)
    ensures var r := DecodeFile(input, env, cursor, output, pos, checksum);
      r.ret == 0 ==> r.output == RecordOutput(input, env, output, pos, checksum)
  {
    if pos < LongLimit {
      if RecordAt(input, pos, checksum).Some? {
        DecodeFileWritesRecordAt(input, env, cursor, output, pos, checksum);
      } else if pos + RecordHeaderSize <= |input| && LeDecode(input[pos + 17 .. pos + 21]) == 0 {
        ZeroSizeRecordSkipped(input, env, cursor, output, pos, checksum);
      } else {
        TruncatedRecordFails(input, env, cursor, output, pos, checksum);
      }
    }
  }

  /** The seven get_item calls at the head of convert_file, each returning
      the first failing read's status. */
  method ReadRecordHeader(g: Globals)
    returns (ret: int, width: nat, height: nat, format: nat, textureFormat: nat,
             pixelType: nat, isHiresTex: nat, size: nat)
    requires g.Valid()
    modifies g`cursor
    ensures g.Valid()
    ensures var h := HeaderRead(g.input, old(g.cursor));
      && ret == h.ret && g.cursor == h.cursor
      && (ret == 0 ==> h.values == [width, height, format, textureFormat, pixelType, isHiresTex, size])
  {
    width, height, format, textureFormat, pixelType, isHiresTex, size := 0, 0, 0, 0, 0, 0, 0;
    ret, width := GetBufferEndian(g, 4);
    if ret < 0 {
      return;
    }
    ret, height := GetBufferEndian(g, 4);
    if ret < 0 {
      return;
    }
    ret, format := GetBufferEndian(g, 4);
    if ret < 0 {
      return;
    }
    ret, textureFormat := GetBufferEndian(g, 2);
    if ret < 0 {
      return;
    }
    ret, pixelType := GetBufferEndian(g, 2);
    if ret < 0 {
      return;
    }
    ret, isHiresTex := GetBufferEndian(g, 1);
    if ret < 0 {
      return;
    }
    ret, size := GetBufferEndian(g, 4);
    if ret < 0 {
      return;
    }
  }

  /** convert_file: the record's buffer is released on every path after it
      is allocated; the call is logged. */
  method ConvertFile(g: Globals, pos: nat, checksum: nat) returns (ret: int)
    requires g.Valid()
    modifies g`cursor, g`output, g`calls, g`live, g`allocations
    ensures g.Valid()
    ensures var r := DecodeFile(g.input, g.env, old(g.cursor), old(g.output), pos, checksum);
      && ret == r.ret && g.cursor == r.cursor && g.output == r.output
      && g.allocations == old(g.allocations) + (if r.bufferAllocated then 1 else 0)
    ensures g.live == old(g.live)
    ensures g.calls == old(g.calls) + [Call(pos, checksum)]
  {
    g.calls := g.calls + [Call(pos, checksum)];
    ret := g.Fseek(pos);
    if ret < 0 {
      return;
    }

    var width, height, format, textureFormat, pixelType, isHiresTex, size;
    ret, width, height, format, textureFormat, pixelType, isHiresTex, size := ReadRecordHeader(g);
    if ret < 0 {
      return;
    }
    if size <= 0 {
      return;
    }
    ret := LoadAndDeliver(g, checksum, width, height, format, textureFormat, pixelType, isHiresTex, size);
  }

  /** The part of convert_file that owns the payload buffer: allocate it,
      fill it, prepare and write the record, and free it on every path. */
  method LoadAndDeliver(g: Globals, checksum: nat, width: nat, height: nat, format: nat,
                        textureFormat: nat, pixelType: nat, isHiresTex: nat, size: nat)
    returns (ret: int)
    requires g.Valid()
    modifies g`cursor, g`output, g`live, g`allocations
    ensures g.Valid()
    ensures var r := DecodePayload(g.input, g.env, old(g.output), old(g.cursor), checksum,
                                   [width, height, format, textureFormat, pixelType, isHiresTex, size]);
      && ret == r.ret && g.cursor == r.cursor && g.output == r.output
    ensures g.allocations == old(g.allocations) + 1
    ensures g.live == old(g.live)
  {
    // malloc
    g.allocations := g.allocations + 1;
    g.live := g.live + 1;
    var data;
    ret, data := GetBuffer(g, size);
    if ret < 0 {
      g.live := g.live - 1;  // free
      return;
    }

    var file := Record(checksum, width, height, format, textureFormat, pixelType, isHiresTex, size, data);
    var prepared := g.env.prepareFile(file);
    ret, file := prepared.ret, prepared.file;
    if ret < 0 {
      g.live := g.live - 1;  // free
      if g.env.ignoreError {
        return 0;
      } else {
        return;
      }
    }

    ret := g.WriteFile(file);
    g.live := g.live - 1;  // free
    if ret < 0 {
      return;
    }
    return 0;
  }
}
