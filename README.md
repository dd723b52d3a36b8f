# GLideN64 texture-stream extractor, modelled in Dafny

`gliden64_texstream_extract` turns a GLideN64 texture-cache stream (a
`.hts` file) into a tar archive. The stream begins with a 32-bit config
word, followed by a 64-bit offset of the index. The index is a 32-bit entry
count followed by that many 16-byte entries, each a 64-bit checksum and a
64-bit record offset (texpos). Each record is a 21-byte little-endian
header (width, height, format, texture_format, pixel_type, is_hires_tex,
size) followed by `size` payload bytes. Each record with a non-zero size
goes to prepare_file and, when preparation succeeds, to write_file. After the last entry it writes two zero
512-byte tar blocks as the end-of-archive marker.

This project models the reading core:

- `convert_input` and `main` of `gliden64_texstream_extract.c`.
- `get_buffer`, `get_buffer_endian` and `convert_file` of `input_file.c`.

It is split into four modules:

- `ByteOrder` (`byte_order.dfy`): the little-endian value of a field as a
  pure function, with both round trips. It also models what a host of
  either byte order sees after loading a word and applying
  `le16toh`/`le32toh`/`le64toh`.
- `Globals` (`globals.dfy`): the shared run state (`globals`) as a class.
  - The input is an immutable byte sequence with a mutable file position.
  - The output is an append-only log of archive entries and tar blocks.
  - `ignore_error`, the host byte order and `FILE_CACHE_MASK` are
    parameters of the run.
  - The collaborators whose code is not part of this model
    (`parse_config`, `prepare_file`, `write_file`, `write_tarblock`) are
    functions that return a C status code. `prepare_file` also returns the
    record as it changed it in place, and that record is the one
    `write_file` is given.
  - The class has methods for `fseek`, `write_file` and `write_tarblock`.
- `InputFile` (`input_file.dfy`): the three C functions of `input_file.c`
  as methods on that state.
  - Each method is proved equal to a pure function of the input bytes and
    the old state (`BufferRead`, `FieldRead`, `HeaderRead`, `DecodeFile`).
  - Lemmas relate those functions to the byte layout of a record
    (`RecordAt`).
  - Ghost counters record that the payload buffer is freed on every path.
- `TexstreamExtract` (`texstream_extract.dfy`): `convert_input` as a
  method whose loop over the index is proved against `Walk`, the state
  after k turns of the loop.
  - The whole run is the pure function `Extraction`.
  - Lemmas say where the position is after each entry, which
    `convert_file` calls happen and in which order, which failure stops the
    run with which code, and what the output looks like in the end.
  - `RunMain` gives main's exit status.

The reference definitions of `convert_input` and its parts are
`TexstreamExtract.Extraction` (the whole run), `IndexExtraction` (from the
index offset on), `IndexFrom` (from the entry count on), `Walk` (k turns of
the index loop), `Finish` (the end-of-archive marker), `IsFileCache` (the
`FILE_CACHE_MASK` test of `gliden64_texstream_extract.c:44`) and
`RecordsOutput` (the output written for a run of index entries), with
`InputFile.RecordOutput` (the output written for one record). They carry no
contract of their own: the methods are proved equal to them, and the lemmas
in the table state their properties.

Two behaviours of the code are worth noting:

- A record whose size field is 0 is not an error. `convert_file` returns
  the status of the last header read, which is 0, so the record is skipped
  silently and the walk goes on (`input_file.c:133-136`;
  `InputFile.ZeroSizeRecordSkipped`).
- A config word without the texture-cache bit does not fail the run.
  `convert_input` returns parse_config's non-negative status, so main exits
  with 0 and no end-of-archive marker is written
  (`gliden64_texstream_extract.c:44-47`;
  `TexstreamExtract.UnsupportedVariantStopsCleanly`).

## Model

| member | source | states |
|---|---|---|
| ByteOrder.LeDecode | input_file.c:46-54 | the value of an n-byte little-endian field is below 256^n |
| ByteOrder.DecodeEncode | input_file.c:46-54 | decoding the n little-endian bytes of a value gives the value back |
| ByteOrder.EncodeDecode | input_file.c:46-54 | encoding the decoded value at the same width gives the bytes back |
| ByteOrder.Reverse | input_file.c:46-54 | the byte order a big-endian host sees: element k is element n-1-k |
| ByteOrder.ReverseReverse | input_file.c:46-54 | reversing twice is the identity |
| ByteOrder.HostLoad | input_file.c:47 | a word loaded from n bytes lies below 256^n on either host |
| ByteOrder.ByteSwap | input_file.c:47-53 | a byte swap keeps an n-byte value within n bytes |
| ByteOrder.LeToHost | input_file.c:46-54 | le16toh/le32toh/le64toh keep the value within its width |
| ByteOrder.LeToHostIndependent | input_file.c:42-58 | loading a field and converting it with leNNtoh gives its little-endian value on a host of either byte order |
| ByteOrder.SingleByteUnchanged | input_file.c:43-45 | a one-byte field is the byte itself on either host |
| Globals.ZeroBlock | gliden64_texstream_extract.c:150 | the end-of-archive block is 512 bytes, all zero |
| Globals.Fread | input_file.c:19 | fread returns as many of the requested bytes as the input still holds, in order, from the position |
| Globals.Globals.Fseek | input_file.c:68-73 | fseek succeeds exactly for offsets a `long` can hold, also beyond the end of the file; otherwise it returns -1 and keeps the position |
| Globals.Globals.WriteFile | input_file.c:160 | write_file's status is returned, and on success exactly one archive entry is appended |
| Globals.Globals.WriteTarblock | gliden64_texstream_extract.c:98-108 | write_tarblock's status is returned, and on success exactly the block is appended |
| InputFile.BufferRead | input_file.c:15-31 | get_buffer returns 0 exactly when all size bytes are there (or size is 0) and -EIO otherwise; the bytes read are the input's from the position, and the position moves past them |
| InputFile.GetBuffer | input_file.c:15-31 | the method returns BufferRead's status and bytes and leaves the position where BufferRead does |
| InputFile.FieldRead | input_file.c:33-61 | get_buffer_endian succeeds exactly for widths 1, 2, 4, 8 with all bytes present; a short read is -EIO; an unsupported width is -EINVAL after its bytes are consumed; the value is the little-endian value of the bytes |
| InputFile.FieldReadIsBufferRead | input_file.c:37-60 | get_buffer_endian has get_buffer's status and position, adds -EINVAL only for unsupported widths, and its value is the little-endian value of the bytes get_buffer read |
| InputFile.GetBufferEndian | input_file.c:33-61 | the method, loading the bytes on the host and converting them, returns exactly FieldRead's status, value and position |
| InputFile.ReadFields | input_file.c:77-117 | a run of get_item calls fails with a negative status and fewer values than fields, or succeeds with one value per field |
| InputFile.ReadFieldsInOrder | input_file.c:77-117 | field j is read at its offset in the run; every value obtained is the little-endian value of its own bytes, all inside the input |
| InputFile.ReadFieldsStopsAtFirstFailure | input_file.c:77-117 | with supported widths the run succeeds exactly when all its bytes are there; the first short read returns -EIO at the end of the input, and no later field is read |
| InputFile.RecordFieldOffsets | input_file.c:77-117 | the header fields lie at offsets 0, 4, 8, 12, 14, 16, 17, the header is 21 bytes, and every width is one get_buffer_endian supports |
| InputFile.HeaderRead | input_file.c:77-117 | the header read never reports a positive status, and a success carries exactly seven values |
| InputFile.HeaderReadStatus | input_file.c:77-117 | reading the seven header fields succeeds exactly when the 21 header bytes are there, leaving the position after them; otherwise it is -EIO at the end of the input |
| InputFile.HeaderFieldsMatchLayout | input_file.c:77-117 | a complete header yields width, height, format, texture_format, pixel_type, is_hires_tex and size from their byte ranges |
| InputFile.ReadFieldsIsHeaderRead | input_file.c:77-117 | reading the fields one by one gives HeaderRead's status, position and values |
| InputFile.ReadRecordHeader | input_file.c:77-117 | the seven get_item calls return HeaderRead's status, position and values, stopping at the first failure |
| InputFile.DecodeFile | input_file.c:63-168 | convert_file never returns a positive status; it appends at most one archive entry, only on success and only after allocating the payload buffer, and allocates only after a successful seek |
| InputFile.DecodeRecord | input_file.c:75-167 | after the seek, convert_file appends at most one entry, and only on success with the buffer allocated |
| InputFile.DecodePayload | input_file.c:138-167 | once the buffer is allocated, every path reports it, and at most one entry is appended, on success |
| InputFile.Deliver | input_file.c:150-167 | prepare_file then write_file either leave the output alone or append exactly the record as prepare_file left it, with status 0 |
| InputFile.PayloadReadAt | input_file.c:143-148 | the payload of a record present in the layout is read whole, from just past its header |
| InputFile.DecodeFileDeliversRecordAt | input_file.c:63-160 | a record present in the layout reaches prepare_file exactly as the layout gives it, with the position just past its payload |
| InputFile.DecodeFileWritesRecordAt | input_file.c:150-167 | a record present in the layout becomes one archive entry, the record as prepare_file left it, when both collaborators succeed; a preparation failure returns 0 under ignore_error and its own code otherwise, and writes nothing; a write failure is returned whatever ignore_error says |
| InputFile.DecodeFileSuccessOutput | input_file.c:63-168 | when convert_file returns 0, its output is the layout's: the prepared record appended when the record is present and both collaborators succeed, and nothing when it is absent, has size 0 or failed preparation under ignore_error |
| InputFile.ZeroSizeRecordSkipped | input_file.c:133-136 | a record with size 0 returns 0 with nothing allocated or written and the position after its header |
| InputFile.TruncatedRecordFails | input_file.c:77-148 | a record cut short returns -EIO with nothing written and the position at the end of the input; the buffer was allocated exactly when the header was whole |
| InputFile.ConvertFile | input_file.c:63-168 | the method's status, position and output are DecodeFile's; it allocates one buffer exactly when DecodeFile does, frees every buffer it allocates, and logs one call |
| InputFile.LoadAndDeliver | input_file.c:138-167 | allocating, filling, preparing and writing the payload gives DecodePayload's status, position and output, and frees the buffer on every path |
| TexstreamExtract.RecordDecoder | gliden64_texstream_extract.c:87 | convert_file as the loop calls it appends at most one archive entry |
| TexstreamExtract.IndexStep | gliden64_texstream_extract.c:69-95 | one turn of the index loop never reports a positive status |
| TexstreamExtract.IndexStepConsumesEntry | gliden64_texstream_extract.c:69-95 | a successful turn consumed exactly the 16-byte index entry at the position, and called convert_file with its texpos and checksum; any turn makes at most one call |
| TexstreamExtract.IndexStepAppendsEntries | gliden64_texstream_extract.c:87-89 | a turn appends at most one archive entry, and only when it called convert_file |
| TexstreamExtract.IndexStepShortEntry | gliden64_texstream_extract.c:69-79 | a turn whose checksum or texpos is cut short returns -EINVAL, with no call and no output |
| TexstreamExtract.IndexTurnConsumesEntries | gliden64_texstream_extract.c:69-95 | every turn of the loop consumes its entry when it succeeds |
| TexstreamExtract.IndexTurnAppendsEntries | gliden64_texstream_extract.c:87-89 | every turn of the loop appends at most one entry per call |
| TexstreamExtract.WalkAbortIsFinal | gliden64_texstream_extract.c:87-89 | once a turn fails, no later turn happens |
| TexstreamExtract.WalkStatus | gliden64_texstream_extract.c:68-96 | the loop never reports a positive status |
| TexstreamExtract.WalkNext | gliden64_texstream_extract.c:68-96 | one more turn after i successful ones gives the state after i + 1 turns, and when it fails, the final state of the loop |
| TexstreamExtract.WalkLastTurn | gliden64_texstream_extract.c:68-96 | the last of k successful turns read the entry at its position and called convert_file with it |
| TexstreamExtract.IndexEntries | gliden64_texstream_extract.c:68-79 | the first k index entries, one per entry |
| TexstreamExtract.IndexEntriesAt | gliden64_texstream_extract.c:68-79 | entry j is the 16 bytes at base + 16j |
| TexstreamExtract.WalkConsumesIndex | gliden64_texstream_extract.c:68-96 | after k successful turns the position is just past the k-th entry, whatever convert_file did to it; convert_file was called once per entry, in index order, with that entry's texpos and checksum |
| TexstreamExtract.WalkAppendsEntries | gliden64_texstream_extract.c:68-96 | the loop keeps the output it started from and appends only archive entries, no more than the calls it made |
| TexstreamExtract.IndexStepWritesRecord | gliden64_texstream_extract.c:69-95 | a successful turn read a whole index entry and its output is the layout's output for that entry's record |
| TexstreamExtract.ConvertTurnWritesRecord | gliden64_texstream_extract.c:69-95 | a successful turn logs exactly one call after the earlier ones, and its output is the layout's output for the record of that call |
| TexstreamExtract.ConvertTurnWritesRecords | gliden64_texstream_extract.c:69-95 | every turn of convert_input's loop writes the record of the call it logged, and nothing else |
| TexstreamExtract.WalkWritesRecords | gliden64_texstream_extract.c:68-96 | after k turns that all succeeded, the calls made before the loop are kept, and the output is the writer's output for each later call, in call order |
| TexstreamExtract.WalkWritesIndexRecords | gliden64_texstream_extract.c:68-96 | after k successful turns, the output is exactly the prepared and written record of each of the k index entries, in index order, nothing for an entry whose record was skipped |
| TexstreamExtract.IgnoredPreparationFailureContinues | gliden64_texstream_extract.c:69-95 | with ignore_error, a present record that fails preparation gives a successful turn with the output unchanged, the position at the next index entry and the call logged, so the loop goes on |
| TexstreamExtract.ExitCode | gliden64_texstream_extract.c:221-236 | main exits with 1 exactly when init failed, 2 exactly when convert_input failed after it, and 0 otherwise |
| TexstreamExtract.ConfigFailureStopsEarly | gliden64_texstream_extract.c:32-42 | a short config word returns -EIO and a failing parse_config returns its own code; nothing further is read, called or written |
| TexstreamExtract.UnsupportedVariantStopsCleanly | gliden64_texstream_extract.c:44-47 | without the texture-cache bit the run returns parse_config's non-negative status right after the config word, with nothing called or written, and main exits with 0 |
| TexstreamExtract.IndexOffsetOutcome | gliden64_texstream_extract.c:49-60 | a short index offset returns -EINVAL; an offset a `long` cannot hold returns -1; otherwise the run continues at that offset; nothing is written before the index |
| TexstreamExtract.FinishWritesTwoBlocks | gliden64_texstream_extract.c:98-110 | the marker appends two zero blocks when both writes succeed; the first failure is returned, and the second write is attempted only after the first succeeded |
| TexstreamExtract.IndexFromOutcome | gliden64_texstream_extract.c:62-110 | a short entry count returns -EINVAL; the marker is written only when every entry succeeded; the position is then just past the last entry, convert_file saw every entry in index order, and the output gained exactly the prepared and written record of each entry, in index order |
| TexstreamExtract.IndexFromOutputShape | gliden64_texstream_extract.c:62-110 | from the index on, the output gains archive entries followed by two zero blocks on success, or one block when the second write failed, or none |
| TexstreamExtract.ExtractionOutputShape | gliden64_texstream_extract.c:21-111 | the whole run keeps the prior output, then appends archive entries and then both end-of-archive blocks on success, one block when the second write failed with the status returned, or none |
| TexstreamExtract.ConvertInput | gliden64_texstream_extract.c:21-111 | the method's status, position, output, calls and allocations are Extraction's, and every payload buffer is freed |
| TexstreamExtract.ConvertIndex | gliden64_texstream_extract.c:62-110 | from the index offset, the method's final state is IndexFrom's |
| TexstreamExtract.ConvertEntries | gliden64_texstream_extract.c:68-96 | the loop over count entries ends in the state of Walk after count turns, stopping at the first failure |
| TexstreamExtract.ConvertEntry | gliden64_texstream_extract.c:69-95 | one turn of the loop, with the position saved before convert_file and restored after it, ends in IndexStep's state |
| TexstreamExtract.RunMain | gliden64_texstream_extract.c:221-236 | when init fails, exit 1 with nothing read or written; otherwise the exit status is ExitCode of the run's status, and the state is Extraction's |

## Left out

- Command-line parsing, `init`, `usage` and opening the input and output
  files are not modelled. `RunMain` takes init's status as a parameter.
  The run starts with the input at offset 0 and nothing written.
- Diagnostics on stderr and the verbose header dump
  (`input_file.c:119-131`) are not modelled. They do not change any state
  the model keeps.
- The code of `parse_config`, `prepare_file`, `write_file`, `write_tarblock`
  and the tar format is not part of this model. Each is a function of its
  inputs that returns a status, and a successful write appends one item to
  the output. Partial writes are not modelled.
- `FILE_CACHE_MASK` and the `tarblock` array are declared in a header that
  is not part of this model. The mask is a parameter of the run. The block
  is 512 zero bytes, the ustar block size.
- A `malloc` failure (`input_file.c:138-142`, -ENOMEM) is not modelled:
  allocation is assumed to succeed. The ghost counters `allocations` and
  `live` still record that every buffer is freed.
- I/O errors of the stream itself (`ferror`) and the stdio buffering are not
  modelled. The input is a finite byte sequence, so a short read only
  happens at its end.
- The input is assumed shorter than 2^63 bytes, so `ftell` always
  succeeds. Its failure branch (`gliden64_texstream_extract.c:81-85`, -EINVAL) is kept in
  `IndexStep` but cannot be reached from `ConvertEntry`. For the same
  reason the seek back to the saved position (lines 91-95) cannot fail.
- The conversion of a 64-bit unsigned offset to `long` in the calls to
  `fseek` and `convert_file` is modelled by its effect. An offset of 2^63
  or more becomes negative, and the seek fails with -1.
