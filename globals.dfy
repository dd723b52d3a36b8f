/** The run state the extractor shares between its functions (its `globals`):
    the input stream as an immutable byte sequence with a mutable file
    position, the output stream as an append-only log, the ignore-error
    policy, and the collaborators whose code is not part of this model
    (parse_config, prepare_file, write_file, write_tarblock), given as
    functions that report a C status code (negative on failure). */
module Globals {
  import opened ByteOrder

  /** LONG_MAX + 1 for a 64-bit `long`: fseek accepts absolute offsets below
      this bound; a larger unsigned offset becomes a negative `long`. */
  const LongLimit: nat := 0x8000_0000_0000_0000

  /** Linux errno values used by the extractor. */
  const EIO: int := 5
  const EINVAL: int := 22

  /** The size of one tar block in the ustar format. */
  const TarBlockSize: nat := 512

  /** One texture record of the cache, as decoded from the input. */
  datatype Record = Record(
    checksum: nat,
    width: nat,
    height: nat,
    format: nat,
    textureFormat: nat,
    pixelType: nat,
    isHiresTex: nat,
    size: nat,
    data: seq<byte>)

  /** What prepare_file leaves behind: its status and the record as it
      changed it in place (the image converted for export). */
  datatype Prepared = Prepared(ret: int, file: Record)

  /** What the output stream receives: one archive entry per written record,
      or one raw tar block. */
  datatype OutItem = Entry(file: Record) | Block(bytes: seq<byte>)

  /** One call of convert_file: the record offset and checksum it was given. */
  datatype Call = Call(texpos: nat, checksum: nat)

  /** The fixed parameters of one run. */
  datatype Env = Env(
    ignoreError: bool,        // globals.ignore_error
    host: Endianness,         // byte order of the machine
    fileCacheMask: bv32,      // FILE_CACHE_MASK of the tool's header
    parseConfig: nat -> int,  // parse_config(config)
    prepareFile: Record -> Prepared,              // prepare_file(&file)
    writeFile: (seq<OutItem>, Record) -> int,     // write_file(&file), given what is already written
    writeTarblock: (seq<OutItem>, seq<byte>) -> int) // write_tarblock(block, ...), likewise

  /** The all-zero tar block that the end-of-archive marker is made of. */
  function ZeroBlock(): (b: seq<byte>)
    ensures |b| == TarBlockSize
    ensures forall k :: 0 <= k < |b| ==> b[k] == 0
  {
    seq(TarBlockSize, _ => 0)
  }

  /** The output after is the output before followed by at most n items,
      all of them archive entries. */
  predicate AddsEntries(before: seq<OutItem>, after: seq<OutItem>, n: int)
  {
    && |before| <= |after| <= |before| + n
    && after[..|before|] == before
    && forall i :: |before| <= i < |after| ==> after[i].Entry?
  }

  /** Two runs of appended entries make one. */
  lemma AddsEntriesTrans(a: seq<OutItem>, b: seq<OutItem>, c: seq<OutItem>, m: int, n: int)
    requires AddsEntries(a, b, m) && AddsEntries(b, c, n)
    ensures AddsEntries(a, c, m + n)
  {
    assert c[..|a|] == c[..|b|][..|a|];
  }

  function Min(a: nat, b: nat): (m: nat) { if a <= b then a else b }

  function Max(a: nat, b: nat): (m: nat) { if a <= b then b else a }

  /** How many bytes of the input lie at or after the position. */
  function Available(input: seq<byte>, cursor: nat): (n: nat)
  {
    if cursor < |input| then |input| - cursor else 0
  }

  /** What fread returns when size bytes are requested at the position: as
      many of them as the input still holds, in order. */
  function Fread(input: seq<byte>, cursor: nat, size: nat): (got: seq<byte>)
    ensures |got| == Min(size, Available(input, cursor))
    ensures forall k :: 0 <= k < |got| ==> got[k] == input[cursor + k]
  {
    if cursor >= |input| then [] else input[cursor .. cursor + Min(size, |input| - cursor)]
  }

  class Globals {
    /** The whole content of globals.in. */
    const input: seq<byte>
    /** The file position of globals.in. */
    var cursor: nat
    /** Everything appended to globals.out so far. */
    var output: seq<OutItem>
    const env: Env

    /** Log of convert_file calls, in order. */
    ghost var calls: seq<Call>
    /** Payload buffers allocated and not yet freed. */
    ghost var live: nat
    /** Payload buffers allocated so far. */
    ghost var allocations: nat

    /** A file no longer than a `long` can address, and a position that
        ftell can report. */
    ghost predicate Valid()
      reads this
    {
      |input| < LongLimit && cursor < LongLimit
    }

    /** The input freshly opened at offset 0; nothing written yet. */
    constructor (input: seq<byte>, env: Env)
      requires |input| < LongLimit
      ensures Valid()
      ensures this.input == input && this.env == env
      ensures cursor == 0 && output == [] && calls == [] && live == 0 && allocations == 0
    {
      this.input := input;
      this.env := env;
      cursor := 0;
      output := [];
      calls := [];
      live := 0;
      allocations := 0;
    }

    /** fseek(globals.in, offset, SEEK_SET): any offset a `long` can hold
        succeeds, also beyond the end of the file; otherwise -1 and the
        position is kept. */
    method Fseek(offset: nat) returns (ret: int)
      requires Valid()
      modifies this`cursor
      ensures Valid()
      ensures ret == 0 <==> offset < LongLimit
      ensures ret != 0 ==> ret == -1
      ensures cursor == if offset < LongLimit then offset else old(cursor)
    {
      if offset >= LongLimit {
        return -1;
      }
      cursor := offset;
      return 0;
    }

    /** write_file(&file): on success the record is appended as one entry. */
    method WriteFile(file: Record) returns (ret: int)
      modifies this`output
      ensures ret == env.writeFile(old(output), file)
      ensures output == if ret < 0 then old(output) else old(output) + [Entry(file)]
    {
      ret := env.writeFile(output, file);
      if ret >= 0 {
        output := output + [Entry(file)];
      }
    }

    /** write_tarblock(block, size, 0): on success the block is appended. */
    method WriteTarblock(block: seq<byte>) returns (ret: int)
      modifies this`output
      ensures ret == env.writeTarblock(old(output), block)
      ensures output == if ret < 0 then old(output) else old(output) + [Block(block)]
    {
      ret := env.writeTarblock(output, block);
      if ret >= 0 {
        output := output + [Block(block)];
      }
    }
  }
}
