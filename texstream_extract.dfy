/** gliden64_texstream_extract.c: the walk over a texture-cache stream. The
    stream starts with a 32-bit config word, then a 64-bit offset of the
    index; the index is a 32-bit entry count followed by that many pairs of
    a 64-bit checksum and a 64-bit record offset (texpos). Every entry is
    handed to convert_file, after which the position is restored to the
    next entry; a successful walk ends the tar archive with two zero blocks.

    convert_input is a method proved against the pure function Extraction of
    the input and the initial state; the lemmas below state what Extraction
    means: where the position is after each entry, which calls are made in
    which order, which failures abort and what the output looks like. */
module TexstreamExtract {
  import opened ByteOrder
  import opened Globals
  import opened InputFile

  /** Widths of the fields of the stream header and of the index. */
  const ConfigWidth: nat := 4
  const StoragePosWidth: nat := 8
  const StorageSizeWidth: nat := 4
  const ChecksumWidth: nat := 8
  const TexposWidth: nat := 8

  /** Bytes of one index entry: a checksum followed by a texpos. */
  const IndexEntrySize: nat := 16

  /** The run state that convert_input changes: status, position, output,
      the convert_file calls made and the payload buffers allocated. */
  datatype Progress = Progress(ret: int, cursor: nat, output: seq<OutItem>, calls: seq<Call>,
                               allocations: nat)

  // ---------------------------------------------------------------------
  // The index walk
  // ---------------------------------------------------------------------

  /** convert_file as the index loop sees it: given the position, the
      output so far, the record's texpos and its checksum, it reports the
      status, the new position, the new output and whether a payload buffer
      was allocated. */
  type Decoder = (nat, seq<OutItem>, nat, nat) -> FileResult

  /** convert_file of input_file.c for this input and run. */
  function RecordDecoder(input: seq<byte>, env: Env): (decode: Decoder)
    ensures WellBehaved(decode)
  {
    (cursor: nat, output: seq<OutItem>, pos: nat, checksum: nat) =>
      DecodeFile(input, env, cursor, output, pos, checksum)
  }

  /** A decoder that adds at most one archive entry to the output. */
  ghost predicate WellBehaved(decode: Decoder)
  {
    forall cursor, output, pos, checksum ::
      AddsEntries(output, decode(cursor, output, pos, checksum).output, 1)
  }

  /** One turn of the index loop from position s.cursor: read the checksum
      and the texpos (a short read is -EINVAL), remember the position
      (ftell; -EINVAL when a `long` cannot hold it), decode the record at
      texpos, stop on its failure, and otherwise seek back to the
      remembered position. */
  function IndexStep(input: seq<byte>, decode: Decoder, s: Progress): (t: Progress)
    ensures t.ret <= 0
  {
    var c := FieldRead(input, s.cursor, ChecksumWidth);
    if c.ret < 0 then Progress(-EINVAL, c.cursor, s.output, s.calls, s.allocations)
    else
      var tp := FieldRead(input, c.cursor, TexposWidth);
      if tp.ret < 0 then Progress(-EINVAL, tp.cursor, s.output, s.calls, s.allocations)
      else
        var pos := tp.cursor;
        if pos >= LongLimit then Progress(-EINVAL, pos, s.output, s.calls, s.allocations)
        else
          var f := decode(pos, s.output, tp.value, c.value);
          var calls := s.calls + [Call(tp.value, c.value)];
          var allocations := s.allocations + if f.bufferAllocated then 1 else 0;
          if f.ret < 0 then Progress(f.ret, f.cursor, f.output, calls, allocations)
          // fseek back to pos cannot fail: pos fits in a `long`
          else Progress(0, pos, f.output, calls, allocations)
  }

  /** The index entry at offset at: its texpos and its checksum. */
  function EntryAt(input: seq<byte>, at: nat): (entry: Call)
    requires at + IndexEntrySize <= |input|
  {
    Call(LeDecode(input[at + 8 .. at + 16]), LeDecode(input[at .. at + 8]))
  }

  /** A successful turn consumed exactly one index entry and called
      convert_file once, with that entry; a failed turn called it at most
      once. */
  lemma IndexStepConsumesEntry(input: seq<byte>, decode: Decoder, s: Progress)
    ensures var t := IndexStep(input, decode, s);
      && (t.ret == 0 ==> && s.cursor + IndexEntrySize <= |input|
                         && t.cursor == s.cursor + IndexEntrySize
                         && t.calls == s.calls + [EntryAt(input, s.cursor)])
      && (t.calls == s.calls || (|t.calls| == |s.calls| + 1 && t.calls[..|s.calls|] == s.calls))
  {
    var c := FieldRead(input, s.cursor, ChecksumWidth);
    if c.ret == 0 {
      var tp := FieldRead(input, c.cursor, TexposWidth);
      assert tp.ret == 0 ==> tp.cursor == s.cursor + 16;
    }
  }

  /** A turn adds at most one archive entry to the output, and only when it
      called convert_file. */
  lemma IndexStepAppendsEntries(input: seq<byte>, decode: Decoder, s: Progress)
    requires WellBehaved(decode)
    ensures var t := IndexStep(input, decode, s);
      && |s.calls| <= |t.calls|
      && AddsEntries(s.output, t.output, |t.calls| - |s.calls|)
  {
  }

  /** One turn of the index loop as a state transformer. */
  type Turn = Progress -> Progress

  /** The turn of the index loop that uses the given convert_file. */
  function IndexTurn(input: seq<byte>, decode: Decoder): Turn
  {
    (s: Progress) => IndexStep(input, decode, s)
  }

  /** The turn of convert_input's loop for this input and run. */
  function ConvertTurn(input: seq<byte>, env: Env): Turn
  {
    IndexTurn(input, RecordDecoder(input, env))
  }

  /** Every successful turn consumes the index entry at its position and
      calls convert_file with it, and no turn reports a positive status. */
  ghost predicate ConsumesEntries(input: seq<byte>, turn: Turn)
  {
    forall s :: var t := turn(s);
      && t.ret <= 0
      && (t.ret == 0 ==> && s.cursor + IndexEntrySize <= |input|
                         && t.cursor == s.cursor + IndexEntrySize
                         && t.calls == s.calls + [EntryAt(input, s.cursor)])
  }

  /** Every turn appends at most one archive entry per convert_file call. */
  ghost predicate AppendsEntries(turn: Turn)
  {
    forall s :: var t := turn(s);
      |s.calls| <= |t.calls| && AddsEntries(s.output, t.output, |t.calls| - |s.calls|)
  }

  lemma IndexTurnConsumesEntries(input: seq<byte>, decode: Decoder)
    ensures ConsumesEntries(input, IndexTurn(input, decode))
  {
    forall s: Progress {
      IndexStepConsumesEntry(input, decode, s);
    }
  }

  lemma IndexTurnAppendsEntries(input: seq<byte>, decode: Decoder)
    requires WellBehaved(decode)
    ensures AppendsEntries(IndexTurn(input, decode))
  {
    forall s: Progress {
      IndexStepAppendsEntries(input, decode, s);
    }
  }

  /** The state after the first k turns of the index loop from s0; once a
      turn fails, the later ones do not happen. */
  function Walk(turn: Turn, s0: Progress, k: nat): (w: Progress)
  {
    if k == 0 then s0
    else
      var s := Walk(turn, s0, k - 1);
      if s.ret < 0 then s else turn(s)
  }

  // ---------------------------------------------------------------------
  // The whole of convert_input
  // ---------------------------------------------------------------------

  /** The config word as the 32-bit value it is in C. */
  function Word32(x: nat): bv32
    requires x < Pow256(4)
  {
    assert Pow256(4) == 0x1_0000_0000;
    x as bv32
  }

  /** Whether the config word announces the texture-cache variant this tool
      handles: some bit of FILE_CACHE_MASK is set. */
  predicate IsFileCache(env: Env, config: nat)
    requires config < Pow256(4)
  {
    Word32(config) & env.fileCacheMask != 0
  }

  /** convert_input from the initial state s0: the stream header, the index
      header, the walk over the index and the end-of-archive marker. */
  function Extraction(input: seq<byte>, env: Env, s0: Progress): (e: Progress)
    requires s0.ret == 0
  {
    var cf := FieldRead(input, s0.cursor, ConfigWidth);
    if cf.ret < 0 then Progress(cf.ret, cf.cursor, s0.output, s0.calls, s0.allocations)
    else
      var p := env.parseConfig(cf.value);
      if p < 0 then Progress(p, cf.cursor, s0.output, s0.calls, s0.allocations)
      else if !IsFileCache(env, cf.value) then Progress(p, cf.cursor, s0.output, s0.calls, s0.allocations)
      else IndexExtraction(input, env, Progress(0, cf.cursor, s0.output, s0.calls, s0.allocations))
  }

  /** convert_input once the config word is accepted: read the index
      offset (-EINVAL when short) and seek there (-1 when a `long` cannot
      hold it). */
  function IndexExtraction(input: seq<byte>, env: Env, s: Progress): (e: Progress)
    requires s.ret == 0
  {
    var sp := FieldRead(input, s.cursor, StoragePosWidth);
    if sp.ret < 0 then Progress(-EINVAL, sp.cursor, s.output, s.calls, s.allocations)
    else if sp.value >= LongLimit then Progress(-1, sp.cursor, s.output, s.calls, s.allocations)
    else IndexFrom(input, env, Progress(0, sp.value, s.output, s.calls, s.allocations))
  }

  /** convert_input at the index: read the entry count (-EINVAL when
      short), walk the entries and, when all succeeded, write the
      end-of-archive marker. */
  function IndexFrom(input: seq<byte>, env: Env, s: Progress): (e: Progress)
    requires s.ret == 0
  {
    var n := FieldRead(input, s.cursor, StorageSizeWidth);
    if n.ret < 0 then Progress(-EINVAL, n.cursor, s.output, s.calls, s.allocations)
    else
      var w := Walk(ConvertTurn(input, env), Progress(0, n.cursor, s.output, s.calls, s.allocations), n.value);
      if w.ret < 0 then w else Finish(env, w)
  }

  /** The end-of-archive marker: two zero blocks, the second attempted only
      when the first was written. */
  function Finish(env: Env, s: Progress): (e: Progress)
  {
    var b1 := env.writeTarblock(s.output, ZeroBlock());
    if b1 < 0 then Progress(b1, s.cursor, s.output, s.calls, s.allocations)
    else
      var o1 := s.output + [Block(ZeroBlock())];
      var b2 := env.writeTarblock(o1, ZeroBlock());
      if b2 < 0 then Progress(b2, s.cursor, o1, s.calls, s.allocations)
      else Progress(0, s.cursor, o1 + [Block(ZeroBlock())], s.calls, s.allocations)
  }

  /** main's exit status: 1 when init failed, 2 when convert_input failed,
      0 otherwise. */
  function ExitCode(initRet: int, convertRet: int): (code: int)
    ensures code == 1 <==> initRet < 0
    ensures code == 2 <==> initRet >= 0 && convertRet < 0
    ensures code == 0 <==> initRet >= 0 && convertRet >= 0
  {
    if initRet < 0 then 1 else if convertRet < 0 then 2 else 0
  }

  // ---------------------------------------------------------------------
  // What the walk does
  // ---------------------------------------------------------------------

  /** Once a turn of the loop fails, nothing further happens: the state
      after any later number of turns is the state after that failure. */
  lemma {:induction false} WalkAbortIsFinal(turn: Turn, s0: Progress, j: nat, k: nat)
    requires j <= k
    requires Walk(turn, s0, j).ret < 0
    ensures Walk(turn, s0, k) == Walk(turn, s0, j)
    decreases k
  {
    if k > j {
      WalkAbortIsFinal(turn, s0, j, k - 1);
    }
  }

  /** A walk from a successful state never reports a positive status. */
  lemma {:induction false} WalkStatus(input: seq<byte>, turn: Turn, s0: Progress, k: nat)
    requires ConsumesEntries(input, turn)
    requires s0.ret == 0
    ensures Walk(turn, s0, k).ret <= 0
  {
    if k > 0 {
      WalkStatus(input, turn, s0, k - 1);
      var prev := Walk(turn, s0, k - 1);
      assert turn(prev).ret <= 0;
    }
  }

  /** One more turn after i successful ones: its state is that of i + 1
      turns, and when it fails, that of any larger number of turns. */
  lemma WalkNext(turn: Turn, s0: Progress, i: nat, k: nat, prev: Progress, t: Progress)
    requires i < k
    requires Walk(turn, s0, i) == prev && prev.ret == 0
    requires t == turn(prev)
    ensures Walk(turn, s0, i + 1) == t
    ensures t.ret < 0 ==> Walk(turn, s0, k) == t
  {
    if t.ret < 0 {
      WalkAbortIsFinal(turn, s0, i + 1, k);
    }
  }

  /** The last of k successful turns started from a successful state, read
      the index entry at its position and called convert_file with it. */
  lemma WalkLastTurn(input: seq<byte>, turn: Turn, s0: Progress, k: nat)
    requires ConsumesEntries(input, turn)
    requires s0.ret == 0 && k > 0
    requires Walk(turn, s0, k).ret == 0
    ensures var s, prev := Walk(turn, s0, k), Walk(turn, s0, k - 1);
      && prev.ret == 0
      && prev.cursor + IndexEntrySize <= |input|
      && s.cursor == prev.cursor + IndexEntrySize
      && s.calls == prev.calls + [EntryAt(input, prev.cursor)]
  {
    WalkStatus(input, turn, s0, k - 1);
    var prev := Walk(turn, s0, k - 1);
    assert Walk(turn, s0, k) == turn(prev);
  }

  /** The first k entries of the index starting at base, in index order. */
  function IndexEntries(input: seq<byte>, base: nat, k: nat): (entries: seq<Call>)
    requires base + 16 * k <= |input|
    ensures |entries| == k
  {
    if k == 0 then [] else IndexEntries(input, base, k - 1) + [EntryAt(input, base + 16 * (k - 1))]
  }

  /** Entry j of IndexEntries is the 16 bytes at base + 16 * j. */
  lemma {:induction false} IndexEntriesAt(input: seq<byte>, base: nat, k: nat, j: nat)
    requires base + 16 * k <= |input|
    requires j < k
    ensures IndexEntries(input, base, k)[j] == EntryAt(input, base + 16 * j)
  {
    if j < k - 1 {
      IndexEntriesAt(input, base, k - 1, j);
    }
  }

  /** Cursor round trip and call order: after k successful turns the
      position is just past the k-th index entry, whatever convert_file did
      to it in between, and convert_file was called exactly once per entry,
      in index order, with that entry's texpos and checksum. */
  lemma {:induction false} WalkConsumesIndex(input: seq<byte>, turn: Turn, s0: Progress, k: nat)
    requires ConsumesEntries(input, turn)
    requires s0.ret == 0
    requires Walk(turn, s0, k).ret == 0
    ensures Walk(turn, s0, k).cursor == s0.cursor + 16 * k
    ensures k > 0 ==> && s0.cursor + 16 * k <= |input|
                      && Walk(turn, s0, k).calls == s0.calls + IndexEntries(input, s0.cursor, k)
  {
    if k > 0 {
      var prev := Walk(turn, s0, k - 1);
      WalkLastTurn(input, turn, s0, k);
      WalkConsumesIndex(input, turn, s0, k - 1);
      var e := EntryAt(input, prev.cursor);
      if k > 1 {
        assert s0.calls + IndexEntries(input, s0.cursor, k - 1) + [e]
               == s0.calls + (IndexEntries(input, s0.cursor, k - 1) + [e]);
      }
    }
  }

  /** The walk only appends archive entries, no more of them than
      convert_file calls, and keeps the output it started from as a prefix. */
  lemma {:induction false} WalkAppendsEntries(turn: Turn, s0: Progress, k: nat)
    requires AppendsEntries(turn)
    ensures var s := Walk(turn, s0, k);
      && |s0.calls| <= |s.calls|
      && AddsEntries(s0.output, s.output, |s.calls| - |s0.calls|)
  {
    if k > 0 {
      var prev := Walk(turn, s0, k - 1);
      WalkAppendsEntries(turn, s0, k - 1);
      if prev.ret >= 0 {
        var s := turn(prev);
        AddsEntriesTrans(s0.output, prev.output, s.output,
                         |prev.calls| - |s0.calls|, |s.calls| - |prev.calls|);
      }
    }
  }

  // ---------------------------------------------------------------------
  // Which records the walk writes
  // ---------------------------------------------------------------------

  /** What a successful convert_file adds to the output for an index
      entry, given the output so far. */
  type Writer = (seq<OutItem>, Call) -> seq<OutItem>

  /** The output the record layout prescribes for an index entry. */
  function LayoutWriter(input: seq<byte>, env: Env): Writer
  {
    (output: seq<OutItem>, c: Call) => RecordOutput(input, env, output, c.texpos, c.checksum)
  }

  /** What the writer adds for the given index entries, in index order. */
  function RecordsOutput(write: Writer, output: seq<OutItem>, entries: seq<Call>): (written: seq<OutItem>)
    decreases |entries|
  {
    if |entries| == 0 then output
    else write(RecordsOutput(write, output, entries[..|entries| - 1]), entries[|entries| - 1])
  }

  /** Every turn reports no positive status, and every successful turn
      logs exactly one convert_file call after the earlier ones and adds
      what the writer prescribes for that call's index entry. */
  ghost predicate WritesRecords(write: Writer, turn: Turn)
  {
    forall s :: var t := turn(s);
      && t.ret <= 0
      && (t.ret == 0 ==> && |t.calls| == |s.calls| + 1
                         && t.calls[..|s.calls|] == s.calls
                         && t.output == write(s.output, t.calls[|s.calls|]))
  }

  /** A successful turn of convert_input's loop writes the layout's output
      for the record of the entry it read. */
  lemma IndexStepWritesRecord(input: seq<byte>, env: Env, s: Progress)
    ensures var t := IndexStep(input, RecordDecoder(input, env), s);
      t.ret == 0 ==>
        && s.cursor + IndexEntrySize <= |input|
        && t.output == RecordOutput(input, env, s.output, EntryAt(input, s.cursor).texpos,
                                    EntryAt(input, s.cursor).checksum)
  {
    var t := IndexStep(input, RecordDecoder(input, env), s);
    IndexStepConsumesEntry(input, RecordDecoder(input, env), s);
    if t.ret == 0 {
      var e := EntryAt(input, s.cursor);
      var pos := s.cursor + IndexEntrySize;
      DecodeFileSuccessOutput(input, env, pos, s.output, e.texpos, e.checksum);
    }
  }

  /** The same for a turn of the loop as WritesRecords reads it: the
      record written is that of the call the turn logged. */
  lemma ConvertTurnWritesRecord(input: seq<byte>, env: Env, s: Progress)
    ensures var t := ConvertTurn(input, env)(s);
      && t.ret <= 0
      && (t.ret == 0 ==> && |t.calls| == |s.calls| + 1
                         && t.calls[..|s.calls|] == s.calls
                         && t.output == LayoutWriter(input, env)(s.output, t.calls[|s.calls|]))
  {
    var t := IndexStep(input, RecordDecoder(input, env), s);
    assert ConvertTurn(input, env)(s) == t;
    IndexStepConsumesEntry(input, RecordDecoder(input, env), s);
    IndexStepWritesRecord(input, env, s);
    if t.ret == 0 {
      assert t.calls[|s.calls|] == EntryAt(input, s.cursor);
    }
  }

  lemma ConvertTurnWritesRecords(input: seq<byte>, env: Env)
    ensures WritesRecords(LayoutWriter(input, env), ConvertTurn(input, env))
  {
    forall s: Progress {
      ConvertTurnWritesRecord(input, env, s);
    }
  }

  /** A successful walk keeps the calls it started from and its output is
      exactly the writer's output for each later call, in call order. */
  lemma {:induction false} WalkWritesRecords(write: Writer, turn: Turn, s0: Progress, k: nat)
    requires WritesRecords(write, turn)
    requires s0.ret == 0
    ensures var w := Walk(turn, s0, k);
      && w.ret <= 0
      && (w.ret == 0 ==> && |s0.calls| <= |w.calls|
                         && w.calls[..|s0.calls|] == s0.calls
                         && w.output == RecordsOutput(write, s0.output, w.calls[|s0.calls|..]))
  {
    if k > 0 {
      WalkWritesRecords(write, turn, s0, k - 1);
      var prev := Walk(turn, s0, k - 1);
      if prev.ret == 0 {
        var w := turn(prev);
        assert Walk(turn, s0, k) == w;
        if w.ret == 0 {
          var c := w.calls[|prev.calls|];
          var before := prev.calls[|s0.calls|..];
          assert w.calls == prev.calls + [c];
          assert w.calls[|s0.calls|..] == before + [c];
          assert (before + [c])[..|before|] == before;
        }
      }
    }
  }

  /** Output of a successful walk of convert_input's loop: one turn after
      the other, each index entry's record is prepared and written, in
      index order, as the record layout prescribes. */
  lemma WalkWritesIndexRecords(input: seq<byte>, env: Env, s0: Progress, k: nat)
    requires s0.ret == 0
    ensures var w := Walk(ConvertTurn(input, env), s0, k);
      w.ret == 0 && k > 0 ==>
        && s0.cursor + 16 * k <= |input|
        && w.output == RecordsOutput(LayoutWriter(input, env), s0.output, IndexEntries(input, s0.cursor, k))
  {
    var turn := ConvertTurn(input, env);
    ConvertTurnWritesRecords(input, env);
    WalkWritesRecords(LayoutWriter(input, env), turn, s0, k);
    var w := Walk(turn, s0, k);
    if w.ret == 0 && k > 0 {
      IndexTurnConsumesEntries(input, RecordDecoder(input, env));
      WalkConsumesIndex(input, turn, s0, k);
      assert w.calls[|s0.calls|..] == IndexEntries(input, s0.cursor, k);
    }
  }

  /** With ignore_error, a record that is present but fails preparation
      does not stop the loop: the turn succeeds, writes nothing and returns
      to the next index entry, so the walk goes on with the next turn. */
  lemma IgnoredPreparationFailureContinues(input: seq<byte>, env: Env, s: Progress)
    requires env.ignoreError
    requires s.cursor + IndexEntrySize <= |input|
    requires s.cursor + IndexEntrySize < LongLimit
    requires var e := EntryAt(input, s.cursor);
      && e.texpos < LongLimit
      && RecordAt(input, e.texpos, e.checksum).Some?
      && env.prepareFile(RecordAt(input, e.texpos, e.checksum).value).ret < 0
    ensures var t := IndexStep(input, RecordDecoder(input, env), s);
      && t.ret == 0 && t.output == s.output
      && t.cursor == s.cursor + IndexEntrySize
      && t.calls == s.calls + [EntryAt(input, s.cursor)]
  {
    var e := EntryAt(input, s.cursor);
    var pos := s.cursor + IndexEntrySize;
    var c := FieldRead(input, s.cursor, ChecksumWidth);
    var tp := FieldRead(input, c.cursor, TexposWidth);
    assert c.ret == 0 && c.value == e.checksum;
    assert tp.ret == 0 && tp.cursor == pos && tp.value == e.texpos;
    DecodeFileWritesRecordAt(input, env, pos, s.output, e.texpos, e.checksum);
    var f := DecodeFile(input, env, pos, s.output, e.texpos, e.checksum);
    assert f.ret == 0 && f.output == s.output;
    assert RecordDecoder(input, env)(pos, s.output, tp.value, c.value) == f;
  }

  /** A turn whose checksum or texpos is cut short by the end of the input
      fails with -EINVAL without calling convert_file or writing anything. */
  lemma IndexStepShortEntry(input: seq<byte>, decode: Decoder, s: Progress)
    requires |input| < s.cursor + IndexEntrySize
    ensures var t := IndexStep(input, decode, s);
      && t.ret == -EINVAL && t.calls == s.calls && t.output == s.output
      && t.cursor == Max(s.cursor, |input|)
  {
  }

  // ---------------------------------------------------------------------
  // What convert_input does
  // ---------------------------------------------------------------------

  /** A short config word returns -EIO and a failing parse_config returns
      its own code; neither reads further, calls convert_file or writes. */
  lemma ConfigFailureStopsEarly(input: seq<byte>, env: Env, s0: Progress)
    requires s0.ret == 0
    ensures var cf, e := FieldRead(input, s0.cursor, ConfigWidth), Extraction(input, env, s0);
      && (cf.ret < 0 ==>
            e == Progress(-EIO, Max(s0.cursor, |input|), s0.output, s0.calls, s0.allocations))
      && (cf.ret == 0 && env.parseConfig(cf.value) < 0 ==>
            e == Progress(env.parseConfig(cf.value), s0.cursor + ConfigWidth, s0.output, s0.calls,
                          s0.allocations))
  {
  }

  /** A config word without the texture-cache bit ends convert_input right
      after it: the status is parse_config's, which is not negative, so main
      exits with 0; the index is not read, convert_file is not called and no
      end-of-archive marker is written. */
  lemma UnsupportedVariantStopsCleanly(input: seq<byte>, env: Env, s0: Progress)
    requires s0.ret == 0
    requires var cf := FieldRead(input, s0.cursor, ConfigWidth);
      cf.ret == 0 && env.parseConfig(cf.value) >= 0 && !IsFileCache(env, cf.value)
    ensures var cf, e := FieldRead(input, s0.cursor, ConfigWidth), Extraction(input, env, s0);
      && e == Progress(env.parseConfig(cf.value), s0.cursor + ConfigWidth, s0.output, s0.calls,
                       s0.allocations)
      && ExitCode(0, e.ret) == 0
  {
  }

  /** Once the config word is accepted: a short index offset returns
      -EINVAL, an offset a `long` cannot hold fails the seek with -1, and
      otherwise convert_input continues at that offset. Nothing is written
      and convert_file is not called before the index. */
  lemma IndexOffsetOutcome(input: seq<byte>, env: Env, s0: Progress)
    requires s0.ret == 0
    requires var cf := FieldRead(input, s0.cursor, ConfigWidth);
      cf.ret == 0 && env.parseConfig(cf.value) >= 0 && IsFileCache(env, cf.value)
    ensures var sp, e := FieldRead(input, s0.cursor + ConfigWidth, StoragePosWidth), Extraction(input, env, s0);
      && (sp.ret < 0 ==> e.ret == -EINVAL && e.output == s0.output && e.calls == s0.calls)
      && (sp.ret == 0 && sp.value >= LongLimit ==>
            e.ret == -1 && e.output == s0.output && e.calls == s0.calls)
      && (sp.ret == 0 && sp.value < LongLimit ==>
            e == IndexFrom(input, env, Progress(0, sp.value, s0.output, s0.calls, s0.allocations)))
  {
  }

  /** The output before followed by archive entries and then exactly
      `blocks` zero tar blocks. */
  predicate EntriesThenEof(before: seq<OutItem>, after: seq<OutItem>, blocks: nat)
  {
    && |before| + blocks <= |after|
    && after[..|before|] == before
    && (forall i :: |before| <= i < |after| - blocks ==> after[i].Entry?)
    && (forall i :: |after| - blocks <= i < |after| ==> after[i] == Block(ZeroBlock()))
  }

  /** The end-of-archive marker appends two zero blocks when both writes
      succeed; when the first fails nothing is appended and the second is
      not attempted; when the second fails only the first is there. */
  lemma FinishWritesTwoBlocks(env: Env, s: Progress)
    ensures var f, b1 := Finish(env, s), env.writeTarblock(s.output, ZeroBlock());
      && f.cursor == s.cursor && f.calls == s.calls
      && (b1 < 0 ==> f.ret == b1 && f.output == s.output)
      && (b1 >= 0 ==>
            var b2 := env.writeTarblock(s.output + [Block(ZeroBlock())], ZeroBlock());
            && (b2 < 0 ==> f.ret == b2 && f.output == s.output + [Block(ZeroBlock())])
            && (b2 >= 0 ==> f.ret == 0 && f.output == s.output + [Block(ZeroBlock()), Block(ZeroBlock())]))
  {
  }

  /** convert_input from the index offset: a short entry count returns
      -EINVAL; otherwise the walk runs over the count's entries, and the
      end-of-archive marker is attempted only when all of them succeeded,
      in which case the position is back just past the last entry,
      convert_file saw every entry in index order, and the output gained
      exactly the prepared and written record of each entry, in that order. */
  lemma IndexFromOutcome(input: seq<byte>, env: Env, s: Progress)
    requires s.ret == 0
    ensures var n, e := FieldRead(input, s.cursor, StorageSizeWidth), IndexFrom(input, env, s);
      && (n.ret < 0 ==> e == Progress(-EINVAL, n.cursor, s.output, s.calls, s.allocations))
      && (n.ret == 0 ==>
            var w := Walk(ConvertTurn(input, env), Progress(0, n.cursor, s.output, s.calls, s.allocations), n.value);
            && w.ret <= 0
            && AddsEntries(s.output, w.output, |w.calls| - |s.calls|)
            && (w.ret < 0 ==> e == w)
            && (w.ret == 0 ==>
                  && e == Finish(env, w)
                  && w.cursor == s.cursor + StorageSizeWidth + 16 * n.value
                  && (n.value > 0 ==>
                        && w.calls == s.calls + IndexEntries(input, s.cursor + StorageSizeWidth, n.value)
                        && w.output == RecordsOutput(LayoutWriter(input, env), s.output,
                                                     IndexEntries(input, s.cursor + StorageSizeWidth, n.value)))))
  {
    var n := FieldRead(input, s.cursor, StorageSizeWidth);
    if n.ret == 0 {
      var turn := ConvertTurn(input, env);
      var s0 := Progress(0, n.cursor, s.output, s.calls, s.allocations);
      IndexTurnConsumesEntries(input, RecordDecoder(input, env));
      IndexTurnAppendsEntries(input, RecordDecoder(input, env));
      WalkStatus(input, turn, s0, n.value);
      WalkAppendsEntries(turn, s0, n.value);
      if Walk(turn, s0, n.value).ret == 0 {
        WalkConsumesIndex(input, turn, s0, n.value);
        WalkWritesIndexRecords(input, env, s0, n.value);
      }
    }
  }

  /** The output before followed by archive entries and at most the two
      end-of-archive blocks: both when the status is success, none when the
      first write failed or was never attempted, and one when the second
      write failed with the status reported. */
  predicate EndsWithEof(env: Env, before: seq<OutItem>, e: Progress)
  {
    || EntriesThenEof(before, e.output, 0)
    || (e.ret == 0 && EntriesThenEof(before, e.output, 2))
    || (e.ret < 0 && EntriesThenEof(before, e.output, 1)
        && env.writeTarblock(e.output, ZeroBlock()) == e.ret)
  }

  /** The output shape of convert_input from the index offset on. */
  lemma IndexFromOutputShape(input: seq<byte>, env: Env, s: Progress)
    requires s.ret == 0
    ensures EndsWithEof(env, s.output, IndexFrom(input, env, s))
  {
    var e := IndexFrom(input, env, s);
    IndexFromOutcome(input, env, s);
    var n := FieldRead(input, s.cursor, StorageSizeWidth);
    if n.ret < 0 {
      assert EntriesThenEof(s.output, e.output, 0);
    } else {
      var w := Walk(ConvertTurn(input, env), Progress(0, n.cursor, s.output, s.calls, s.allocations), n.value);
      if w.ret < 0 {
        assert EntriesThenEof(s.output, e.output, 0);
      } else {
        FinishWritesTwoBlocks(env, w);
        EofAfterEntries(s.output, w.output, e.output, env.writeTarblock(w.output, ZeroBlock()) < 0);
      }
    }
  }

  /** Whatever happens, convert_input leaves the output it started from in
      place and appends archive entries followed by at most the two
      end-of-archive blocks: both on success, none when the first write
      fails, and one when the second write fails. */
  lemma ExtractionOutputShape(input: seq<byte>, env: Env, s0: Progress)
    requires s0.ret == 0
    ensures EndsWithEof(env, s0.output, Extraction(input, env, s0))
  {
    var e := Extraction(input, env, s0);
    var cf := FieldRead(input, s0.cursor, ConfigWidth);
    if cf.ret < 0 || env.parseConfig(cf.value) < 0 || !IsFileCache(env, cf.value) {
      assert EntriesThenEof(s0.output, e.output, 0);
    } else {
      IndexOffsetOutcome(input, env, s0);
      var sp := FieldRead(input, s0.cursor + ConfigWidth, StoragePosWidth);
      if sp.ret < 0 || sp.value >= LongLimit {
        assert EntriesThenEof(s0.output, e.output, 0);
      } else {
        IndexFromOutputShape(input, env, Progress(0, sp.value, s0.output, s0.calls, s0.allocations));
      }
    }
  }

  /** The three ways the end-of-archive marker can end, on an output made
      of entries. */
  lemma EofAfterEntries(before: seq<OutItem>, entries: seq<OutItem>, after: seq<OutItem>,
                        firstFailed: bool)
    requires AddsEntries(before, entries, |entries| - |before|)
    requires firstFailed ==> after == entries
    requires !firstFailed ==> after == entries + [Block(ZeroBlock())]
                              || after == entries + [Block(ZeroBlock()), Block(ZeroBlock())]
    ensures EntriesThenEof(before, after, if firstFailed then 0 else |after| - |entries|)
  {
  }

  // ---------------------------------------------------------------------
  // convert_input and main
  // ---------------------------------------------------------------------

  /** The run state as a Progress value with the given status. */
  ghost function StateOf(g: Globals, ret: int): Progress
    reads g
  {
    Progress(ret, g.cursor, g.output, g.calls, g.allocations)
  }

  /** convert_input: the stream header, the index loop with the position
      saved before and restored after each convert_file, and the
      end-of-archive marker. */
  method ConvertInput(g: Globals) returns (ret: int)
    requires g.Valid()
    modifies g`cursor, g`output, g`calls, g`live, g`allocations
    ensures g.Valid()
    ensures StateOf(g, ret) == Extraction(g.input, g.env, old(StateOf(g, 0)))
    ensures g.live == old(g.live)
  {
    ghost var e := Extraction(g.input, g.env, StateOf(g, 0));
    var config;
    ret, config := GetBufferEndian(g, ConfigWidth);
    if ret < 0 {
      return;
    }
    ret := g.env.parseConfig(config);
    if ret < 0 {
      return;
    }
    if !IsFileCache(g.env, config) {
      return;
    }
    assert e == IndexExtraction(g.input, g.env, StateOf(g, 0));

    var storagePos;
    ret, storagePos := GetBufferEndian(g, StoragePosWidth);
    if ret < 0 {
      return -EINVAL;
    }
    ret := g.Fseek(storagePos);
    if ret < 0 {
      return;
    }
    assert e == IndexFrom(g.input, g.env, StateOf(g, 0));
    ret := ConvertIndex(g);
  }

  /** The part of convert_input from the index on: the entry count, the
      loop over the entries and the end-of-archive marker. */
  method ConvertIndex(g: Globals) returns (ret: int)
    requires g.Valid()
    modifies g`cursor, g`output, g`calls, g`live, g`allocations
    ensures g.Valid()
    ensures StateOf(g, ret) == IndexFrom(g.input, g.env, old(StateOf(g, 0)))
    ensures g.live == old(g.live)
  {
    var storageSize;
    ret, storageSize := GetBufferEndian(g, StorageSizeWidth);
    if ret < 0 {
      return -EINVAL;
    }
    ret := ConvertEntries(g, storageSize);
    if ret < 0 {
      return;
    }

    ret := g.WriteTarblock(ZeroBlock());
    if ret < 0 {
      return;
    }
    ret := g.WriteTarblock(ZeroBlock());
    if ret < 0 {
      return;
    }
    return 0;
  }

  /** The loop over the index: count turns, stopping at the first that
      fails. */
  method ConvertEntries(g: Globals, count: nat) returns (ret: int)
    requires g.Valid()
    modifies g`cursor, g`output, g`calls, g`live, g`allocations
    ensures g.Valid()
    ensures StateOf(g, ret) == Walk(ConvertTurn(g.input, g.env), old(StateOf(g, 0)), count)
    ensures g.live == old(g.live)
  {
    ghost var turn := ConvertTurn(g.input, g.env);
    ghost var s0 := StateOf(g, 0);
    var i := 0;
    while i < count
      invariant g.Valid()
      invariant i <= count
      invariant Walk(turn, s0, i) == StateOf(g, 0)
      invariant g.live == old(g.live)
    {
      ghost var prev := StateOf(g, 0);
      ret := ConvertEntry(g);
      WalkNext(turn, s0, i, count, prev, StateOf(g, ret));
      if ret < 0 {
        return;
      }
      i := i + 1;
    }
    return 0;
  }

  /** One turn of the index loop: read the checksum and the texpos, save
      the position, convert the record, restore the position. */
  method ConvertEntry(g: Globals) returns (ret: int)
    requires g.Valid()
    modifies g`cursor, g`output, g`calls, g`live, g`allocations
    ensures g.Valid()
    ensures StateOf(g, ret) == ConvertTurn(g.input, g.env)(old(StateOf(g, 0)))
    ensures g.live == old(g.live)
  {
    var checksum, texpos;
    ret, checksum := GetBufferEndian(g, ChecksumWidth);
    if ret < 0 {
      return -EINVAL;
    }
    ret, texpos := GetBufferEndian(g, TexposWidth);
    if ret < 0 {
      return -EINVAL;
    }
    // ftell cannot fail: the position fits in a `long`
    var pos := g.cursor;
    ret := ConvertFile(g, texpos, checksum);
    if ret < 0 {
      return;
    }
    // neither can the seek back to it
    ret := g.Fseek(pos);
  }

  /** main after init: exit status 1 when init failed (and nothing is
      read or written), 2 when convert_input failed, 0 otherwise. */
  method RunMain(g: Globals, initRet: int) returns (code: int)
    requires g.Valid()
    modifies g`cursor, g`output, g`calls, g`live, g`allocations
    ensures g.Valid()
    ensures initRet < 0 ==> code == 1 && StateOf(g, 0) == old(StateOf(g, 0))
    ensures initRet >= 0 ==>
              var e := Extraction(g.input, g.env, old(StateOf(g, 0)));
              code == ExitCode(initRet, e.ret) && StateOf(g, e.ret) == e
    ensures g.live == old(g.live)
  {
    if initRet < 0 {
      return 1;
    }
    var ret := ConvertInput(g);
    if ret < 0 {
      return 2;
    }
    return 0;
  }
}
