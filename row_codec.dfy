/** The plastic synaptic rows: the encoder that lays connections out as
    fixed-plastic half-words and plastic-plastic bytes per row, the decoder
    that reads them back, and the per-row sizes both report. */
module RowCodec {
  import opened Wrappers
  import opened Bits
  import opened Connections
  import opened FixedPlastic
  import opened RowSizing
  import opened Rows

  /** What the encoder returns: per row, the fixed-plastic half-words and
      the plastic-plastic bytes (both padded), the number of real
      fixed-plastic entries and the plastic-plastic size in words. */
  datatype PlasticRows = PlasticRows(fpData: seq<seq<bv16>>, ppData: seq<seq<bv8>>, fpSize: seq<nat>, ppSize: seq<nat>)

  /** The fields of every connection, in input order. */
  function ConnectionFields(loAtom: nat, fraction: real, connections: seq<Connection>): seq<HalfWordFields>
  {
    Map((c: Connection) => FieldsOf(loAtom, fraction, c), connections)
  }

  /** The half-word holding each set of fields, in order. */
  function HalfWords(p: Packing, fields: seq<HalfWordFields>): seq<bv16>
  {
    Map((f: HalfWordFields) => Pack(p, f), fields)
  }

  /** The rows of a section, each padded with zeros to perConnection
      elements per connection of the pad length, when one is set. */
  function PadSection<T>(fmt: RowFormat, rows: seq<seq<T>>, perConnection: nat, zero: T): (padded: seq<seq<T>>)
    ensures |padded| == |rows|
    ensures forall i :: 0 <= i < |rows| ==>
      padded[i] == if fmt.padToLength.Some? then PadRow(rows[i], perConnection * fmt.padToLength.value, zero) else rows[i]
  {
    if fmt.padToLength.Some? then
      seq(|rows|, i requires 0 <= i < |rows| => PadRow(rows[i], perConnection * fmt.padToLength.value, zero))
    else rows
  }

  /** The number of elements of every row. */
  function RowSizes<T>(rows: seq<seq<T>>): (sizes: seq<nat>)
    ensures |sizes| == |rows|
    ensures forall i :: 0 <= i < |rows| ==> sizes[i] == |rows[i]|
  {
    seq(|rows|, i requires 0 <= i < |rows| => |rows[i]|)
  }

  /** A row as it is stored: padded with zeros to whole 32-bit words of
      perWord elements each (4 bytes, or 2 half-words). */
  function WordAligned<T>(row: seq<T>, perWord: nat, zero: T): (aligned: seq<T>)
    requires perWord > 0
    ensures |aligned| == perWord * CeilDiv(|row|, perWord)
    ensures |row| <= |aligned| < |row| + perWord
    ensures aligned[..|row|] == row
    ensures forall k :: |row| <= k < |aligned| ==> aligned[k] == zero
  {
    PadRow(row, perWord * CeilDiv(|row|, perWord), zero)
  }

  /** Aligning a row to whole words keeps any prefix it starts with. */
  lemma AlignedPrefix<T>(row: seq<T>, padded: seq<T>, perWord: nat, zero: T)
    requires perWord > 0
    requires |row| <= |padded| && padded[..|row|] == row
    ensures |row| <= |WordAligned(padded, perWord, zero)|
    ensures WordAligned(padded, perWord, zero)[..|row|] == row
  {
    var a := WordAligned(padded, perWord, zero);
    assert a[..|row|] == a[..|padded|][..|row|];
  }

  /** One section of the plastic rows: its data, row by row, and the size
      of every row as the encoder reports it. */
  datatype Section<T> = Section(data: seq<seq<T>>, sizes: seq<nat>)

  /** The fixed-plastic section: the half-words grouped by row and counted
      before padding, then padded to the pad length and to whole words. */
  function FixedPlasticSection(fmt: RowFormat, p: Packing, fields: seq<HalfWordFields>,
                               rowIndices: seq<nat>, nRows: nat): (s: Section<bv16>)
    requires |fields| == |rowIndices|
    ensures |s.data| == |s.sizes| == nRows
  {
    var rows := ToRows(HalfWords(p, fields), rowIndices, nRows);
    var padded := PadSection(fmt, rows, 1, 0);
    Section(seq(nRows, i requires 0 <= i < nRows => WordAligned(padded[i], 2, 0)), RowSizes(rows))
  }

  /** The bytes of every connection of a row, laid end to end, row by row. */
  function RowBytes(rows: seq<seq<seq<bv8>>>): (bytes: seq<seq<bv8>>)
    ensures |bytes| == |rows|
    ensures forall i :: 0 <= i < |rows| ==> bytes[i] == Concat(rows[i])
  {
    seq(|rows|, i requires 0 <= i < |rows| => Concat(rows[i]))
  }

  /** A plastic-plastic row behind its zeroed header. */
  function Headered(fmt: RowFormat, bytes: seq<bv8>): seq<bv8>
  {
    Repeat(0 as bv8, HeaderBytes(fmt.preTraceBytes)) + bytes
  }

  /** The plastic-plastic section: the synaptic structure's bytes grouped
      by row, padded to its bytes per connection times the pad length,
      behind a zeroed header; each row counted in words, a partial last
      word included, and stored padded to whole words. */
  function PlasticPlasticSection(fmt: RowFormat, plastic: seq<seq<bv8>>, rowIndices: seq<nat>, nRows: nat)
    : (s: Section<bv8>)
    requires |plastic| == |rowIndices|
    ensures |s.data| == |s.sizes| == nRows
  {
    var padded := PadSection(fmt, RowBytes(ToRows(plastic, rowIndices, nRows)), fmt.bytesPerConnection, 0);
    Section(seq(nRows, i requires 0 <= i < nRows => WordAligned(Headered(fmt, padded[i]), 4, 0)),
            seq(nRows, i requires 0 <= i < nRows => CeilDiv(|Headered(fmt, padded[i])|, 4)))
  }

  /** Both sections of the rows for the given operands. */
  function EncodeRows(fmt: RowFormat, fraction: real, p: Packing, loAtom: nat, connections: seq<Connection>,
                      rowIndices: seq<nat>, nRows: nat, plastic: seq<seq<bv8>>): (e: PlasticRows)
    requires |connections| == |rowIndices| == |plastic|
    ensures |e.fpData| == |e.ppData| == |e.fpSize| == |e.ppSize| == nRows
  {
    var fp := FixedPlasticSection(fmt, p, ConnectionFields(loAtom, fraction, connections), rowIndices, nRows);
    var pp := PlasticPlasticSection(fmt, plastic, rowIndices, nRows);
    PlasticRows(fp.data, pp.data, fp.sizes, pp.sizes)
  }

  /** The encoder with the operands it computes from the number of
      synapse types and the slice; the synaptic structure turns the
      connections into their plastic bytes. */
  function GetPlasticSynapticData(fmt: RowFormat, fraction: real, connections: seq<Connection>,
                                  rowIndices: seq<nat>, nRows: nat, slice: VertexSlice, nSynapseTypes: nat,
                                  getSynapticData: seq<Connection> -> seq<seq<bv8>>): (e: PlasticRows)
    requires nSynapseTypes >= 1 && slice.nAtoms >= 1
    requires |connections| == |rowIndices| == |getSynapticData(connections)|
    ensures |e.fpData| == |e.ppData| == |e.fpSize| == |e.ppSize| == nRows
  {
    EncodeRows(fmt, fraction, PackingOf(LayoutFor(nSynapseTypes, slice)), slice.loAtom, connections,
               rowIndices, nRows, getSynapticData(connections))
  }

  /** Fixed-plastic words per row: two half-words to a word, rounded up. */
  function FixedPlasticWordsPerRow(fpSize: seq<nat>): (words: seq<nat>)
    ensures |words| == |fpSize|
    ensures forall i :: 0 <= i < |fpSize| ==> fpSize[i] <= 2 * words[i] <= fpSize[i] + 1
  {
    seq(|fpSize|, i requires 0 <= i < |fpSize| => CeilDiv(fpSize[i], 2))
  }

  /** Plastic-plastic words per row: the reported size, already in words. */
  function PlasticPlasticWordsPerRow(ppSize: seq<nat>): seq<nat>
  {
    ppSize
  }

  /** Synapses per row: one per fixed-plastic half-word. */
  function SynapsesInRows(ppSize: seq<nat>, fpSize: seq<nat>): seq<nat>
  {
    fpSize
  }

  /** The live half-words of every row, rows in order: the first fpSize[i]
      of row i, so that whatever follows (padding) is never read. */
  function LiveEntries(fpData: seq<seq<bv16>>, fpSize: seq<nat>): (live: seq<bv16>)
    requires |fpSize| <= |fpData|
    requires forall i :: 0 <= i < |fpSize| ==> fpSize[i] <= |fpData[i]|
  {
    Concat(seq(|fpSize|, i requires 0 <= i < |fpSize| => fpData[i][..fpSize[i]]))
  }

  /** The row index of every live entry: i, fpSize[i] times, rows in order. */
  function Sources(fpSize: seq<nat>): seq<nat>
  {
    var rows: seq<seq<nat>> := seq(|fpSize|, i requires 0 <= i < |fpSize| => Repeat(i as nat, fpSize[i]));
    Concat(rows)
  }

  /** The plastic-plastic rows without their header, as the synaptic
      structure reads them. */
  function StripHeaders(ppData: seq<seq<bv8>>, headerBytes: nat): (stripped: seq<seq<bv8>>)
    ensures |stripped| == |ppData|
  {
    seq(|ppData|, i requires 0 <= i < |ppData| => if headerBytes <= |ppData[i]| then ppData[i][headerBytes..] else [])
  }

  lemma LiveLength(fpData: seq<seq<bv16>>, fpSize: seq<nat>)
    requires |fpSize| <= |fpData|
    requires forall i :: 0 <= i < |fpSize| ==> fpSize[i] <= |fpData[i]|
    ensures |LiveEntries(fpData, fpSize)| == Sum(fpSize)
    ensures |Sources(fpSize)| == Sum(fpSize)
  {
    SumLengthsOf(seq(|fpSize|, i requires 0 <= i < |fpSize| => fpData[i][..fpSize[i]]), fpSize);
    var rows: seq<seq<nat>> := seq(|fpSize|, i requires 0 <= i < |fpSize| => Repeat(i as nat, fpSize[i]));
    SumLengthsOf(rows, fpSize);
  }

  /** One decoded connection: its row as source, the decoded target and
      delay, the synaptic structure's weight, and a synapse type left at
      zero. */
  function DecodedEntry(p: Packing, loAtom: nat, source: nat, halfWord: bv16, weight: real): (c: Connection)
    ensures 1 <= c.delay <= 16
  {
    Connection(source, DecodeTarget(p, loAtom, halfWord), weight, DecodeDelay(p, halfWord), 0)
  }

  /** A connection as the decoder first fills it in, with the stored delay
      field as its delay. */
  function RawEntry(p: Packing, loAtom: nat, source: nat, halfWord: bv16, weight: real): (c: Connection)
    ensures c.delay < 16
  {
    Connection(source, DecodeTarget(p, loAtom, halfWord), weight, DigitValue(StoredDelay(p, halfWord)), 0)
  }

  /** A connection with a delay of 0 read as 16. */
  function WithDelayRemapped(c: Connection): Connection
  {
    if c.delay == 0 then c.(delay := 16) else c
  }

  /** Overwriting a stored 0 with 16 turns the first fill into the
      decoded connection. */
  lemma RemapRawEntry(p: Packing, loAtom: nat, source: nat, halfWord: bv16, weight: real)
    ensures WithDelayRemapped(RawEntry(p, loAtom, source, halfWord, weight))
            == DecodedEntry(p, loAtom, source, halfWord, weight)
  {
    DigitValueZero(StoredDelay(p, halfWord));
  }

  /** The connections the decoder returns, one per live half-word, rows in
      order and entries in stored order within a row. */
  function DecodeRows(p: Packing, loAtom: nat, fpSize: seq<nat>, fpData: seq<seq<bv16>>, weights: seq<real>): (decoded: seq<Connection>)
    requires |fpSize| <= |fpData|
    requires forall i :: 0 <= i < |fpSize| ==> fpSize[i] <= |fpData[i]|
    requires |weights| == Sum(fpSize)
    ensures |decoded| == Sum(fpSize)
    ensures forall k :: 0 <= k < |decoded| ==> 1 <= decoded[k].delay <= 16 && decoded[k].synapseType == 0
  {
    var live, sources := LiveEntries(fpData, fpSize), Sources(fpSize);
    LiveLength(fpData, fpSize);
    seq(|live|, k requires 0 <= k < |live| => DecodedEntry(p, loAtom, sources[k], live[k], weights[k]))
  }

  /** The decoder accepts the row sizes, the fixed-plastic rows and the
      weights, and gives back exactly the expected connections. */
  predicate DecodesTo(p: Packing, loAtom: nat, fpSize: seq<nat>, fpData: seq<seq<bv16>>, weights: seq<real>,
                      expected: seq<Connection>)
  {
    && |fpSize| <= |fpData|
    && (forall i :: 0 <= i < |fpSize| ==> fpSize[i] <= |fpData[i]|)
    && |weights| == Sum(fpSize)
    && DecodeRows(p, loAtom, fpSize, fpData, weights) == expected
  }

  /** Overwrites, in place, every delay of 0 with 16. */
  method RemapZeroDelays(connections: array<Connection>)
    modifies connections
    ensures forall j :: 0 <= j < connections.Length ==> connections[j] == WithDelayRemapped(old(connections[j]))
  {
    for k := 0 to connections.Length
      invariant forall j :: 0 <= j < k ==> connections[j] == WithDelayRemapped(old(connections[j]))
      invariant forall j :: k <= j < connections.Length ==> connections[j] == old(connections[j])
    {
      if connections[k].delay == 0 {
        connections[k] := connections[k].(delay := 16);
      }
    }
  }

  /** Fills in every connection from its source, its live half-word and its
      weight, with the stored delay field as delay. */
  method FillColumns(connections: array<Connection>, p: Packing, loAtom: nat,
                     sources: seq<nat>, dataFixed: seq<bv16>, weights: seq<real>)
    requires connections.Length == |sources| == |dataFixed| == |weights|
    modifies connections
    ensures forall j :: 0 <= j < connections.Length ==>
      connections[j] == RawEntry(p, loAtom, sources[j], dataFixed[j], weights[j])
  {
    for k := 0 to connections.Length
      invariant forall j :: 0 <= j < k ==>
        connections[j] == RawEntry(p, loAtom, sources[j], dataFixed[j], weights[j])
    {
      connections[k] := RawEntry(p, loAtom, sources[k], dataFixed[k], weights[k]);
    }
  }

  /** The decoder for the given operands: the source, target, weight and
      raw delay columns filled in from the row sizes, the live half-words
      and the synaptic structure's weights, then every raw delay of 0
      overwritten with 16 in place. */
  method DecodeWith(p: Packing, loAtom: nat, fpSize: seq<nat>, fpData: seq<seq<bv16>>, weights: seq<real>)
    returns (decoded: seq<Connection>)
    requires |fpSize| <= |fpData|
    requires forall i :: 0 <= i < |fpSize| ==> fpSize[i] <= |fpData[i]|
    requires |weights| == Sum(fpSize)
    ensures decoded == DecodeRows(p, loAtom, fpSize, fpData, weights)
  {
    var dataFixed := LiveEntries(fpData, fpSize);
    var sources := Sources(fpSize);
    LiveLength(fpData, fpSize);
    var connections := new Connection[|dataFixed|](_ => Connection(0, 0, 0.0, 0, 0));
    FillColumns(connections, p, loAtom, sources, dataFixed, weights);
    RemapZeroDelays(connections);
    forall j | 0 <= j < connections.Length
      ensures connections[j] == DecodedEntry(p, loAtom, sources[j], dataFixed[j], weights[j])
    {
      RemapRawEntry(p, loAtom, sources[j], dataFixed[j], weights[j]);
    }
    decoded := connections[..];
  }

  /** Why the decoder fails: with no rows at all there are no live
      half-words to concatenate, which numpy refuses. */
  datatype ReadError = NoRows

  /** Row i of the fixed-plastic section holds the half-words of the fields
      whose row index is i, in input order, counted by its size and followed
      by zeros up to the whole words of the row's capacity. */
  lemma FixedPlasticLayout(fmt: RowFormat, p: Packing, fields: seq<HalfWordFields>, rowIndices: seq<nat>,
                           nRows: nat, i: nat)
    requires |fields| == |rowIndices|
    requires i < nRows
    ensures var s := FixedPlasticSection(fmt, p, fields, rowIndices, nRows);
            && s.sizes[i] == Count(rowIndices, i)
            && |s.data[i]| == 2 * FixedPlasticWords(Capacity(fmt, s.sizes[i]))
            && s.data[i][..s.sizes[i]] == HalfWords(p, RowOf(fields, rowIndices, i))
            && forall k :: s.sizes[i] <= k < |s.data[i]| ==> s.data[i][k] == 0
  {
    var s := FixedPlasticSection(fmt, p, fields, rowIndices, nRows);
    var rows := ToRows(HalfWords(p, fields), rowIndices, nRows);
    var padded := PadSection(fmt, rows, 1, 0)[i];
    var row := rows[i];
    assert s.data[i] == WordAligned(padded, 2, 0);
    RowOfMap((f: HalfWordFields) => Pack(p, f), fields, rowIndices, i);
    assert |padded| == Capacity(fmt, |row|);
    FixedPlasticWordsOfRow(|padded|);
    AlignedPrefix(row, padded, 2, 0);
    forall k | |row| <= k < |s.data[i]|
      ensures s.data[i][k] == 0
    {
      if k < |padded| {
        assert s.data[i][k] == s.data[i][..|padded|][k];
      }
    }
  }

  /** Row i of the plastic-plastic section is a zeroed header followed by
      the synaptic structure's bytes for the connections whose row index is
      i, in input order, and zeros up to the padded length; its size is its
      length in whole words. */
  lemma PlasticPlasticLayout(fmt: RowFormat, plastic: seq<seq<bv8>>, rowIndices: seq<nat>, nRows: nat, i: nat)
    requires |plastic| == |rowIndices|
    requires i < nRows
    ensures var s := PlasticPlasticSection(fmt, plastic, rowIndices, nRows);
            var h, bytes := HeaderBytes(fmt.preTraceBytes), Concat(RowOf(plastic, rowIndices, i));
            && s.sizes[i] == CeilDiv(h + (if fmt.padToLength.Some? && |bytes| < fmt.bytesPerConnection * fmt.padToLength.value
                                          then fmt.bytesPerConnection * fmt.padToLength.value else |bytes|), 4)
            && |s.data[i]| == 4 * s.sizes[i]
            && (forall k :: 0 <= k < h ==> s.data[i][k] == 0)
            && s.data[i][h..h + |bytes|] == bytes
            && (forall k :: h + |bytes| <= k < |s.data[i]| ==> s.data[i][k] == 0)
  {
    var bytes := Concat(RowOf(plastic, rowIndices, i));
    PlasticPlasticRow(fmt, plastic, rowIndices, nRows, i);
    HeaderedLayout(fmt, bytes);
  }

  /** A row's bytes padded as the section pads them. */
  function PaddedBytes(fmt: RowFormat, bytes: seq<bv8>): seq<bv8>
  {
    if fmt.padToLength.Some? then PadRow(bytes, fmt.bytesPerConnection * fmt.padToLength.value, 0) else bytes
  }

  /** Row i of the plastic-plastic section is the row's padded bytes behind
      the header, aligned to whole words. */
  lemma PlasticPlasticRow(fmt: RowFormat, plastic: seq<seq<bv8>>, rowIndices: seq<nat>, nRows: nat, i: nat)
    requires |plastic| == |rowIndices|
    requires i < nRows
    ensures var s := PlasticPlasticSection(fmt, plastic, rowIndices, nRows);
            var row := Headered(fmt, PaddedBytes(fmt, Concat(RowOf(plastic, rowIndices, i))));
            s.data[i] == WordAligned(row, 4, 0) && s.sizes[i] == CeilDiv(|row|, 4)
  {
    var rows := RowBytes(ToRows(plastic, rowIndices, nRows));
    var padded := PadSection(fmt, rows, fmt.bytesPerConnection, 0);
    assert padded[i] == PaddedBytes(fmt, Concat(RowOf(plastic, rowIndices, i)));
  }

  /** A row's bytes, padded and behind the zeroed header, stay a zeroed
      header, the bytes and zeros once aligned to whole words. */
  lemma HeaderedLayout(fmt: RowFormat, bytes: seq<bv8>)
    ensures var h, row := HeaderBytes(fmt.preTraceBytes), Headered(fmt, PaddedBytes(fmt, bytes));
            var a := WordAligned(row, 4, 0);
            && CeilDiv(|row|, 4) == CeilDiv(h + (if fmt.padToLength.Some? && |bytes| < fmt.bytesPerConnection * fmt.padToLength.value
                                                 then fmt.bytesPerConnection * fmt.padToLength.value else |bytes|), 4)
            && |a| == 4 * CeilDiv(|row|, 4)
            && (forall k :: 0 <= k < h ==> a[k] == 0)
            && a[h..h + |bytes|] == bytes
            && (forall k :: h + |bytes| <= k < |a| ==> a[k] == 0)
  {
    var padded := PaddedBytes(fmt, bytes);
    var header := Repeat(0 as bv8, HeaderBytes(fmt.preTraceBytes));
    var row := header + padded;
    var a := WordAligned(row, 4, 0);
    assert a[..|row|] == row;
    assert padded[..|bytes|] == bytes;
    assert a[|header|..|header| + |bytes|] == row[|header|..][..|bytes|];
    forall k | |header| + |bytes| <= k < |a|
      ensures a[k] == 0
    {
      if k < |row| {
        assert a[k] == a[..|row|][k];
      }
    }
    forall k | 0 <= k < |header|
      ensures a[k] == 0
    {
      assert a[k] == a[..|row|][k];
    }
  }

  /** When the synaptic structure gives every connection the same number of
      bytes, a row's plastic-plastic length is the header plus those bytes
      for every connection the row is sized for. */
  lemma PlasticPlasticLength(fmt: RowFormat, plastic: seq<seq<bv8>>, rowIndices: seq<nat>, nRows: nat, i: nat)
    requires |plastic| == |rowIndices|
    requires i < nRows
    requires forall j :: 0 <= j < |plastic| ==> |plastic[j]| == fmt.bytesPerConnection
    ensures var s := PlasticPlasticSection(fmt, plastic, rowIndices, nRows);
            && s.sizes[i] == PlasticPlasticWords(fmt, Capacity(fmt, Count(rowIndices, i)))
            && |s.data[i]| == 4 * s.sizes[i]
  {
    var row := RowOf(plastic, rowIndices, i);
    RowOfUniform(plastic, rowIndices, i, fmt.bytesPerConnection);
    ConcatUniform(row, fmt.bytesPerConnection);
    PlasticPlasticLayout(fmt, plastic, rowIndices, nRows, i);
    if fmt.padToLength.Some? {
      var n, pad, b := |row|, fmt.padToLength.value, fmt.bytesPerConnection;
      if n < pad {
        MulMonotone(b, n, pad);
      } else {
        MulMonotone(b, pad, n);
      }
    }
  }

  /** A fixed-plastic row of m entries takes FixedPlasticWords(m) words. */
  lemma FixedPlasticWordsOfRow(m: nat)
    ensures CeilDiv(m, 2) == FixedPlasticWords(m)
  {
  }

  /** The words the encoded rows take are the words the sizing reserves:
      a row with n connections takes WordsForPlasticConnections(n) words,
      both sections rounded up to whole words. */
  lemma RowWords(fmt: RowFormat, fraction: real, p: Packing, loAtom: nat, connections: seq<Connection>,
                 rowIndices: seq<nat>, nRows: nat, plastic: seq<seq<bv8>>, i: nat)
    requires |connections| == |rowIndices| == |plastic|
    requires i < nRows
    requires forall j :: 0 <= j < |plastic| ==> |plastic[j]| == fmt.bytesPerConnection
    ensures var e := EncodeRows(fmt, fraction, p, loAtom, connections, rowIndices, nRows, plastic);
            var m := Capacity(fmt, e.fpSize[i]);
            && |e.fpData[i]| == 2 * FixedPlasticWords(m)
            && |e.ppData[i]| == 4 * PlasticPlasticWords(fmt, m)
            && |e.fpData[i]| / 2 + |e.ppData[i]| / 4 == WordsForPlasticConnections(fmt, e.fpSize[i])
  {
    var e := EncodeRows(fmt, fraction, p, loAtom, connections, rowIndices, nRows, plastic);
    var fields := ConnectionFields(loAtom, fraction, connections);
    var fp := FixedPlasticSection(fmt, p, fields, rowIndices, nRows);
    var pp := PlasticPlasticSection(fmt, plastic, rowIndices, nRows);
    assert e.fpData[i] == fp.data[i] && e.fpSize[i] == fp.sizes[i] && e.ppData[i] == pp.data[i];
    var m := Capacity(fmt, Count(rowIndices, i));
    FixedPlasticLayout(fmt, p, fields, rowIndices, nRows, i);
    PlasticPlasticLength(fmt, plastic, rowIndices, nRows, i);
    WholeWords(|e.fpData[i]|, |e.ppData[i]|, FixedPlasticWords(m), PlasticPlasticWords(fmt, m));
  }

  lemma WholeWords(halves: int, bytes: int, x: int, y: int)
    requires halves == 2 * x && bytes == 4 * y
    ensures halves / 2 + bytes / 4 == x + y
  { }

  /** What the per-row helpers report for an encoded row: one synapse per
      real connection of the row, the fixed-plastic words of those real
      entries only (the stored row, padded to its capacity, may take more),
      and the plastic-plastic size unchanged, the words of the header and of
      the padded bytes, a partial last word included. Together they never
      exceed the words the sizing reserves, and match them with no pad
      length. */
  lemma ReportedSizes(fmt: RowFormat, fraction: real, p: Packing, loAtom: nat, connections: seq<Connection>,
                      rowIndices: seq<nat>, nRows: nat, plastic: seq<seq<bv8>>, i: nat)
    requires |connections| == |rowIndices| == |plastic|
    requires i < nRows
    requires forall j :: 0 <= j < |plastic| ==> |plastic[j]| == fmt.bytesPerConnection
    ensures var e := EncodeRows(fmt, fraction, p, loAtom, connections, rowIndices, nRows, plastic);
            var n := Count(rowIndices, i);
            var reported := FixedPlasticWordsPerRow(e.fpSize)[i] + PlasticPlasticWordsPerRow(e.ppSize)[i];
            && SynapsesInRows(e.ppSize, e.fpSize)[i] == e.fpSize[i] == n
            && FixedPlasticWordsPerRow(e.fpSize)[i] == FixedPlasticWords(n)
            && PlasticPlasticWordsPerRow(e.ppSize)[i] == e.ppSize[i] == PlasticPlasticWords(fmt, Capacity(fmt, n))
            && reported <= WordsForPlasticConnections(fmt, n)
            && (fmt.padToLength.None? ==> reported == WordsForPlasticConnections(fmt, n))
  {
    var fields := ConnectionFields(loAtom, fraction, connections);
    FixedPlasticLayout(fmt, p, fields, rowIndices, nRows, i);
    PlasticPlasticLength(fmt, plastic, rowIndices, nRows, i);
    FixedPlasticWordsOfRow(Count(rowIndices, i));
  }

  /** Reading the first |rows[i]| elements of every padded row gives the
      rows back, end to end. */
  lemma LiveOfPadded(fpData: seq<seq<bv16>>, rows: seq<seq<bv16>>)
    requires |fpData| == |rows|
    requires forall i :: 0 <= i < |rows| ==> |rows[i]| <= |fpData[i]| && fpData[i][..|rows[i]|] == rows[i]
    ensures LiveEntries(fpData, RowSizes(rows)) == Concat(rows)
  {
    var sizes := RowSizes(rows);
    assert seq(|sizes|, i requires 0 <= i < |sizes| => fpData[i][..sizes[i]]) == rows;
  }

  /** The sources of rows grouped by row index are the grouped row
      indices. */
  lemma SourcesOfRows<T>(items: seq<T>, rowIndices: seq<nat>, nRows: nat)
    requires |items| == |rowIndices|
    ensures Sources(RowSizes(ToRows(items, rowIndices, nRows))) == Grouped(rowIndices, rowIndices, nRows)
  {
    var sizes := RowSizes(ToRows(items, rowIndices, nRows));
    forall i | 0 <= i < nRows {
      RowOfIndices(rowIndices, i);
    }
    var repeats: seq<seq<nat>> := seq(|sizes|, i requires 0 <= i < |sizes| => Repeat(i as nat, sizes[i]));
    assert repeats == ToRows(rowIndices, rowIndices, nRows);
  }

  /** The live half-words of the fixed-plastic section are the grouped
      half-words, and their sources the grouped row indices. */
  lemma SectionLive(fmt: RowFormat, p: Packing, fields: seq<HalfWordFields>, rowIndices: seq<nat>, nRows: nat)
    requires |fields| == |rowIndices|
    ensures var s := FixedPlasticSection(fmt, p, fields, rowIndices, nRows);
            && (forall i :: 0 <= i < nRows ==> s.sizes[i] <= |s.data[i]|)
            && LiveEntries(s.data, s.sizes) == Grouped(HalfWords(p, fields), rowIndices, nRows)
            && Sources(s.sizes) == Grouped(rowIndices, rowIndices, nRows)
  {
    var s := FixedPlasticSection(fmt, p, fields, rowIndices, nRows);
    var rows := ToRows(HalfWords(p, fields), rowIndices, nRows);
    var padded := PadSection(fmt, rows, 1, 0);
    forall i | 0 <= i < nRows
      ensures |rows[i]| <= |s.data[i]| && s.data[i][..|rows[i]|] == rows[i]
    {
      AlignedPrefix(rows[i], padded[i], 2, 0);
    }
    LiveOfPadded(s.data, rows);
    SourcesOfRows(HalfWords(p, fields), rowIndices, nRows);
  }

  /** Decoding the fixed-plastic section gives one connection per grouped
      field set, in grouped order: its row as source, the target and delay
      its half-word decodes to, and the weight read for it. */
  lemma RoundTrip(fmt: RowFormat, p: Packing, loAtom: nat, fields: seq<HalfWordFields>, rowIndices: seq<nat>,
                  nRows: nat, weights: seq<real>)
    requires |fields| == |rowIndices|
    requires |weights| == |Grouped(fields, rowIndices, nRows)|
    ensures var s := FixedPlasticSection(fmt, p, fields, rowIndices, nRows);
            var grouped, sources := Grouped(fields, rowIndices, nRows), Grouped(rowIndices, rowIndices, nRows);
            && (forall i :: 0 <= i < nRows ==> s.sizes[i] <= |s.data[i]|)
            && Sum(s.sizes) == |grouped| == |sources|
            && DecodeRows(p, loAtom, s.sizes, s.data, weights)
               == seq(|grouped|, k requires 0 <= k < |grouped| =>
                        DecodedEntry(p, loAtom, sources[k], Pack(p, grouped[k]), weights[k]))
  {
    var s := FixedPlasticSection(fmt, p, fields, rowIndices, nRows);
    SectionLive(fmt, p, fields, rowIndices, nRows);
    LiveLength(s.data, s.sizes);
    GroupedMap((f: HalfWordFields) => Pack(p, f), fields, rowIndices, nRows);
  }

  /** The fixed-plastic section decodes to any expected connections that
      match, entry by entry, what RoundTrip says it decodes to. */
  lemma SectionDecodesTo(fmt: RowFormat, p: Packing, loAtom: nat, fields: seq<HalfWordFields>, rowIndices: seq<nat>,
                         nRows: nat, weights: seq<real>, expected: seq<Connection>)
    requires |fields| == |rowIndices|
    requires |weights| == |expected| == |Grouped(fields, rowIndices, nRows)| == |Grouped(rowIndices, rowIndices, nRows)|
    requires forall k :: 0 <= k < |expected| ==>
      DecodedEntry(p, loAtom, Grouped(rowIndices, rowIndices, nRows)[k], Pack(p, Grouped(fields, rowIndices, nRows)[k]),
                   weights[k]) == expected[k]
    ensures var s := FixedPlasticSection(fmt, p, fields, rowIndices, nRows);
            DecodesTo(p, loAtom, s.sizes, s.data, weights, expected)
  {
    RoundTrip(fmt, p, loAtom, fields, rowIndices, nRows, weights);
  }

  /** Under operands that keep the fields apart, a packed half-word
      decodes to its local id under the target mask plus loAtom (in uint16
      arithmetic) and to its dendritic delay's low four bits, remapped. */
  lemma DecodedFields(p: Packing, typeBits: bv16, loAtom: nat, source: nat, f: HalfWordFields, weight: real)
    requires TargetSeparated(p) && DelaySeparated(p, typeBits)
    requires f.synapseType >> typeBits == 0
    ensures DecodedEntry(p, loAtom, source, Pack(p, f), weight)
            == Connection(source, AddLoAtom(Value(f.localId & p.targetMask), loAtom), weight,
                          RemapDelay(f.dendritic & 0xF), 0)
  {
    DelayFieldRoundTrip(p, typeBits, f);
    TargetRoundTrip(p, loAtom, f);
  }

  /** Fields that hold a connection's target and delay under a layout:
      the delay field remaps to the delay, the synapse type and the local id
      fit their fields, and the local id plus loAtom is the target, below
      2^16 so that the decoder's uint16 sum does not wrap. */
  predicate FieldsFit(layout: FieldLayout, loAtom: nat, target: nat, delay: nat, f: HalfWordFields)
  {
    && RemapDelay(f.dendritic & 0xF) == delay
    && Shr(f.synapseType, layout.synapseTypeBits) == 0
    && Shr(f.localId, layout.neuronIdBits) == 0
    && Value(f.localId) + loAtom == target < 0x10000
  }

  /** Under the intended operands, fields that fit decode to the target
      and the delay they hold. */
  lemma DecodedFieldsIntended(layout: FieldLayout, loAtom: nat, source: nat, f: HalfWordFields, weight: real,
                              target: nat, delay: nat)
    requires DelayShift(layout) <= 12
    requires FieldsFit(layout, loAtom, target, delay, f)
    ensures DecodedEntry(IntendedPackingOf(layout), loAtom, source, Pack(IntendedPackingOf(layout), f), weight)
            == Connection(source, target, weight, delay, 0)
  {
    IntendedDelaySeparatedOf(layout);
    DelayFieldRoundTrip(IntendedPackingOf(layout), ShiftAmount(layout.synapseTypeBits), f);
    IntendedPackedTarget(layout, f);
  }

  /** What a connection must satisfy for its half-word to hold it: a delay
      of 1 .. 16, a synapse type and a local id that fit their fields, and a
      target of the slice below 2^16. */
  predicate Encodable(layout: FieldLayout, loAtom: nat, c: Connection)
  {
    && 1 <= c.delay <= 16
    && FitsIn(c.synapseType, layout.synapseTypeBits)
    && loAtom <= c.target < 0x10000
    && FitsIn(c.target - loAtom, layout.neuronIdBits)
  }

  /** The fields of an encodable connection, with the whole delay on the
      dendritic side, hold its target and its delay. */
  lemma EncodableFields(layout: FieldLayout, loAtom: nat, c: Connection)
    requires Encodable(layout, loAtom, c)
    ensures FieldsFit(layout, loAtom, c.target, c.delay, FieldsOf(loAtom, 1.0, c))
  {
    WholeDelayField(loAtom, c);
    LocalIdOf(loAtom, 1.0, c);
  }

  /** The local id field of a connection of the slice holds target - loAtom. */
  lemma LocalIdOf(loAtom: nat, fraction: real, c: Connection)
    requires loAtom <= c.target < loAtom + 0x10000
    ensures Value(FieldsOf(loAtom, fraction, c).localId) + loAtom == c.target
  {
    ValueOfU16(c.target - loAtom);
  }

  /** Grouping the fields of the connections gives the fields of the
      grouped connections. */
  lemma GroupedFields(loAtom: nat, fraction: real, connections: seq<Connection>, rowIndices: seq<nat>, nRows: nat)
    requires |connections| == |rowIndices|
    ensures var fields := Grouped(ConnectionFields(loAtom, fraction, connections), rowIndices, nRows);
            var grouped := Grouped(connections, rowIndices, nRows);
            && |fields| == |grouped|
            && forall k :: 0 <= k < |grouped| ==> fields[k] == FieldsOf(loAtom, fraction, grouped[k])
  {
    GroupedMap((c: Connection) => FieldsOf(loAtom, fraction, c), connections, rowIndices, nRows);
  }

  /** The weight of every connection, in order. */
  function Weights(connections: seq<Connection>): (weights: seq<real>)
    ensures |weights| == |connections|
    ensures forall k :: 0 <= k < |connections| ==> weights[k] == connections[k].weight
  {
    Map((c: Connection) => c.weight, connections)
  }

  /** The row index of every connection: its source. */
  function RowIndicesOf(connections: seq<Connection>): (rowIndices: seq<nat>)
    ensures |rowIndices| == |connections|
    ensures forall k :: 0 <= k < |connections| ==> rowIndices[k] == connections[k].source
  {
    Map((c: Connection) => c.source, connections)
  }

  /** A connection as the decoder returns it: the synapse type is not
      stored in the plastic rows and comes back as 0. */
  function WithoutSynapseType(c: Connection): Connection
  {
    c.(synapseType := 0)
  }

  /** The encoder and the decoder with the intended target mask and the
      whole delay on the dendritic side: when every connection sits in the
      row of its source and is encodable, and the synaptic structure reads
      back the weight of every stored connection, decoding gives back the
      connections grouped by row, without their synapse type, and grouping
      only reorders them. */
  lemma RoundTripIntended(fmt: RowFormat, layout: FieldLayout, loAtom: nat, connections: seq<Connection>,
                          nRows: nat, plastic: seq<seq<bv8>>, weights: seq<real>)
    requires |connections| == |plastic|
    requires DelayShift(layout) <= 12
    requires forall c :: c in connections ==> c.source < nRows && Encodable(layout, loAtom, c)
    requires weights == Weights(Grouped(connections, RowIndicesOf(connections), nRows))
    ensures var rowIndices := RowIndicesOf(connections);
            var p := IntendedPackingOf(layout);
            var e := EncodeRows(fmt, 1.0, p, loAtom, connections, rowIndices, nRows, plastic);
            var grouped := Grouped(connections, rowIndices, nRows);
            && multiset(grouped) == multiset(connections)
            && DecodesTo(p, loAtom, e.fpSize, e.fpData, weights, Map(WithoutSynapseType, grouped))
  {
    var rowIndices := RowIndicesOf(connections);
    var p := IntendedPackingOf(layout);
    var grouped := Grouped(connections, rowIndices, nRows);
    var fields := Grouped(ConnectionFields(loAtom, 1.0, connections), rowIndices, nRows);
    var sources := Grouped(rowIndices, rowIndices, nRows);
    EncodableGrouped(layout, loAtom, connections, nRows);
    RoundTrip(fmt, p, loAtom, ConnectionFields(loAtom, 1.0, connections), rowIndices, nRows, weights);
    GroupedMap((c: Connection) => c.source, connections, rowIndices, nRows);
    forall k | 0 <= k < |grouped|
      ensures DecodedEntry(p, loAtom, sources[k], Pack(p, fields[k]), weights[k]) == WithoutSynapseType(grouped[k])
    {
      DecodedFieldsIntended(layout, loAtom, sources[k], fields[k], weights[k], grouped[k].target, grouped[k].delay);
    }
    SectionDecodesTo(fmt, p, loAtom, ConnectionFields(loAtom, 1.0, connections), rowIndices, nRows, weights,
                     Map(WithoutSynapseType, grouped));
  }

  /** Grouping encodable connections by row keeps them all, and the fields
      of every grouped connection hold its target and delay. */
  lemma EncodableGrouped(layout: FieldLayout, loAtom: nat, connections: seq<Connection>, nRows: nat)
    requires forall c :: c in connections ==> c.source < nRows && Encodable(layout, loAtom, c)
    ensures var rowIndices := RowIndicesOf(connections);
            var grouped := Grouped(connections, rowIndices, nRows);
            var fields := Grouped(ConnectionFields(loAtom, 1.0, connections), rowIndices, nRows);
            && multiset(grouped) == multiset(connections)
            && |fields| == |grouped|
            && forall k :: 0 <= k < |grouped| ==> FieldsFit(layout, loAtom, grouped[k].target, grouped[k].delay, fields[k])
  {
    var rowIndices := RowIndicesOf(connections);
    var grouped := Grouped(connections, rowIndices, nRows);
    var fields := Grouped(ConnectionFields(loAtom, 1.0, connections), rowIndices, nRows);
    GroupedIsPermutation(connections, rowIndices, nRows);
    GroupedFields(loAtom, 1.0, connections, rowIndices, nRows);
    forall k | 0 <= k < |grouped|
      ensures FieldsFit(layout, loAtom, grouped[k].target, grouped[k].delay, fields[k])
    {
      assert grouped[k] in multiset(connections);
      EncodableFields(layout, loAtom, grouped[k]);
    }
  }

  /** A connection as the decoder returns it under the source's own
      operands: the local id survives only under the target mask
      n_neuron_id_bits + 1 and comes back plus loAtom in uint16 arithmetic,
      the delay is the dendritic part's low four bits with 0 read as 16, and
      the synapse type comes back as 0. */
  function AsDecoded(layout: FieldLayout, loAtom: nat, fraction: real, c: Connection): (d: Connection)
    ensures d.source == c.source && d.weight == c.weight && d.synapseType == 0
    ensures loAtom < 0x10000 ==> d.target < 0x10000
    ensures 1 <= d.delay <= 16
  {
    Connection(c.source, AddLoAtom(Value(U16(c.target - loAtom) & PackingOf(layout).targetMask), loAtom), c.weight,
               RemapDelay(U16(DendriticDelay(c.delay, fraction)) & 0xF), 0)
  }

  /** Under the source's operands, with at least two neuron id bits, both
      widths adding up to at most 12 and a synapse type that fits its field,
      the half-word of a connection decodes to AsDecoded: the axonal delay
      and the synapse type never reach the decoded target or delay. */
  lemma AsWrittenEntry(layout: FieldLayout, loAtom: nat, fraction: real, c: Connection)
    requires layout.neuronIdBits >= 2 && DelayShift(layout) <= 12
    requires FitsIn(c.synapseType, layout.synapseTypeBits)
    ensures var p := PackingOf(layout);
            DecodedEntry(p, loAtom, c.source, EncodeHalfWord(p, loAtom, fraction, c), c.weight)
            == AsDecoded(layout, loAtom, fraction, c)
  {
    var p, f := PackingOf(layout), FieldsOf(loAtom, fraction, c);
    TargetSeparatedOf(layout);
    DelaySeparatedOf(layout);
    ShiftAmountMonotone(layout.synapseTypeBits, 12);
    DecodedFields(p, ShiftAmount(layout.synapseTypeBits), loAtom, c.source, f, c.weight);
  }

  /** The encoder and the decoder as written: when every connection sits
      in the row of its source and its synapse type fits its field, and the
      synapse structure reads back the weight of every stored connection,
      decoding gives one connection per encoded one, grouped by row and in
      input order within a row, each as AsDecoded describes. */
  lemma RoundTripAsWritten(fmt: RowFormat, layout: FieldLayout, loAtom: nat, fraction: real,
                           connections: seq<Connection>, nRows: nat, plastic: seq<seq<bv8>>, weights: seq<real>)
    requires |connections| == |plastic|
    requires layout.neuronIdBits >= 2 && DelayShift(layout) <= 12
    requires forall c :: c in connections ==> c.source < nRows && FitsIn(c.synapseType, layout.synapseTypeBits)
    requires weights == Weights(Grouped(connections, RowIndicesOf(connections), nRows))
    ensures var rowIndices := RowIndicesOf(connections);
            var p := PackingOf(layout);
            var e := EncodeRows(fmt, fraction, p, loAtom, connections, rowIndices, nRows, plastic);
            var grouped := Grouped(connections, rowIndices, nRows);
            && multiset(grouped) == multiset(connections)
            && DecodesTo(p, loAtom, e.fpSize, e.fpData, weights,
                         Map((c: Connection) => AsDecoded(layout, loAtom, fraction, c), grouped))
  {
    var rowIndices := RowIndicesOf(connections);
    var p := PackingOf(layout);
    var grouped := Grouped(connections, rowIndices, nRows);
    var fields := Grouped(ConnectionFields(loAtom, fraction, connections), rowIndices, nRows);
    var sources := Grouped(rowIndices, rowIndices, nRows);
    AsWrittenGrouped(layout, loAtom, fraction, connections, nRows);
    RoundTrip(fmt, p, loAtom, ConnectionFields(loAtom, fraction, connections), rowIndices, nRows, weights);
    GroupedMap((c: Connection) => c.source, connections, rowIndices, nRows);
    forall k | 0 <= k < |grouped|
      ensures DecodedEntry(p, loAtom, sources[k], Pack(p, fields[k]), weights[k])
              == AsDecoded(layout, loAtom, fraction, grouped[k])
    {
      assert sources[k] == grouped[k].source && weights[k] == grouped[k].weight;
    }
    SectionDecodesTo(fmt, p, loAtom, ConnectionFields(loAtom, fraction, connections), rowIndices, nRows, weights,
                     Map((c: Connection) => AsDecoded(layout, loAtom, fraction, c), grouped));
  }

  /** Grouping keeps every connection, and each grouped connection's
      half-word decodes as AsDecoded says under the source's operands. */
  lemma AsWrittenGrouped(layout: FieldLayout, loAtom: nat, fraction: real, connections: seq<Connection>, nRows: nat)
    requires layout.neuronIdBits >= 2 && DelayShift(layout) <= 12
    requires forall c :: c in connections ==> c.source < nRows && FitsIn(c.synapseType, layout.synapseTypeBits)
    ensures var rowIndices, p := RowIndicesOf(connections), PackingOf(layout);
            var grouped := Grouped(connections, rowIndices, nRows);
            var fields := Grouped(ConnectionFields(loAtom, fraction, connections), rowIndices, nRows);
            && multiset(grouped) == multiset(connections)
            && |fields| == |grouped|
            && forall k :: 0 <= k < |grouped| ==>
                 DecodedEntry(p, loAtom, grouped[k].source, Pack(p, fields[k]), grouped[k].weight)
                 == AsDecoded(layout, loAtom, fraction, grouped[k])
  {
    var rowIndices := RowIndicesOf(connections);
    var grouped := Grouped(connections, rowIndices, nRows);
    GroupedIsPermutation(connections, rowIndices, nRows);
    GroupedFields(loAtom, fraction, connections, rowIndices, nRows);
    forall k | 0 <= k < |grouped|
      ensures DecodedEntry(PackingOf(layout), loAtom, grouped[k].source, EncodeHalfWord(PackingOf(layout), loAtom, fraction, grouped[k]), grouped[k].weight)
              == AsDecoded(layout, loAtom, fraction, grouped[k])
    {
      assert grouped[k] in multiset(connections);
      AsWrittenEntry(layout, loAtom, fraction, grouped[k]);
    }
  }

  /** One row of two connections, two synapse types (one bit) and a slice
      of four atoms (two bits, ScenarioLayout), with the whole delay on the
      dendritic side: the row holds two live entries, and they decode back
      to their targets and delays in input order, 16 through the stored 0. */
  lemma TwoConnectionRow(fmt: RowFormat, plastic: seq<seq<bv8>>, layout: FieldLayout, connections: seq<Connection>,
                         e: PlasticRows)
    requires fmt.padToLength.None?
    requires |plastic| == 2 && |plastic[0]| == |plastic[1]| == fmt.bytesPerConnection
    requires layout == FieldLayout(2, 1)
    requires connections == [Connection(0, 3, 7.0, 5, 1), Connection(0, 0, 3.0, 16, 0)]
    requires e == EncodeRows(fmt, 1.0, PackingOf(layout), 0, connections, RowIndicesOf(connections), 1, plastic)
    ensures e.fpSize[0] == 2 && |e.fpData[0]| == 2 && Sum(e.fpSize) == 2
    ensures DecodesTo(PackingOf(layout), 0, e.fpSize, e.fpData, Weights(connections),
                      Map(WithoutSynapseType, connections))
  {
    var a, b := connections[0], connections[1];
    ScenarioGrouped(connections);
    ScenarioDecoded(layout, a, b);
    ScenarioEncodable(layout, connections);
    RoundTripAsWritten(fmt, layout, 0, 1.0, connections, 1, plastic, Weights(connections));
    ScenarioSizes(fmt, PackingOf(layout), connections, RowIndicesOf(connections), plastic);
  }

  lemma ScenarioEncodable(layout: FieldLayout, connections: seq<Connection>)
    requires layout == FieldLayout(2, 1)
    requires connections == [Connection(0, 3, 7.0, 5, 1), Connection(0, 0, 3.0, 16, 0)]
    ensures forall c :: c in connections ==> c.source < 1 && FitsIn(c.synapseType, layout.synapseTypeBits)
  {
    FitsOne(1);
    FitsOne(0);
  }

  /** Two synapse types over a four-atom slice take one type bit and two
      neuron-id bits. */
  lemma ScenarioLayout()
    ensures LayoutFor(2, VertexSlice(0, 4)) == FieldLayout(2, 1)
  {
  }

  /** A single row keeps its connections in order. */
  lemma ScenarioGrouped(connections: seq<Connection>)
    requires |connections| == 2 && connections[0].source == connections[1].source == 0
    ensures RowIndicesOf(connections) == [0, 0]
    ensures Grouped(connections, [0, 0], 1) == connections
  {
    assert RowOf(connections[1..], [0], 0) == [connections[1]];
    assert RowOf(connections, [0, 0], 0) == connections;
    assert ToRows(connections, [0, 0], 1) == [connections];
    assert Concat([connections]) == Concat([connections][..0]) + connections;
  }

  lemma ScenarioDecoded(layout: FieldLayout, a: Connection, b: Connection)
    requires layout == FieldLayout(2, 1)
    requires a == Connection(0, 3, 7.0, 5, 1) && b == Connection(0, 0, 3.0, 16, 0)
    ensures layout.neuronIdBits >= 2 && DelayShift(layout) <= 12
    ensures FitsIn(a.synapseType, layout.synapseTypeBits) && FitsIn(b.synapseType, layout.synapseTypeBits)
    ensures Map((c: Connection) => AsDecoded(layout, 0, 1.0, c), [a, b]) == Map(WithoutSynapseType, [a, b])
  {
    FitsOne(1);
    FitsOne(0);
    assert PackingOf(layout).targetMask == 3 by {
      U16OfDigit(3);
      assert Digit(3) == 3;
    }
    assert AsDecoded(layout, 0, 1.0, a) == Connection(0, 3, 7.0, 5, 0) by {
      U16OfDigit(3);
      ValueOfU16(3);
      assert DendriticDelay(5, 1.0) == 5;
      LowNibble(5);
    }
    assert AsDecoded(layout, 0, 1.0, b) == Connection(0, 0, 3.0, 16, 0) by {
      U16OfDigit(0);
      assert Digit(0) == 0;
      assert Value(0) == 0;
      assert DendriticDelay(16, 1.0) == 16;
      LowNibble(16);
    }
  }

  /** A row of two connections with no pad length reports two live
      entries in two half-words, and its plastic-plastic part is the
      header plus both connections' bytes, counted in words with a partial
      last word included. */
  lemma ScenarioSizes(fmt: RowFormat, p: Packing, connections: seq<Connection>, rowIndices: seq<nat>,
                      plastic: seq<seq<bv8>>)
    requires fmt.padToLength.None?
    requires |connections| == 2 && |plastic| == 2 && |plastic[0]| == |plastic[1]| == fmt.bytesPerConnection
    requires rowIndices == [0, 0]
    ensures var e := EncodeRows(fmt, 1.0, p, 0, connections, rowIndices, 1, plastic);
            && e.fpSize[0] == 2
            && |e.fpData[0]| == 2
            && e.ppSize[0] == PlasticPlasticWords(fmt, 2)
            && |e.ppData[0]| == 4 * e.ppSize[0]
  {
    assert Count([0, 0], 0) == 2 by {
      assert Count([0], 0) == 1;
    }
    ReportedSizes(fmt, 1.0, p, 0, connections, rowIndices, 1, plastic, 0);
    assert Capacity(fmt, 2) == 2;
  }

  /** Synapse types 0 and 1 fit a one-bit field. */
  lemma FitsOne(t: nat)
    requires t <= 1
    ensures FitsIn(t, 1)
  {
    U16OfDigit(t);
    assert Digit(1) == 1 && Digit(0) == 0;
  }
}
