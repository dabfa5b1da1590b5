/** The sizes of a plastic synaptic row: its header, the words it needs for
    a number of connections, and the bounds between which the search for the
    largest number of connections that fits in a budget of words runs. */
module RowSizing {
  import opened Wrappers

  /** Bytes of the time stamp at the start of every plastic-plastic header. */
  const TimeStampBytes: nat := 4

  /** Bytes of one fixed-plastic entry (a half-word). */
  const FixedPlasticEntryBytes: nat := 2

  /** What the sizing reads from its configuration: the pre-synaptic trace
      size of the timing rule, the bytes per connection of the synaptic
      structure and the optional pad length. */
  datatype RowFormat = RowFormat(preTraceBytes: nat, bytesPerConnection: nat, padToLength: Option<nat>)

  /** Division rounding up, for any sign of the dividend (as `math.ceil`
      of the quotient). */
  function CeilDiv(a: int, b: nat): (q: int)
    requires b > 0
    ensures b * q >= a
    ensures b * q < a + b
    ensures a >= 0 ==> q >= 0
  {
    -((-a) / b)
  }

  /** Bytes of the plastic-plastic header: the time stamp and the
      pre-synaptic trace, rounded up to whole words. */
  function HeaderBytes(preTraceBytes: nat): (n: nat)
    ensures n % 4 == 0
    ensures TimeStampBytes + preTraceBytes <= n < TimeStampBytes + preTraceBytes + 4
  {
    CeilDiv(TimeStampBytes + preTraceBytes, 4) * 4
  }

  /** No smaller whole number of words holds the time stamp and the trace. */
  lemma HeaderBytesIsLeast(preTraceBytes: nat, m: nat)
    requires m % 4 == 0
    requires m >= TimeStampBytes + preTraceBytes
    ensures HeaderBytes(preTraceBytes) <= m
  {
    var n := HeaderBytes(preTraceBytes);
    assert n == 4 * (n / 4) && m == 4 * (m / 4);
  }

  /** The number of connections a row is sized for: at least the pad length
      when one is set. */
  function Capacity(fmt: RowFormat, n: int): (m: int)
    ensures m >= n
    ensures fmt.padToLength.Some? ==> m >= fmt.padToLength.value
    ensures m == n || (fmt.padToLength.Some? && m == fmt.padToLength.value)
  {
    if fmt.padToLength.Some? && fmt.padToLength.value > n then fmt.padToLength.value else n
  }

  /** Words of the fixed-plastic part: one half-word per connection. */
  function FixedPlasticWords(m: int): (w: int)
    ensures 2 * w == m || 2 * w == m + 1
  {
    if m % 2 == 0 then m / 2 else (m + 1) / 2
  }

  /** Words of the plastic-plastic part: the header and the synaptic
      structure's bytes per connection, rounded up to whole words. */
  function PlasticPlasticWords(fmt: RowFormat, m: int): (w: int)
    ensures 4 * w >= HeaderBytes(fmt.preTraceBytes) + fmt.bytesPerConnection * m
    ensures 4 * w < HeaderBytes(fmt.preTraceBytes) + fmt.bytesPerConnection * m + 4
  {
    CeilDiv(HeaderBytes(fmt.preTraceBytes) + fmt.bytesPerConnection * m, 4)
  }

  /** Words of a row holding n connections: both parts, sized for the
      row's capacity. Every half-word and every byte is accounted for, and
      rounding adds less than one word to each part. */
  function WordsForPlasticConnections(fmt: RowFormat, n: int): (w: int)
    ensures 4 * w >= HeaderBytes(fmt.preTraceBytes) + (fmt.bytesPerConnection + 2) * Capacity(fmt, n)
    ensures 4 * w <= HeaderBytes(fmt.preTraceBytes) + (fmt.bytesPerConnection + 2) * Capacity(fmt, n) + 5
  {
    var m := Capacity(fmt, n);
    FixedPlasticWords(m) + PlasticPlasticWords(fmt, m)
  }

  lemma MulMonotone(k: nat, a: int, b: int)
    requires a <= b
    ensures k * a <= k * b
  {
    assert k * b - k * a == k * (b - a);
  }

  lemma CeilDivMonotone(a: int, b: int, d: nat)
    requires d > 0 && a <= b
    ensures CeilDiv(a, d) <= CeilDiv(b, d)
  {
    var qa, qb := CeilDiv(a, d), CeilDiv(b, d);
    if qa > qb {
      MulMonotone(d, qb + 1, qa);
    }
  }

  /** A row never needs fewer words for more connections. */
  lemma {:induction false} WordsMonotone(fmt: RowFormat, n: int, n': int)
    requires n <= n'
    ensures WordsForPlasticConnections(fmt, n) <= WordsForPlasticConnections(fmt, n')
  {
    var m, m' := Capacity(fmt, n), Capacity(fmt, n');
    assert m <= m';
    MulMonotone(fmt.bytesPerConnection, m, m');
    CeilDivMonotone(HeaderBytes(fmt.preTraceBytes) + fmt.bytesPerConnection * m,
                    HeaderBytes(fmt.preTraceBytes) + fmt.bytesPerConnection * m', 4);
  }

  /** With a pad length set, every row of at most that many connections
      needs the same words as a full one. */
  lemma WordsConstantUpToPad(fmt: RowFormat, n: int)
    requires fmt.padToLength.Some? && n <= fmt.padToLength.value
    ensures WordsForPlasticConnections(fmt, n) == WordsForPlasticConnections(fmt, fmt.padToLength.value)
  {
  }

  /** With a pad length whose rows do not fit, no number of connections
      fits: the search in GetMaxSynapses would never stop. */
  lemma PadBeyondBudget(fmt: RowFormat, nWords: int)
    requires fmt.padToLength.Some?
    requires WordsForPlasticConnections(fmt, fmt.padToLength.value) > nWords
    ensures forall n :: WordsForPlasticConnections(fmt, n) > nWords
  {
    forall n
      ensures WordsForPlasticConnections(fmt, n) > nWords
    {
      if n <= fmt.padToLength.value {
        WordsConstantUpToPad(fmt, n);
      } else {
        WordsMonotone(fmt, fmt.padToLength.value, n);
      }
    }
  }

  /** The first guess of GetMaxSynapses: the words left after the header,
      shared among the connections at their byte cost, ignoring rounding. */
  function FirstGuess(fmt: RowFormat, nWords: int): int
  {
    ((nWords - HeaderBytes(fmt.preTraceBytes) / 4) * 4) / (fmt.bytesPerConnection + FixedPlasticEntryBytes)
  }

  /** No row of more connections than the first guess fits, with or
      without a pad length. */
  lemma FirstGuessIsUpperBound(fmt: RowFormat, nWords: int, n: int)
    requires WordsForPlasticConnections(fmt, n) <= nWords
    ensures n <= FirstGuess(fmt, nWords)
  {
    var h, c := HeaderBytes(fmt.preTraceBytes), fmt.bytesPerConnection + 2;
    var m := Capacity(fmt, n);
    assert h == 4 * (h / 4);
    MulMonotone(c, n, m);
    DivUpper((nWords - h / 4) * 4, c, n);
  }

  /** No number of connections above the first guess fits. */
  lemma NoneAboveFirstGuess(fmt: RowFormat, nWords: int)
    ensures forall m :: FirstGuess(fmt, nWords) < m ==> WordsForPlasticConnections(fmt, m) > nWords
  {
    forall m | FirstGuess(fmt, nWords) < m
      ensures WordsForPlasticConnections(fmt, m) > nWords
    {
      if WordsForPlasticConnections(fmt, m) <= nWords {
        FirstGuessIsUpperBound(fmt, nWords, m);
      }
    }
  }

  /** One step of the downward search: when n does not fit and nothing
      above it does, nothing above n - 1 fits, and a number that fits lies
      below n. */
  lemma SearchStep(fmt: RowFormat, nWords: int, n: int, lowest: int)
    requires WordsForPlasticConnections(fmt, n) > nWords
    requires forall m :: n < m ==> WordsForPlasticConnections(fmt, m) > nWords
    requires lowest <= n && WordsForPlasticConnections(fmt, lowest) <= nWords
    ensures forall m :: n - 1 < m ==> WordsForPlasticConnections(fmt, m) > nWords
    ensures lowest <= n - 1
  {
  }

  lemma DivUpper(budget: int, c: nat, n: int)
    requires c > 0 && c * n <= budget
    ensures n <= budget / c
  {
    var g := budget / c;
    if n > g {
      MulMonotone(c, g + 1, n);
    }
  }

  /** A number of connections that fits whenever a padded row does: the
      pad length when one is set, else zero when the header fits, and
      otherwise a negative number far enough below zero. The search for the
      largest fitting number never goes below it. */
  function LowerBound(fmt: RowFormat, nWords: int): int
  {
    var h := HeaderBytes(fmt.preTraceBytes) / 4;
    if fmt.padToLength.Some? then fmt.padToLength.value
    else if nWords >= h then 0
    else 4 * (nWords - h - 2)
  }

  lemma LowerBoundFits(fmt: RowFormat, nWords: int)
    requires fmt.padToLength.Some? ==> WordsForPlasticConnections(fmt, fmt.padToLength.value) <= nWords
    ensures WordsForPlasticConnections(fmt, LowerBound(fmt, nWords)) <= nWords
    ensures LowerBound(fmt, nWords) <= FirstGuess(fmt, nWords)
  {
    var L := LowerBound(fmt, nWords);
    var h, c := HeaderBytes(fmt.preTraceBytes), fmt.bytesPerConnection + 2;
    if fmt.padToLength.None? && nWords < h / 4 {
      assert h == 4 * (h / 4);
      MulMonotone(c - 1, L, 0);
      assert 4 * WordsForPlasticConnections(fmt, L) <= h + c * L + 5;
    }
    FirstGuessIsUpperBound(fmt, nWords, L);
  }
}
