/** The STDP synapse dynamics object: its configuration, checked once when
    it is built, the flag that tells the mapping whether a change since the
    last mapping pass needs a new one, the lookup of named parameters
    across the timing dependence, the weight dependence and the object
    itself, and the row sizing and decoding it does with its own row
    format. */
module SynapseDynamics {
  import opened Wrappers
  import opened Connections
  import opened FixedPlastic
  import opened RowSizing
  import opened Rows
  import opened RowCodec

  /** The one parameter the dynamics object holds itself. */
  const DendriticDelayFractionKey: string := "dendritic_delay_fraction"

  /** The timing-dependence plug-in: the size of its pre-synaptic trace,
      the bytes per connection of its synaptic structure, and its named
      parameters. */
  class TimingDependence {
    const preTraceBytes: nat
    const bytesPerConnection: nat
    var parameters: map<string, real>

    constructor (preTraceBytes: nat, bytesPerConnection: nat, parameters: map<string, real>)
      requires bytesPerConnection > 0
      ensures this.preTraceBytes == preTraceBytes && this.bytesPerConnection == bytesPerConnection
      ensures this.parameters == parameters
    {
      this.preTraceBytes := preTraceBytes;
      this.bytesPerConnection := bytesPerConnection;
      this.parameters := parameters;
    }
  }

  /** The weight-dependence plug-in: its named parameters. */
  class WeightDependence {
    var parameters: map<string, real>

    constructor (parameters: map<string, real>)
      ensures this.parameters == parameters
    {
      this.parameters := parameters;
    }
  }

  /** Why a configuration is refused. */
  datatype ConfigError = FractionOutOfRange | DependenceMissing | VoltageDependenceUnsupported

  /** A parameter name none of the three objects has. */
  datatype ParameterError = UnknownParameter(key: string)

  class SynapseDynamicsSTDP {
    const timingDependence: TimingDependence
    const weightDependence: WeightDependence
    var dendriticDelayFraction: real
    const padToLength: Option<nat>
    var changeRequiresMapping: bool

    /** Stores the configuration; a new object always requires mapping. */
    constructor (timingDependence: TimingDependence, weightDependence: WeightDependence,
                 dendriticDelayFraction: real, padToLength: Option<nat>)
      ensures this.timingDependence == timingDependence && this.weightDependence == weightDependence
      ensures this.dendriticDelayFraction == dendriticDelayFraction && this.padToLength == padToLength
      ensures RequiresMapping()
    {
      this.timingDependence := timingDependence;
      this.weightDependence := weightDependence;
      this.dendriticDelayFraction := dendriticDelayFraction;
      this.padToLength := padToLength;
      this.changeRequiresMapping := true;
    }

    /** Builds the dynamics object, refusing a dendritic delay fraction
        outside [0.5, 1.0], then a missing timing or weight dependence,
        then any voltage dependence, in that order. */
    static method Create(timingDependence: Option<TimingDependence>, weightDependence: Option<WeightDependence>,
                         voltageDependence: Option<object>, dendriticDelayFraction: real,
                         padToLength: Option<nat>)
      returns (r: Result<SynapseDynamicsSTDP, ConfigError>)
      ensures r.Failure? <==> !(0.5 <= dendriticDelayFraction <= 1.0) || timingDependence.None?
                              || weightDependence.None? || voltageDependence.Some?
      ensures !(0.5 <= dendriticDelayFraction <= 1.0) ==> r == Failure(FractionOutOfRange)
      ensures 0.5 <= dendriticDelayFraction <= 1.0 && (timingDependence.None? || weightDependence.None?)
              ==> r == Failure(DependenceMissing)
      ensures (0.5 <= dendriticDelayFraction <= 1.0 && timingDependence.Some? && weightDependence.Some?
               && voltageDependence.Some?) ==> r == Failure(VoltageDependenceUnsupported)
      ensures r.Success? ==>
        && fresh(r.value)
        && r.value.timingDependence == timingDependence.value
        && r.value.weightDependence == weightDependence.value
        && r.value.dendriticDelayFraction == dendriticDelayFraction
        && r.value.padToLength == padToLength
        && r.value.RequiresMapping()
    {
      if !(0.5 <= dendriticDelayFraction <= 1.0) {
        return Failure(FractionOutOfRange);
      }
      if timingDependence.None? || weightDependence.None? {
        return Failure(DependenceMissing);
      }
      if voltageDependence.Some? {
        return Failure(VoltageDependenceUnsupported);
      }
      var dynamics := new SynapseDynamicsSTDP(timingDependence.value, weightDependence.value,
                                              dendriticDelayFraction, padToLength);
      return Success(dynamics);
    }

    /** Whether a change since the last mapping pass needs a new one. */
    predicate RequiresMapping()
      reads this
    {
      changeRequiresMapping
    }

    /** Marks the point after which changes are reported. */
    method MarkNoChanges()
      modifies this`changeRequiresMapping
      ensures !RequiresMapping()
    {
      changeRequiresMapping := false;
    }

    /** The row layout this configuration gives the sizing and the codec. */
    function Format(): RowFormat
    {
      RowFormat(timingDependence.preTraceBytes, timingDependence.bytesPerConnection, padToLength)
    }

    /** The words a row of nConnections plastic connections takes: at least
        the pad length is reserved, the fixed-plastic half-words and the
        header plus plastic-plastic bytes are each rounded up to words. */
    method GetNWordsForPlasticConnections(nConnections: int) returns (words: int)
      ensures words == WordsForPlasticConnections(Format(), nConnections)
    {
      var n := nConnections;
      if padToLength.Some? && padToLength.value > n {
        n := padToLength.value;
      }
      var fpSizeWords := if n % 2 == 0 then n / 2 else (n + 1) / 2;
      var ppSizeBytes := HeaderBytes(timingDependence.preTraceBytes) + timingDependence.bytesPerConnection * n;
      var ppSizeWords := CeilDiv(ppSizeBytes, 4);
      words := fpSizeWords + ppSizeWords;
    }

    /** The largest number of connections whose row fits in nWords words,
        searched downwards from the words left after the header shared at
        each connection's byte cost. With a pad length, the padded row
        itself must fit, or the search would not stop. */
    method GetMaxSynapses(nWords: int) returns (n: int)
      requires padToLength.Some? ==> WordsForPlasticConnections(Format(), padToLength.value) <= nWords
      ensures WordsForPlasticConnections(Format(), n) <= nWords
      ensures forall m :: n < m ==> WordsForPlasticConnections(Format(), m) > nWords
    {
      var fmt := Format();
      var nHeaderWords := HeaderBytes(timingDependence.preTraceBytes) / 4;
      var nWordsSpace := nWords - nHeaderWords;
      var bytesPerPlastic := timingDependence.bytesPerConnection;
      n := (nWordsSpace * 4) / (bytesPerPlastic + FixedPlasticEntryBytes);
      assert n == FirstGuess(fmt, nWords);
      NoneAboveFirstGuess(fmt, nWords);
      LowerBoundFits(fmt, nWords);
      ghost var lowest := LowerBound(fmt, nWords);
      var words := GetNWordsForPlasticConnections(n);
      while words > nWords
        invariant words == WordsForPlasticConnections(fmt, n)
        invariant lowest <= n
        invariant forall m :: n < m ==> WordsForPlasticConnections(fmt, m) > nWords
        decreases n - lowest
      {
        SearchStep(fmt, nWords, n, lowest);
        n := n - 1;
        words := GetNWordsForPlasticConnections(n);
      }
    }

    /** The decoder with the operands it computes from the number of synapse
        types and the slice, and the weights the synaptic structure reads
        from the plastic-plastic rows stripped of this configuration's
        header. It fails exactly when there are no rows. */
    method ReadPlasticSynapticData(slice: VertexSlice, nSynapseTypes: nat,
                                   fpSize: seq<nat>, fpData: seq<seq<bv16>>, ppData: seq<seq<bv8>>,
                                   readSynapticData: (seq<nat>, seq<seq<bv8>>) -> seq<real>)
      returns (r: Result<seq<Connection>, ReadError>)
      requires nSynapseTypes >= 1 && slice.nAtoms >= 1
      requires |fpSize| <= |fpData|
      requires forall i :: 0 <= i < |fpSize| ==> fpSize[i] <= |fpData[i]|
      requires |fpSize| > 0 ==>
        |readSynapticData(fpSize, StripHeaders(ppData, HeaderBytes(timingDependence.preTraceBytes)))| == Sum(fpSize)
      ensures r.Failure? <==> |fpSize| == 0
      ensures r.Success? ==>
        r.value == DecodeRows(PackingOf(LayoutFor(nSynapseTypes, slice)), slice.loAtom, fpSize, fpData,
                              readSynapticData(fpSize, StripHeaders(ppData, HeaderBytes(timingDependence.preTraceBytes))))
    {
      if |fpSize| == 0 {
        return Failure(NoRows);
      }
      var weights := readSynapticData(fpSize, StripHeaders(ppData, HeaderBytes(timingDependence.preTraceBytes)));
      var decoded := DecodeWith(PackingOf(LayoutFor(nSynapseTypes, slice)), slice.loAtom, fpSize, fpData, weights);
      r := Success(decoded);
    }

    /** Whether any of the three objects has a parameter of that name. */
    predicate HasParameter(key: string)
      reads this, timingDependence, weightDependence
    {
      key in timingDependence.parameters || key in weightDependence.parameters || key == DendriticDelayFractionKey
    }

    /** The value of a named parameter, from the first of the timing
        dependence, the weight dependence and the object itself that has
        it; a name none of them has is an error. */
    function GetValue(key: string): (r: Result<real, ParameterError>)
      reads this, timingDependence, weightDependence
      ensures r.Success? <==> HasParameter(key)
      ensures r.Failure? ==> r.error == UnknownParameter(key)
      ensures key in timingDependence.parameters ==> r == Success(timingDependence.parameters[key])
      ensures key !in timingDependence.parameters && key in weightDependence.parameters
              ==> r == Success(weightDependence.parameters[key])
      ensures (key !in timingDependence.parameters && key !in weightDependence.parameters
               && key == DendriticDelayFractionKey) ==> r == Success(dendriticDelayFraction)
    {
      if key in timingDependence.parameters then Success(timingDependence.parameters[key])
      else if key in weightDependence.parameters then Success(weightDependence.parameters[key])
      else if key == DendriticDelayFractionKey then Success(dendriticDelayFraction)
      else Failure(UnknownParameter(key))
    }

    /** Sets a named parameter on the first of the timing dependence, the
        weight dependence and the object itself that has it, and marks that
        mapping is required; a name none of them has is an error that
        changes nothing. */
    method SetValue(key: string, value: real) returns (r: Result<(), ParameterError>)
      modifies this`dendriticDelayFraction, this`changeRequiresMapping
      modifies timingDependence`parameters, weightDependence`parameters
      ensures r.Success? <==> old(HasParameter(key))
      ensures r.Failure? ==> r.error == UnknownParameter(key)
      ensures r.Success? ==> RequiresMapping() && GetValue(key) == Success(value)
      ensures r.Failure? ==> changeRequiresMapping == old(changeRequiresMapping)
      ensures forall k :: k != key ==> GetValue(k) == old(GetValue(k))
      ensures key in old(timingDependence.parameters) ==>
        && timingDependence.parameters == old(timingDependence.parameters)[key := value]
        && weightDependence.parameters == old(weightDependence.parameters)
        && dendriticDelayFraction == old(dendriticDelayFraction)
      ensures key !in old(timingDependence.parameters) ==> timingDependence.parameters == old(timingDependence.parameters)
      ensures key !in old(timingDependence.parameters) && key in old(weightDependence.parameters) ==>
        && weightDependence.parameters == old(weightDependence.parameters)[key := value]
        && dendriticDelayFraction == old(dendriticDelayFraction)
      ensures key !in old(timingDependence.parameters) && key !in old(weightDependence.parameters) ==>
        && weightDependence.parameters == old(weightDependence.parameters)
        && dendriticDelayFraction == (if key == DendriticDelayFractionKey then value else old(dendriticDelayFraction))
    {
      if key in timingDependence.parameters {
        timingDependence.parameters := timingDependence.parameters[key := value];
      } else if key in weightDependence.parameters {
        weightDependence.parameters := weightDependence.parameters[key := value];
      } else if key == DendriticDelayFractionKey {
        dendriticDelayFraction := value;
      } else {
        return Failure(UnknownParameter(key));
      }
      changeRequiresMapping := true;
      return Success(());
    }
  }
}
