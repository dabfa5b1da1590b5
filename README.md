# STDP synaptic rows: codec and sizing

This project models the plastic synaptic-row codec of sPyNNaker's
`SynapseDynamicsSTDP`, together with the sizing rules that must agree with it
bit for bit. The codec turns connections into the binary rows that a SpiNNaker
core reads, and reads them back. The model covers:

- **Row sizing** (module `RowSizing`). The plastic-plastic header is a 4-byte
  time stamp plus the timing rule's pre-synaptic trace, rounded up to whole
  words. A row of `n` connections takes `ceil(m / 2)` fixed-plastic words plus
  `ceil((header + bytes_per_connection * m) / 4)` plastic-plastic words, where
  `m` is `n` raised to the pad length when one is set.
  `SynapseDynamicsSTDP.GetMaxSynapses` searches downwards from a first guess for
  the largest row that fits a word budget.
- **Fixed-plastic half-word** (modules `Bits`, `FixedPlastic`). One `uint16`
  per connection. From high to low it holds the axonal delay (4 bits), the
  dendritic delay (4 bits), the synapse type, and the target's id local to the
  slice. The field widths come from `ceil(log2(n_synapse_types))` and
  `ceil(log2(n_atoms))`. The model uses the integer `CeilLog2` for both.
  Shifts and masks work on `bv16` values. The casts to `uint16` and the
  decoder's `uint16` sum `masked id + lo_atom` are written out as arithmetic
  modulo 2^16, as numpy 1.x computes them while `lo_atom` fits in a `uint16`.
- **Row encoder and decoder** (modules `Rows`, `RowCodec`). Connections are
  grouped by row index, keeping input order. Fixed-plastic rows are counted
  (`fp_size`) before they are padded with zeros. Each plastic-plastic row is a
  zeroed header followed by the synaptic structure's bytes, padded to the pad
  length and counted in words, a partial last word included (`pp_size`). Both
  sections are stored padded with zeros to whole 32-bit words. The decoder
  reads the first `fp_size[i]` half-words of every row. The row index becomes
  the source, the masked id plus `lo_atom` becomes the target, and the 4-bit
  dendritic field becomes the delay, with 0 read as 16. `DecodeWith` does this
  the way the source does: it fills an array, then overwrites zero delays in
  place. With no rows at all the decoder fails, as `numpy.concatenate` of an
  empty list does.
- **Configuration and change flag** (module `SynapseDynamics`).
  `SynapseDynamicsSTDP.Create` refuses a dendritic delay fraction outside
  [0.5, 1.0], then a missing timing or weight dependence, then any voltage
  dependence. The object starts out requiring mapping, `MarkNoChanges` clears
  the flag, and a successful `SetValue` sets it again. `GetValue` and
  `SetValue` go to the first of the timing dependence, the weight dependence
  and the object itself that has the named parameter. The object's own
  `GetNWordsForPlasticConnections`, `GetMaxSynapses` and
  `ReadPlasticSynapticData` size and decode rows with its row format.

The model keeps two quirks of the source exactly as written.

- The target is masked with `n_neuron_id_bits + 1`, not with
  `(1 << n_neuron_id_bits) - 1`.
- The synapse type is shifted into place without a mask.

`RowCodec.RoundTripAsWritten` states what decoding gives back under these
operands. `RowCodec.RoundTripIntended` states the full round trip under the
mask the layout calls for (see Findings).

Things the source leaves to other code are parameters of the model:

- The synaptic structure's `get_synaptic_data` is a function from connections
  to per-connection bytes. Its `read_synaptic_data` is a function from
  `fp_size` and the header-stripped rows to weights.
- The base-class helpers are modelled by their stated contracts.
  `convert_per_connection_data_to_rows` is a stable filter by row index
  (`Rows.ToRows`). `get_n_items` counts the items of a row, a partial last
  item included (its length over the item size, rounded up). `get_words` pads
  a row with zeros to whole 32-bit words (`RowCodec.WordAligned`).
- The configuration reaches the sizing and the codec as a `RowFormat` value
  (`SynapseDynamicsSTDP.Format`) and a `real` delay fraction.

The delay split is modelled on real numbers. numpy multiplies the delay by the
fraction in binary floating point and `astype("uint16")` truncates the
product; the model takes `Floor(delay * fraction)` of the exact real product,
and the same of `delay * (1 - fraction)` for the axonal delay. The two differ
where rounding puts a product just below a whole number (see Left out).

## Model

| member | source | states |
|---|---|---|
| Bits.CeilLog2 | spynnaker/pyNN/models/neuron/synapse_dynamics/synapse_dynamics_stdp.py:182-184 | the width is enough for x values (2^k >= x) and one bit fewer is not |
| Bits.CeilLog2IsLeast | spynnaker/pyNN/models/neuron/synapse_dynamics/synapse_dynamics_stdp.py:182-184 | no width smaller than CeilLog2(x) can represent x values |
| RowSizing.HeaderBytes | spynnaker/pyNN/models/neuron/synapse_dynamics/synapse_dynamics_stdp.py:154-162 | the header is a multiple of 4 holding the time stamp and the trace, with less than one word to spare |
| RowSizing.HeaderBytesIsLeast | spynnaker/pyNN/models/neuron/synapse_dynamics/synapse_dynamics_stdp.py:154-162 | no smaller multiple of 4 holds the time stamp and the trace |
| RowSizing.Capacity | spynnaker/pyNN/models/neuron/synapse_dynamics/synapse_dynamics_stdp.py:166-167 | a row is sized for max(n, pad_to_length) when padding is set, else for n |
| RowSizing.FixedPlasticWords | spynnaker/pyNN/models/neuron/synapse_dynamics/synapse_dynamics_stdp.py:168-170 | the fixed-plastic words are m / 2 rounded up: two half-words per word |
| RowSizing.PlasticPlasticWords | spynnaker/pyNN/models/neuron/synapse_dynamics/synapse_dynamics_stdp.py:171-174 | the plastic-plastic words hold the header and every connection's bytes, with less than one word to spare |
| RowSizing.WordsForPlasticConnections | spynnaker/pyNN/models/neuron/synapse_dynamics/synapse_dynamics_stdp.py:164-176 | the row's words hold header + (bytes_per_connection + 2) * capacity bytes, with rounding adding at most 5 bytes |
| RowSizing.WordsMonotone | spynnaker/pyNN/models/neuron/synapse_dynamics/synapse_dynamics_stdp.py:164-176 | a row never needs fewer words for more connections |
| RowSizing.WordsConstantUpToPad | spynnaker/pyNN/models/neuron/synapse_dynamics/synapse_dynamics_stdp.py:166-167 | with padding set, every n up to pad_to_length needs the same words as pad_to_length |
| SynapseDynamics.SynapseDynamicsSTDP.GetNWordsForPlasticConnections | spynnaker/pyNN/models/neuron/synapse_dynamics/synapse_dynamics_stdp.py:164-176 | the source's arithmetic (max with the pad length, half-words split by parity, header plus bytes rounded up to words) equals WordsForPlasticConnections for every n |
| SynapseDynamics.SynapseDynamicsSTDP.GetMaxSynapses | spynnaker/pyNN/models/neuron/synapse_dynamics/synapse_dynamics_stdp.py:340-362 | the result fits the budget and no larger number of connections does |
| RowSizing.FirstGuessIsUpperBound | spynnaker/pyNN/models/neuron/synapse_dynamics/synapse_dynamics_stdp.py:343-355 | no row of more connections than the search's start value fits the budget, padded or not |
| RowSizing.PadBeyondBudget | spynnaker/pyNN/models/neuron/synapse_dynamics/synapse_dynamics_stdp.py:357-360 | if the padded row does not fit, no row fits, so the source's loop never stops |
| RowSizing.LowerBoundFits | spynnaker/pyNN/models/neuron/synapse_dynamics/synapse_dynamics_stdp.py:355-360 | the search never goes below a number of connections that fits, and that number is at most the start value |
| FixedPlastic.LayoutFor | spynnaker/pyNN/models/neuron/synapse_dynamics/synapse_dynamics_stdp.py:182-184 | the widths hold every synapse type and every atom of the slice, and are the least that do |
| FixedPlastic.PackingOf | spynnaker/pyNN/models/neuron/synapse_dynamics/synapse_dynamics_stdp.py:192-200 | the target mask is one more than the synapse-type shift (the source's n_neuron_id_bits + 1) |
| FixedPlastic.DelaySplit | spynnaker/pyNN/models/neuron/synapse_dynamics/synapse_dynamics_stdp.py:186-189 | DendriticDelay and AxonalDelay (delay times fraction, and times 1 - fraction, truncated): with a fraction in [0.5, 1.0] the axonal part is at most the dendritic part, and truncation loses at most one step |
| FixedPlastic.AddLoAtom | spynnaker/pyNN/models/neuron/synapse_dynamics/synapse_dynamics_stdp.py:285-286 | numpy's uint16 sum: exact, or 2^16 less when it passes 2^16 while lo_atom fits a uint16; then it stays below 2^16 |
| FixedPlastic.DecodeTarget | spynnaker/pyNN/models/neuron/synapse_dynamics/synapse_dynamics_stdp.py:285-286 | the target is lo_atom plus the masked bits modulo 2^16: exactly lo_atom plus the masked bits unless that sum passes 2^16 while lo_atom fits a uint16, and below 2^16 whenever lo_atom is |
| FixedPlastic.DecodeWraps | spynnaker/pyNN/models/neuron/synapse_dynamics/synapse_dynamics_stdp.py:285-286 | in a 255-atom slice starting at atom 65535 (mask 9), the stored local id 1 decodes to target 0, below the slice |
| FixedPlastic.StoredDelay | spynnaker/pyNN/models/neuron/synapse_dynamics/synapse_dynamics_stdp.py:289-290 | the stored delay field is at most 15 |
| FixedPlastic.RemapDelay | spynnaker/pyNN/models/neuron/synapse_dynamics/synapse_dynamics_stdp.py:291 | the decoded delay is in 1..16; it is 16 exactly when the stored field is 0, and otherwise equals the field |
| FixedPlastic.DecodeDelay | spynnaker/pyNN/models/neuron/synapse_dynamics/synapse_dynamics_stdp.py:289-291 | a decoded delay is never 0 |
| FixedPlastic.TargetSeparatedOf | spynnaker/pyNN/models/neuron/synapse_dynamics/synapse_dynamics_stdp.py:192-200 | with at least two id bits, the source's mask lies below every other field's shift |
| FixedPlastic.DelaySeparatedOf | spynnaker/pyNN/models/neuron/synapse_dynamics/synapse_dynamics_stdp.py:192-198 | with at least two id bits and both widths adding up to at most 12, the delay fields sit right above the type field and the mask does not reach them |
| FixedPlastic.TargetRoundTrip | spynnaker/pyNN/models/neuron/synapse_dynamics/synapse_dynamics_stdp.py:199-200 | the decoded target is the local id under the source's mask plus lo_atom in uint16 arithmetic, whatever the delay and type fields hold |
| FixedPlastic.DelayFieldRoundTrip | spynnaker/pyNN/models/neuron/synapse_dynamics/synapse_dynamics_stdp.py:192-196 | the decoded delay is the dendritic delay's low 4 bits remapped; the axonal bits and a fitting synapse type never reach it |
| FixedPlastic.DelayRoundTrip | spynnaker/pyNN/models/neuron/synapse_dynamics/synapse_dynamics_stdp.py:186-193 | with fraction 1.0, every delay in 1..16 decodes to itself |
| FixedPlastic.TargetMaskCollision | spynnaker/pyNN/models/neuron/synapse_dynamics/synapse_dynamics_stdp.py:199-200 | in an 8-atom slice, targets 0 and 1 encode to half-words that decode to the same target |
| FixedPlastic.TargetMaskOverlapsType | spynnaker/pyNN/models/neuron/synapse_dynamics/synapse_dynamics_stdp.py:197-200 | with one id bit, the mask picks up the synapse type bit, so target 0 of type 1 decodes to 2, outside the slice |
| FixedPlastic.IntendedTargetRoundTrip | spynnaker/pyNN/models/neuron/synapse_dynamics/synapse_dynamics_stdp.py:199-200 | under the mask (1 << n_neuron_id_bits) - 1, every target below 2^16 whose local id fits the id field decodes to itself |
| Rows.ToRows | spynnaker/pyNN/models/neuron/synapse_dynamics/synapse_dynamics_stdp.py:201-203 | there are n_rows rows, and row i holds the items whose index is i, in input order |
| Rows.PadRow | spynnaker/pyNN/models/neuron/synapse_dynamics/synapse_dynamics_stdp.py:233-243 | padding appends only zeros up to the capacity, leaves a longer row unchanged, and keeps the row as a prefix |
| RowCodec.WordAligned | spynnaker/pyNN/models/neuron/synapse_dynamics/synapse_dynamics_stdp.py:208 | a stored row is the row followed by zeros up to whole words, less than one word longer |
| Rows.GroupedIsPermutation | spynnaker/pyNN/models/neuron/synapse_dynamics/synapse_dynamics_stdp.py:201-203 | when every index names a row, grouping only reorders the items |
| Rows.ConcatIndex | spynnaker/pyNN/models/neuron/synapse_dynamics/synapse_dynamics_stdp.py:274-276 | rows laid end to end keep row order and order within each row |
| RowCodec.PadSection | spynnaker/pyNN/models/neuron/synapse_dynamics/synapse_dynamics_stdp.py:205-207 | with padding set every row is padded to per-connection size times pad_to_length, else rows are unchanged |
| RowCodec.FixedPlasticLayout | spynnaker/pyNN/models/neuron/synapse_dynamics/synapse_dynamics_stdp.py:192-208 | row i of FixedPlasticSection: its size is its real connection count taken before padding, its length is its capacity rounded up to whole words, it starts with those connections' half-words in input order, and zeros follow |
| RowCodec.PlasticPlasticLayout | spynnaker/pyNN/models/neuron/synapse_dynamics/synapse_dynamics_stdp.py:210-229 | row i of PlasticPlasticSection is a zeroed header, the row's plug-in bytes in input order, then zeros up to whole words; pp_size is the header plus padded bytes in words, a partial last word included |
| RowCodec.PlasticPlasticLength | spynnaker/pyNN/models/neuron/synapse_dynamics/synapse_dynamics_stdp.py:219-229 | with a fixed byte count per connection, pp_size is the words the sizing reserves for the plastic-plastic part of the row's capacity, and the stored row is 4 * pp_size bytes |
| RowCodec.RowWords | spynnaker/pyNN/models/neuron/synapse_dynamics/synapse_dynamics_stdp.py:164-176 | the two stored sections of an encoded row (EncodeRows) are whole words, 2 * FixedPlasticWords and 4 * PlasticPlasticWords of its capacity, and together exactly the words the sizing reserves for its fp_size connections |
| RowCodec.GetPlasticSynapticData | spynnaker/pyNN/models/neuron/synapse_dynamics/synapse_dynamics_stdp.py:178-231 | the encoder returns fp_data, pp_data, fp_size and pp_size with one entry per row |
| RowCodec.FixedPlasticWordsPerRow | spynnaker/pyNN/models/neuron/synapse_dynamics/synapse_dynamics_stdp.py:251-255 | each row's words are fp_size / 2 rounded up |
| RowCodec.ReportedSizes | spynnaker/pyNN/models/neuron/synapse_dynamics/synapse_dynamics_stdp.py:245-261 | SynapsesInRows gives the real connection count; FixedPlasticWordsPerRow counts only real entries; PlasticPlasticWordsPerRow gives pp_size, the plastic-plastic words of the capacity; their sum never exceeds the reserved words and equals them without a pad length |
| RowCodec.LiveLength | spynnaker/pyNN/models/neuron/synapse_dynamics/synapse_dynamics_stdp.py:274-284 | the live half-words and the sources each number sum(fp_size) |
| RowCodec.DecodeRows | spynnaker/pyNN/models/neuron/synapse_dynamics/synapse_dynamics_stdp.py:274-291 | decoding yields sum(fp_size) connections, each with a delay in 1..16 and synapse type 0 |
| RowCodec.RemapZeroDelays | spynnaker/pyNN/models/neuron/synapse_dynamics/synapse_dynamics_stdp.py:291 | every delay of 0 in the array is overwritten with 16 and nothing else changes |
| RowCodec.FillColumns | spynnaker/pyNN/models/neuron/synapse_dynamics/synapse_dynamics_stdp.py:281-290 | entry j takes source j, the target of half-word j, weight j and the raw delay field |
| RowCodec.DecodeWith | spynnaker/pyNN/models/neuron/synapse_dynamics/synapse_dynamics_stdp.py:274-291 | filling in place and then remapping zero delays gives exactly DecodeRows |
| SynapseDynamics.SynapseDynamicsSTDP.ReadPlasticSynapticData | spynnaker/pyNN/models/neuron/synapse_dynamics/synapse_dynamics_stdp.py:263-292 | fails exactly when there are no rows (numpy refuses to concatenate nothing); otherwise computes the widths from its context, strips this format's headers for the plug-in, and returns DecodeRows |
| RowCodec.RoundTrip | spynnaker/pyNN/models/neuron/synapse_dynamics/synapse_dynamics_stdp.py:268-290 | decoding an encoded fixed-plastic section gives one connection per grouped entry, its row as source, in row order then input order, and ignores padding |
| RowCodec.AsWrittenEntry | spynnaker/pyNN/models/neuron/synapse_dynamics/synapse_dynamics_stdp.py:186-200 | the half-word EncodeHalfWord builds (FieldsOf truncates each field to a uint16, Pack shifts them into place) decodes to ((target - lo_atom) & (n_neuron_id_bits + 1)) + lo_atom in uint16 arithmetic, with delay the dendritic part's low 4 bits remapped |
| RowCodec.RoundTripAsWritten | spynnaker/pyNN/models/neuron/synapse_dynamics/synapse_dynamics_stdp.py:178-292 | decoding the encoder's rows gives every connection once, grouped by row in input order, with target and delay as AsWrittenEntry states |
| RowCodec.RoundTripIntended | spynnaker/pyNN/models/neuron/synapse_dynamics/synapse_dynamics_stdp.py:178-292 | with the corrected mask and fraction 1.0, for targets of the slice below 2^16, decoding gives back the grouped connections exactly, except for synapse type |
| RowCodec.TwoConnectionRow | spynnaker/pyNN/models/neuron/synapse_dynamics/synapse_dynamics_stdp.py:178-292 | one row of two connections, 2 synapse types, 4 atoms: fp_size is 2, the row holds two half-words, and both connections decode back in order (16 through the stored 0) |
| RowCodec.ScenarioSizes | spynnaker/pyNN/models/neuron/synapse_dynamics/synapse_dynamics_stdp.py:201-228 | a two-connection row with no pad length: fp_size is 2 in two half-words, and pp_size is ceil((header + 2 * bytes_per_connection) / 4), the stored row being that many words |
| SynapseDynamics.SynapseDynamicsSTDP.Create | spynnaker/pyNN/models/neuron/synapse_dynamics/synapse_dynamics_stdp.py:32-53 | construction fails exactly for a fraction outside [0.5, 1.0], a missing dependence or a voltage dependence, with that error order; a built object requires mapping |
| SynapseDynamics.SynapseDynamicsSTDP.constructor | spynnaker/pyNN/models/neuron/synapse_dynamics/synapse_dynamics_stdp.py:36-62 | the configuration is stored and RequiresMapping (requires_mapping) starts true |
| SynapseDynamics.SynapseDynamicsSTDP.MarkNoChanges | spynnaker/pyNN/models/neuron/synapse_dynamics/synapse_dynamics_stdp.py:55-69 | afterwards RequiresMapping (requires_mapping) is false |
| SynapseDynamics.SynapseDynamicsSTDP.GetValue | spynnaker/pyNN/models/neuron/synapse_dynamics/synapse_dynamics_stdp.py:71-79 | the value comes from the first of timing dependence, weight dependence and the object that has the key; an unknown key is an error |
| SynapseDynamics.SynapseDynamicsSTDP.SetValue | spynnaker/pyNN/models/neuron/synapse_dynamics/synapse_dynamics_stdp.py:81-94 | on success only the first holder's parameter changes, the value reads back, and the flag is set; an unknown key is an error that changes nothing |

## Left out

- The leaky integrate-and-fire neuron model is not part of this model. It is a floating-point parameter holder with no integer layout logic.
- `write_parameters` and `get_parameters_sdram_usage_in_bytes` are not modelled. They are data-spec output and sums delegated to the plug-ins.
- `get_weight_mean`, `get_weight_variance` and `get_weight_maximum` are not modelled. They return floating-point values taken from the weight dependence.
- Provenance, parameter-name listing, `get_vertex_executable_suffix`, `is_same_as` and `are_weights_signed` are not modelled. Each only delegates to the plug-ins, concatenates their results, or returns a constant.
- The plug-ins' own behaviour is not modelled. The timing and weight dependences are reduced to their named parameters, the trace size and the bytes per connection. The synaptic structure's encode and decode routines are function parameters.
- `get_words` is modelled only as zero padding to whole words (`RowCodec.WordAligned`). Rows stay per-row sequences of half-words or bytes, and numpy's byte-order `view`/`reshape` is replaced by treating a half-word as one 16-bit value.
- `math.log`/`math.ceil` on floats are replaced by the integer `CeilLog2`. The delay fraction is a real number, not a binary float.
- FixedPlastic.DendriticDelay and FixedPlastic.AxonalDelay: the products are exact reals, so a floating-point product that rounds just below a whole number is not modelled. For example `10 * (1.0 - 0.9)` is `0.9999999999999998` in floating point and truncates to an axonal delay of 0, where the model gives 1.
- FixedPlastic.FieldsOf and RowCodec.GetPlasticSynapticData: with `lo_atom` of 2^16 or more, numpy 1.x widens `target - lo_atom` beyond `uint16` and the byte view of the half-words no longer holds one entry per connection. The model keeps the `uint16` truncation, so it does not describe the encoder for slices that start at atom 65536 or later.
- FixedPlastic.DecodeTarget: with `lo_atom` of 2^16 or more the sum is exact, as under numpy 1.x's value-based casting. numpy 2 refuses that sum instead, and that error is not modelled.
- FixedPlastic.IntendedTargetRoundTrip and RowCodec.RoundTripIntended: the round trip holds only for targets below 2^16. Above that the decoder's `uint16` sum wraps (`FixedPlastic.DecodeWraps`).
- SynapseDynamics.SynapseDynamicsSTDP.GetValue: the object's other Python attributes (read-only properties, methods, private fields) are not modelled as parameter names. Only `dendritic_delay_fraction` is. The plug-ins' parameter values are modelled as reals.
- SynapseDynamics.SynapseDynamicsSTDP.SetValue: setting `dendritic_delay_fraction` stores any value, as the source's setter does. The [0.5, 1.0] range is checked only by `Create`.
- SynapseDynamics.SynapseDynamicsSTDP.ReadPlasticSynapticData: requires every `fp_size[i]` to be at most the length of row `i`. numpy would silently read a shorter slice, and mismatched size metadata is a caller error.
- RowCodec.DecodeRows: the decoded synapse type is always 0, as in the source's zero-filled array. The decoder never reads the type field.
- SynapseDynamics.SynapseDynamicsSTDP.GetMaxSynapses: with padding set, requires the padded row to fit the budget. Without that, the source's loop never ends (`RowSizing.PadBeyondBudget`).

## Findings

| source | as written | input that shows it | evidently intended | confidence | as-written member | corrected member |
|---|---|---|---|---|---|---|
| spynnaker/pyNN/models/neuron/synapse_dynamics/synapse_dynamics_stdp.py:199-200 | the local target id is masked with `n_neuron_id_bits + 1` (the same mask at :285) | slice of 8 atoms (3 id bits, mask 4): targets 0 and 1, delay 1, type 0, both decode to target 0 | mask `(1 << n_neuron_id_bits) - 1`, so that every target of the slice decodes to itself | high; not executed | FixedPlastic.TargetMaskCollision | RowCodec.RoundTripIntended |

The encoder and decoder operations (`RowCodec.GetPlasticSynapticData`,
`SynapseDynamicsSTDP.ReadPlasticSynapticData`) keep the source's mask, and
`RowCodec.RoundTripAsWritten` describes what they give back. The corrected
operands are `FixedPlastic.IntendedPackingOf`. `FixedPlastic.IntendedTargetRoundTrip`
and `RowCodec.RoundTripIntended` prove the exact round trip for them.
