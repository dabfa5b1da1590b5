/** The records that the row codec reads and produces. */
module Connections {

  /** One directed synapse, as a row of the connector dtype: the presynaptic
      row it belongs to, the postsynaptic neuron id, its weight, its delay in
      timesteps and its synapse type. */
  datatype Connection = Connection(
    source: nat,
    target: nat,
    weight: real,
    delay: nat,
    synapseType: nat)

  /** The contiguous range of postsynaptic neuron ids held by one partition:
      ids loAtom .. loAtom + nAtoms - 1. */
  datatype VertexSlice = VertexSlice(loAtom: nat, nAtoms: nat)
}
