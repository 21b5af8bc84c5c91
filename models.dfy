/** The documents the agent receives from the control plane and the codecs
    that turn them into bytes and back. */
module Models {
  import opened Wrappers

  /** One octet of a file or of a Go string. */
  newtype byte = b: int | 0 <= b < 256

  type Bytes = seq<byte>

  /** An application descriptor of a bundle. Its contents matter only to the
      workload supervisor, so the model keeps just its identifier. */
  datatype Application = Application(id: string)

  /** The desired state of a device: the applications to run and the agent's
      own desired service spec, still in its serialized (YAML) form. */
  datatype Bundle = Bundle(applications: seq<Application>, desiredAgentSpec: Bytes)

  /** The decoded desired spec of the agent's own service, as handed to the
      updater. */
  datatype ServiceSpec = ServiceSpec(image: string)

  /** The encoders the agent relies on, as partial functions: `None` is the
      error return of json.Marshal, json.Unmarshal and yaml.Unmarshal. */
  datatype Codec = Codec(
    marshalBundle: Bundle -> Option<Bytes>,
    unmarshalBundle: Bytes -> Option<Bundle>,
    unmarshalSpec: Bytes -> Option<ServiceSpec>)

  /** The JSON codec gives back every bundle it managed to encode. */
  ghost predicate RoundTrips(codec: Codec) {
    forall b: Bundle :: codec.marshalBundle(b).Some? ==>
      codec.unmarshalBundle(codec.marshalBundle(b).value) == Some(b)
  }
}
