/**
 * The snapshot codec registry: codec identifiers resolved to a
 * serializer/deserializer pair for attribute maps.
 */
module Codecs {
  import opened Types

  type Bytes = seq<bv8>

  /** A codec. Either direction may fail (the JSON codec reports a failure
      of its mapper as an unexpected error). */
  datatype Codec = Codec(serialize: Attrs -> Result<Bytes>, deserialize: Bytes -> Result<Attrs>)

  /** What every codec promises: a payload it wrote reads back as the map
      it was written from. */
  ghost predicate Lawful(c: Codec)
  {
    forall a: Attrs :: c.serialize(a).Ok? ==> c.deserialize(c.serialize(a).value) == Ok(a)
  }

  type Registry = map<CodecType, Codec>

  ghost predicate LawfulRegistry(codecs: Registry)
  {
    forall t :: t in codecs ==> Lawful(codecs[t])
  }

  /** The registered codec of a type; an unregistered type is an unexpected
      error. */
  function GetSnapshotCodec(codecs: Registry, codecType: CodecType): (r: Result<Codec>)
    ensures r.Ok? <==> codecType in codecs
    ensures r.Ok? ==> r.value == codecs[codecType]
    ensures r.Err? ==> r.error == UnexpectedError(UnsupportedCodec(codecType))
  {
    if codecType in codecs then Ok(codecs[codecType])
    else Err(UnexpectedError(UnsupportedCodec(codecType)))
  }

  /** Serialize with the codec registered for `codecType`. */
  function Serialize(codecs: Registry, codecType: CodecType, attrs: Attrs): Result<Bytes>
  {
    var codec :- GetSnapshotCodec(codecs, codecType);
    codec.serialize(attrs)
  }

  /** Deserialize with the codec registered for `codecType`. */
  function Deserialize(codecs: Registry, codecType: CodecType, payload: Bytes): Result<Attrs>
  {
    var codec :- GetSnapshotCodec(codecs, codecType);
    codec.deserialize(payload)
  }

  /** A payload written by a lawful registered codec reads back, through the
      same codec type, as the map it was written from. */
  lemma RoundTrip(codecs: Registry, codecType: CodecType, attrs: Attrs)
    requires LawfulRegistry(codecs)
    requires Serialize(codecs, codecType, attrs).Ok?
    ensures Deserialize(codecs, codecType, Serialize(codecs, codecType, attrs).value) == Ok(attrs)
  {
    var codec := codecs[codecType];
    assert Lawful(codec);
    assert codec.serialize(attrs).Ok?;
  }
}
