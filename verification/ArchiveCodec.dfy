/**
 Encoding of archived payloads. JSON and gzip are parameters: a serializer, a compressor
 (which may fail, and need not be correct) and a deterministic decompressor.
 */
module ArchiveCodec {
  import opened Common
  import opened Results
  import opened ArchivePolicy

  type Bytes = seq<bv8>

  datatype Config = Config(compressionLevel: nat, verifyCompression: bool)

  datatype Stored = Stored(bytes: Bytes, compressed: bool, originalSize: nat)

  datatype Codec<!V> = Codec(
    toJson: V -> Bytes,
    fromJson: Bytes -> Option<V>,
    compress: (nat, Bytes) -> Option<Bytes>,
    decompress: Bytes -> Option<Bytes>)
  {
    ghost predicate JsonRoundTrips(v: V) {
      fromJson(toJson(v)) == Some(v)
    }
  }

  predicate VerifyCompressed<V>(codec: Codec<V>, compressed: Bytes, original: Bytes) {
    codec.decompress(compressed) == Some(original)
  }

  function Encode<V>(codec: Codec<V>, payload: V, policy: Policy, config: Config): Result<Stored> {
    var json := codec.toJson(payload);
    if !policy.compressPayloads then Ok(Stored(json, false, |json|))
    else
      var packed := codec.compress(config.compressionLevel, json);
      if packed.None? then Err
      else if |packed.value| < |json| then
        if config.verifyCompression && !VerifyCompressed(codec, packed.value, json) then Err
        else Ok(Stored(packed.value, true, |json|))
      else Ok(Stored(json, false, |json|))
  }

  function Decode<V>(codec: Codec<V>, stored: Bytes, compressed: bool): Result<V> {
    if compressed then
      var plain := codec.decompress(stored);
      if plain.None? then Err
      else if codec.fromJson(plain.value).Some? then Ok(codec.fromJson(plain.value).value) else Err
    else if codec.fromJson(stored).Some? then Ok(codec.fromJson(stored).value)
    else Err
  }

  /**
   With verification on, whatever the compressor does, a payload that was stored decodes to
   the original, and its stored form is never longer than the original (and strictly
   shorter when marked as compressed).
   */
  lemma VerifiedRoundTrip<V>(codec: Codec<V>, payload: V, policy: Policy, config: Config)
    requires config.verifyCompression && codec.JsonRoundTrips(payload)
    ensures var r := Encode(codec, payload, policy, config);
      r.Ok? ==>
        && Decode(codec, r.value.bytes, r.value.compressed) == Ok(payload)
        && |r.value.bytes| <= r.value.originalSize == |codec.toJson(payload)|
        && (r.value.compressed ==> |r.value.bytes| < r.value.originalSize)
  {
  }

  /** A payload is stored compressed exactly when the policy asks for it and it gets shorter. */
  lemma CompressedExactly<V>(codec: Codec<V>, payload: V, policy: Policy, config: Config)
    requires Encode(codec, payload, policy, config).Ok?
    ensures var stored := Encode(codec, payload, policy, config).value;
      var json := codec.toJson(payload);
      var packed := codec.compress(config.compressionLevel, json);
      && (stored.compressed <==> policy.compressPayloads && packed.Some? && |packed.value| < |json|)
      && stored.bytes == (if stored.compressed then packed.value else json)
      && stored.originalSize == |json|
  {
  }

  /** Verification refuses exactly the payloads whose compressed form would not come back. */
  lemma VerificationRefusesExactly<V>(codec: Codec<V>, payload: V, policy: Policy, config: Config)
    requires config.verifyCompression
    ensures Encode(codec, payload, policy, config).Err? <==>
      var packed := codec.compress(config.compressionLevel, codec.toJson(payload));
      policy.compressPayloads
      && (packed.None? || (|packed.value| < |codec.toJson(payload)|
                           && codec.decompress(packed.value) != Some(codec.toJson(payload))))
  {
  }

  /**
   With verification off, decoding returns the original exactly when no compressed form was
   stored or the compressed form decompresses to JSON of the same payload.
   */
  lemma UnverifiedRoundTripExactly<V>(codec: Codec<V>, payload: V, policy: Policy, config: Config)
    requires !config.verifyCompression && codec.JsonRoundTrips(payload)
    requires Encode(codec, payload, policy, config).Ok?
    ensures var stored := Encode(codec, payload, policy, config).value;
      var json := codec.toJson(payload);
      var packed := codec.compress(config.compressionLevel, json);
      && |stored.bytes| <= |json|
      && (Decode(codec, stored.bytes, stored.compressed) == Ok(payload) <==>
            policy.compressPayloads && |packed.value| < |json| ==>
              codec.decompress(packed.value).Some?
              && codec.fromJson(codec.decompress(packed.value).value) == Some(payload))
  {
  }
}
