/** Resolving the requested key and checking the preset's required fields
    (get_test_sweep_configs.py, lines 67-88). */
module Validate {
  import opened Wrappers
  import opened StringOrder
  import opened Config

  /** The five scalar fields of a preset that every run record repeats. */
  datatype Header = Header(image: Scalar, model: Scalar, precision: Scalar, framework: Scalar, runner: Scalar)

  /** A preset that passed validation. */
  datatype Validated = Validated(header: Header, seqLenConfigs: seq<SeqLenConfig>)

  /** Looks `key` up; a missing key is reported with every available key in sorted order. */
  function Lookup(configs: Configs, key: string): (r: Result<Preset, Error>)
    ensures r.Success? <==> key in configs
    ensures r.Success? ==> r.value == configs[key]
    ensures r.Failure? ==> r.error.KeyNotFound? && r.error.key == key
    ensures r.Failure? ==> Ascending(r.error.available) && |r.error.available| == |configs|
    ensures r.Failure? ==> forall k :: k in r.error.available <==> k in configs
  {
    if key !in configs then Failure(KeyNotFound(key, SortedKeys(configs.Keys)))
    else Success(configs[key])
  }

  /** All five of image, model, precision, framework and runner are present. */
  predicate HasHeader(p: Preset) {
    p.image.Some? && p.model.Some? && p.precision.Some? && p.framework.Some? && p.runner.Some?
  }

  /** `seq-len-configs` is checked first (absent and empty alike fail), then
      the five scalar fields together: one missing field gives the same
      error as all five missing. */
  function ValidatePreset(key: string, p: Preset): (r: Result<Validated, Error>)
    ensures r.Success? <==> p.seqLenConfigs.Some? && |p.seqLenConfigs.value| > 0 && HasHeader(p)
    ensures r.Success? ==> Some(r.value.seqLenConfigs) == p.seqLenConfigs
    ensures r.Success? ==>
              && Some(r.value.header.image) == p.image
              && Some(r.value.header.model) == p.model
              && Some(r.value.header.precision) == p.precision
              && Some(r.value.header.framework) == p.framework
              && Some(r.value.header.runner) == p.runner
    ensures (p.seqLenConfigs.None? || |p.seqLenConfigs.value| == 0) ==> r == Failure(MissingSeqLenConfigs(key))
    ensures p.seqLenConfigs.Some? && |p.seqLenConfigs.value| > 0 && !HasHeader(p) ==>
              r == Failure(MissingPresetFields(key))
  {
    if p.seqLenConfigs.None? || |p.seqLenConfigs.value| == 0 then Failure(MissingSeqLenConfigs(key))
    else if !HasHeader(p) then Failure(MissingPresetFields(key))
    else
      var h := Header(p.image.value, p.model.value, p.precision.value, p.framework.value, p.runner.value);
      Success(Validated(h, p.seqLenConfigs.value))
  }

  /** Example: a missing key against keys "b" and "a" lists "a" then "b". */
  lemma MissingKeyListsSorted(configs: Configs, key: string)
    requires configs.Keys == {"a", "b"} && key !in configs
    ensures Lookup(configs, key) == Failure(KeyNotFound(key, ["a", "b"]))
  {
    assert Ascending(["a", "b"]) by {
      assert Below("a", "b");
      assert "a" != "b";
    }
    AscendingListingIsSorted(["a", "b"], configs.Keys);
  }
}
