/** The parsed configuration: documents mapping preset names to presets, as
    `yaml.safe_load` hands them to the matrix generator. A key that is
    missing from its YAML mapping, or whose value is null, is `None`. */
module Config {
  import opened Wrappers

  /** An opaque YAML scalar that is copied verbatim into the output. */
  datatype Scalar = Int(i: int) | Str(s: string) | Bool(b: bool)

  /** One element of a `bmk-space` list. */
  datatype BmkEntry = BmkEntry(
    tp: Option<Scalar>,
    concStart: Option<int>,
    concEnd: Option<int>,
    ep: Option<Scalar>,
    dpAttn: Option<Scalar>)

  /** One element of `seq-len-configs`. */
  datatype SeqLenConfig = SeqLenConfig(
    isl: Option<int>,
    osl: Option<int>,
    bmkSpace: Option<seq<BmkEntry>>)

  /** The value stored under one configuration key. */
  datatype Preset = Preset(
    image: Option<Scalar>,
    model: Option<Scalar>,
    precision: Option<Scalar>,
    framework: Option<Scalar>,
    runner: Option<Scalar>,
    seqLenConfigs: Option<seq<SeqLenConfig>>)

  /** A merged configuration: preset name to preset. */
  type Configs = map<string, Preset>

  /** One configuration file after parsing; `body` is `None` when the
      document's top level is not a mapping. */
  datatype ConfigFile = ConfigFile(path: string, body: Option<Configs>)

  /** Every condition under which the program stops without output. The
      message texts are not modelled; what each message names is. */
  datatype Error =
    | NotAMapping(path: string)
    | DuplicateKeys(path: string, keys: seq<string>)
    | KeyNotFound(key: string, available: seq<string>)
    | MissingSeqLenConfigs(key: string)
    | MissingPresetFields(key: string)
    | MissingSeqLen(key: string)
    | MissingBmkSpace(key: string)
    | MissingBmkFields(key: string)
}
