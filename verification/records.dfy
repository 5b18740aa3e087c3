/** The run records the generator emits and the JSON objects they become
    (get_test_sweep_configs.py, lines 120-139). */
module Records {
  import opened Wrappers
  import opened Config
  import opened Validate

  /** One benchmark run. `ep` and `dpAttn` are `None` when the bmk-space
      entry left them out or null; the object then has no such key. */
  datatype Record = Record(
    image: Scalar,
    model: Scalar,
    precision: Scalar,
    framework: Scalar,
    runner: Scalar,
    isl: int,
    osl: int,
    tp: Scalar,
    conc: int,
    maxModelLen: int,
    ep: Option<Scalar>,
    dpAttn: Option<Scalar>)

  /** The five fields a record copies from its preset. */
  function RecordHeader(r: Record): Header {
    Header(r.image, r.model, r.precision, r.framework, r.runner)
  }

  /** The record for one concurrency value of one bmk-space entry. */
  function MakeRecord(h: Header, isl: int, osl: int, tp: Scalar, conc: int, ep: Option<Scalar>, dpAttn: Option<Scalar>): Record {
    Record(h.image, h.model, h.precision, h.framework, h.runner, isl, osl, tp, conc, isl + osl, ep, dpAttn)
  }

  /** The keys every record's object carries. */
  const RequiredKeys: set<string> :=
    {"image", "model", "precision", "framework", "runner", "isl", "osl", "tp", "conc", "max-model-len"}

  /** The dictionary built for a record: the fixed keys, then `ep` and
      `dp-attn` only when they are present. */
  function ToObject(r: Record): (o: map<string, Scalar>)
    ensures o.Keys == RequiredKeys + (if r.ep.Some? then {"ep"} else {}) + (if r.dpAttn.Some? then {"dp-attn"} else {})
    ensures "ep" in o <==> r.ep.Some?
    ensures "dp-attn" in o <==> r.dpAttn.Some?
    ensures r.ep.Some? ==> o["ep"] == r.ep.value
    ensures r.dpAttn.Some? ==> o["dp-attn"] == r.dpAttn.value
    ensures o["max-model-len"] == Int(r.maxModelLen)
  {
    var base := map[
      "image" := r.image,
      "model" := r.model,
      "precision" := r.precision,
      "framework" := r.framework,
      "runner" := r.runner,
      "isl" := Int(r.isl),
      "osl" := Int(r.osl),
      "tp" := r.tp,
      "conc" := Int(r.conc),
      "max-model-len" := Int(r.maxModelLen)];
    var withEp := if r.ep.Some? then base["ep" := r.ep.value] else base;
    if r.dpAttn.Some? then withEp["dp-attn" := r.dpAttn.value] else withEp
  }

  /** Reading a record back from its object; `None` when a fixed key is
      missing or a numeric field is not an integer. */
  function FromObject(o: map<string, Scalar>): Option<Record> {
    if RequiredKeys <= o.Keys && o["isl"].Int? && o["osl"].Int? && o["conc"].Int? && o["max-model-len"].Int? then
      Some(Record(
        o["image"], o["model"], o["precision"], o["framework"], o["runner"],
        o["isl"].i, o["osl"].i, o["tp"], o["conc"].i, o["max-model-len"].i,
        if "ep" in o then Some(o["ep"]) else None,
        if "dp-attn" in o then Some(o["dp-attn"]) else None))
    else None
  }

  /** The object loses nothing: an absent optional field and a present one
      are told apart by the key alone, never by a null value. */
  lemma ObjectRoundTrip(r: Record)
    ensures FromObject(ToObject(r)) == Some(r)
  {
    var o := ToObject(r);
    assert RequiredKeys <= o.Keys;
  }
}
