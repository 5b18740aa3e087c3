/** The sweep expander and the whole transformation: merge the documents,
    resolve and validate the preset, then emit one record per sequence-length
    config, bmk-space entry and concurrency value, in that nesting order
    (get_test_sweep_configs.py, lines 43-148). */
module Sweep {
  import opened Wrappers
  import opened StringOrder
  import opened Config
  import opened Merge
  import opened Validate
  import opened SeqLenFilter
  import opened Concurrency
  import opened Records

  /** `tp`, `conc-start` and `conc-end` are all present. */
  predicate HasBmkFields(b: BmkEntry) {
    b.tp.Some? && b.concStart.Some? && b.concEnd.Some?
  }

  /** The entry's concurrency loop stops (an entry missing a field is
      rejected before its loop starts). */
  predicate BmkTerminates(b: BmkEntry, step: int) {
    HasBmkFields(b) ==> Terminates(b.concStart.value, b.concEnd.value, step)
  }

  /** The config is expanded: its lengths are present, the filter lets it
      through and it has a bmk-space list. */
  predicate Selected(filter: Filter, sc: SeqLenConfig) {
    sc.isl.Some? && sc.osl.Some? && Passes(filter, sc.isl.value, sc.osl.value) && sc.bmkSpace.Some?
  }

  /** Every loop the config would run stops. */
  predicate SeqConfigTerminates(filter: Filter, sc: SeqLenConfig, step: int) {
    Selected(filter, sc) ==> forall j :: 0 <= j < |sc.bmkSpace.value| ==> BmkTerminates(sc.bmkSpace.value[j], step)
  }

  predicate PresetTerminates(p: Preset, filter: Filter, step: int) {
    p.seqLenConfigs.Some? ==>
      forall i :: 0 <= i < |p.seqLenConfigs.value| ==> SeqConfigTerminates(filter, p.seqLenConfigs.value[i], step)
  }

  /** The config passes every check the expander makes: `isl` and `osl` on
      every config, `bmk-space` and the entry fields only on configs the
      filter lets through. */
  predicate SeqConfigValid(filter: Filter, sc: SeqLenConfig) {
    && sc.isl.Some? && sc.osl.Some?
    && (Passes(filter, sc.isl.value, sc.osl.value) ==>
          && sc.bmkSpace.Some? && |sc.bmkSpace.value| > 0
          && forall j :: 0 <= j < |sc.bmkSpace.value| ==> HasBmkFields(sc.bmkSpace.value[j]))
  }

  /** `rec` is a run of entry `b` under lengths `isl`/`osl`: lengths and
      `max-model-len` as given, `tp`, `ep` and `dp-attn` copied from the
      entry, and a concurrency value of the entry's sweep. */
  predicate FromEntry(isl: int, osl: int, b: BmkEntry, step: int, rec: Record) {
    && rec.isl == isl && rec.osl == osl && rec.maxModelLen == isl + osl
    && b.tp == Some(rec.tp) && rec.ep == b.ep && rec.dpAttn == b.dpAttn
    && HasBmkFields(b) && Terminates(b.concStart.value, b.concEnd.value, step)
    && rec.conc in ConcSweep(b.concStart.value, b.concEnd.value, step)
  }

  /** `rec` is a run of some entry of the selected config `sc`. */
  predicate FromSeqConfig(filter: Filter, sc: SeqLenConfig, step: int, rec: Record) {
    Selected(filter, sc) &&
    exists j :: 0 <= j < |sc.bmkSpace.value| && FromEntry(sc.isl.value, sc.osl.value, sc.bmkSpace.value[j], step, rec)
  }

  /** The runs of one bmk-space entry, one per concurrency value, in sweep order. */
  function ExpandBmk(key: string, h: Header, isl: int, osl: int, b: BmkEntry, step: int): (r: Result<seq<Record>, Error>)
    requires BmkTerminates(b, step)
    ensures r.Success? <==> HasBmkFields(b)
    ensures r.Failure? ==> r.error == MissingBmkFields(key)
    ensures r.Success? ==> |r.value| == |ConcSweep(b.concStart.value, b.concEnd.value, step)|
    ensures r.Success? ==> forall k :: 0 <= k < |r.value| ==>
              && r.value[k].conc == ConcSweep(b.concStart.value, b.concEnd.value, step)[k]
              && RecordHeader(r.value[k]) == h
              && FromEntry(isl, osl, b, step, r.value[k])
  {
    if !HasBmkFields(b) then Failure(MissingBmkFields(key))
    else
      var cs := ConcSweep(b.concStart.value, b.concEnd.value, step);
      Success(seq(|cs|, k requires 0 <= k < |cs| => MakeRecord(h, isl, osl, b.tp.value, cs[k], b.ep, b.dpAttn)))
  }

  /** The runs of a bmk-space list, entry after entry; the first entry
      missing a field stops the expansion. */
  function ExpandBmks(key: string, h: Header, isl: int, osl: int, bs: seq<BmkEntry>, step: int): (r: Result<seq<Record>, Error>)
    requires forall j :: 0 <= j < |bs| ==> BmkTerminates(bs[j], step)
    ensures r.Success? <==> forall j :: 0 <= j < |bs| ==> HasBmkFields(bs[j])
    ensures r.Failure? ==> r.error == MissingBmkFields(key)
    ensures r.Success? ==> forall rec :: rec in r.value ==>
              RecordHeader(rec) == h && exists j :: 0 <= j < |bs| && FromEntry(isl, osl, bs[j], step, rec)
    decreases |bs|
  {
    if |bs| == 0 then Success([])
    else
      assert forall j :: 0 < j < |bs| ==> bs[j] == bs[1..][j - 1];
      var first := ExpandBmk(key, h, isl, osl, bs[0], step);
      if first.Failure? then first
      else
        var rest := ExpandBmks(key, h, isl, osl, bs[1..], step);
        if rest.Failure? then rest
        else
          assert forall rec :: rec in rest.value ==> exists j :: 0 <= j < |bs| && FromEntry(isl, osl, bs[j], step, rec) by {
            forall rec | rec in rest.value
              ensures exists j :: 0 <= j < |bs| && FromEntry(isl, osl, bs[j], step, rec)
            {
              var j :| 0 <= j < |bs[1..]| && FromEntry(isl, osl, bs[1..][j], step, rec);
              assert bs[j + 1] == bs[1..][j];
            }
          }
          assert forall rec :: rec in first.value ==> FromEntry(isl, osl, bs[0], step, rec) by {
            forall rec | rec in first.value
              ensures FromEntry(isl, osl, bs[0], step, rec)
            {
              var k :| 0 <= k < |first.value| && first.value[k] == rec;
            }
          }
          Success(first.value + rest.value)
  }

  /** The runs of one sequence-length config: nothing when the filter skips
      it, though its lengths are checked first. */
  function ExpandSeqConfig(key: string, h: Header, filter: Filter, sc: SeqLenConfig, step: int): (r: Result<seq<Record>, Error>)
    requires SeqConfigTerminates(filter, sc, step)
    ensures r.Success? <==> SeqConfigValid(filter, sc)
    ensures sc.isl.None? || sc.osl.None? ==> r == Failure(MissingSeqLen(key))
    ensures r.Failure? ==> r.error in {MissingSeqLen(key), MissingBmkSpace(key), MissingBmkFields(key)}
    ensures (&& sc.isl.Some? && sc.osl.Some? && Passes(filter, sc.isl.value, sc.osl.value)
             && (sc.bmkSpace.None? || |sc.bmkSpace.value| == 0))
            ==> r == Failure(MissingBmkSpace(key))
    ensures (&& sc.isl.Some? && sc.osl.Some? && Passes(filter, sc.isl.value, sc.osl.value)
             && sc.bmkSpace.Some? && |sc.bmkSpace.value| > 0
             && exists j :: 0 <= j < |sc.bmkSpace.value| && !HasBmkFields(sc.bmkSpace.value[j]))
            ==> r == Failure(MissingBmkFields(key))
    ensures r.Success? && !Passes(filter, sc.isl.value, sc.osl.value) ==> r.value == []
    ensures r.Success? ==> forall rec :: rec in r.value ==> RecordHeader(rec) == h && FromSeqConfig(filter, sc, step, rec)
  {
    if sc.isl.None? || sc.osl.None? then Failure(MissingSeqLen(key))
    else if !Passes(filter, sc.isl.value, sc.osl.value) then Success([])
    else if sc.bmkSpace.None? || |sc.bmkSpace.value| == 0 then Failure(MissingBmkSpace(key))
    else ExpandBmks(key, h, sc.isl.value, sc.osl.value, sc.bmkSpace.value, step)
  }

  /** The runs of all sequence-length configs, config after config; the
      first config that fails a check stops the expansion. */
  function ExpandSeqConfigs(key: string, h: Header, filter: Filter, scs: seq<SeqLenConfig>, step: int): (r: Result<seq<Record>, Error>)
    requires forall i :: 0 <= i < |scs| ==> SeqConfigTerminates(filter, scs[i], step)
    ensures r.Success? <==> forall i :: 0 <= i < |scs| ==> SeqConfigValid(filter, scs[i])
    ensures r.Failure? ==> r.error in {MissingSeqLen(key), MissingBmkSpace(key), MissingBmkFields(key)}
    ensures r.Success? ==> forall rec :: rec in r.value ==>
              RecordHeader(rec) == h && exists i :: 0 <= i < |scs| && FromSeqConfig(filter, scs[i], step, rec)
    decreases |scs|
  {
    if |scs| == 0 then Success([])
    else
      assert forall i :: 0 < i < |scs| ==> scs[i] == scs[1..][i - 1];
      var first := ExpandSeqConfig(key, h, filter, scs[0], step);
      if first.Failure? then first
      else
        var rest := ExpandSeqConfigs(key, h, filter, scs[1..], step);
        if rest.Failure? then rest
        else
          assert forall rec :: rec in rest.value ==> exists i :: 0 <= i < |scs| && FromSeqConfig(filter, scs[i], step, rec) by {
            forall rec | rec in rest.value
              ensures exists i :: 0 <= i < |scs| && FromSeqConfig(filter, scs[i], step, rec)
            {
              var i :| 0 <= i < |scs[1..]| && FromSeqConfig(filter, scs[1..][i], step, rec);
              assert scs[i + 1] == scs[1..][i];
            }
          }
          Success(first.value + rest.value)
  }

  /** Config `i` is the first one that fails a check. */
  predicate FirstInvalid(filter: Filter, scs: seq<SeqLenConfig>, i: int) {
    && 0 <= i < |scs|
    && (forall j :: 0 <= j < i ==> SeqConfigValid(filter, scs[j]))
    && !SeqConfigValid(filter, scs[i])
  }

  /** A failed expansion reports the error of the first config that fails a
      check: later configs are never looked at. */
  lemma {:induction false} ExpandSeqConfigsFirstError(key: string, h: Header, filter: Filter, scs: seq<SeqLenConfig>, step: int)
    requires forall i :: 0 <= i < |scs| ==> SeqConfigTerminates(filter, scs[i], step)
    requires ExpandSeqConfigs(key, h, filter, scs, step).Failure?
    ensures exists i :: FirstInvalid(filter, scs, i) &&
              ExpandSeqConfigs(key, h, filter, scs, step) == ExpandSeqConfig(key, h, filter, scs[i], step)
    decreases |scs|
  {
    var first := ExpandSeqConfig(key, h, filter, scs[0], step);
    if first.Failure? {
      assert FirstInvalid(filter, scs, 0);
    } else {
      var tail := scs[1..];
      assert forall i :: 0 <= i < |tail| ==> tail[i] == scs[i + 1];
      ExpandSeqConfigsFirstError(key, h, filter, tail, step);
      var i :| FirstInvalid(filter, tail, i) &&
               ExpandSeqConfigs(key, h, filter, tail, step) == ExpandSeqConfig(key, h, filter, tail[i], step);
      assert FirstInvalid(filter, scs, i + 1) by {
        forall j | 0 <= j < i + 1
          ensures SeqConfigValid(filter, scs[j])
        {
          if j > 0 {
            assert scs[j] == tail[j - 1];
          }
        }
      }
    }
  }

  /** Degenerate ranges: `conc-start == conc-end` gives one run at that
      value, `conc-start > conc-end` gives none, as the loop guard fails at once. */
  lemma DegenerateRanges(key: string, h: Header, isl: int, osl: int, b: BmkEntry, step: int)
    requires HasBmkFields(b) && BmkTerminates(b, step)
    ensures b.concStart.value == b.concEnd.value ==>
              ExpandBmk(key, h, isl, osl, b, step) == Success([MakeRecord(h, isl, osl, b.tp.value, b.concEnd.value, b.ep, b.dpAttn)])
    ensures b.concStart.value > b.concEnd.value ==> ExpandBmk(key, h, isl, osl, b, step) == Success([])
  {
    if b.concStart.value == b.concEnd.value {
      SingleValueRange(b.concEnd.value, step);
      var r := ExpandBmk(key, h, isl, osl, b, step).value;
      assert |r| == 1;
      assert r[0] == MakeRecord(h, isl, osl, b.tp.value, b.concEnd.value, b.ep, b.dpAttn);
      assert r == [r[0]];
    }
  }

  /** A run's object has an `ep` key exactly when its entry's `ep` is
      present, and likewise for `dp-attn`; the value is the entry's own. */
  lemma OptionalKeysFollowEntry(isl: int, osl: int, b: BmkEntry, step: int, rec: Record)
    requires FromEntry(isl, osl, b, step, rec)
    ensures "ep" in ToObject(rec) <==> b.ep.Some?
    ensures "dp-attn" in ToObject(rec) <==> b.dpAttn.Some?
    ensures b.ep.Some? ==> ToObject(rec)["ep"] == b.ep.value
    ensures b.dpAttn.Some? ==> ToObject(rec)["dp-attn"] == b.dpAttn.value
  {
  }

  /** Combining the results of two consecutive parts: the first error wins,
      otherwise the records of the first part come before those of the second. */
  function Then(x: Result<seq<Record>, Error>, y: Result<seq<Record>, Error>): Result<seq<Record>, Error> {
    if x.Failure? then x else if y.Failure? then y else Success(x.value + y.value)
  }

  /** Entries are expanded in list order: a list split in two expands to the
      expansion of the first part followed by that of the second. */
  lemma {:induction false} ExpandBmksAppend(key: string, h: Header, isl: int, osl: int, a: seq<BmkEntry>, b: seq<BmkEntry>, step: int)
    requires forall j :: 0 <= j < |a| ==> BmkTerminates(a[j], step)
    requires forall j :: 0 <= j < |b| ==> BmkTerminates(b[j], step)
    ensures forall j :: 0 <= j < |a + b| ==> BmkTerminates((a + b)[j], step)
    ensures ExpandBmks(key, h, isl, osl, a + b, step) ==
            Then(ExpandBmks(key, h, isl, osl, a, step), ExpandBmks(key, h, isl, osl, b, step))
    decreases |a|
  {
    if |a| == 0 {
      assert a + b == b;
      var rb := ExpandBmks(key, h, isl, osl, b, step);
      if rb.Success? {
        assert [] + rb.value == rb.value;
      }
    } else {
      assert (a + b)[0] == a[0];
      assert (a + b)[1..] == a[1..] + b;
      ExpandBmksAppend(key, h, isl, osl, a[1..], b, step);
      var first := ExpandBmk(key, h, isl, osl, a[0], step);
      if first.Success? {
        var ra := ExpandBmks(key, h, isl, osl, a[1..], step);
        var rb := ExpandBmks(key, h, isl, osl, b, step);
        if ra.Success? && rb.Success? {
          assert first.value + (ra.value + rb.value) == (first.value + ra.value) + rb.value;
        }
      }
    }
  }

  /** Sequence-length configs are expanded in list order. */
  lemma {:induction false} ExpandSeqConfigsAppend(key: string, h: Header, filter: Filter, a: seq<SeqLenConfig>, b: seq<SeqLenConfig>, step: int)
    requires forall i :: 0 <= i < |a| ==> SeqConfigTerminates(filter, a[i], step)
    requires forall i :: 0 <= i < |b| ==> SeqConfigTerminates(filter, b[i], step)
    ensures forall i :: 0 <= i < |a + b| ==> SeqConfigTerminates(filter, (a + b)[i], step)
    ensures ExpandSeqConfigs(key, h, filter, a + b, step) ==
            Then(ExpandSeqConfigs(key, h, filter, a, step), ExpandSeqConfigs(key, h, filter, b, step))
    decreases |a|
  {
    if |a| == 0 {
      assert a + b == b;
      var rb := ExpandSeqConfigs(key, h, filter, b, step);
      if rb.Success? {
        assert [] + rb.value == rb.value;
      }
    } else {
      assert (a + b)[0] == a[0];
      assert (a + b)[1..] == a[1..] + b;
      ExpandSeqConfigsAppend(key, h, filter, a[1..], b, step);
      var first := ExpandSeqConfig(key, h, filter, a[0], step);
      if first.Success? {
        var ra := ExpandSeqConfigs(key, h, filter, a[1..], step);
        var rb := ExpandSeqConfigs(key, h, filter, b, step);
        if ra.Success? && rb.Success? {
          assert first.value + (ra.value + rb.value) == (first.value + ra.value) + rb.value;
        }
      }
    }
  }

  /** Every concurrency value of every entry in the list yields its record. */
  lemma {:induction false} ExpandBmksComplete(key: string, h: Header, isl: int, osl: int, bs: seq<BmkEntry>, step: int, j: int, k: int)
    requires forall j :: 0 <= j < |bs| ==> BmkTerminates(bs[j], step)
    requires ExpandBmks(key, h, isl, osl, bs, step).Success?
    requires 0 <= j < |bs|
    requires 0 <= k < |ConcSweep(bs[j].concStart.value, bs[j].concEnd.value, step)|
    ensures MakeRecord(h, isl, osl, bs[j].tp.value, ConcSweep(bs[j].concStart.value, bs[j].concEnd.value, step)[k], bs[j].ep, bs[j].dpAttn)
              in ExpandBmks(key, h, isl, osl, bs, step).value
    decreases |bs|
  {
    var first := ExpandBmk(key, h, isl, osl, bs[0], step);
    var rest := ExpandBmks(key, h, isl, osl, bs[1..], step);
    assert ExpandBmks(key, h, isl, osl, bs, step).value == first.value + rest.value;
    if j == 0 {
      assert first.value[k] in first.value;
    } else {
      assert bs[j] == bs[1..][j - 1];
      ExpandBmksComplete(key, h, isl, osl, bs[1..], step, j - 1, k);
    }
  }

  /** Every concurrency value of every entry of every config the filter lets
      through yields its record: the filter is the only thing that drops runs. */
  lemma {:induction false} ExpandSeqConfigsComplete(key: string, h: Header, filter: Filter, scs: seq<SeqLenConfig>, step: int, i: int, j: int, k: int)
    requires forall i :: 0 <= i < |scs| ==> SeqConfigTerminates(filter, scs[i], step)
    requires forall i :: 0 <= i < |scs| ==> SeqConfigValid(filter, scs[i])
    requires 0 <= i < |scs| && Selected(filter, scs[i])
    requires 0 <= j < |scs[i].bmkSpace.value|
    requires HasBmkFields(scs[i].bmkSpace.value[j]) && BmkTerminates(scs[i].bmkSpace.value[j], step)
    requires 0 <= k < |ConcSweep(scs[i].bmkSpace.value[j].concStart.value, scs[i].bmkSpace.value[j].concEnd.value, step)|
    ensures ExpandSeqConfigs(key, h, filter, scs, step).Success?
    ensures var b := scs[i].bmkSpace.value[j];
            MakeRecord(h, scs[i].isl.value, scs[i].osl.value, b.tp.value,
                       ConcSweep(b.concStart.value, b.concEnd.value, step)[k], b.ep, b.dpAttn)
              in ExpandSeqConfigs(key, h, filter, scs, step).value
    decreases |scs|
  {
    var tail := scs[1..];
    assert forall t :: 0 <= t < |tail| ==> tail[t] == scs[t + 1];
    var first := ExpandSeqConfig(key, h, filter, scs[0], step);
    var rest := ExpandSeqConfigs(key, h, filter, tail, step);
    assert first.Success? && rest.Success?;
    assert ExpandSeqConfigs(key, h, filter, scs, step).value == first.value + rest.value;
    if i == 0 {
      var sc := scs[0];
      assert first == ExpandBmks(key, h, sc.isl.value, sc.osl.value, sc.bmkSpace.value, step);
      ExpandBmksComplete(key, h, sc.isl.value, sc.osl.value, sc.bmkSpace.value, step, j, k);
    } else {
      ExpandSeqConfigsComplete(key, h, filter, tail, step, i - 1, j, k);
    }
  }

  /** `rec` repeats the preset's five scalar fields. */
  predicate CopiesHeader(p: Preset, rec: Record) {
    && p.image == Some(rec.image) && p.model == Some(rec.model) && p.precision == Some(rec.precision)
    && p.framework == Some(rec.framework) && p.runner == Some(rec.runner)
  }

  /** `rs` are runs of the preset `p`: each copies its header and is a run of
      one of its sequence-length configs. */
  predicate RunsOf(p: Preset, filter: Filter, step: int, rs: seq<Record>) {
    && p.seqLenConfigs.Some?
    && forall rec :: rec in rs ==>
         && CopiesHeader(p, rec)
         && exists i :: 0 <= i < |p.seqLenConfigs.value| && FromSeqConfig(filter, p.seqLenConfigs.value[i], step, rec)
  }

  /** The loops of the preset stored under `key` stop, in whichever document
      defines it. */
  predicate KeyTerminates(files: seq<ConfigFile>, key: string, filter: Filter, step: int) {
    forall i :: 0 <= i < |files| && DefinesKey(files, i, key) ==> PresetTerminates(files[i].body.value[key], filter, step)
  }

  lemma MergedTerminates(files: seq<ConfigFile>, key: string, filter: Filter, step: int)
    requires KeyTerminates(files, key, filter, step)
    requires MergeConfigs(files).Success? && key in MergeConfigs(files).value
    ensures PresetTerminates(MergeConfigs(files).value[key], filter, step)
  {
    MergedFrom(files, key);
  }

  /** The whole program: merge, look up, validate, expand. Any error means
      no records at all. */
  function Generate(files: seq<ConfigFile>, key: string, names: seq<SeqLenName>, step: int): (r: Result<seq<Record>, Error>)
    requires KeyTerminates(files, key, BuildFilter(names), step)
    ensures r.Success? ==> NoOverlap(files)
    ensures !NoOverlap(files) ==>
              exists i :: FirstRejected(files, i) && r == Failure(Rejection(UnionKeys(files[..i]), files[i]))
    ensures NoOverlap(files) && key !in UnionKeys(files) ==>
              r == Failure(KeyNotFound(key, SortedKeys(UnionKeys(files))))
    ensures forall i :: NoOverlap(files) && DefinesKey(files, i, key) && ValidatePreset(key, files[i].body.value[key]).Failure? ==>
              r.Failure? && r.error == ValidatePreset(key, files[i].body.value[key]).error
    ensures r.Success? ==> exists i :: DefinesKey(files, i, key) && RunsOf(files[i].body.value[key], BuildFilter(names), step, r.value)
    ensures forall i :: NoOverlap(files) && DefinesKey(files, i, key) && ValidatePreset(key, files[i].body.value[key]).Success? ==>
              r == ExpandSeqConfigs(key, ValidatePreset(key, files[i].body.value[key]).value.header, BuildFilter(names),
                                    ValidatePreset(key, files[i].body.value[key]).value.seqLenConfigs, step)
  {
    var filter := BuildFilter(names);
    var merged := MergeConfigs(files);
    if merged.Failure? then Failure(merged.error)
    else
      var found := Lookup(merged.value, key);
      if found.Failure? then Failure(found.error)
      else
        MergedFrom(files, key);
        MergedTerminates(files, key, filter, step);
        var preset := found.value;
        var valid := ValidatePreset(key, preset);
        if valid.Failure? then Failure(valid.error)
        else
          var v := valid.value;
          var r := ExpandSeqConfigs(key, v.header, filter, v.seqLenConfigs, step);
          assert r.Success? ==> RunsOf(preset, filter, step, r.value);
          r
  }

  /** The lengths of runs of one preset: `max-model-len` is their sum, and
      the pair belongs to one of the given names. */
  lemma RunsMatchNames(p: Preset, names: seq<SeqLenName>, step: int, rs: seq<Record>)
    requires RunsOf(p, BuildFilter(names), step, rs)
    ensures forall rec :: rec in rs ==>
              && rec.maxModelLen == rec.isl + rec.osl
              && (|names| > 0 ==> exists n :: n in names && SeqLenStoi[n] == (rec.isl, rec.osl))
  {
    var scs := p.seqLenConfigs.value;
    forall rec | rec in rs
      ensures rec.maxModelLen == rec.isl + rec.osl
      ensures |names| > 0 ==> exists n :: n in names && SeqLenStoi[n] == (rec.isl, rec.osl)
    {
      var c :| 0 <= c < |scs| && FromSeqConfig(BuildFilter(names), scs[c], step, rec);
      var j :| 0 <= j < |scs[c].bmkSpace.value| && FromEntry(scs[c].isl.value, scs[c].osl.value, scs[c].bmkSpace.value[j], step, rec);
      FilterSelects(names, rec.isl, rec.osl);
      if |names| > 0 {
        var m :| 0 <= m < |names| && SeqLenStoi[names[m]] == (rec.isl, rec.osl);
        assert names[m] in names;
      }
    }
  }

  /** Every run has `max-model-len == isl + osl`, and when sequence-length
      names are given its (isl, osl) pair is one of theirs. */
  lemma GeneratedRecords(files: seq<ConfigFile>, key: string, names: seq<SeqLenName>, step: int)
    requires KeyTerminates(files, key, BuildFilter(names), step)
    ensures Generate(files, key, names, step).Success? ==>
              forall rec :: rec in Generate(files, key, names, step).value ==>
                && rec.maxModelLen == rec.isl + rec.osl
                && (|names| > 0 ==> exists n :: n in names && SeqLenStoi[n] == (rec.isl, rec.osl))
  {
    if Generate(files, key, names, step).Failure? {
      return;
    }
    var rs := Generate(files, key, names, step).value;
    var i :| DefinesKey(files, i, key) && RunsOf(files[i].body.value[key], BuildFilter(names), step, rs);
    RunsMatchNames(files[i].body.value[key], names, step, rs);
  }
}
