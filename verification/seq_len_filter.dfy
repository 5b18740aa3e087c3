/** The `--seq-lens` selection: named sequence-length scenarios and the
    optional set of (isl, osl) pairs they build (get_test_sweep_configs.py,
    lines 6-10, 44-46 and 101-102). */
module SeqLenFilter {
  import opened Wrappers

  /** The fixed alias table `seq_len_stoi`. */
  const SeqLenStoi: map<string, (int, int)> :=
    map["1k1k" := (1024, 1024), "1k8k" := (1024, 8192), "8k1k" := (8192, 1024)]

  /** A name the command line accepts: its `choices` are the table's keys. */
  type SeqLenName = s: string | s in SeqLenStoi witness "1k1k"

  /** `None` means no filtering. */
  type Filter = Option<set<(int, int)>>

  /** The filter for the names given on the command line; giving none means
      no filter at all. */
  function BuildFilter(names: seq<SeqLenName>): (f: Filter)
    ensures f.None? <==> |names| == 0
    ensures f.Some? ==> f.value != {}
    ensures f.Some? ==> f.value <= SeqLenStoi.Values
    ensures f.Some? ==> forall i :: 0 <= i < |names| ==> SeqLenStoi[names[i]] in f.value
    ensures f.Some? ==> forall p :: p in f.value <==> exists i :: 0 <= i < |names| && SeqLenStoi[names[i]] == p
  {
    if |names| == 0 then None
    else
      var pairs := set n | n in names :: SeqLenStoi[n];
      assert SeqLenStoi[names[0]] in pairs;
      Some(pairs)
  }

  /** Whether a sequence-length config with these lengths is expanded; an
      empty filter set, like no filter, lets everything through. */
  predicate Passes(f: Filter, isl: int, osl: int) {
    f.None? || f.value == {} || (isl, osl) in f.value
  }

  /** A config is expanded exactly when no name was given or one of the
      given names stands for its (isl, osl) pair. */
  lemma FilterSelects(names: seq<SeqLenName>, isl: int, osl: int)
    ensures Passes(BuildFilter(names), isl, osl) <==>
            |names| == 0 || exists i :: 0 <= i < |names| && SeqLenStoi[names[i]] == (isl, osl)
  {
    if |names| > 0 && (isl, osl) in BuildFilter(names).value {
      var n :| n in names && SeqLenStoi[n] == (isl, osl);
      var i :| 0 <= i < |names| && names[i] == n;
    }
  }

  /** Example: `--seq-lens 1k1k` keeps (1024, 1024) and drops (1024, 8192). */
  lemma OneKOneKFilter()
    ensures Passes(BuildFilter(["1k1k"]), 1024, 1024)
    ensures !Passes(BuildFilter(["1k1k"]), 1024, 8192)
  {
    FilterSelects(["1k1k"], 1024, 1024);
    FilterSelects(["1k1k"], 1024, 8192);
  }
}
