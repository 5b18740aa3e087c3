/** Loading several configuration files into one mapping: the documents are
    folded left to right, and a document that repeats a key already merged
    stops the run (get_test_sweep_configs.py, lines 49-63). */
module Merge {
  import opened Wrappers
  import opened StringOrder
  import opened Config

  /** The keys a document defines; a document that is not a mapping defines none. */
  function BodyKeys(f: ConfigFile): set<string> {
    if f.body.Some? then f.body.value.Keys else {}
  }

  /** The keys the documents `fs` define between them. */
  function UnionKeys(fs: seq<ConfigFile>): set<string>
    decreases |fs|
  {
    if |fs| == 0 then {} else UnionKeys(fs[..|fs| - 1]) + BodyKeys(fs[|fs| - 1])
  }

  /** Document `i` merges cleanly: it is a mapping and shares no key with
      the documents before it. */
  predicate Accepted(fs: seq<ConfigFile>, i: int)
    requires 0 <= i < |fs|
  {
    fs[i].body.Some? && BodyKeys(fs[i]) !! UnionKeys(fs[..i])
  }

  /** No document shares a key with the union of those before it. */
  predicate NoOverlap(fs: seq<ConfigFile>) {
    forall i :: 0 <= i < |fs| ==> Accepted(fs, i)
  }

  /** Document `i` is the first one that does not merge cleanly. */
  predicate FirstRejected(fs: seq<ConfigFile>, i: int) {
    0 <= i < |fs| && (forall j :: 0 <= j < i ==> Accepted(fs, j)) && !Accepted(fs, i)
  }

  /** The error raised for a document `f` arriving after the keys `before`
      were merged: the file's name and its repeated keys in sorted order. */
  function Rejection(before: set<string>, f: ConfigFile): Error {
    if f.body.None? then NotAMapping(f.path)
    else DuplicateKeys(f.path, SortedKeys(before * f.body.value.Keys))
  }

  /** The merge loop, resumed with the mapping `acc` built so far. */
  function MergeInto(acc: Configs, fs: seq<ConfigFile>): Result<Configs, Error>
    decreases |fs|
  {
    if |fs| == 0 then Success(acc)
    else
      var f := fs[0];
      if f.body.None? then Failure(NotAMapping(f.path))
      else
        var duplicates := acc.Keys * f.body.value.Keys;
        if duplicates != {} then Failure(DuplicateKeys(f.path, SortedKeys(duplicates)))
        else MergeInto(acc + f.body.value, fs[1..])
  }

  /** `e` is the error for the first document that does not merge cleanly. */
  ghost predicate ReportsFirstRejection(fs: seq<ConfigFile>, e: Error) {
    exists i :: FirstRejected(fs, i) && e == Rejection(UnionKeys(fs[..i]), fs[i])
  }

  /** Merging all the given files, starting from an empty mapping. */
  function MergeConfigs(files: seq<ConfigFile>): (r: Result<Configs, Error>)
    ensures r.Success? <==> NoOverlap(files)
    ensures r.Success? ==> r.value.Keys == UnionKeys(files)
    ensures r.Success? ==> KeepsValues(r.value, files)
    ensures r.Failure? ==> ReportsFirstRejection(files, r.error)
  {
    MergeSpec(files);
    MergeInto(map[], files)
  }

  /** The merge is a left fold: merging `fs + [f]` merges `fs`, then `f`. */
  lemma {:induction false} MergeSnoc(acc: Configs, fs: seq<ConfigFile>, f: ConfigFile)
    ensures MergeInto(acc, fs + [f]) ==
            (if MergeInto(acc, fs).Failure? then MergeInto(acc, fs) else MergeInto(MergeInto(acc, fs).value, [f]))
    decreases |fs|
  {
    if |fs| == 0 {
      assert fs + [f] == [f];
    } else {
      assert (fs + [f])[0] == fs[0];
      assert (fs + [f])[1..] == fs[1..] + [f];
      if fs[0].body.Some? && acc.Keys * fs[0].body.value.Keys == {} {
        MergeSnoc(acc + fs[0].body.value, fs[1..], f);
      }
    }
  }

  lemma {:induction false} BodyKeysInUnion(fs: seq<ConfigFile>, i: int)
    requires 0 <= i < |fs|
    ensures BodyKeys(fs[i]) <= UnionKeys(fs)
    decreases |fs|
  {
    if i < |fs| - 1 {
      var prefix := fs[..|fs| - 1];
      assert prefix[i] == fs[i];
      BodyKeysInUnion(prefix, i);
    }
  }

  /** A key is merged exactly when some document defines it. */
  lemma {:induction false} UnionMember(fs: seq<ConfigFile>, k: string)
    ensures k in UnionKeys(fs) <==> exists i :: 0 <= i < |fs| && k in BodyKeys(fs[i])
    decreases |fs|
  {
    if |fs| > 0 {
      var prefix := fs[..|fs| - 1];
      UnionMember(prefix, k);
      if k in UnionKeys(prefix) {
        var i :| 0 <= i < |prefix| && k in BodyKeys(prefix[i]);
        assert fs[i] == prefix[i];
      }
      if exists i :: 0 <= i < |fs| && k in BodyKeys(fs[i]) {
        var i :| 0 <= i < |fs| && k in BodyKeys(fs[i]);
        BodyKeysInUnion(fs, i);
      }
    }
  }

  /** The first `n - 1` documents are judged the same inside `files` and on their own. */
  lemma PrefixAccepted(files: seq<ConfigFile>, n: int)
    requires 0 < n == |files|
    ensures forall j :: 0 <= j < n - 1 ==> (Accepted(files, j) <==> Accepted(files[..n - 1], j))
  {
    forall j | 0 <= j < n - 1
      ensures Accepted(files, j) <==> Accepted(files[..n - 1], j)
    {
      assert files[..j] == files[..n - 1][..j];
    }
  }

  /** Values of a clean merge: every key keeps the value of the document defining it. */
  ghost predicate KeepsValues(m: Configs, files: seq<ConfigFile>) {
    forall i, k :: 0 <= i < |files| && files[i].body.Some? && k in files[i].body.value ==>
      k in m && m[k] == files[i].body.value[k]
  }

  /** The last step of the fold, once the documents before it merged into `m`. */
  lemma LastStep(files: seq<ConfigFile>, m: Configs)
    requires |files| > 0
    requires NoOverlap(files[..|files| - 1])
    requires m.Keys == UnionKeys(files[..|files| - 1])
    requires KeepsValues(m, files[..|files| - 1])
    ensures MergeInto(m, [files[|files| - 1]]).Success? <==> NoOverlap(files)
    ensures MergeInto(m, [files[|files| - 1]]).Success? ==>
              MergeInto(m, [files[|files| - 1]]).value.Keys == UnionKeys(files)
              && KeepsValues(MergeInto(m, [files[|files| - 1]]).value, files)
    ensures MergeInto(m, [files[|files| - 1]]).Failure? ==>
              FirstRejected(files, |files| - 1)
              && MergeInto(m, [files[|files| - 1]]).error == Rejection(UnionKeys(files[..|files| - 1]), files[|files| - 1])
  {
    var n := |files|;
    var fs := files[..n - 1];
    var f := files[n - 1];
    PrefixAccepted(files, n);
    if f.body.Some? && m.Keys * f.body.value.Keys == {} {
      var body := f.body.value;
      assert MergeInto(m, [f]) == Success(m + body);
      assert BodyKeys(f) == body.Keys;
      assert m.Keys == UnionKeys(fs);
      assert m.Keys !! body.Keys by {
        forall x | x in m.Keys
          ensures x !in body.Keys
        {
          assert x !in m.Keys * body.Keys;
        }
      }
      assert BodyKeys(f) !! UnionKeys(fs);
      assert Accepted(files, n - 1);
      forall i, k | 0 <= i < n && files[i].body.Some? && k in files[i].body.value
        ensures k in m + body && (m + body)[k] == files[i].body.value[k]
      {
        if i < n - 1 {
          assert fs[i] == files[i];
          BodyKeysInUnion(fs, i);
        }
      }
    } else {
      assert !Accepted(files, n - 1);
    }
  }

  lemma {:induction false} MergeSpec(files: seq<ConfigFile>)
    ensures MergeInto(map[], files).Success? <==> NoOverlap(files)
    ensures MergeInto(map[], files).Success? ==>
              MergeInto(map[], files).value.Keys == UnionKeys(files) && KeepsValues(MergeInto(map[], files).value, files)
    ensures MergeInto(map[], files).Failure? ==>
              ReportsFirstRejection(files, MergeInto(map[], files).error)
    decreases |files|
  {
    if |files| > 0 {
      var n := |files|;
      var fs := files[..n - 1];
      var f := files[n - 1];
      assert files == fs + [f];
      MergeSnoc(map[], fs, f);
      MergeSpec(fs);
      PrefixAccepted(files, n);
      var prev := MergeInto(map[], fs);
      if prev.Failure? {
        var i :| FirstRejected(fs, i) && prev.error == Rejection(UnionKeys(fs[..i]), fs[i]);
        assert files[..i] == fs[..i];
        assert FirstRejected(files, i);
      } else {
        LastStep(files, prev.value);
      }
    }
  }

  /** Document `i` is a mapping that defines `key`. */
  predicate DefinesKey(files: seq<ConfigFile>, i: int, key: string) {
    0 <= i < |files| && files[i].body.Some? && key in files[i].body.value
  }

  /** A merged key's value comes from a document that defines it. */
  lemma MergedFrom(files: seq<ConfigFile>, key: string)
    requires MergeConfigs(files).Success? && key in MergeConfigs(files).value
    ensures exists i :: DefinesKey(files, i, key) && files[i].body.value[key] == MergeConfigs(files).value[key]
  {
    UnionMember(files, key);
    var i :| 0 <= i < |files| && key in BodyKeys(files[i]);
    assert DefinesKey(files, i, key);
  }

  /** Two documents with disjoint keys merge to the same mapping in either order. */
  lemma DisjointMergeCommutes(a: ConfigFile, b: ConfigFile)
    requires a.body.Some? && b.body.Some?
    requires a.body.value.Keys !! b.body.value.Keys
    ensures MergeConfigs([a, b]).Success?
    ensures MergeConfigs([a, b]) == MergeConfigs([b, a])
  {
    assert [a, b][..1] == [a];
    assert [b, a][..1] == [b];
    assert UnionKeys([a]) == a.body.value.Keys by { assert [a][..0] == []; }
    assert UnionKeys([b]) == b.body.value.Keys by { assert [b][..0] == []; }
    assert NoOverlap([a, b]);
    assert NoOverlap([b, a]);
    var ab := MergeConfigs([a, b]).value;
    var ba := MergeConfigs([b, a]).value;
    assert ab == ba by {
      forall k | k in ab
        ensures ab[k] == ba[k]
      {
        if k in a.body.value {
          assert ab[k] == [a, b][0].body.value[k];
          assert ba[k] == [b, a][1].body.value[k];
        } else {
          assert ab[k] == [a, b][1].body.value[k];
          assert ba[k] == [b, a][0].body.value[k];
        }
      }
    }
  }

  /** Two documents that both define `k` cannot be merged; the error names
      the second document and lists `k`. */
  lemma SharedKeyRejected(a: ConfigFile, b: ConfigFile, k: string)
    requires a.body.Some? && b.body.Some?
    requires k in a.body.value && k in b.body.value
    ensures MergeConfigs([a, b]).Failure?
    ensures MergeConfigs([a, b]).error.DuplicateKeys?
    ensures MergeConfigs([a, b]).error.path == b.path
    ensures k in MergeConfigs([a, b]).error.keys
  {
    var fs := [a, b];
    var first := a.body.value;
    assert fs[1..] == [b];
    assert map[] + first == first;
    assert MergeConfigs(fs) == MergeInto(first, [b]);
    assert k in first.Keys * b.body.value.Keys;
  }
}
