/**
 Translating every key (po_localizer_editor.py,
 `PoEditor.auto_translate_all`): keys are taken in reference order; the
 cancel button is polled before each key; each key goes through the
 missing-language computation and `_translate`; the progress bar is set
 after each key. A failed oracle call only affects its own key.

 The progress dialog's cancel flag is a parameter: `cancelled(i)` is what
 the poll before key `i` returns.
 */
module Batch {
  import opened Common
  import opened Po
  import opened Editor
  import opened AutoTranslate

  /** The project after a run over `keys`, and one report per key. */
  datatype BatchState = BatchState(project: Project, reports: seq<Report>)

  /** The run over `keys`: the keys processed exactly in that order, each
      one on the project the previous keys left behind. */
  function RunKeys(p: Project, keys: seq<string>, oracle: Oracle): (r: BatchState)
    requires Covered(p)
    ensures Covered(r.project)
    ensures r.project.languages == p.languages && r.project.entries == p.entries
    ensures r.project.catalogs.Keys == p.catalogs.Keys
    ensures |r.reports| == |keys|
    decreases |keys|
  {
    if keys == [] then BatchState(p, [])
    else
      var prev := RunKeys(p, keys[..|keys| - 1], oracle);
      var step := TranslateMissing(prev.project, keys[|keys| - 1], oracle);
      BatchState(step.project, prev.reports + [step.report])
  }

  /** `auto_translate_all`. `progress` is the last value given to the
      progress bar: the number of keys processed. Keys before the
      cancellation point keep their results, and the result is the
      run over exactly those keys. */
  method TranslateAll(p: Project, oracle: Oracle, cancelled: nat -> bool) returns (r: BatchState, progress: nat)
    requires Covered(p)
    ensures progress <= |p.entries|
    ensures forall i | 0 <= i < progress :: !cancelled(i)
    ensures progress < |p.entries| ==> cancelled(progress)
    ensures r == RunKeys(p, p.entries[..progress], oracle)
    ensures |r.reports| == progress
  {
    r := BatchState(p, []);
    progress := 0;
    while progress < |p.entries| && !cancelled(progress)
      invariant progress <= |p.entries|
      invariant forall j | 0 <= j < progress :: !cancelled(j)
      invariant r == RunKeys(p, p.entries[..progress], oracle)
    {
      r := ProcessKey(p, progress, r, oracle);
      progress := progress + 1;
    }
  }

  /** The body of the loop for one key: the missing languages are computed
      on the project the earlier keys left, the key is translated, and its
      report is appended. */
  method ProcessKey(p: Project, n: nat, r: BatchState, oracle: Oracle) returns (r': BatchState)
    requires Covered(p) && n < |p.entries|
    requires r == RunKeys(p, p.entries[..n], oracle)
    ensures r' == RunKeys(p, p.entries[..n + 1], oracle)
  {
    var k := p.entries[n];
    var step := TranslateMissing(r.project, k, oracle);
    r' := BatchState(step.project, r.reports + [step.report]);
    ghost var keys := p.entries[..n + 1];
    assert keys[..|keys| - 1] == p.entries[..n] && keys[|keys| - 1] == k;
  }

  /** No rollback and no look-ahead: the run over a longer prefix continues
      from the run over a shorter one, so keys processed before a
      cancellation keep exactly the results they had. */
  lemma {:induction false} RunKeysExtends(p: Project, keys: seq<string>, n: nat, oracle: Oracle)
    requires Covered(p) && n <= |keys|
    ensures RunKeys(p, keys[..n], oracle).reports == RunKeys(p, keys, oracle).reports[..n]
    decreases |keys|
  {
    if n < |keys| {
      var init := keys[..|keys| - 1];
      assert init[..n] == keys[..n];
      RunKeysExtends(p, init, n, oracle);
    } else {
      assert keys[..n] == keys;
    }
  }

  /** Keys the run never reached read exactly as before in every catalog. */
  lemma {:induction false} RunKeysLeavesOtherKeys(p: Project, keys: seq<string>, oracle: Oracle, k: string)
    requires Covered(p)
    requires k !in keys
    ensures forall l | l in p.catalogs :: Lookup(RunKeys(p, keys, oracle).project.catalogs[l], k) == Lookup(p.catalogs[l], k)
    decreases |keys|
  {
    if keys != [] {
      var init := keys[..|keys| - 1];
      assert keys == init + [keys[|keys| - 1]];
      RunKeysLeavesOtherKeys(p, init, oracle, k);
    }
  }

  /** Cancelled before key `n`: with distinct reference keys, every key
      from `n` on reads in every catalog exactly as before the run. */
  lemma UnreachedKeysUntouched(p: Project, n: nat, oracle: Oracle)
    requires Covered(p) && Distinct(p.entries) && n <= |p.entries|
    ensures forall j, l | n <= j < |p.entries| && l in p.catalogs ::
              Lookup(RunKeys(p, p.entries[..n], oracle).project.catalogs[l], p.entries[j]) == Lookup(p.catalogs[l], p.entries[j])
  {
    forall j | n <= j < |p.entries|
      ensures forall l | l in p.catalogs ::
                Lookup(RunKeys(p, p.entries[..n], oracle).project.catalogs[l], p.entries[j]) == Lookup(p.catalogs[l], p.entries[j])
    {
      assert forall m | 0 <= m < n :: p.entries[..n][m] != p.entries[j] by {
        forall m | 0 <= m < n
          ensures p.entries[..n][m] != p.entries[j]
        {
          assert p.entries[..n][m] == p.entries[m];
        }
      }
      RunKeysLeavesOtherKeys(p, p.entries[..n], oracle, p.entries[j]);
    }
  }

  /** Failure isolation: when the oracle fails on the next key `k`, that
      key's step changes nothing and is reported, and whatever follows runs
      on the project the earlier keys left. */
  lemma FailureIsolated(p: Project, done: seq<string>, k: string, oracle: Oracle)
    requires Covered(p)
    requires var before := RunKeys(p, done, oracle).project;
             Missing(before, k) != [] && oracle(k, Missing(before, k)).Failure?
    ensures var before := RunKeys(p, done, oracle);
            var after := RunKeys(p, done + [k], oracle);
            && after.project == before.project
            && after.reports == before.reports + [ApiError(oracle(k, Missing(before.project, k)).message)]
  {
    RunKeysSnoc(p, done, k, oracle);
  }

  /** One more key is one more step on top of the run so far. */
  lemma RunKeysSnoc(p: Project, keys: seq<string>, k: string, oracle: Oracle)
    requires Covered(p)
    ensures var prev := RunKeys(p, keys, oracle);
            var step := TranslateMissing(prev.project, k, oracle);
            RunKeys(p, keys + [k], oracle) == BatchState(step.project, prev.reports + [step.report])
  {
    assert (keys + [k])[..|keys|] == keys;
  }

  /** A run over fully translated keys asks the oracle nothing and changes
      nothing. */
  lemma {:induction false} RunKeysOnTranslatedIsNoOp(p: Project, keys: seq<string>, oracle: Oracle)
    requires Covered(p)
    requires forall i | 0 <= i < |keys| :: Missing(p, keys[i]) == []
    ensures RunKeys(p, keys, oracle).project == p
    ensures forall i | 0 <= i < |keys| :: RunKeys(p, keys, oracle).reports[i] == Skipped
    decreases |keys|
  {
    if keys != [] {
      var init := keys[..|keys| - 1];
      RunKeysOnTranslatedIsNoOp(p, init, oracle);
      assert Missing(p, keys[|keys| - 1]) == [];
    }
  }

  /** Translating keys of the reference list keeps the synchronised state:
      an appended entry is for a reference key that had no live entry. */
  lemma {:induction false} RunKeysPreservesWellKeyed(p: Project, keys: seq<string>, oracle: Oracle)
    requires Covered(p) && WellKeyed(p)
    requires forall i | 0 <= i < |keys| :: keys[i] in p.entries
    ensures WellKeyed(RunKeys(p, keys, oracle).project)
    decreases |keys|
  {
    if keys != [] {
      var init := keys[..|keys| - 1];
      RunKeysPreservesWellKeyed(p, init, oracle);
      var prev := RunKeys(p, init, oracle).project;
      TranslateMissingPreservesWellKeyed(prev, keys[|keys| - 1], oracle);
    }
  }

  lemma TranslateMissingPreservesWellKeyed(p: Project, msgid: string, oracle: Oracle)
    requires Covered(p) && WellKeyed(p) && msgid in p.entries
    ensures WellKeyed(TranslateMissing(p, msgid, oracle).project)
  {
    var langs := Missing(p, msgid);
    if langs != [] && oracle(msgid, langs).Response? {
      var ts := oracle(msgid, langs).translations;
      var q := MergeAsWritten(p, msgid, ts);
      forall l | l in q.catalogs
        ensures LiveKeysDistinct(q.catalogs[l]) && LiveKeysListed(q.catalogs[l], q.entries)
      {
        if p.catalogs[l] != [] {
          UpsertAllKeepsKeys(p.catalogs[l], msgid, TextsFor(ts, l), p.entries);
        }
      }
    }
  }

  lemma {:induction false} UpsertAllKeepsKeys(c: Catalog, msgid: string, texts: seq<string>, keys: seq<string>)
    requires msgid in keys && LiveKeysDistinct(c) && LiveKeysListed(c, keys)
    ensures LiveKeysDistinct(UpsertAll(c, msgid, texts)) && LiveKeysListed(UpsertAll(c, msgid, texts), keys)
    decreases |texts|
  {
    if texts != [] {
      UpsertKeepsKeys(c, msgid, texts[0], keys);
      UpsertAllKeepsKeys(Upsert(c, msgid, texts[0]), msgid, texts[1..], keys);
    }
  }

  lemma UpsertKeepsKeys(c: Catalog, msgid: string, text: string, keys: seq<string>)
    requires msgid in keys && LiveKeysDistinct(c) && LiveKeysListed(c, keys)
    ensures LiveKeysDistinct(Upsert(c, msgid, text)) && LiveKeysListed(Upsert(c, msgid, text), keys)
  {
    var r := Upsert(c, msgid, text);
    if FindIndex(c, msgid).None? {
      assert forall i | 0 <= i < |c| :: r[i] == c[i] by {
        forall i | 0 <= i < |c|
          ensures r[i] == c[i]
        {
          assert r[..|c|][i] == r[i];
        }
      }
      assert r[|c|] == NewEntry(msgid, text);
      forall i, j | 0 <= i < |r| && 0 <= j < |r| && i != j && !r[i].obsolete && !r[j].obsolete
        ensures r[i].msgid != r[j].msgid
      {
        if i == |c| {
          assert !Matches(c[j], msgid);
        } else if j == |c| {
          assert !Matches(c[i], msgid);
        }
      }
    }
  }
}
