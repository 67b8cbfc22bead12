/**
 Filling in translations of one msgid (po_localizer_editor.py,
 `PoEditor._translate` and `PoEditor.auto_translate_current`).

 The translation service is an oracle: a function from the source text and
 the requested languages to either a failure or a list of
 (language, text) pairs. The code sends the msgid itself as the source
 text. Error dialogs become the `ApiError` report.
 */
module AutoTranslate {
  import opened Common
  import opened Text
  import opened Po
  import opened Editor

  /** One item of the oracle's answer. */
  datatype Translation = Translation(language: Lang, text: string)

  datatype Reply = Failure(message: string) | Response(translations: seq<Translation>)

  type Oracle = (string, seq<Lang>) -> Reply

  /** What a translation attempt told the user. */
  datatype Report = Skipped | ApiError(message: string) | Applied

  datatype KeyResult = KeyResult(project: Project, report: Report)

  // ---------------------------------------------------------------------
  // One catalog
  // ---------------------------------------------------------------------

  /** Appending a fresh entry for a msgid the catalog does not hold. */
  lemma AppendLookup(c: Catalog, msgid: string, text: string)
    requires FindIndex(c, msgid).None?
    ensures Lookup(c + [NewEntry(msgid, text)], msgid) == Some(text)
    ensures forall k | k != msgid :: Lookup(c + [NewEntry(msgid, text)], k) == Lookup(c, k)
  {
    var e := NewEntry(msgid, text);
    FindIndexAppend(c, e, msgid);
    forall k | k != msgid
      ensures Lookup(c + [e], k) == Lookup(c, k)
    {
      FindIndexAppend(c, e, k);
      if FindIndex(c, k).Some? {
        assert (c + [e])[FindIndex(c, k).value] == c[FindIndex(c, k).value];
      }
    }
  }

  /** The effect of one answered pair on its catalog: overwrite the msgstr
      of the entry found for `msgid`, or append a new entry at the end. */
  function Upsert(c: Catalog, msgid: string, text: string): (r: Catalog)
    ensures Lookup(r, msgid) == Some(text)
    ensures forall k | k != msgid :: Lookup(r, k) == Lookup(c, k)
    ensures FindIndex(c, msgid).Some? ==>
              var i := FindIndex(c, msgid).value;
              && |r| == |c|
              && r[i] == c[i].(msgstr := text)
              && forall j | 0 <= j < |c| && j != i :: r[j] == c[j]
    ensures FindIndex(c, msgid).None? ==>
              && |r| == |c| + 1
              && r[..|c|] == c
              && r[|c|] == NewEntry(msgid, text)
  {
    match FindIndex(c, msgid)
    case Some(_) =>
      SetMsgstrLookup(c, msgid, text);
      SetMsgstr(c, msgid, text)
    case None =>
      AppendLookup(c, msgid, text);
      assert (c + [NewEntry(msgid, text)])[..|c|] == c;
      c + [NewEntry(msgid, text)]
  }

  /** A second answered pair for the same msgid overwrites the first: the
      entry the first one updated or appended is the one the second finds. */
  lemma UpsertTwice(c: Catalog, msgid: string, a: string, b: string)
    ensures Upsert(Upsert(c, msgid, a), msgid, b) == Upsert(c, msgid, b)
  {
    if FindIndex(c, msgid).Some? {
      UpsertTwiceFound(c, msgid, a, b);
    } else {
      UpsertTwiceAppended(c, msgid, a, b);
    }
  }

  lemma UpsertTwiceFound(c: Catalog, msgid: string, a: string, b: string)
    requires FindIndex(c, msgid).Some?
    ensures Upsert(Upsert(c, msgid, a), msgid, b) == Upsert(c, msgid, b)
  {
    var i := FindIndex(c, msgid).value;
    var u := Upsert(c, msgid, a);
    FindIndexSamePattern(c, u, msgid);
    var v, w := Upsert(u, msgid, b), Upsert(c, msgid, b);
    forall j | 0 <= j < |v|
      ensures v[j] == w[j]
    {
      if j != i {
        assert v[j] == u[j] == c[j];
      }
    }
  }

  lemma UpsertTwiceAppended(c: Catalog, msgid: string, a: string, b: string)
    requires FindIndex(c, msgid).None?
    ensures Upsert(Upsert(c, msgid, a), msgid, b) == Upsert(c, msgid, b)
  {
    var u := Upsert(c, msgid, a);
    FindIndexAt(u, msgid, |c|);
    var v, w := Upsert(u, msgid, b), Upsert(c, msgid, b);
    forall j | 0 <= j < |v|
      ensures v[j] == w[j]
    {
      if j < |c| {
        assert v[j] == u[j] == u[..|c|][j] == c[j];
        assert w[j] == w[..|c|][j];
      }
    }
  }

  /** Several answered pairs for the same catalog, applied in order: the
      catalog ends up as after the last pair alone, so only the entry found
      for `msgid` changes, or one entry is appended at the end. */
  function UpsertAll(c: Catalog, msgid: string, texts: seq<string>): (r: Catalog)
    ensures texts == [] ==> r == c
    ensures texts != [] ==> r == Upsert(c, msgid, texts[|texts| - 1])
    ensures texts != [] ==> Lookup(r, msgid) == Some(texts[|texts| - 1])
    ensures forall k | k != msgid :: Lookup(r, k) == Lookup(c, k)
    ensures |c| <= |r|
    decreases |texts|
  {
    if texts == [] then c
    else
      var rest := texts[1..];
      assert rest != [] ==> rest[|rest| - 1] == texts[|texts| - 1];
      var r := UpsertAll(Upsert(c, msgid, texts[0]), msgid, rest);
      if rest == [] then r
      else
        UpsertTwice(c, msgid, texts[0], rest[|rest| - 1]);
        r
  }

  /** The test "this pair is for language `l`". */
  function IsFor(l: Lang): (f: Translation -> bool)
    ensures forall t :: f(t) <==> t.language == l
  {
    (t: Translation) => t.language == l
  }

  /** The texts the answer gives for language `l`: one per pair for `l`,
      in answer order. */
  function TextsFor(ts: seq<Translation>, l: Lang): (r: seq<string>)
    ensures r == [] <==> forall i | 0 <= i < |ts| :: ts[i].language != l
    ensures forall j | 0 <= j < |r| :: exists i | 0 <= i < |ts| :: ts[i].language == l && ts[i].text == r[j]
  {
    if ts == [] then []
    else
      var rest := TextsFor(ts[1..], l);
      assert forall j | 0 <= j < |rest| :: exists i | 0 <= i < |ts| :: ts[i].language == l && ts[i].text == rest[j] by {
        forall j | 0 <= j < |rest|
          ensures exists i | 0 <= i < |ts| :: ts[i].language == l && ts[i].text == rest[j]
        {
          var i :| 0 <= i < |ts[1..]| && ts[1..][i].language == l && ts[1..][i].text == rest[j];
          assert ts[i + 1] == ts[1..][i];
        }
      }
      if ts[0].language == l then [ts[0].text] + rest else rest
  }

  /** Against an independent selection of the pairs for `l`: the texts
      are those of exactly the pairs for `l`, one each, in answer order. */
  lemma {:induction false} TextsForIsFilter(ts: seq<Translation>, l: Lang)
    ensures TextsOf(TextsFor(ts, l), Filter(ts, IsFor(l)))
  {
    if ts != [] {
      TextsForIsFilter(ts[1..], l);
      FilterStep(ts, l);
      if ts[0].language == l {
        TextsOfCons(ts[0], TextsFor(ts[1..], l), Filter(ts[1..], IsFor(l)));
      }
    }
  }

  /** `texts` lists the texts of `pairs`, one each, in order. */
  predicate TextsOf(texts: seq<string>, pairs: seq<Translation>)
  {
    && |texts| == |pairs|
    && forall j | 0 <= j < |pairs| :: texts[j] == pairs[j].text
  }

  lemma TextsOfCons(t: Translation, texts: seq<string>, pairs: seq<Translation>)
    requires TextsOf(texts, pairs)
    ensures TextsOf([t.text] + texts, [t] + pairs)
  {
    forall j | 0 < j <= |pairs|
      ensures ([t.text] + texts)[j] == ([t] + pairs)[j].text
    {
      assert ([t] + pairs)[j] == pairs[j - 1];
    }
  }

  /** One step of both selections: the head pair is kept by each exactly
      when it is for `l`. */
  lemma FilterStep(ts: seq<Translation>, l: Lang)
    requires ts != []
    ensures ts[0].language == l ==>
              && Filter(ts, IsFor(l)) == [ts[0]] + Filter(ts[1..], IsFor(l))
              && TextsFor(ts, l) == [ts[0].text] + TextsFor(ts[1..], l)
    ensures ts[0].language != l ==>
              && Filter(ts, IsFor(l)) == Filter(ts[1..], IsFor(l))
              && TextsFor(ts, l) == TextsFor(ts[1..], l)
  {
    assert IsFor(l)(ts[0]) <==> ts[0].language == l;
  }

  // ---------------------------------------------------------------------
  // Merging an answer into the project
  // ---------------------------------------------------------------------

  /** One answered pair: applied when the language has a catalog, ignored
      otherwise. */
  function ApplyOne(p: Project, msgid: string, t: Translation): (r: Project)
    ensures r.languages == p.languages && r.entries == p.entries && r.catalogs.Keys == p.catalogs.Keys
    ensures forall l | l in p.catalogs && l != t.language :: r.catalogs[l] == p.catalogs[l]
    ensures t.language in p.catalogs ==> r.catalogs[t.language] == Upsert(p.catalogs[t.language], msgid, t.text)
  {
    if t.language in p.catalogs then
      p.(catalogs := p.catalogs[t.language := Upsert(p.catalogs[t.language], msgid, t.text)])
    else p
  }

  /** The answer merged pair by pair, in answer order: each catalog ends up
      with all texts the answer gives for its language applied in order,
      and a catalog the answer does not name is unchanged. */
  function Merge(p: Project, msgid: string, ts: seq<Translation>): (r: Project)
    ensures r.languages == p.languages && r.entries == p.entries && r.catalogs.Keys == p.catalogs.Keys
    ensures forall l | l in p.catalogs :: r.catalogs[l] == UpsertAll(p.catalogs[l], msgid, TextsFor(ts, l))
    decreases |ts|
  {
    if ts == [] then p
    else
      var r := Merge(ApplyOne(p, msgid, ts[0]), msgid, ts[1..]);
      assert forall l | l in p.catalogs :: r.catalogs[l] == UpsertAll(p.catalogs[l], msgid, TextsFor(ts, l)) by {
        forall l | l in p.catalogs
          ensures r.catalogs[l] == UpsertAll(p.catalogs[l], msgid, TextsFor(ts, l))
        {
          if ts[0].language == l {
            var texts := TextsFor(ts, l);
            assert texts[0] == ts[0].text && texts[1..] == TextsFor(ts[1..], l);
          }
        }
      }
      r
  }

  /** Every language the answer names and that has a catalog ends up with
      the last text given for it, whether its entry existed or not; other
      msgids read as before. */
  lemma MergeFillsNamedCatalogs(p: Project, msgid: string, ts: seq<Translation>)
    ensures forall l | l in p.catalogs && TextsFor(ts, l) != [] ::
              Lookup(Merge(p, msgid, ts).catalogs[l], msgid) == Some(Last(TextsFor(ts, l)))
    ensures forall l | l in p.catalogs && TextsFor(ts, l) == [] ::
              Merge(p, msgid, ts).catalogs[l] == p.catalogs[l]
    ensures forall l, k | l in p.catalogs && k != msgid ::
              Lookup(Merge(p, msgid, ts).catalogs[l], k) == Lookup(p.catalogs[l], k)
  {
    var r := Merge(p, msgid, ts);
    forall l | l in p.catalogs
      ensures TextsFor(ts, l) != [] ==> Lookup(r.catalogs[l], msgid) == Some(Last(TextsFor(ts, l)))
      ensures TextsFor(ts, l) == [] ==> r.catalogs[l] == p.catalogs[l]
      ensures forall k | k != msgid :: Lookup(r.catalogs[l], k) == Lookup(p.catalogs[l], k)
    {
      assert r.catalogs[l] == UpsertAll(p.catalogs[l], msgid, TextsFor(ts, l));
    }
  }

  /** The last of several texts: a later answer overwrites an earlier one. */
  function Last(s: seq<string>): (last: string)
    requires s != []
    ensures last in s
  {
    s[|s| - 1]
  }

  /** One answered pair, with the code's guard `if po:` as written: the
      catalog is a list, and an empty one is falsy, so a language whose
      catalog holds no entry at all is skipped like a language without a
      catalog. */
  function ApplyOneAsWritten(p: Project, msgid: string, t: Translation): (r: Project)
    ensures r.languages == p.languages && r.entries == p.entries && r.catalogs.Keys == p.catalogs.Keys
    ensures forall l | l in p.catalogs && (l != t.language || p.catalogs[l] == []) :: r.catalogs[l] == p.catalogs[l]
    ensures t.language in p.catalogs && p.catalogs[t.language] != [] ==>
              r.catalogs[t.language] == Upsert(p.catalogs[t.language], msgid, t.text)
  {
    if t.language in p.catalogs && |p.catalogs[t.language]| > 0 then
      p.(catalogs := p.catalogs[t.language := Upsert(p.catalogs[t.language], msgid, t.text)])
    else p
  }

  /** The merge loop as written: empty catalogs never receive anything,
      non-empty ones behave as in `Merge`. */
  function MergeAsWritten(p: Project, msgid: string, ts: seq<Translation>): (r: Project)
    ensures r.languages == p.languages && r.entries == p.entries && r.catalogs.Keys == p.catalogs.Keys
    ensures forall l | l in p.catalogs && p.catalogs[l] == [] :: r.catalogs[l] == []
    ensures forall l | l in p.catalogs && p.catalogs[l] != [] ::
              r.catalogs[l] == UpsertAll(p.catalogs[l], msgid, TextsFor(ts, l))
    decreases |ts|
  {
    if ts == [] then p
    else
      var q := ApplyOneAsWritten(p, msgid, ts[0]);
      var r := MergeAsWritten(q, msgid, ts[1..]);
      assert forall l | l in p.catalogs && p.catalogs[l] != [] ::
               r.catalogs[l] == UpsertAll(p.catalogs[l], msgid, TextsFor(ts, l)) by {
        forall l | l in p.catalogs && p.catalogs[l] != []
          ensures r.catalogs[l] == UpsertAll(p.catalogs[l], msgid, TextsFor(ts, l))
        {
          if ts[0].language == l {
            var texts := TextsFor(ts, l);
            assert |q.catalogs[l]| >= |p.catalogs[l]|;
            assert texts[0] == ts[0].text && texts[1..] == TextsFor(ts[1..], l);
          }
        }
      }
      r
  }

  /** The discrepancy: an answer whose last text for a language whose
      catalog is empty is not blank is dropped by the code as written, so that
      language still lacks the translation (and is asked for again on every
      later run), while the intended merge fills it in. */
  lemma EmptyCatalogDropsTranslation(p: Project, msgid: string, ts: seq<Translation>, l: Lang)
    requires l in p.catalogs && p.catalogs[l] == []
    requires TextsFor(ts, l) != [] && !AllSpace(Last(TextsFor(ts, l)))
    ensures Lacks(p.catalogs[l], msgid)
    ensures Lacks(MergeAsWritten(p, msgid, ts).catalogs[l], msgid)
    ensures !Lacks(Merge(p, msgid, ts).catalogs[l], msgid)
  {
    LacksAfterMerge(p, msgid, ts, l);
  }

  // ---------------------------------------------------------------------
  // Translating one msgid
  // ---------------------------------------------------------------------

  /** `_translate(msgid, langs)` as written: nothing happens for an empty
      language list (the oracle is not asked); a failed request changes
      nothing and is reported; an answer is merged by the loop as written,
      so a language whose catalog is empty receives nothing. */
  function Translate(p: Project, msgid: string, langs: seq<Lang>, oracle: Oracle): (r: KeyResult)
    ensures r.project.languages == p.languages && r.project.entries == p.entries
    ensures r.project.catalogs.Keys == p.catalogs.Keys
    ensures langs == [] ==> r == KeyResult(p, Skipped)
    ensures langs != [] && oracle(msgid, langs).Failure? ==>
              r == KeyResult(p, ApiError(oracle(msgid, langs).message))
    ensures langs != [] && oracle(msgid, langs).Response? ==>
              && r.report == Applied
              && (forall l | l in p.catalogs && p.catalogs[l] == [] :: r.project.catalogs[l] == [])
              && forall l | l in p.catalogs && p.catalogs[l] != [] ::
                   r.project.catalogs[l] == UpsertAll(p.catalogs[l], msgid, TextsFor(oracle(msgid, langs).translations, l))
    ensures forall l, k | l in p.catalogs && k != msgid ::
              Lookup(r.project.catalogs[l], k) == Lookup(p.catalogs[l], k)
  {
    if langs == [] then KeyResult(p, Skipped)
    else
      match oracle(msgid, langs)
      case Failure(message) => KeyResult(p, ApiError(message))
      case Response(ts) => KeyResult(MergeAsWritten(p, msgid, ts), Applied)
  }

  /** The missing-language computation followed by `_translate`: the step
      both `auto_translate_current` and each key of `auto_translate_all`
      perform. A msgid no language lacks is left alone without asking the
      oracle; otherwise the oracle is asked for exactly the missing
      languages, a failure is reported and changes nothing, and an answer
      is merged as written. */
  function TranslateMissing(p: Project, msgid: string, oracle: Oracle): (r: KeyResult)
    requires Covered(p)
    ensures Covered(r.project)
    ensures r.project.languages == p.languages && r.project.entries == p.entries
    ensures r.project.catalogs.Keys == p.catalogs.Keys
    ensures Missing(p, msgid) == [] ==> r == KeyResult(p, Skipped)
    ensures r.report.Skipped? ==> r.project == p && Missing(p, msgid) == []
    ensures var langs := Missing(p, msgid);
            langs != [] && oracle(msgid, langs).Failure? ==>
              r == KeyResult(p, ApiError(oracle(msgid, langs).message))
    ensures var langs := Missing(p, msgid);
            langs != [] && oracle(msgid, langs).Response? ==>
              && r.report == Applied
              && (forall l | l in p.catalogs && p.catalogs[l] == [] :: r.project.catalogs[l] == [])
              && forall l | l in p.catalogs && p.catalogs[l] != [] ::
                   r.project.catalogs[l] == UpsertAll(p.catalogs[l], msgid, TextsFor(oracle(msgid, langs).translations, l))
    ensures forall l, k | l in p.catalogs && k != msgid ::
              Lookup(r.project.catalogs[l], k) == Lookup(p.catalogs[l], k)
  {
    Translate(p, msgid, Missing(p, msgid), oracle)
  }

  /** `auto_translate_current`: `row` is the selected row, negative when
      none is selected. With no selection nothing happens; otherwise the
      selected key is translated for the languages that lack it. */
  function TranslateCurrent(p: Project, row: int, oracle: Oracle): (r: KeyResult)
    requires Covered(p) && row < |p.entries|
    ensures r.project.languages == p.languages && r.project.entries == p.entries
    ensures r.project.catalogs.Keys == p.catalogs.Keys
    ensures row < 0 ==> r == KeyResult(p, Skipped)
    ensures row >= 0 && Missing(p, p.entries[row]) == [] ==> r == KeyResult(p, Skipped)
    ensures row >= 0 ==>
              var key := p.entries[row];
              var langs := Missing(p, key);
              && (langs != [] && oracle(key, langs).Failure? ==>
                    r == KeyResult(p, ApiError(oracle(key, langs).message)))
              && (langs != [] && oracle(key, langs).Response? ==>
                    && r.report == Applied
                    && (forall l | l in p.catalogs && p.catalogs[l] == [] :: r.project.catalogs[l] == [])
                    && forall l | l in p.catalogs && p.catalogs[l] != [] ::
                         r.project.catalogs[l] == UpsertAll(p.catalogs[l], key, TextsFor(oracle(key, langs).translations, l)))
    ensures forall l, k | l in p.catalogs && (row < 0 || k != p.entries[row]) ::
              Lookup(r.project.catalogs[l], k) == Lookup(p.catalogs[l], k)
  {
    if row < 0 then KeyResult(p, Skipped)
    else TranslateMissing(p, p.entries[row], oracle)
  }

  /** The intended step: the missing-language computation followed by the
      corrected merge, in which every language with a catalog, empty or
      not, receives the texts the answer gives for it. */
  function TranslateIntended(p: Project, msgid: string, oracle: Oracle): (r: KeyResult)
    requires Covered(p)
    ensures Covered(r.project)
    ensures r.project.languages == p.languages && r.project.entries == p.entries
    ensures r.project.catalogs.Keys == p.catalogs.Keys
    ensures Missing(p, msgid) == [] ==> r == KeyResult(p, Skipped)
    ensures var langs := Missing(p, msgid);
            langs != [] && oracle(msgid, langs).Failure? ==>
              r == KeyResult(p, ApiError(oracle(msgid, langs).message))
    ensures var langs := Missing(p, msgid);
            langs != [] && oracle(msgid, langs).Response? ==>
              && r.report == Applied
              && forall l | l in p.catalogs ::
                   r.project.catalogs[l] == UpsertAll(p.catalogs[l], msgid, TextsFor(oracle(msgid, langs).translations, l))
  {
    var langs := Missing(p, msgid);
    if langs == [] then KeyResult(p, Skipped)
    else
      match oracle(msgid, langs)
      case Failure(message) => KeyResult(p, ApiError(message))
      case Response(ts) => KeyResult(Merge(p, msgid, ts), Applied)
  }

  /** Whether a language lacks the msgid after an answer was merged
      depends only on the last text the answer gives for it, or, when it
      gives none, on whether it lacked the msgid before. */
  lemma LacksAfterMerge(p: Project, msgid: string, ts: seq<Translation>, l: Lang)
    requires l in p.catalogs
    ensures TextsFor(ts, l) == [] ==>
              (Lacks(Merge(p, msgid, ts).catalogs[l], msgid) <==> Lacks(p.catalogs[l], msgid))
    ensures TextsFor(ts, l) != [] ==>
              (Lacks(Merge(p, msgid, ts).catalogs[l], msgid) <==> AllSpace(Last(TextsFor(ts, l))))
  {
    var texts := TextsFor(ts, l);
    var c := Merge(p, msgid, ts).catalogs[l];
    assert c == UpsertAll(p.catalogs[l], msgid, texts);
    if texts != [] {
      var t := Last(texts);
      assert Lookup(c, msgid) == Some(t);
      assert Lacks(c, msgid) <==> Strip(t) == "";
    }
  }

  /** The answer names every language of `langs` and gives no blank text. */
  predicate Covers(ts: seq<Translation>, langs: seq<Lang>)
  {
    && (forall i | 0 <= i < |ts| :: Strip(ts[i].text) != "")
    && forall l | l in langs :: exists i | 0 <= i < |ts| :: ts[i].language == l
  }

  /** After the corrected merge of a covering answer no language lacks the
      msgid. */
  lemma CoveringAnswerLeavesNothingMissing(p: Project, msgid: string, ts: seq<Translation>)
    requires Covered(p)
    requires Covers(ts, Missing(p, msgid))
    ensures Missing(Merge(p, msgid, ts), msgid) == []
  {
    var q := Merge(p, msgid, ts);
    forall l | l in p.languages
      ensures !Lacks(q.catalogs[l], msgid)
    {
      LacksAfterMerge(p, msgid, ts, l);
      var texts := TextsFor(ts, l);
      if texts != [] {
        var i :| 0 <= i < |ts| && ts[i].language == l && ts[i].text == texts[|texts| - 1];
        assert Strip(ts[i].text) != "";
      }
    }
    NoneMissing(q, msgid);
  }

  /** The same for the merge as written, when no missing language has an
      empty catalog: then every language's catalog is non-empty, and the
      merge as written agrees with the corrected one on all of them. */
  lemma CoveringAnswerAsWritten(p: Project, msgid: string, ts: seq<Translation>)
    requires Covered(p)
    requires Covers(ts, Missing(p, msgid))
    requires forall l | l in Missing(p, msgid) :: p.catalogs[l] != []
    ensures Missing(MergeAsWritten(p, msgid, ts), msgid) == []
  {
    var q := Merge(p, msgid, ts);
    var w := MergeAsWritten(p, msgid, ts);
    CoveringAnswerLeavesNothingMissing(p, msgid, ts);
    forall l | l in p.languages
      ensures !Lacks(w.catalogs[l], msgid)
    {
      assert !Lacks(q.catalogs[l], msgid);
      assert w.catalogs[l] == q.catalogs[l];
    }
    NoneMissing(w, msgid);
  }

  /** Re-translating as written is idempotent when no missing language has
      an empty catalog: if the answer gives a non-blank text for every
      missing language (and no blank text for any), no language lacks the
      msgid afterwards, so a second attempt asks nothing and changes
      nothing, whatever the oracle would say. */
  lemma RetranslateIsNoOp(p: Project, msgid: string, first: Oracle, second: Oracle)
    requires Covered(p)
    requires forall l | l in Missing(p, msgid) :: p.catalogs[l] != []
    requires var langs := Missing(p, msgid);
             langs != [] ==>
               && first(msgid, langs).Response?
               && Covers(first(msgid, langs).translations, langs)
    ensures var q := TranslateMissing(p, msgid, first).project;
            && Missing(q, msgid) == []
            && TranslateMissing(q, msgid, second) == KeyResult(q, Skipped)
  {
    var langs := Missing(p, msgid);
    var q := TranslateMissing(p, msgid, first).project;
    if langs == [] {
      assert q == p;
    } else {
      var ts := first(msgid, langs).translations;
      assert q == MergeAsWritten(p, msgid, ts);
      CoveringAnswerAsWritten(p, msgid, ts);
    }
  }

  /** With the corrected merge re-translating is idempotent without any
      condition on the catalogs: a covering answer fills every missing
      language, empty catalogs included. */
  lemma RetranslateIntendedIsNoOp(p: Project, msgid: string, first: Oracle, second: Oracle)
    requires Covered(p)
    requires var langs := Missing(p, msgid);
             langs != [] ==>
               && first(msgid, langs).Response?
               && Covers(first(msgid, langs).translations, langs)
    ensures var q := TranslateIntended(p, msgid, first).project;
            && Missing(q, msgid) == []
            && TranslateIntended(q, msgid, second) == KeyResult(q, Skipped)
  {
    var langs := Missing(p, msgid);
    var q := TranslateIntended(p, msgid, first).project;
    if langs == [] {
      assert q == p;
    } else {
      var ts := first(msgid, langs).translations;
      assert q == Merge(p, msgid, ts);
      CoveringAnswerLeavesNothingMissing(p, msgid, ts);
    }
  }
}
