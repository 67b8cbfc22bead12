/**
 The editor's project state (po_localizer_editor.py, class `PoEditor`):
 the discovered languages in discovery order, one catalog per language,
 and the reference key list `entries` that drives the key list of the
 window and the batch translation.
 */
module Editor {
  import opened Common
  import opened Text
  import opened Po

  type Lang = string

  datatype Project = Project(languages: seq<Lang>, catalogs: map<Lang, Catalog>, entries: seq<string>)

  /** Every listed language has a catalog, so the editor's `po_files[l]`
      never fails. */
  predicate Covered(p: Project)
  {
    forall l | l in p.languages :: l in p.catalogs
  }

  /** The languages and the catalogs name the same set of locales. */
  predicate Consistent(p: Project)
  {
    p.catalogs.Keys == set l | l in p.languages
  }

  // ---------------------------------------------------------------------
  // Loading
  // ---------------------------------------------------------------------

  /** The locale names of the discovered catalogs, in discovery order. */
  function Names(found: seq<(Lang, Catalog)>): (r: seq<Lang>)
    ensures |r| == |found|
    ensures forall i | 0 <= i < |found| :: r[i] == found[i].0
  {
    seq(|found|, i requires 0 <= i < |found| => found[i].0)
  }

  /** `po_files` after discovery: one catalog per name, a later catalog
      replacing an earlier one of the same name. */
  function Discovered(found: seq<(Lang, Catalog)>): (r: map<Lang, Catalog>)
    ensures r.Keys == set l | l in Names(found)
    ensures found != [] ==> r[found[|found| - 1].0] == found[|found| - 1].1
    ensures forall i | 0 <= i < |found| && (forall j | i < j < |found| :: found[j].0 != found[i].0) ::
              r[found[i].0] == found[i].1
  {
    if found == [] then map[]
    else
      var init := found[..|found| - 1];
      var m := Discovered(init);
      assert Names(found) == Names(init) + [found[|found| - 1].0];
      m[found[|found| - 1].0 := found[|found| - 1].1]
  }

  /** `load()` given the catalogs discovered on disk, in discovery order.
      The first discovered language is the reference: `entries` becomes the
      msgids of its catalog (obsolete entries included). When nothing is
      found the languages and catalogs are cleared but `entries` keeps its
      previous value, as in the code. */
  function Load(prev: Project, found: seq<(Lang, Catalog)>): (r: Project)
    ensures r.languages == Names(found)
    ensures Consistent(r) && Covered(r)
    ensures found == [] ==> r.catalogs == map[] && r.entries == prev.entries
    ensures found != [] ==>
              var ref := r.catalogs[r.languages[0]];
              && |r.entries| == |ref|
              && forall i | 0 <= i < |ref| :: r.entries[i] == ref[i].msgid
  {
    var names := Names(found);
    var catalogs := Discovered(found);
    if found == [] then Project([], map[], prev.entries)
    else
      assert names[0] == found[0].0;
      Project(names, catalogs, Msgids(catalogs[names[0]]))
  }

  /** With distinct locale names (directory names are), every discovered
      catalog is kept under its own name. */
  lemma {:induction false} DiscoveredKeepsEach(found: seq<(Lang, Catalog)>)
    requires Distinct(Names(found))
    ensures forall i | 0 <= i < |found| :: Discovered(found)[found[i].0] == found[i].1
  {
    if found != [] {
      var init := found[..|found| - 1];
      assert Distinct(Names(init)) by {
        forall i, j | 0 <= i < |init| && 0 <= j < |init| && i != j
          ensures Names(init)[i] != Names(init)[j]
        {
          assert Names(found)[i] != Names(found)[j];
        }
      }
      DiscoveredKeepsEach(init);
      forall i | 0 <= i < |found|
        ensures Discovered(found)[found[i].0] == found[i].1
      {
        if i < |init| {
          assert Names(found)[i] != Names(found)[|found| - 1];
          assert init[i] == found[i];
        }
      }
    }
  }

  /** After a load, the reference key list is the msgid list of the first
      discovered catalog, and every language maps to its own catalog. */
  lemma LoadReferenceOrder(prev: Project, found: seq<(Lang, Catalog)>)
    requires found != [] && Distinct(Names(found))
    ensures Load(prev, found).entries == Msgids(found[0].1)
    ensures forall i | 0 <= i < |found| :: Load(prev, found).catalogs[found[i].0] == found[i].1
  {
    DiscoveredKeepsEach(found);
  }

  // ---------------------------------------------------------------------
  // Missing translations
  // ---------------------------------------------------------------------

  /** Catalog `c` has no usable translation of `msgid`: the lookup finds
      no entry, or the entry's msgstr is empty once stripped. */
  predicate Lacks(c: Catalog, msgid: string)
  {
    match Lookup(c, msgid)
    case None => true
    case Some(s) => Strip(s) == ""
  }

  /** The languages that lack a translation of `msgid`, in the order of
      `languages` (the comprehension of `auto_translate_current` and
      `auto_translate_all`). */
  function Missing(p: Project, msgid: string): (r: seq<Lang>)
    requires Covered(p)
    ensures forall l :: l in r <==> l in p.languages && Lacks(p.catalogs[l], msgid)
    ensures forall l | l in r :: Lookup(p.catalogs[l], msgid).None? || AllSpace(Lookup(p.catalogs[l], msgid).value)
    ensures IsSubsequence(r, p.languages)
    ensures forall l | l in p.languages && Lacks(p.catalogs[l], msgid) :: multiset(r)[l] == multiset(p.languages)[l]
  {
    Filter(p.languages, l => l in p.catalogs && Lacks(p.catalogs[l], msgid))
  }

  /** When no language lacks the msgid, nothing is missing. */
  lemma NoneMissing(p: Project, msgid: string)
    requires Covered(p)
    requires forall l | l in p.languages :: !Lacks(p.catalogs[l], msgid)
    ensures Missing(p, msgid) == []
  {
  }

  // ---------------------------------------------------------------------
  // Key well-formedness
  // ---------------------------------------------------------------------

  /** No two live entries of a catalog share a msgid. */
  predicate LiveKeysDistinct(c: Catalog)
  {
    forall i, j | 0 <= i < |c| && 0 <= j < |c| && i != j && !c[i].obsolete && !c[j].obsolete ::
      c[i].msgid != c[j].msgid
  }

  /** Every live msgid of the catalog is a reference key. */
  predicate LiveKeysListed(c: Catalog, keys: seq<string>)
  {
    forall i | 0 <= i < |c| && !c[i].obsolete :: c[i].msgid in keys
  }

  /** The synchronised state: reference keys are unique, and every catalog
      holds each of its live keys once and only keys of the reference list. */
  predicate WellKeyed(p: Project)
  {
    && Distinct(p.entries)
    && forall l | l in p.catalogs :: LiveKeysDistinct(p.catalogs[l]) && LiveKeysListed(p.catalogs[l], p.entries)
  }
}
