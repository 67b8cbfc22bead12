/**
 Renaming a msgid across every locale (po_localizer_editor.py,
 `PoEditor.rename_msgid`). The selected row and the typed text come from
 the window; the rename itself is in memory only.
 */
module Rename {
  import opened Common
  import opened Text
  import opened Po
  import opened Editor

  /** In one catalog: the entry the lookup finds for `oldKey` gets msgid `newKey`;
      a catalog without a live `oldKey` is left alone. */
  function RenameIn(c: Catalog, oldKey: string, newKey: string): (r: Catalog)
    ensures |r| == |c|
    ensures FindIndex(c, oldKey).None? ==> r == c
    ensures FindIndex(c, oldKey).Some? ==>
              var i := FindIndex(c, oldKey).value;
              && r[i] == c[i].(msgid := newKey)
              && forall j | 0 <= j < |c| && j != i :: r[j] == c[j]
  {
    match FindIndex(c, oldKey)
    case None => c
    case Some(i) => c[i := c[i].(msgid := newKey)]
  }

  /** Seen through lookups: when `newKey` was not a live key of the catalog,
      looking up `newKey` afterwards yields what looking up `oldKey` yielded
      before, and every key other than `oldKey` and `newKey` reads as before. */
  lemma RenameInLookup(c: Catalog, oldKey: string, newKey: string)
    requires oldKey != newKey
    requires forall j | 0 <= j < |c| :: !Matches(c[j], newKey)
    ensures Lookup(RenameIn(c, oldKey, newKey), newKey) == Lookup(c, oldKey)
    ensures forall k | k != oldKey && k != newKey :: Lookup(RenameIn(c, oldKey, newKey), k) == Lookup(c, k)
  {
    var r := RenameIn(c, oldKey, newKey);
    match FindIndex(c, oldKey)
    case None =>
    case Some(i) =>
      assert forall j | 0 <= j < i :: !Matches(r[j], newKey) by {
        forall j | 0 <= j < i
          ensures !Matches(r[j], newKey)
        {
          assert r[j] == c[j];
        }
      }
      FindIndexAt(r, newKey, i);
    forall k | k != oldKey && k != newKey
      ensures Lookup(r, k) == Lookup(c, k)
    {
      FindIndexSamePattern(c, r, k);
    }
  }

  /** `rename_msgid`: `row` is the selected row (negative when none is
      selected) and `typed` the text of the msgid field. */
  function RenameMsgid(p: Project, row: int, typed: string): (r: Project)
    requires row < |p.entries|
    ensures r.languages == p.languages && r.catalogs.Keys == p.catalogs.Keys
    // rejected renames change nothing
    ensures row < 0 ==> r == p
    ensures row >= 0 && p.entries[row] == "" ==> r == p
    ensures Strip(typed) == "" ==> r == p
    ensures row >= 0 && Strip(typed) == p.entries[row] ==> r == p
    ensures Strip(typed) in p.entries ==> r == p
    // an accepted rename rewrites the key everywhere it is found
    ensures row >= 0 && p.entries[row] != "" && Strip(typed) != "" && Strip(typed) !in p.entries ==>
              && |r.entries| == |p.entries|
              && r.entries[row] == Strip(typed)
              && (forall j | 0 <= j < |p.entries| && j != row :: r.entries[j] == p.entries[j])
              && forall l | l in p.catalogs :: r.catalogs[l] == RenameIn(p.catalogs[l], p.entries[row], Strip(typed))
  {
    var newKey := Strip(typed);
    if row < 0 then p
    else
      var oldKey := p.entries[row];
      if oldKey == "" || newKey == "" || newKey == oldKey || newKey in p.entries then p
      else
        Project(p.languages,
                map l | l in p.catalogs :: RenameIn(p.catalogs[l], oldKey, newKey),
                p.entries[row := newKey])
  }

  /** An accepted rename keeps the synchronised state: keys stay unique in
      the reference list and in every catalog, and every live key of a
      catalog stays a reference key. */
  lemma RenamePreservesWellKeyed(p: Project, row: int, typed: string)
    requires row < |p.entries|
    requires WellKeyed(p)
    ensures WellKeyed(RenameMsgid(p, row, typed))
  {
    var r := RenameMsgid(p, row, typed);
    var newKey := Strip(typed);
    if row >= 0 && p.entries[row] != "" && newKey != "" && newKey !in p.entries {
      var oldKey := p.entries[row];
      assert Distinct(r.entries) by {
        forall i, j | 0 <= i < |r.entries| && 0 <= j < |r.entries| && i != j
          ensures r.entries[i] != r.entries[j]
        {
          if i != row && j != row {
            assert p.entries[i] != p.entries[j];
          } else if i == row {
            assert p.entries[j] in p.entries;
          } else {
            assert p.entries[i] in p.entries;
          }
        }
      }
      forall l | l in r.catalogs
        ensures LiveKeysDistinct(r.catalogs[l]) && LiveKeysListed(r.catalogs[l], r.entries)
      {
        RenameInKeepsKeys(p.catalogs[l], p.entries, row, newKey);
      }
    }
  }

  /** The per-catalog half of `RenamePreservesWellKeyed`. */
  lemma RenameInKeepsKeys(c: Catalog, keys: seq<string>, row: nat, newKey: string)
    requires row < |keys|
    requires Distinct(keys) && newKey !in keys
    requires LiveKeysDistinct(c) && LiveKeysListed(c, keys)
    ensures var r := RenameIn(c, keys[row], newKey);
            LiveKeysDistinct(r) && LiveKeysListed(r, keys[row := newKey])
  {
    var oldKey := keys[row];
    var r := RenameIn(c, oldKey, newKey);
    var keys' := keys[row := newKey];
    match FindIndex(c, oldKey)
    case None =>
      forall i | 0 <= i < |c| && !c[i].obsolete
        ensures c[i].msgid in keys'
      {
        var m :| 0 <= m < |keys| && keys[m] == c[i].msgid;
        assert m != row;
        assert keys'[m] == c[i].msgid;
      }
    case Some(k) =>
      forall i, j | 0 <= i < |r| && 0 <= j < |r| && i != j && !r[i].obsolete && !r[j].obsolete
        ensures r[i].msgid != r[j].msgid
      {
        if i == k {
          assert c[j].msgid in keys;
        } else if j == k {
          assert c[i].msgid in keys;
        } else {
          assert c[i].msgid != c[j].msgid;
        }
      }
      forall i | 0 <= i < |r| && !r[i].obsolete
        ensures r[i].msgid in keys'
      {
        if i == k {
          assert keys'[row] == newKey;
        } else {
          assert c[i].msgid != c[k].msgid;
          var m :| 0 <= m < |keys| && keys[m] == c[i].msgid;
          assert m != row;
          assert keys'[m] == c[i].msgid;
        }
      }
  }
}
