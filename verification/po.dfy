/**
 The part of the gettext catalog library (polib) that the editor relies on,
 over an abstract in-memory catalog: entries, lookup by msgid, in-place
 update of a msgstr, appending and removing entries, and the
 "translated" test.

 Assumptions about the library (its source is not part of this model):
 - lookup by msgid skips obsolete entries, as the library does by default,
   and ignores message contexts; when several live entries share a msgid it
   returns one of them, taken here as the first;
 - an entry is translated when it is neither obsolete nor fuzzy and its
   msgstr is non-empty (plural forms are not modelled);
 - a freshly constructed entry has no flags and is not obsolete.
 */
module Po {
  import opened Common

  /** One message of a catalog. */
  datatype Entry = Entry(msgid: string, msgstr: string, flags: seq<string>, obsolete: bool)

  /** A catalog in file order. */
  type Catalog = seq<Entry>

  /** The entry built for a translation that the catalog did not hold yet. */
  function NewEntry(msgid: string, msgstr: string): (e: Entry)
    ensures e.msgid == msgid && e.msgstr == msgstr
    ensures !e.obsolete && e.flags == []
  {
    Entry(msgid, msgstr, [], false)
  }

  predicate Fuzzy(e: Entry)
  {
    "fuzzy" in e.flags
  }

  predicate Translated(e: Entry)
  {
    !e.obsolete && !Fuzzy(e) && e.msgstr != ""
  }

  predicate IsLive(e: Entry)
  {
    !e.obsolete
  }

  /** The entry is what a lookup for `msgid` may return. */
  predicate Matches(e: Entry, msgid: string)
  {
    !e.obsolete && e.msgid == msgid
  }

  /** The msgids of a catalog, in file order (obsolete entries included). */
  function Msgids(c: Catalog): (ids: seq<string>)
    ensures |ids| == |c|
    ensures forall i | 0 <= i < |c| :: ids[i] == c[i].msgid
  {
    seq(|c|, i requires 0 <= i < |c| => c[i].msgid)
  }

  /** Position of the first live entry for `msgid`, if any. */
  function FindIndex(c: Catalog, msgid: string): (r: Option<nat>)
    ensures r.Some? ==> r.value < |c| && Matches(c[r.value], msgid)
    ensures r.Some? ==> forall j | 0 <= j < r.value :: !Matches(c[j], msgid)
    ensures r.None? <==> forall j | 0 <= j < |c| :: !Matches(c[j], msgid)
  {
    if c == [] then None
    else if Matches(c[0], msgid) then Some(0)
    else
      match FindIndex(c[1..], msgid)
      case None => None
      case Some(i) => Some(i + 1)
  }

  /** The msgstr of the entry a lookup for `msgid` finds: the first live
      entry with that msgid. */
  function Lookup(c: Catalog, msgid: string): (r: Option<string>)
    ensures r.None? <==> forall j | 0 <= j < |c| :: !Matches(c[j], msgid)
    ensures r.Some? ==>
              exists j | 0 <= j < |c| ::
                && Matches(c[j], msgid)
                && c[j].msgstr == r.value
                && forall i | 0 <= i < j :: !Matches(c[i], msgid)
  {
    match FindIndex(c, msgid)
    case None => None
    case Some(i) => Some(c[i].msgstr)
  }

  /** The first live match is at `i`. */
  lemma FindIndexAt(c: Catalog, msgid: string, i: nat)
    requires i < |c| && Matches(c[i], msgid)
    requires forall j | 0 <= j < i :: !Matches(c[j], msgid)
    ensures FindIndex(c, msgid) == Some(i)
  {
  }

  /** A lookup sees only which entries match, so two catalogs that match
      `msgid` at the same positions find it at the same position. */
  lemma FindIndexSamePattern(c: Catalog, d: Catalog, msgid: string)
    requires |c| == |d|
    requires forall j | 0 <= j < |c| :: Matches(c[j], msgid) == Matches(d[j], msgid)
    ensures FindIndex(c, msgid) == FindIndex(d, msgid)
  {
    match FindIndex(c, msgid)
    case None =>
    case Some(i) => FindIndexAt(d, msgid, i);
  }

  /** Appending an entry only matters to a lookup that found nothing before. */
  lemma FindIndexAppend(c: Catalog, e: Entry, msgid: string)
    ensures FindIndex(c + [e], msgid) ==
      if FindIndex(c, msgid).Some? then FindIndex(c, msgid)
      else if Matches(e, msgid) then Some(|c|)
      else None
  {
    var d := c + [e];
    match FindIndex(c, msgid)
    case Some(i) =>
      FindIndexAt(d, msgid, i);
    case None =>
      if Matches(e, msgid) {
        FindIndexAt(d, msgid, |c|);
      } else {
        assert forall j | 0 <= j < |d| :: !Matches(d[j], msgid) by {
          forall j | 0 <= j < |d|
            ensures !Matches(d[j], msgid)
          {
            if j < |c| {
              assert d[j] == c[j];
            }
          }
        }
      }
  }

  /** Assigning the msgstr of the entry found for `msgid` (the library's
      `find` followed by `entry.msgstr = s`); nothing happens when no entry
      is found. */
  function SetMsgstr(c: Catalog, msgid: string, s: string): (r: Catalog)
    ensures |r| == |c|
    ensures FindIndex(c, msgid).None? ==> r == c
    ensures FindIndex(c, msgid).Some? ==>
              var i := FindIndex(c, msgid).value;
              && r[i] == c[i].(msgstr := s)
              && forall j | 0 <= j < |c| && j != i :: r[j] == c[j]
  {
    match FindIndex(c, msgid)
    case None => c
    case Some(i) => c[i := c[i].(msgstr := s)]
  }

  /** After the assignment the lookup for `msgid` yields `s` if the entry
      existed, and every other lookup is as before. */
  lemma SetMsgstrLookup(c: Catalog, msgid: string, s: string)
    ensures FindIndex(c, msgid).Some? ==> Lookup(SetMsgstr(c, msgid, s), msgid) == Some(s)
    ensures forall k | k != msgid :: Lookup(SetMsgstr(c, msgid, s), k) == Lookup(c, k)
    ensures forall k :: FindIndex(SetMsgstr(c, msgid, s), k) == FindIndex(c, k)
  {
    var r := SetMsgstr(c, msgid, s);
    forall k
      ensures FindIndex(r, k) == FindIndex(c, k)
    {
      FindIndexSamePattern(c, r, k);
    }
  }

  /** Position of the first element equal to `x`, if any (Python's
      `list.index`, with `None` for its `ValueError`). */
  function IndexOf(c: Catalog, x: Entry): (r: Option<nat>)
    ensures r.None? <==> x !in c
    ensures r.Some? ==> r.value < |c| && c[r.value] == x
    ensures r.Some? ==> forall j | 0 <= j < r.value :: c[j] != x
  {
    if c == [] then None
    else if c[0] == x then Some(0)
    else
      assert c == [c[0]] + c[1..];
      match IndexOf(c[1..], x)
      case None => None
      case Some(i) => Some(i + 1)
  }

  /** Python's `list.remove(x)`: drops the first element equal to `x`
      (the library's `remove` is the list operation); `None` stands for the
      `ValueError` it raises when no element equals `x`. */
  function RemoveFirst(c: Catalog, x: Entry): (r: Option<Catalog>)
    ensures r.None? <==> x !in c
    ensures r.Some? ==>
              exists i | 0 <= i < |c| ::
                && c[i] == x
                && (forall j | 0 <= j < i :: c[j] != x)
                && r.value == c[..i] + c[i + 1..]
    ensures r.Some? ==> |r.value| == |c| - 1 && multiset(r.value) == multiset(c) - multiset{x}
  {
    match IndexOf(c, x)
    case None => None
    case Some(i) =>
      assert c == c[..i] + [c[i]] + c[i + 1..];
      Some(c[..i] + c[i + 1..])
  }
}
