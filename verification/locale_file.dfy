/**
 One catalog file of a locale (core/localemanager.py, class `LocaleFile`):
 the loaded entries plus a `modified` flag that records whether the
 in-memory entries differ from what was last persisted.

 The file path and the library's load and save are I/O; persisting is an
 abstract action whose outcome (the disk accepted the write or not) is a
 parameter.
 */
module LocaleFiles {
  import opened Common
  import opened Po

  datatype LocaleFile = LocaleFile(entries: Catalog, modified: bool)

  /** What a save did on disk. */
  datatype Write =
    | NoWrite                       // nothing was modified, nothing written
    | Wrote(content: Catalog)       // these entries were persisted
    | WriteFailed(content: Catalog) // the write of these entries raised

  datatype SaveResult = SaveResult(file: LocaleFile, write: Write)

  /** `get(msgid)`: the msgstr of the entry the lookup finds, or nothing. */
  function Get(f: LocaleFile, msgid: string): (r: Option<string>)
    ensures r.None? <==> forall j | 0 <= j < |f.entries| :: !Matches(f.entries[j], msgid)
    ensures r.Some? ==>
              exists i | 0 <= i < |f.entries| ::
                && Matches(f.entries[i], msgid)
                && f.entries[i].msgstr == r.value
                && forall j | 0 <= j < i :: !Matches(f.entries[j], msgid)
  {
    Lookup(f.entries, msgid)
  }

  /** `set(msgid, msgstr)`: overwrites the msgstr of the entry the lookup
      finds, and nothing else of any entry, and marks the file modified;
      silently does nothing when there is no such entry. */
  function Set(f: LocaleFile, msgid: string, msgstr: string): (r: LocaleFile)
    ensures Get(f, msgid).None? ==> r == f
    ensures Get(f, msgid).Some? ==>
              && r.modified
              && Get(r, msgid) == Some(msgstr)
              && |r.entries| == |f.entries|
              && forall i | 0 <= i < |f.entries| ::
                   && r.entries[i].msgid == f.entries[i].msgid
                   && r.entries[i].flags == f.entries[i].flags
                   && r.entries[i].obsolete == f.entries[i].obsolete
    ensures FindIndex(f.entries, msgid).Some? ==>
              var i := FindIndex(f.entries, msgid).value;
              && r.entries[i] == f.entries[i].(msgstr := msgstr)
              && forall j | 0 <= j < |f.entries| && j != i :: r.entries[j] == f.entries[j]
    ensures forall k | k != msgid :: Get(r, k) == Get(f, k)
  {
    SetMsgstrLookup(f.entries, msgid, msgstr);
    match FindIndex(f.entries, msgid)
    case None => f
    case Some(_) => LocaleFile(SetMsgstr(f.entries, msgid, msgstr), true)
  }

  /** `save()`: writes the entries only when the file is modified and then
      clears the flag. When the write raises, the exception leaves the flag
      set, so the edits can be saved again. */
  function Save(f: LocaleFile, diskAccepts: bool): (r: SaveResult)
    ensures r.file.entries == f.entries
    ensures !f.modified ==> r.file == f && r.write == NoWrite
    ensures f.modified && diskAccepts ==> !r.file.modified && r.write == Wrote(f.entries)
    ensures f.modified && !diskAccepts ==> r.file == f && r.write == WriteFailed(f.entries)
  {
    if !f.modified then SaveResult(f, NoWrite)
    else if diskAccepts then SaveResult(f.(modified := false), Wrote(f.entries))
    else SaveResult(f, WriteFailed(f.entries))
  }

  /** A successful save followed by another save with no `set` in between:
      the second one writes nothing and changes nothing. */
  lemma SaveTwiceWritesOnce(f: LocaleFile, first: bool, second: bool)
    requires first
    ensures var g := Save(f, first).file;
            && !g.modified
            && Save(g, second) == SaveResult(g, NoWrite)
  {
  }

  /** Entries that still need work: not translated, or flagged fuzzy. */
  predicate NeedsWork(e: Entry)
  {
    !Translated(e) || Fuzzy(e)
  }

  /** `untranslated()`: exactly the entries that are not translated or are
      fuzzy, in file order and with their multiplicities. */
  function Untranslated(f: LocaleFile): (r: seq<Entry>)
    ensures IsSubsequence(r, f.entries)
    ensures forall e :: e in r <==> e in f.entries && (!Translated(e) || Fuzzy(e))
    ensures forall e | e in f.entries && Fuzzy(e) :: e in r
    ensures forall e | e in f.entries && e.obsolete :: e in r
    ensures forall e :: multiset(r)[e] == if Translated(e) then 0 else multiset(f.entries)[e]
  {
    Filter(f.entries, NeedsWork)
  }
}
