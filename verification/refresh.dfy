/**
 The obsolete purge of the catalog refresh (po_localizer_editor.py,
 `PoEditor.refresh_catalog`, the branch taken when the `msgattrib` tool is
 not installed): every entry the library lists as obsolete is removed from
 the catalog, one `remove` call per listed entry.
 */
module Refresh {
  import opened Common
  import opened Po

  predicate IsObsolete(e: Entry)
  {
    e.obsolete
  }

  /** The library's `obsolete_entries()`: the obsolete entries in file order. */
  function ObsoleteEntries(c: Catalog): (r: seq<Entry>)
    ensures forall e :: e in r <==> e in c && e.obsolete
    ensures forall e :: multiset(r)[e] == if e.obsolete then multiset(c)[e] else 0
    ensures IsSubsequence(r, c)
  {
    Filter(c, IsObsolete)
  }

  /** `for e in xs: c.remove(e)`; `None` when one of the removals raises
      because its element is no longer in the catalog. The loop gets through
      exactly when `xs` is contained in `c`, counting repetitions, and then
      leaves `c` with one copy of each element of `xs` taken out. */
  function RemoveEach(c: Catalog, xs: seq<Entry>): (r: Option<Catalog>)
    ensures r.Some? <==> multiset(xs) <= multiset(c)
    ensures r.Some? ==> multiset(r.value) + multiset(xs) == multiset(c)
    decreases |xs|
  {
    if xs == [] then Some(c)
    else
      assert xs == [xs[0]] + xs[1..];
      assert multiset(xs) == multiset{xs[0]} + multiset(xs[1..]);
      match RemoveFirst(c, xs[0])
      case None =>
        assert multiset(c)[xs[0]] == 0 < multiset(xs)[xs[0]];
        None
      case Some(d) =>
        assert multiset(d) == multiset(c) - multiset{xs[0]};
        assert multiset(c)[xs[0]] > 0;
        RemoveEach(d, xs[1..])
  }

  /** The purge loop applied to one catalog: no removal raises, and
      afterwards no entry is obsolete, every live entry is still there, in
      its original relative order and with its multiplicity. */
  function PurgeObsolete(c: Catalog): (r: Catalog)
    ensures RemoveEach(c, ObsoleteEntries(c)) == Some(r)
    ensures forall i | 0 <= i < |r| :: !r[i].obsolete
    ensures forall e | e in c && !e.obsolete :: e in r
    ensures IsSubsequence(r, c)
    ensures forall e :: multiset(r)[e] == if e.obsolete then 0 else multiset(c)[e]
  {
    PurgeIsFilter(c);
    LiveFilter(c);
    RemoveEach(c, ObsoleteEntries(c)).value
  }

  /** What keeping the live entries keeps. */
  lemma LiveFilter(c: Catalog)
    ensures var r := Filter(c, IsLive);
            && (forall i | 0 <= i < |r| :: !r[i].obsolete)
            && (forall e | e in c && !e.obsolete :: e in r)
            && IsSubsequence(r, c)
            && forall e :: multiset(r)[e] == if e.obsolete then 0 else multiset(c)[e]
  {
    var r := Filter(c, IsLive);
    forall i | 0 <= i < |r|
      ensures !r[i].obsolete
    {
      assert r[i] in r;
      assert IsLive(r[i]);
    }
    forall e
      ensures multiset(r)[e] == if e.obsolete then 0 else multiset(c)[e]
    {
      assert IsLive(e) == !e.obsolete;
    }
  }

  /** Removing obsolete entries never touches a live entry standing in
      front, and raises exactly when it raises without that entry. */
  lemma {:induction false} RemoveEachSkipsLiveHead(x: Entry, t: Catalog, xs: seq<Entry>)
    requires !x.obsolete
    requires forall y | y in xs :: y.obsolete
    ensures RemoveEach([x] + t, xs) ==
              match RemoveEach(t, xs)
              case None => None
              case Some(u) => Some([x] + u)
    decreases |xs|
  {
    if xs != [] {
      var c := [x] + t;
      assert c[0] == x && c[1..] == t;
      assert xs[0] != x;
      assert RemoveFirst(c, xs[0]) ==
               match RemoveFirst(t, xs[0])
               case None => None
               case Some(d) => Some([x] + d)
      by {
        RemoveFirstSkipsHead(x, t, xs[0]);
      }
      match RemoveFirst(t, xs[0])
      case None =>
      case Some(d) =>
        RemoveEachSkipsLiveHead(x, d, xs[1..]);
    }
  }

  /** `remove` of the head element drops the head. */
  lemma RemoveFirstHead(x: Entry, t: Catalog)
    ensures RemoveFirst([x] + t, x) == Some(t)
  {
    var c := [x] + t;
    assert IndexOf(c, x) == Some(0);
    assert c[..0] + c[1..] == t;
  }

  /** `remove` of an element different from the head leaves the head alone. */
  lemma RemoveFirstSkipsHead(x: Entry, t: Catalog, y: Entry)
    requires x != y
    ensures RemoveFirst([x] + t, y) ==
              match RemoveFirst(t, y)
              case None => None
              case Some(d) => Some([x] + d)
  {
    var c := [x] + t;
    assert c[0] == x && c[1..] == t;
    match IndexOf(t, y)
    case None =>
      assert IndexOf(c, y) == None;
    case Some(i) =>
      RemoveAfterHead(x, t, y, i);
  }

  lemma RemoveAfterHead(x: Entry, t: Catalog, y: Entry, i: nat)
    requires x != y && IndexOf(t, y) == Some(i)
    ensures RemoveFirst(t, y) == Some(t[..i] + t[i + 1..])
    ensures RemoveFirst([x] + t, y) == Some([x] + (t[..i] + t[i + 1..]))
  {
    var c := [x] + t;
    assert c[0] == x && c[1..] == t;
    assert IndexOf(c, y) == Some(i + 1);
    assert c[..i + 1] + c[i + 2..] == [x] + (t[..i] + t[i + 1..]);
  }

  /** The purge loop removes exactly the obsolete entries: it gets through
      without raising and equals the order-preserving filter on live
      entries. */
  lemma {:induction false} PurgeIsFilter(c: Catalog)
    ensures RemoveEach(c, ObsoleteEntries(c)) == Some(Filter(c, IsLive))
    decreases |c|
  {
    if c != [] {
      var x, t := c[0], c[1..];
      assert c == [x] + t;
      PurgeIsFilter(t);
      if x.obsolete {
        var xs := ObsoleteEntries(c);
        assert xs == [x] + ObsoleteEntries(t);
        assert xs[0] == x && xs[1..] == ObsoleteEntries(t);
        RemoveFirstHead(x, t);
        assert RemoveEach(c, xs) == RemoveEach(t, ObsoleteEntries(t));
        assert Filter(c, IsLive) == Filter(t, IsLive);
      } else {
        assert ObsoleteEntries(c) == ObsoleteEntries(t);
        RemoveEachSkipsLiveHead(x, t, ObsoleteEntries(t));
      }
    }
  }

  /** Purging twice is purging once. */
  lemma PurgeIdempotent(c: Catalog)
    ensures PurgeObsolete(PurgeObsolete(c)) == PurgeObsolete(c)
  {
    var r := PurgeObsolete(c);
    FilterKeepsAll(r, IsLive);
    PurgeIsFilter(r);
  }

  /** Filtering with a predicate every element satisfies changes nothing. */
  lemma {:induction false} FilterKeepsAll(s: seq<Entry>, keep: Entry -> bool)
    requires forall i | 0 <= i < |s| :: keep(s[i])
    ensures Filter(s, keep) == s
  {
    if s != [] {
      FilterKeepsAll(s[1..], keep);
      assert s == [s[0]] + s[1..];
    }
  }
}
