/** The changelog window: an append-only list of release-note sections, the
    decision whether to open from the persisted "last seen version", the
    newest-first header traversal and the acknowledgement button. */
module Widgets {
  import opened ChangelogEntry

  /** C#'s `int.MaxValue`: the host returns it when no version was ever recorded. */
  const FreshInstallVersion: int := 0x7FFF_FFFF

  /** One version's notes: its title and its entries in the order they were added. */
  datatype Section = Section(title: string, entries: seq<Entry>)

  // ---------------------------------------------------------------------
  // The builder, stated as a reference over the calls that built it

  /** One registration call of the builder. */
  datatype Registration = NewVersion(title: string) | Add(entry: Entry)

  /** A history that never adds an entry before the first version. */
  predicate WellFormed(h: seq<Registration>)
  {
    h == [] || h[0].NewVersion?
  }

  /** Number of `NextVersion` calls in `h`. */
  function VersionCount(h: seq<Registration>): nat
  {
    if h == [] then 0 else (if h[0].NewVersion? then 1 else 0) + VersionCount(h[1..])
  }

  /** The entries added before the next version starts. */
  function Pending(h: seq<Registration>): seq<Entry>
  {
    if h == [] || h[0].NewVersion? then [] else [h[0].entry] + Pending(h[1..])
  }

  /** Reference meaning of a history: one section per `NextVersion`, holding
      exactly the entries added after it and before the next one. */
  function Sections(h: seq<Registration>): seq<Section>
  {
    if h == [] then []
    else if h[0].NewVersion? then [Section(h[0].title, Pending(h[1..]))] + Sections(h[1..])
    else Sections(h[1..])
  }

  /** Every entry added, in order. */
  function AddedEntries(h: seq<Registration>): seq<Entry>
  {
    if h == [] then [] else (if h[0].Add? then [h[0].entry] else []) + AddedEntries(h[1..])
  }

  /** All the sections' entries, one section after the other. */
  function Flatten(ss: seq<Section>): seq<Entry>
  {
    if ss == [] then [] else ss[0].entries + Flatten(ss[1..])
  }

  /** `ss` with `e` appended to its last section. */
  function AddToLast(ss: seq<Section>, e: Entry): (r: seq<Section>)
    requires |ss| > 0
    ensures |r| == |ss| && r[..|ss| - 1] == ss[..|ss| - 1]
    ensures r[|ss| - 1] == Section(ss[|ss| - 1].title, ss[|ss| - 1].entries + [e])
  {
    ss[..|ss| - 1] + [Section(ss[|ss| - 1].title, ss[|ss| - 1].entries + [e])]
  }

  /** There is one section per `NextVersion` call. */
  lemma {:induction false} SectionCount(h: seq<Registration>)
    ensures |Sections(h)| == VersionCount(h)
  {
    if h != [] {
      SectionCount(h[1..]);
    }
  }

  lemma {:induction false} PendingAfterVersion(h: seq<Registration>, t: string)
    ensures Pending(h + [NewVersion(t)]) == Pending(h)
  {
    if h != [] {
      assert (h + [NewVersion(t)])[1..] == h[1..] + [NewVersion(t)];
      PendingAfterVersion(h[1..], t);
    }
  }

  lemma {:induction false} PendingAfterAdd(h: seq<Registration>, e: Entry)
    ensures Pending(h + [Add(e)]) == if VersionCount(h) > 0 then Pending(h) else Pending(h) + [e]
  {
    if h != [] {
      assert (h + [Add(e)])[1..] == h[1..] + [Add(e)];
      PendingAfterAdd(h[1..], e);
    }
  }

  /** `NextVersion` appends an empty section and changes no other. */
  lemma {:induction false} SectionsAfterVersion(h: seq<Registration>, t: string)
    ensures Sections(h + [NewVersion(t)]) == Sections(h) + [Section(t, [])]
  {
    if h == [] {
      assert [NewVersion(t)][1..] == [];
    } else {
      assert (h + [NewVersion(t)])[1..] == h[1..] + [NewVersion(t)];
      SectionsAfterVersion(h[1..], t);
      PendingAfterVersion(h[1..], t);
    }
  }

  /** Adding an entry extends the last section only; before any version it is lost. */
  lemma {:induction false} SectionsAfterAdd(h: seq<Registration>, e: Entry)
    ensures VersionCount(h) == 0 ==> Sections(h + [Add(e)]) == []
    ensures VersionCount(h) > 0 ==> |Sections(h)| > 0 && Sections(h + [Add(e)]) == AddToLast(Sections(h), e)
  {
    SectionCount(h);
    if h == [] {
      assert [Add(e)][1..] == [];
    } else {
      assert (h + [Add(e)])[1..] == h[1..] + [Add(e)];
      SectionsAfterAdd(h[1..], e);
      SectionCount(h[1..]);
      PendingAfterAdd(h[1..], e);
      if h[0].NewVersion? {
        var head := Section(h[0].title, Pending(h[1..]));
        if VersionCount(h[1..]) > 0 {
          var rest := Sections(h[1..]);
          assert Sections(h) == [head] + rest;
          assert AddToLast([head] + rest, e) == [head] + AddToLast(rest, e);
        }
      }
    }
  }

  /** Concatenating the sections' entries gives every added entry, in order. */
  lemma {:induction false} FlattenSections(h: seq<Registration>)
    requires WellFormed(h)
    ensures Flatten(Sections(h)) == AddedEntries(h)
  {
    if h != [] {
      FlattenFrom(h[1..]);
      assert Flatten(Sections(h)) == Pending(h[1..]) + Flatten(Sections(h[1..]));
    }
  }

  lemma {:induction false} FlattenFrom(h: seq<Registration>)
    ensures Pending(h) + Flatten(Sections(h)) == AddedEntries(h)
  {
    if h != [] {
      FlattenFrom(h[1..]);
      if h[0].NewVersion? {
        assert Flatten(Sections(h)) == Pending(h[1..]) + Flatten(Sections(h[1..]));
      } else {
        assert Pending(h) + Flatten(Sections(h))
            == [h[0].entry] + (Pending(h[1..]) + Flatten(Sections(h[1..])));
      }
    }
  }

  // ---------------------------------------------------------------------
  // Open-state decision and header expansion

  /** What `PreOpenCheck` decides: whether the window opens, and the value it
      writes back through the host's setter, if any. */
  datatype OpenCheck = OpenCheck(open: bool, write: Option<int>)

  /** The decision for a persisted value `last`, `count` sections and the
      host's force-open flag. */
  function Decide(last: int, count: nat, force: bool): (d: OpenCheck)
    ensures d.write.Some? ==> !d.open && d.write.value == count
    ensures d.write.None? <==> last != FreshInstallVersion
    ensures d.open ==> force || last < count
  {
    if last == FreshInstallVersion then OpenCheck(false, Some(count))
    else OpenCheck(force || last < count, None)
  }

  /** The persisted value after a decision. */
  function Persisted(last: int, d: OpenCheck): int
  {
    if d.write.Some? then d.write.value else last
  }

  /** A section is unseen when its index is at least the acknowledged value. */
  predicate Unseen(idx: nat, last: int)
  {
    idx >= last
  }

  /** Unless there are no sections and the stored value is negative, the
      window opens unforced exactly when some section is unseen; a fresh
      install never opens. */
  lemma OpensIffUnseenSection(last: int, count: nat)
    requires last >= 0 || count > 0
    ensures Decide(last, count, false).open <==>
      last != FreshInstallVersion && exists idx :: 0 <= idx < count && Unseen(idx, last)
  {
    if last != FreshInstallVersion && last < count {
      var idx := if last >= 0 then last else 0;
      assert 0 <= idx < count && Unseen(idx, last);
    }
  }

  /** A second check over the same sections writes nothing, and opens as the
      first did, except that a forced open suppressed by a fresh install now happens. */
  lemma RecheckIsStable(last: int, count: nat, force: bool)
    requires count != FreshInstallVersion
    ensures var d := Decide(last, count, force);
      var d' := Decide(Persisted(last, d), count, force);
      && d'.write == None
      && d'.open == (if last == FreshInstallVersion then force else d.open)
  {
  }

  /** Once `count` has been acknowledged, the window stays shut unless forced. */
  lemma AcknowledgedStaysClosed(count: nat, force: bool)
    requires count != FreshInstallVersion
    ensures Decide(count, count, force) == OpenCheck(force, None)
  {
  }

  /** A header starts expanded when its section is unseen or is the newest. */
  predicate DefaultOpen(idx: nat, last: int, count: nat): (b: bool)
    ensures idx == count - 1 ==> b
    ensures last <= 0 ==> b
    ensures idx < count - 1 ==> (b <==> Unseen(idx, last))
    ensures idx < count && last == count ==> (b <==> idx == count - 1)
  {
    Unseen(idx, last) || idx == count - 1
  }

  /** What one iteration of the drawing loop shows: the ImGui id (the visit
      position), the section's absolute index, its title, whether the header
      starts expanded, and the entries listed when it is expanded. */
  datatype Header = Header(id: nat, index: nat, title: string, defaultOpen: bool, entries: seq<Entry>)

  // ---------------------------------------------------------------------
  // The window

  class Changelog {
    /** The sections, oldest first; position is the version index. */
    var sections: seq<Section>
    /** The registration calls made so far. */
    ghost var history: seq<Registration>
    /** The persisted value as read by the last `PreOpenCheck`. */
    var lastVersion: int
    var forceOpen: bool
    var isOpen: bool
    /** The value behind the host's get and set accessors. */
    var stored: int
    /** Every value passed to the host's set accessor, in order. */
    var writes: seq<int>

    ghost predicate Valid()
      reads this
    {
      WellFormed(history) && sections == Sections(history)
    }

    /** The persisted value is the fresh-install sentinel or a section count
        not above the current one. */
    ghost predicate StoredInRange()
      reads this
    {
      stored == FreshInstallVersion || 0 <= stored <= |sections|
    }

    constructor (persisted: int)
      ensures Valid() && history == [] && sections == []
      ensures lastVersion == 0 && !forceOpen && !isOpen
      ensures stored == persisted && writes == []
      ensures StoredInRange() <==> persisted == FreshInstallVersion || persisted == 0
    {
      sections := [];
      history := [];
      lastVersion := 0;
      forceOpen := false;
      isOpen := false;
      stored := persisted;
      writes := [];
    }

    /** The host's set accessor. */
    method SetLastVersion(v: int)
      modifies this`stored, this`writes
      ensures stored == v && writes == old(writes) + [v]
    {
      stored := v;
      writes := writes + [v];
    }

    /** Starts a new, empty section; earlier sections are unchanged. */
    method NextVersion(title: string) returns (self: Changelog)
      requires Valid()
      modifies this`sections, this`history
      ensures Valid() && self == this
      ensures history == old(history) + [NewVersion(title)]
      ensures sections == old(sections) + [Section(title, [])]
      ensures old(StoredInRange()) ==> StoredInRange()
    {
      SectionsAfterVersion(history, title);
      sections := sections + [Section(title, [])];
      history := history + [NewVersion(title)];
      self := this;
    }

    /** Adds `e` to the last section; needs a section to exist. */
    method AddEntry(e: Entry)
      requires Valid() && |sections| > 0
      modifies this`sections, this`history
      ensures Valid()
      ensures history == old(history) + [Add(e)]
      ensures sections == AddToLast(old(sections), e)
      ensures old(StoredInRange()) ==> StoredInRange()
    {
      SectionCount(history);
      SectionsAfterAdd(history, e);
      sections := AddToLast(sections, e);
      history := history + [Add(e)];
    }

    /** Adds a coloured entry to the last section. */
    method RegisterHighlight(text: string, level: UInt16 := 0, color: UInt32 := DefaultHighlightColor)
      returns (self: Changelog)
      requires Valid() && |sections| > 0
      modifies this`sections, this`history
      ensures Valid() && self == this
      ensures history == old(history) + [Add(Entry(text, color, level))]
      ensures sections == AddToLast(old(sections), Entry(text, color, level))
      ensures old(StoredInRange()) ==> StoredInRange()
    {
      AddEntry(Entry(text, color, level));
      self := this;
    }

    /** Adds an entry in the ambient text colour to the last section. */
    method RegisterEntry(text: string, level: UInt16 := 0) returns (self: Changelog)
      requires Valid() && |sections| > 0
      modifies this`sections, this`history
      ensures Valid() && self == this
      ensures history == old(history) + [Add(Entry(text, 0, level))]
      ensures sections == AddToLast(old(sections), Entry(text, 0, level))
      ensures old(StoredInRange()) ==> StoredInRange()
    {
      AddEntry(Entry(text, 0, level));
      self := this;
    }

    /** Reads the persisted version and decides whether the window opens; on a
        fresh install it records the current section count instead. */
    method PreOpenCheck()
      modifies this`lastVersion, this`isOpen, this`stored, this`writes
      ensures lastVersion == old(stored)
      ensures old(stored) == FreshInstallVersion ==>
        !isOpen && stored == |sections| && writes == old(writes) + [|sections|]
      ensures old(stored) != FreshInstallVersion ==>
        isOpen == (forceOpen || old(stored) < |sections|) && stored == old(stored) && writes == old(writes)
      ensures isOpen == Decide(old(stored), |sections|, forceOpen).open
      ensures stored == Persisted(old(stored), Decide(old(stored), |sections|, forceOpen))
      ensures old(StoredInRange()) || old(stored) == FreshInstallVersion ==> StoredInRange()
    {
      lastVersion := stored;
      if lastVersion == FreshInstallVersion {
        isOpen := false;
        SetLastVersion(|sections|);
      } else {
        isOpen := forceOpen || lastVersion < |sections|;
      }
    }

    /** The headers the entries pane shows, newest section first, each with its
        absolute index and whether it starts expanded. */
    method DrawEntries() returns (headers: seq<Header>)
      ensures |headers| == |sections|
      ensures forall j :: 0 <= j < |headers| ==>
        var idx := |sections| - 1 - j;
        headers[j] == Header(j, idx, sections[idx].title,
                             DefaultOpen(idx, lastVersion, |sections|), sections[idx].entries)
      ensures forall j, k :: 0 <= j < k < |headers| ==> headers[j].index > headers[k].index
    {
      var n := |sections|;
      headers := [];
      var i := 0;
      var idx := n;
      while idx > 0
        invariant 0 <= idx <= n && i == n - idx
        invariant |headers| == i
        invariant forall j :: 0 <= j < i ==>
          headers[j] == Header(j, n - 1 - j, sections[n - 1 - j].title,
                               DefaultOpen(n - 1 - j, lastVersion, n), sections[n - 1 - j].entries)
      {
        idx := idx - 1;
        var flags := idx >= lastVersion || idx == n - 1;
        headers := headers + [Header(i, idx, sections[idx].title, flags, sections[idx].entries)];
        i := i + 1;
      }
    }

    /** The "Understood" button: records the section count unless it is the
        value already read, and drops the force-open request. */
    method Understood()
      modifies this`stored, this`writes, this`forceOpen
      ensures !forceOpen
      ensures lastVersion != |sections| ==> stored == |sections| && writes == old(writes) + [|sections|]
      ensures lastVersion == |sections| ==> stored == old(stored) && writes == old(writes)
      ensures old(StoredInRange()) || writes != old(writes) ==> StoredInRange()
    {
      if lastVersion != |sections| {
        SetLastVersion(|sections|);
      }
      forceOpen := false;
    }

    /** One frame of the window; `clicked` says whether the user pressed "Understood". */
    method Draw(clicked: bool) returns (headers: seq<Header>)
      modifies this`stored, this`writes, this`forceOpen
      ensures |headers| == |sections|
      ensures forall j :: 0 <= j < |headers| ==>
        var idx := |sections| - 1 - j;
        headers[j] == Header(j, idx, sections[idx].title,
                             DefaultOpen(idx, lastVersion, |sections|), sections[idx].entries)
      ensures clicked ==> !forceOpen
      ensures !clicked ==> forceOpen == old(forceOpen) && stored == old(stored) && writes == old(writes)
      ensures clicked && lastVersion != |sections| ==> stored == |sections| && writes == old(writes) + [|sections|]
      ensures clicked && lastVersion == |sections| ==> stored == old(stored) && writes == old(writes)
      ensures old(StoredInRange()) ==> StoredInRange()
    {
      headers := DrawEntries();
      if clicked {
        Understood();
      }
    }
  }
}
