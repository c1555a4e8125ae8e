/**
 * What the history log promises about its artifact reconciler and its final
 * reveal, proved about the functions of HistoryModel that the methods of
 * PlayerHistory.HistoryLog are proved to implement.
 */
module HistoryFacts {
  import opened HistoryModel

  /** The entry an artifact record appends, text and all. */
  function ArtifactEntry(tags: set<HistTag>, aidx: nat, found: bool, desc: string, amb: Ambient): Entry
  {
    Entry(tags, amb.depth, amb.lev, TurnOf(amb), aidx, ArtifactText(desc, found))
  }

  /** An artifact entry's text already fits the event buffer, so the append keeps it whole. */
  lemma ArtifactEntryFits(tags: set<HistTag>, aidx: nat, found: bool, desc: string, amb: Ambient)
    ensures NewEntry(tags, Some(aidx), amb.depth, amb.lev, TurnOf(amb), ArtifactText(desc, found))
         == ArtifactEntry(tags, aidx, found, desc, amb)
  {
  }

  // ---------------------------------------------------------------------
  // Recording a known artifact
  // ---------------------------------------------------------------------

  /**
   * Identifying an artifact that has an active entry changes no count and
   * no other entry: the newest entry for it, whatever its tags were
   * (lost included), is left carrying exactly {known}.
   */
  lemma RecordKnownIdentifies(s: seq<Entry>, aidx: nat, found: bool, desc: string, amb: Ambient, room: bool)
    requires aidx > 0 && Logged(s, aidx)
    ensures Record(s, aidx, true, found, desc, amb, room).1
    ensures var r := Record(s, aidx, true, found, desc, amb, room).0;
      |r| == |s| &&
      exists k :: 0 <= k < |s| && s[k].aidx == aidx &&
        (forall j :: k < j < |s| ==> s[j].aidx != aidx) &&
        r[k] == s[k].(tags := {ArtifactKnown}) &&
        (forall j :: 0 <= j < |s| && j != k ==> r[j] == s[j])
  {
    var j0 :| 0 <= j0 < |s| && s[j0].aidx == aidx && ArtifactLost !in s[j0].tags;
    var k := NewestOf(s, aidx).value;
    var r := Record(s, aidx, true, found, desc, amb, room).0;
    assert r == s[k := s[k].(tags := {ArtifactKnown})];
  }

  /** Recording a known artifact with no active entry appends one {known} entry, room permitting. */
  lemma RecordKnownAppends(s: seq<Entry>, aidx: nat, found: bool, desc: string, amb: Ambient, room: bool)
    requires aidx > 0 && !Logged(s, aidx)
    ensures Record(s, aidx, true, found, desc, amb, room)
         == (Appended(s, room, ArtifactEntry({ArtifactKnown}, aidx, found, desc, amb)), true)
  {
    ArtifactEntryFits({ArtifactKnown}, aidx, found, desc, amb);
  }

  /** After recording an artifact as known, the log knows it, unless a needed append had no room. */
  lemma RecordKnownMakesKnown(s: seq<Entry>, aidx: nat, found: bool, desc: string, amb: Ambient, room: bool)
    requires aidx > 0
    requires Logged(s, aidx) || room
    ensures IsKnown(Record(s, aidx, true, found, desc, amb, room).0, aidx)
  {
    var r := Record(s, aidx, true, found, desc, amb, room).0;
    if Logged(s, aidx) {
      RecordKnownIdentifies(s, aidx, found, desc, amb, room);
      var k :| 0 <= k < |s| && s[k].aidx == aidx && r[k] == s[k].(tags := {ArtifactKnown});
      assert r[k].aidx == aidx && ArtifactKnown in r[k].tags;
    } else {
      RecordKnownAppends(s, aidx, found, desc, amb, room);
      assert r[|s|].aidx == aidx && ArtifactKnown in r[|s|].tags;
    }
  }

  // ---------------------------------------------------------------------
  // Recording an unknown artifact
  // ---------------------------------------------------------------------

  /**
   * Recording an unknown artifact fails, changing nothing, exactly when an
   * active entry for it exists; otherwise it reports success and appends one
   * {unknown} entry (also lost when the artifact was missed), room permitting.
   */
  lemma RecordUnknown(s: seq<Entry>, aidx: nat, found: bool, desc: string, amb: Ambient, room: bool)
    requires aidx > 0
    ensures Record(s, aidx, false, found, desc, amb, room).1 == !Logged(s, aidx)
    ensures Logged(s, aidx) ==> Record(s, aidx, false, found, desc, amb, room).0 == s
    ensures !Logged(s, aidx) ==>
      Record(s, aidx, false, found, desc, amb, room).0 == Appended(s, room, ArtifactEntry(UnknownTags(found), aidx, found, desc, amb))
  {
    ArtifactEntryFits(UnknownTags(found), aidx, found, desc, amb);
  }

  /** The tags of a new unknown entry: unknown always, lost exactly when missed, nothing else. */
  lemma UnknownTagsExact(found: bool)
    ensures ArtifactUnknown in UnknownTags(found)
    ensures ArtifactLost in UnknownTags(found) <==> !found
    ensures UnknownTags(found) <= {ArtifactUnknown, ArtifactLost}
  {
  }

  // ---------------------------------------------------------------------
  // Losing an artifact
  // ---------------------------------------------------------------------

  /**
   * Losing an artifact that has any entry, lost or not, adds the lost tag to
   * the newest such entry, keeps its other tags and every other entry, and
   * reports true.
   */
  lemma LoseExisting(s: seq<Entry>, aidx: nat, desc: string, amb: Ambient, room: bool)
    requires aidx > 0
    requires exists j :: 0 <= j < |s| && s[j].aidx == aidx
    ensures Lose(s, aidx, desc, amb, room).1
    ensures var r := Lose(s, aidx, desc, amb, room).0;
      |r| == |s| &&
      exists k :: 0 <= k < |s| && s[k].aidx == aidx &&
        (forall j :: k < j < |s| ==> s[j].aidx != aidx) &&
        r[k] == s[k].(tags := s[k].tags + {ArtifactLost}) &&
        (forall j :: 0 <= j < |s| && j != k ==> r[j] == s[j])
  {
    var k := NewestOf(s, aidx).value;
    var r := Lose(s, aidx, desc, amb, room).0;
    assert r == s[k := s[k].(tags := s[k].tags + {ArtifactLost})];
  }

  /**
   * Losing an artifact that was never logged reports false and records it
   * as missed: one {unknown, lost} entry whose text is "Missed " and the
   * description, room permitting.
   */
  lemma LoseMissing(s: seq<Entry>, aidx: nat, desc: string, amb: Ambient, room: bool)
    requires aidx > 0
    requires forall j :: 0 <= j < |s| ==> s[j].aidx != aidx
    ensures Lose(s, aidx, desc, amb, room)
         == (Appended(s, room, ArtifactEntry({ArtifactUnknown, ArtifactLost}, aidx, false, desc, amb)), false)
    ensures "Missed " <= ArtifactText(desc, false)
  {
    assert !Logged(s, aidx);
    RecordUnknown(s, aidx, false, desc, amb, room);
  }

  // ---------------------------------------------------------------------
  // The final reveal
  // ---------------------------------------------------------------------

  /**
   * The reveal leaves no entry unknown, makes every formerly unknown entry
   * known, and changes no other tag, no other field and no other entry.
   */
  lemma UnmaskAllReveals(s: seq<Entry>)
    ensures |UnmaskAll(s)| == |s|
    ensures forall j :: 0 <= j < |s| ==> ArtifactUnknown !in UnmaskAll(s)[j].tags
    ensures forall j :: 0 <= j < |s| && ArtifactUnknown in s[j].tags ==> ArtifactKnown in UnmaskAll(s)[j].tags
    ensures forall j :: 0 <= j < |s| && ArtifactUnknown !in s[j].tags ==> UnmaskAll(s)[j] == s[j]
    ensures forall j, t :: 0 <= j < |s| && t != ArtifactUnknown && t != ArtifactKnown ==>
              (t in UnmaskAll(s)[j].tags <==> t in s[j].tags)
    ensures forall j :: 0 <= j < |s| ==> UnmaskAll(s)[j] == s[j].(tags := UnmaskAll(s)[j].tags)
  {
  }

  /** Revealing twice is revealing once. */
  lemma UnmaskAllIdempotent(s: seq<Entry>)
    ensures UnmaskAll(UnmaskAll(s)) == UnmaskAll(s)
  {
    UnmaskAllReveals(s);
  }

  // ---------------------------------------------------------------------
  // The invariant the reconciler keeps
  // ---------------------------------------------------------------------

  /** Under the invariant, the entry identification rewrites is the active entry the guard found. */
  lemma KnowTargetsActiveEntry(s: seq<Entry>, aidx: nat)
    requires aidx > 0 && ActiveIsNewest(s) && Logged(s, aidx)
    ensures NewestOf(s, aidx).Some?
    ensures ArtifactLost !in s[NewestOf(s, aidx).value].tags
  {
    var j :| 0 <= j < |s| && s[j].aidx == aidx && ArtifactLost !in s[j].tags;
    var k := NewestOf(s, aidx).value;
  }

  /** Recording an artifact, known or not, keeps the invariant. */
  lemma RecordKeepsActiveIsNewest(s: seq<Entry>, aidx: nat, known: bool, found: bool, desc: string, amb: Ambient, room: bool)
    requires aidx > 0 && ActiveIsNewest(s)
    ensures ActiveIsNewest(Record(s, aidx, known, found, desc, amb, room).0)
  {
    var r := Record(s, aidx, known, found, desc, amb, room).0;
    if known && Logged(s, aidx) {
      var k := NewestOf(s, aidx).value;
      assert r == s[k := s[k].(tags := {ArtifactKnown})];
      forall i, j | 0 <= i < j < |r| && r[i].aidx != 0 && r[i].aidx == r[j].aidx
        ensures ArtifactLost in r[i].tags
      {
        assert i != k;
      }
    } else if !Logged(s, aidx) {
      forall i, j | 0 <= i < j < |r| && r[i].aidx != 0 && r[i].aidx == r[j].aidx
        ensures ArtifactLost in r[i].tags
      {
        if j == |s| {
          assert r[i] == s[i] && s[i].aidx == aidx;
        }
      }
    }
  }

  /** Losing an artifact keeps the invariant. */
  lemma LoseKeepsActiveIsNewest(s: seq<Entry>, aidx: nat, desc: string, amb: Ambient, room: bool)
    requires aidx > 0 && ActiveIsNewest(s)
    ensures ActiveIsNewest(Lose(s, aidx, desc, amb, room).0)
  {
    match NewestOf(s, aidx)
    case Some(k) =>
      var r := Lose(s, aidx, desc, amb, room).0;
      assert r == s[k := s[k].(tags := s[k].tags + {ArtifactLost})];
      forall i, j | 0 <= i < j < |r| && r[i].aidx != 0 && r[i].aidx == r[j].aidx
        ensures ArtifactLost in r[i].tags
      {
        assert r[i].tags >= s[i].tags;
      }
    case None =>
      RecordKeepsActiveIsNewest(s, aidx, false, false, desc, amb, room);
  }

  /** The final reveal keeps the invariant. */
  lemma UnmaskKeepsActiveIsNewest(s: seq<Entry>)
    requires ActiveIsNewest(s)
    ensures ActiveIsNewest(UnmaskAll(s))
  {
    UnmaskAllReveals(s);
  }

  /** An append of an entry that concerns no artifact keeps the invariant. */
  lemma PlainAppendKeepsActiveIsNewest(s: seq<Entry>, room: bool, tags: set<HistTag>, dlev: int, clev: int, turn: int, text: string)
    requires ActiveIsNewest(s)
    ensures ActiveIsNewest(Appended(s, room, NewEntry(tags, None, dlev, clev, turn, text)))
  {
    var r := Appended(s, room, NewEntry(tags, None, dlev, clev, turn, text));
    forall i, j | 0 <= i < j < |r| && r[i].aidx != 0 && r[i].aidx == r[j].aidx
      ensures ArtifactLost in r[i].tags
    {
      assert j < |s|;
    }
  }

  // ---------------------------------------------------------------------
  // Scenarios
  // ---------------------------------------------------------------------

  /**
   * An artifact found unknown and later identified keeps a single entry,
   * which ends up carrying exactly {known} and the "Found" text.
   */
  lemma FoundThenIdentified(aidx: nat, desc: string, amb: Ambient, room: bool)
    requires aidx > 0
    ensures var s1 := Record([], aidx, false, true, desc, amb, true).0;
      var s2 := Record(s1, aidx, true, true, desc, amb, room).0;
      |s1| == 1 && s1[0].tags == {ArtifactUnknown} &&
      |s2| == 1 && s2[0].tags == {ArtifactKnown} &&
      s2[0].event == ArtifactText(desc, true) && IsKnown(s2, aidx)
  {
    var s1 := Record([], aidx, false, true, desc, amb, true).0;
    RecordUnknown([], aidx, true, desc, amb, true);
    assert s1 == [ArtifactEntry({ArtifactUnknown}, aidx, true, desc, amb)];
    assert Logged(s1, aidx) by { assert s1[0].aidx == aidx && ArtifactLost !in s1[0].tags; }
    RecordKnownIdentifies(s1, aidx, true, desc, amb, room);
    RecordKnownMakesKnown(s1, aidx, true, desc, amb, room);
  }

  /**
   * An artifact found, lost and found again ends up with two entries: the
   * log does not keep one entry per artifact. The older one is tagged lost.
   */
  lemma RefoundArtifactIsLoggedTwice(aidx: nat, desc: string, amb: Ambient)
    requires aidx > 0
    ensures var s1 := Record([], aidx, false, true, desc, amb, true).0;
      var s2 := Lose(s1, aidx, desc, amb, true).0;
      var s3 := Record(s2, aidx, false, true, desc, amb, true).0;
      |s3| == 2 && s3[0].aidx == aidx && s3[1].aidx == aidx &&
      s3[0].tags == {ArtifactUnknown, ArtifactLost} && s3[1].tags == {ArtifactUnknown}
  {
    var s1 := Record([], aidx, false, true, desc, amb, true).0;
    RecordUnknown([], aidx, true, desc, amb, true);
    assert s1 == [ArtifactEntry({ArtifactUnknown}, aidx, true, desc, amb)];
    assert NewestOf(s1, aidx) == Some(0);
    var s2 := Lose(s1, aidx, desc, amb, true).0;
    assert {ArtifactUnknown} + {ArtifactLost} == {ArtifactUnknown, ArtifactLost};
    assert s2 == [ArtifactEntry({ArtifactUnknown, ArtifactLost}, aidx, true, desc, amb)];
    assert !Logged(s2, aidx);
    RecordUnknown(s2, aidx, true, desc, amb, true);
  }

  /**
   * Identification rewrites the newest entry for the artifact even when that
   * entry is lost and an older active one exists (a state only appends that
   * bypass the reconciler can build): the lost tag is erased and the active
   * entry stays unknown.
   */
  lemma KnowRewritesNewestEvenIfLost(aidx: nat, older: Entry, newer: Entry, desc: string, amb: Ambient, room: bool)
    requires aidx > 0
    requires older.aidx == aidx && older.tags == {ArtifactUnknown}
    requires newer.aidx == aidx && newer.tags == {ArtifactUnknown, ArtifactLost}
    ensures Logged([older, newer], aidx) && !ActiveIsNewest([older, newer])
    ensures var r := Record([older, newer], aidx, true, true, desc, amb, room).0;
      r == [older, newer.(tags := {ArtifactKnown})]
  {
    var s := [older, newer];
    assert s[0].aidx == aidx && ArtifactLost !in s[0].tags;
    assert NewestOf(s, aidx) == Some(1);
  }
}
