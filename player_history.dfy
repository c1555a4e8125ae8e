/**
 * The character auto-history log as the game keeps it: an array of entry
 * slots that is allocated on first use, grows by ten slots up to a ceiling,
 * and is searched and updated in place by backward scans.
 *
 * The ambient player state (depth, level, elapsed energy) and the artifact
 * description are parameters of the operations that need them.
 */
module PlayerHistory {
  import opened HistoryModel

  class HistoryLog {
    /** The slot array; null until the first append and after a clear. */
    var entries: array?<Entry>
    /** Number of populated slots. */
    var next: nat
    /** Number of allocated slots. */
    var length: nat

    ghost predicate Valid()
      reads this
    {
      next <= length &&
      (entries == null ==> length == 0) &&
      (entries != null ==> entries.Length == length)
    }

    /** The capacity policy: nothing allocated, or a multiple of ten between 10 and 5000. */
    ghost predicate WellSized()
      reads this
    {
      length == 0 || (HISTORY_BIRTH_SIZE <= length <= HISTORY_MAX && length % HISTORY_GROW_STEP == 0)
    }

    /** The populated entries, oldest first. */
    ghost function Contents(): seq<Entry>
      reads this, entries
      requires Valid()
    {
      if entries == null then [] else entries[..next]
    }

    /** An append would succeed: nothing allocated yet, a free slot, or room to grow. */
    ghost predicate HasRoom()
      reads this
    {
      entries == null || next < length || length < HISTORY_MAX
    }

    /** The capacity once an append has succeeded: birth size, grown by a step, or as it was. */
    ghost function LengthAfterAppend(): nat
      reads this
    {
      if entries == null then HISTORY_BIRTH_SIZE
      else if next == length then Min(length + HISTORY_GROW_STEP, HISTORY_MAX)
      else length
    }

    /** A new player's log holds nothing and has nothing allocated. */
    constructor ()
      ensures Valid() && WellSized()
      ensures entries == null && next == 0 && length == 0
      ensures Contents() == []
    {
      entries := null;
      next := 0;
      length := 0;
    }

    /** Allocates `size` zero-filled slots and empties the log. */
    method Init(size: nat)
      modifies this
      ensures Valid()
      ensures entries != null && fresh(entries)
      ensures next == 0 && length == size
      ensures forall j :: 0 <= j < size ==> entries[j] == Blank
      ensures Contents() == []
    {
      next := 0;
      length := size;
      entries := new Entry[size](_ => Blank);
    }

    /** Releases the slots; a log with nothing allocated is left as it is. */
    method Clear()
      requires Valid()
      modifies this
      ensures Valid() && WellSized()
      ensures entries == null && next == 0 && length == 0
      ensures Contents() == []
      ensures old(entries) == null ==> unchanged(this)
    {
      if entries == null {
        return;
      }
      entries := null;
      next := 0;
      length := 0;
    }

    /**
     * Grows the slot array to `num` slots, capped at the ceiling. Fails, and
     * changes nothing, when the capped target is no larger than the current
     * capacity. The existing slots keep their contents.
     */
    method SetNum(num: nat) returns (ok: bool)
      requires Valid()
      modifies this
      ensures Valid()
      ensures ok == (Min(num, HISTORY_MAX) > old(length))
      ensures ok ==> length == Min(num, HISTORY_MAX) && entries != null && fresh(entries)
      ensures ok && old(entries) != null ==> entries[..old(length)] == old(entries[..])
      ensures !ok ==> unchanged(this)
      ensures next == old(next)
      ensures Contents() == old(Contents())
    {
      var n := num;
      if n > HISTORY_MAX {
        n := HISTORY_MAX;
      }
      if n <= length {
        return false;
      }
      var grown := new Entry[n](_ => Blank);
      if entries != null {
        var i := 0;
        while i < length
          invariant 0 <= i <= length
          invariant forall j :: 0 <= j < i ==> grown[j] == entries[j]
          modifies grown
        {
          grown[i] := entries[i];
          i := i + 1;
        }
        assert grown[..length] == entries[..];
      }
      entries := grown;
      length := n;
      ok := true;
    }

    /** The number of populated entries. */
    method GetNum() returns (n: nat)
      requires Valid()
      ensures n == |Contents()|
    {
      n := next;
    }

    /**
     * Appends one entry, allocating the birth capacity on first use and
     * growing a full log by ten slots. At the ceiling the append fails and
     * leaves the log untouched.
     */
    method AddFull(tags: set<HistTag>, artifact: Option<nat>, dlev: int, clev: int, turnno: int, text: string)
      returns (ok: bool)
      requires Valid()
      modifies this, entries
      ensures Valid()
      ensures ok == old(HasRoom())
      ensures Contents() == Appended(old(Contents()), ok, NewEntry(tags, artifact, dlev, clev, turnno, text))
      ensures next == old(next) + (if ok then 1 else 0)
      ensures length == (if ok then old(LengthAfterAppend()) else old(length))
      ensures !ok ==> unchanged(this) && entries != null && unchanged(entries)
      ensures entries == old(entries) || fresh(entries)
      ensures old(WellSized()) ==> WellSized()
    {
      if entries == null {
        Init(HISTORY_BIRTH_SIZE);
      } else if next == length {
        var grown := SetNum(length + HISTORY_GROW_STEP);
        if !grown {
          return false;
        }
      }
      ghost var before := Contents();
      var e := NewEntry(tags, artifact, dlev, clev, turnno, text);
      entries[next] := e;
      next := next + 1;
      assert Contents() == before + [e];
      ok := true;
    }

    /** Appends an entry with the single tag `tag`, stamped with the ambient state. */
    method Add(event: string, tag: HistTag, artifact: Option<nat>, amb: Ambient) returns (ok: bool)
      requires Valid()
      modifies this, entries
      ensures Valid()
      ensures ok == old(HasRoom())
      ensures Contents() == Appended(old(Contents()), ok, NewEntry({tag}, artifact, amb.depth, amb.lev, TurnOf(amb), event))
      ensures next == old(next) + (if ok then 1 else 0)
      ensures length == (if ok then old(LengthAfterAppend()) else old(length))
      ensures !ok ==> unchanged(this) && entries != null && unchanged(entries)
      ensures entries == old(entries) || fresh(entries)
      ensures old(WellSized()) ==> WellSized()
    {
      ok := AddFull({tag}, artifact, amb.depth, amb.lev, TurnOf(amb), event);
    }

    /**
     * Replaces the tags of the newest entry for `aidx`, lost or not, by
     * exactly {known}. Reports whether such an entry exists.
     */
    method KnowArtifact(aidx: nat) returns (found: bool)
      requires Valid() && aidx > 0
      modifies entries
      ensures Valid()
      ensures found == NewestOf(old(Contents()), aidx).Some?
      ensures Contents() == Know(old(Contents()), aidx)
    {
      var i := next;
      while i > 0
        invariant 0 <= i <= next
        invariant Contents() == old(Contents())
        invariant forall j :: i <= j < next ==> entries[j].aidx != aidx
      {
        i := i - 1;
        if entries[i].aidx == aidx {
          entries[i] := entries[i].(tags := {ArtifactKnown});
          return true;
        }
      }
      return false;
    }

    /**
     * Adds the lost tag to the newest entry for `aidx`, keeping its other
     * tags, and reports true; when there is none, records the artifact as
     * missed and reports false.
     */
    method LoseArtifact(aidx: nat, desc: string, amb: Ambient) returns (found: bool)
      requires Valid() && aidx > 0
      modifies this, entries
      ensures Valid()
      ensures (Contents(), found) == Lose(old(Contents()), aidx, desc, amb, old(HasRoom()))
      ensures |Contents()| == |old(Contents())| ==> entries == old(entries) && length == old(length)
      ensures |Contents()| != |old(Contents())| ==> length == old(LengthAfterAppend())
      ensures entries == old(entries) || fresh(entries)
      ensures old(WellSized()) ==> WellSized()
    {
      var i := next;
      while i > 0
        invariant 0 <= i <= next
        invariant Contents() == old(Contents())
        invariant forall j :: i <= j < next ==> entries[j].aidx != aidx
        modifies entries
      {
        i := i - 1;
        if entries[i].aidx == aidx {
          entries[i] := entries[i].(tags := entries[i].tags + {ArtifactLost});
          return true;
        }
      }
      var _ := AddArtifact(aidx, false, false, desc, amb);
      return false;
    }

    /** Whether some entry for `aidx` carries the known tag. */
    method IsArtifactKnown(aidx: nat) returns (r: bool)
      requires Valid() && aidx > 0
      ensures r == IsKnown(Contents(), aidx)
    {
      var i := next;
      while i > 0
        invariant 0 <= i <= next
        invariant forall j :: i <= j < next ==> !(ArtifactKnown in entries[j].tags && entries[j].aidx == aidx)
      {
        i := i - 1;
        if ArtifactKnown in entries[i].tags && entries[i].aidx == aidx {
          return true;
        }
      }
      return false;
    }

    /** Whether some entry for `aidx` is active, i.e. not tagged lost. */
    method IsArtifactLogged(aidx: nat) returns (r: bool)
      requires Valid() && aidx > 0
      ensures r == Logged(Contents(), aidx)
    {
      var i := next;
      while i > 0
        invariant 0 <= i <= next
        invariant forall j :: i <= j < next ==> ArtifactLost in entries[j].tags || entries[j].aidx != aidx
      {
        i := i - 1;
        if ArtifactLost in entries[i].tags {
          continue;
        }
        if entries[i].aidx == aidx {
          return true;
        }
      }
      return false;
    }

    /**
     * Records artifact `aidx`. Known: identifies its active entry, or appends
     * a known entry. Unknown: appends an unknown entry (lost too when it was
     * missed) unless an active entry exists, in which case it reports false
     * and changes nothing. The result of the append itself is not reported.
     */
    method AddArtifact(aidx: nat, known: bool, found: bool, desc: string, amb: Ambient) returns (r: bool)
      requires Valid() && aidx > 0
      modifies this, entries
      ensures Valid()
      ensures (Contents(), r) == Record(old(Contents()), aidx, known, found, desc, amb, old(HasRoom()))
      ensures |Contents()| == |old(Contents())| ==> entries == old(entries) && length == old(length)
      ensures |Contents()| != |old(Contents())| ==> length == old(LengthAfterAppend())
      ensures entries == old(entries) || fresh(entries)
      ensures old(WellSized()) ==> WellSized()
    {
      var text := ArtifactText(desc, found);
      if known {
        var logged := IsArtifactLogged(aidx);
        if logged {
          var _ := KnowArtifact(aidx);
        } else {
          var _ := Add(text, ArtifactKnown, Some(aidx), amb);
        }
      } else {
        var logged := IsArtifactLogged(aidx);
        if !logged {
          var tags := {ArtifactUnknown};
          if !found {
            tags := tags + {ArtifactLost};
          }
          assert tags == UnknownTags(found);
          var _ := AddFull(tags, Some(aidx), amb.depth, amb.lev, TurnOf(amb), text);
        } else {
          return false;
        }
      }
      return true;
    }

    /** The final reveal: every unknown entry becomes known, other tags kept. */
    method UnmaskUnknown()
      requires Valid()
      modifies entries
      ensures Valid()
      ensures Contents() == UnmaskAll(old(Contents()))
    {
      var i := next;
      while i > 0
        invariant 0 <= i <= next
        invariant forall j :: 0 <= j < i ==> entries[j] == old(entries[j])
        invariant forall j :: i <= j < next ==> entries[j] == Unmask(old(entries[j]))
      {
        i := i - 1;
        if ArtifactUnknown in entries[i].tags {
          entries[i] := entries[i].(tags := entries[i].tags - {ArtifactUnknown} + {ArtifactKnown});
        }
      }
    }

    /** A snapshot of the populated entries together with their number. */
    method GetList() returns (list: seq<Entry>, n: nat)
      requires Valid()
      ensures list == Contents() && n == |list|
    {
      if entries == null {
        return [], next;
      }
      list := entries[..next];
      n := next;
    }
  }
}
