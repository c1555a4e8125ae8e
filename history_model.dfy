/**
 * Values of the character auto-history log: the tag set carried by each
 * entry, the entry record, and the artifact reconciler described as pure
 * functions over the sequence of populated entries (oldest first).
 *
 * The class in player_history.dfy performs these transitions in place on its
 * array; every one of its methods is proved to produce exactly the sequence
 * the functions below describe, and history_facts.dfy proves what the log
 * promises about them.
 */
module HistoryModel {

  /** Slots allocated by the first append (HISTORY_BIRTH_SIZE). */
  const HISTORY_BIRTH_SIZE: nat := 10
  /** Slots added each time a full log grows. */
  const HISTORY_GROW_STEP: nat := 10
  /** Hard ceiling on the number of slots (HISTORY_MAX). */
  const HISTORY_MAX: nat := 5000
  /** Bytes of an entry's event buffer, terminator included. */
  const EVENT_SIZE: nat := 80
  /** Bytes of the artifact name buffer and of the formatted text buffer. */
  const TEXT_BUF_SIZE: nat := 80

  /**
   * The closed enumeration of history tags (the HIST_* flags). Only the three
   * artifact tags take part in the logic of this log; the others stand for
   * the remaining kinds of event an entry may be tagged with.
   */
  datatype HistTag =
    | PlayerBirth
    | GainLevel
    | ArtifactUnknown
    | ArtifactKnown
    | ArtifactLost
    | PlayerDeath
    | Generic

  datatype Option<T> = None | Some(value: T)

  /** One history record: tags, depth, character level, turn, artifact id (0 = none), text. */
  datatype Entry = Entry(tags: set<HistTag>, dlev: int, clev: int, turn: int, aidx: nat, event: string)

  /** The contents of a zero-filled slot. */
  const Blank: Entry := Entry({}, 0, 0, 0, 0, "")

  /** The ambient game state read when an entry is created. */
  datatype Ambient = Ambient(depth: int, lev: int, totalEnergy: nat)

  /** The turn stamp of a new entry: elapsed energy in units of 100. */
  function TurnOf(amb: Ambient): int
  {
    amb.totalEnergy / 100
  }

  function Min(a: nat, b: nat): nat
  {
    if a <= b then a else b
  }

  /**
   * Copying `s` into a buffer of `size` bytes, terminator included: the
   * result is the longest prefix of `s` that fits.
   */
  function Truncate(s: string, size: nat): (r: string)
    requires size > 0
    ensures r <= s
    ensures |r| == Min(|s|, size - 1)
    ensures |s| < size ==> r == s
  {
    if |s| < size then s else s[..size - 1]
  }

  /** "Found " or "Missed ", as chosen by whether the artifact was found. */
  function Verb(found: bool): string
  {
    if found then "Found " else "Missed "
  }

  /**
   * The text of an artifact entry: the verb followed by the artifact's
   * description, the description first cut to its 80-byte buffer and the
   * whole then cut to the 80-byte text buffer.
   */
  function ArtifactText(desc: string, found: bool): (r: string)
    ensures |r| < TEXT_BUF_SIZE
    ensures Verb(found) <= r
    ensures r <= Verb(found) + desc
    ensures |Verb(found) + desc| < TEXT_BUF_SIZE ==> r == Verb(found) + desc
    ensures |r| == Min(|Verb(found) + desc|, TEXT_BUF_SIZE - 1)
  {
    var name := Truncate(desc, TEXT_BUF_SIZE);
    assert |desc| < TEXT_BUF_SIZE ==> name == desc;
    Truncate(Verb(found) + name, TEXT_BUF_SIZE)
  }

  /** The artifact id stored for an optional artifact: 0 when there is none. */
  function AidxOf(artifact: Option<nat>): nat
  {
    match artifact
    case None => 0
    case Some(a) => a
  }

  /** The entry that an append writes into the next free slot. */
  function NewEntry(tags: set<HistTag>, artifact: Option<nat>, dlev: int, clev: int, turn: int, text: string): Entry
  {
    Entry(tags, dlev, clev, turn, AidxOf(artifact), Truncate(text, EVENT_SIZE))
  }

  /** An append that succeeds only when the store has room. */
  function Appended(s: seq<Entry>, room: bool, e: Entry): seq<Entry>
  {
    if room then s + [e] else s
  }

  /**
   * The newest entry carrying artifact id `aidx`, whatever its tags: the one
   * the backward scans stop at.
   */
  function NewestOf(s: seq<Entry>, aidx: nat): (r: Option<nat>)
    ensures r.Some? ==> r.value < |s| && s[r.value].aidx == aidx
    ensures r.Some? ==> forall j :: r.value < j < |s| ==> s[j].aidx != aidx
    ensures r.None? <==> forall j :: 0 <= j < |s| ==> s[j].aidx != aidx
    decreases |s|
  {
    if s == [] then None
    else if s[|s| - 1].aidx == aidx then Some(|s| - 1)
    else NewestOf(s[..|s| - 1], aidx)
  }

  /** Some entry for `aidx` is active, i.e. not tagged lost. */
  ghost predicate Logged(s: seq<Entry>, aidx: nat)
  {
    exists j :: 0 <= j < |s| && s[j].aidx == aidx && ArtifactLost !in s[j].tags
  }

  /** Some entry for `aidx` carries the known tag. */
  ghost predicate IsKnown(s: seq<Entry>, aidx: nat)
  {
    exists j :: 0 <= j < |s| && s[j].aidx == aidx && ArtifactKnown in s[j].tags
  }

  /** Identification: the newest entry for `aidx` has its tags replaced by exactly {known}. */
  function Know(s: seq<Entry>, aidx: nat): seq<Entry>
  {
    match NewestOf(s, aidx)
    case None => s
    case Some(k) => s[k := s[k].(tags := {ArtifactKnown})]
  }

  /** The tags of a new unknown artifact entry: lost as well when it was missed. */
  function UnknownTags(found: bool): set<HistTag>
  {
    if found then {ArtifactUnknown} else {ArtifactUnknown, ArtifactLost}
  }

  /**
   * Recording an artifact: the new entry sequence and the reported result.
   * `room` says whether an append would succeed.
   */
  ghost function Record(s: seq<Entry>, aidx: nat, known: bool, found: bool, desc: string, amb: Ambient, room: bool): (seq<Entry>, bool)
  {
    var text := ArtifactText(desc, found);
    if known then
      if Logged(s, aidx) then (Know(s, aidx), true)
      else (Appended(s, room, NewEntry({ArtifactKnown}, Some(aidx), amb.depth, amb.lev, TurnOf(amb), text)), true)
    else if !Logged(s, aidx) then
      (Appended(s, room, NewEntry(UnknownTags(found), Some(aidx), amb.depth, amb.lev, TurnOf(amb), text)), true)
    else
      (s, false)
  }

  /**
   * Losing an artifact: the newest entry for it gains the lost tag, or, when
   * it was never logged, a missed entry is recorded.
   */
  ghost function Lose(s: seq<Entry>, aidx: nat, desc: string, amb: Ambient, room: bool): (seq<Entry>, bool)
  {
    match NewestOf(s, aidx)
    case Some(k) => (s[k := s[k].(tags := s[k].tags + {ArtifactLost})], true)
    case None => (Record(s, aidx, false, false, desc, amb, room).0, false)
  }

  /** The final reveal applied to one entry: unknown becomes known. */
  function Unmask(e: Entry): Entry
  {
    if ArtifactUnknown in e.tags then e.(tags := e.tags - {ArtifactUnknown} + {ArtifactKnown}) else e
  }

  /** The final reveal applied to every entry. */
  function UnmaskAll(s: seq<Entry>): seq<Entry>
  {
    seq(|s|, i requires 0 <= i < |s| => Unmask(s[i]))
  }

  /**
   * The invariant the reconciler keeps: an entry for an artifact that has a
   * newer entry for the same artifact is tagged lost, so an active entry is
   * always the newest one for its artifact.
   */
  ghost predicate ActiveIsNewest(s: seq<Entry>)
  {
    forall i, j :: 0 <= i < j < |s| && s[i].aidx != 0 && s[i].aidx == s[j].aidx ==> ArtifactLost in s[i].tags
  }
}
