/** The character records of `characterStats` (DiskStats.js:57-87): a
    display name, the recommended build (or null when the character has
    none) and a disc list that starts empty and is filled in by the merge.
    The fetched page data arrives as parameters. */
module Records {
  import opened Wrappers
  import opened Seqs
  import opened Text
  import opened Substats
  import opened DiscExtraction

  /** A build: the three main-stat lists and the sub-stat text. As fetched
      (`unit.build`, with each main-stat list already reduced to its `stat`
      names) the text is the raw recommendation; in the `stats` object of a
      record it is normalised. */
  datatype Build = Build(main4: seq<string>, main5: seq<string>, main6: seq<string>, substats: string)

  /** `unit` of a character page: `fullName` and the optional `build`. */
  datatype Unit = Unit(fullName: string, build: Option<Build>)

  /** A record as a value: what the later stages read of it. */
  datatype Character = Character(name: string, stats: Option<Build>, disks: seq<string>)

  /** `stats` of a record (DiskStats.js:69-82): null without a build,
      otherwise the main-stat lists and the normalised sub-stats. */
  function StatsFrom(build: Option<Build>): Option<Build> {
    match build
    case None => None
    case Some(b) => Some(Build(b.main4, b.main5, b.main6, Normalize(b.substats)))
  }

  /** A record's `substats` string splits on ", " into its distinct
      normalised names, none of them holding a comma. */
  lemma StatsFromSubstats(build: Option<Build>)
    ensures StatsFrom(build).Some? <==> build.Some?
    ensures build.Some? ==>
      && Split(StatsFrom(build).value.substats, ", ") == Tokens(build.value.substats)
      && NoDup(Split(StatsFrom(build).value.substats, ", "))
      && NoClosedGroup(StatsFrom(build).value.substats)
  {
    if build.Some? {
      NormalizeSplitRoundTrip(build.value.substats);
      NormalizeNoClosedGroup(build.value.substats);
    }
  }

  /** One element of `characterStats`; the merge writes `disks` in place. */
  class CharacterRecord {
    const name: string
    const stats: Option<Build>
    var disks: seq<string>

    /** The object literal of DiskStats.js:67-84. */
    constructor (unit: Unit)
      ensures name == unit.fullName && stats == StatsFrom(unit.build) && disks == []
    {
      name := unit.fullName;
      stats := StatsFrom(unit.build);
      disks := [];
    }

    function Snapshot(): Character
      reads this
    {
      Character(name, stats, disks)
    }
  }

  /** The records of a list as values, in order. */
  function Snapshots(rs: seq<CharacterRecord>): (cs: seq<Character>)
    reads rs
    ensures |cs| == |rs| && forall i :: 0 <= i < |rs| ==> cs[i] == rs[i].Snapshot()
  {
    if rs == [] then [] else [rs[0].Snapshot()] + Snapshots(rs[1..])
  }

  /** The records the loop of DiskStats.js:60-87 creates, as values. */
  function InitialRecords(units: seq<Unit>): (cs: seq<Character>)
    ensures |cs| == |units|
    ensures forall i :: 0 <= i < |units| ==>
      cs[i] == Character(units[i].fullName, StatsFrom(units[i].build), [])
  {
    if units == [] then [] else [Character(units[0].fullName, StatsFrom(units[0].build), [])] + InitialRecords(units[1..])
  }

  /** The loop of DiskStats.js:60-87 without the fetches: units[i] is the
      page data of slugs[i]. One fresh record and one reference per
      character, in order. */
  method CollectCharacters(slugs: seq<string>, units: seq<Unit>)
    returns (records: seq<CharacterRecord>, refs: seq<CharacterRef>)
    requires |units| == |slugs|
    ensures |records| == |units| && |refs| == |units|
    ensures forall i :: 0 <= i < |records| ==> fresh(records[i])
    ensures forall i, j :: 0 <= i < j < |records| ==> records[i] != records[j]
    ensures Snapshots(records) == InitialRecords(units)
    ensures forall i :: 0 <= i < |refs| ==> refs[i] == CharacterRef(units[i].fullName, slugs[i])
  {
    records := [];
    refs := [];
    var i := 0;
    while i < |slugs|
      invariant 0 <= i <= |slugs|
      invariant |records| == i && |refs| == i
      invariant forall k :: 0 <= k < i ==> fresh(records[k])
      invariant forall k, l :: 0 <= k < l < i ==> records[k] != records[l]
      invariant forall k :: 0 <= k < i ==> Initial(records[k], units[k])
      invariant forall k :: 0 <= k < i ==> refs[k] == CharacterRef(units[k].fullName, slugs[k])
    {
      var unit := units[i];
      refs := refs + [CharacterRef(unit.fullName, slugs[i])];
      var record := new CharacterRecord(unit);
      assert Initial(record, unit);
      assert forall k :: 0 <= k < i ==> records[k] != record;
      records := records + [record];
      i := i + 1;
    }
    SnapshotsAreInitial(records, units);
  }

  /** r holds what the constructor puts in a record made from u. */
  predicate Initial(r: CharacterRecord, u: Unit)
    reads r
  {
    r.name == u.fullName && r.stats == StatsFrom(u.build) && r.disks == []
  }

  lemma SnapshotsAreInitial(rs: seq<CharacterRecord>, units: seq<Unit>)
    requires |rs| == |units|
    requires forall k :: 0 <= k < |rs| ==> Initial(rs[k], units[k])
    ensures Snapshots(rs) == InitialRecords(units)
  {
    var a, b := Snapshots(rs), InitialRecords(units);
    assert forall k :: 0 <= k < |a| ==> a[k] == b[k];
  }
}
