/** `mergeData` (DiskStats.js:169-188): every record whose display name has
    an entry in `diskData` gets that disc list, written into the record in
    place; the others keep the empty list they were created with. */
module Merge {
  import opened Seqs
  import opened Text
  import opened DiscExtraction
  import opened Records

  /** The disc list a record ends up with. Any array is truthy, an empty one
      too, so having an entry is what counts. */
  function MergedDisks(c: Character, diskData: map<string, seq<string>>): seq<string> {
    if c.name in diskData then diskData[c.name] else c.disks
  }

  /** The merge on values: same records, same order, names and stats
      untouched. */
  function MergeAll(cs: seq<Character>, diskData: map<string, seq<string>>): (r: seq<Character>)
    ensures |r| == |cs|
    ensures forall i :: 0 <= i < |cs| ==> r[i].name == cs[i].name && r[i].stats == cs[i].stats
    ensures forall i :: 0 <= i < |cs| ==> r[i].disks == MergedDisks(cs[i], diskData)
  {
    if cs == [] then []
    else [Character(cs[0].name, cs[0].stats, MergedDisks(cs[0], diskData))] + MergeAll(cs[1..], diskData)
  }

  /** Merging a second time with the same mapping changes nothing. */
  lemma MergeIdempotent(cs: seq<Character>, diskData: map<string, seq<string>>)
    ensures MergeAll(MergeAll(cs, diskData), diskData) == MergeAll(cs, diskData)
  {
  }

  /** With an empty mapping every record is left as it was. */
  lemma MergeEmpty(cs: seq<Character>)
    ensures MergeAll(cs, map[]) == cs
  {
  }

  /** Through the whole pipeline, every record's disc list is free of
      duplicates and of `/`, and every entry is trimmed. */
  lemma MergedDiscsClean(units: seq<Unit>, section: string, refs: seq<CharacterRef>)
    ensures forall c :: c in MergeAll(InitialRecords(units), DiskDataFrom(section, refs)) ==>
      NoDup(c.disks) && forall k :: 0 <= k < |c.disks| ==> '/' !in c.disks[k] && IsTrimmed(c.disks[k])
  {
    var dd := DiskDataFrom(section, refs);
    var cs := InitialRecords(units);
    var ms := MergeAll(cs, dd);
    forall i | 0 <= i < |ms|
      ensures NoDup(ms[i].disks) && forall k :: 0 <= k < |ms[i].disks| ==> '/' !in ms[i].disks[k] && IsTrimmed(ms[i].disks[k])
    {
      if cs[i].name in dd {
        DiskDataFromValues(section, refs, cs[i].name);
        var block :| dd[cs[i].name] == ExtractDiscs(block);
        CleanDiscsProperties(MatchAll(block, MainOpen, MainClose), MatchAll(block, ExtraOpen, ExtraClose));
      }
    }
  }

  /** The method itself: writes `disks` of each record and returns the same
      list. A record listed twice is written twice with the same value. */
  method MergeData(records: seq<CharacterRecord>, diskData: map<string, seq<string>>)
    returns (merged: seq<CharacterRecord>)
    modifies records
    ensures merged == records
    ensures Snapshots(records) == MergeAll(old(Snapshots(records)), diskData)
  {
    var i := 0;
    while i < |records|
      invariant 0 <= i <= |records|
      invariant forall j :: 0 <= j < i ==>
        records[j].disks == if records[j].name in diskData then diskData[records[j].name] else old(records[j].disks)
      invariant forall j :: i <= j < |records| ==>
        || records[j].disks == old(records[j].disks)
        || (records[j].name in diskData && records[j].disks == diskData[records[j].name])
    {
      var record := records[i];
      if record.name in diskData {
        record.disks := diskData[record.name];
      }
      i := i + 1;
    }
    SnapshotsMerged(records, old(Snapshots(records)), diskData);
    merged := records;
  }

  lemma SnapshotsMerged(rs: seq<CharacterRecord>, before: seq<Character>, diskData: map<string, seq<string>>)
    requires |rs| == |before|
    requires forall j :: 0 <= j < |rs| ==>
      rs[j].name == before[j].name && rs[j].stats == before[j].stats && rs[j].disks == MergedDisks(before[j], diskData)
    ensures Snapshots(rs) == MergeAll(before, diskData)
  {
    var a, b := Snapshots(rs), MergeAll(before, diskData);
    assert forall k :: 0 <= k < |a| ==> a[k] == b[k];
  }
}
