/** `Sync`: the zone root, the choice of hosted zone, and the pipeline that
    turns captured records into the changes the provider must apply. The
    provider's listings are parameters. */
module Sync {
  import opened Hashes
  import opened Records
  import opened Names
  import opened Sorting
  import opened Collation
  import opened Changes

  /** `@root = _dot(dot_(root))`: the root with a leading and a trailing dot. */
  function RootName(root: string): (r: string)
    ensures NoNewline(root) ==> |r| > 0 && r[0] == '.' && r[|r| - 1] == '.'
    ensures r == root || r == "." + root || r == root + "." || r == "." + root + "."
  {
    var t := DotTerminated(root);
    assert NoNewline(root) ==> |t| > 0 && t[|t| - 1] == '.';
    var r := DotPrefixed(t);
    assert NoNewline(root) ==> NoNewline(t);
    assert r == t || r[1..] == t;
    r
  }

  lemma RootNameIdempotent(root: string)
    ensures RootName(RootName(root)) == RootName(root)
  {
    var t := DotTerminated(root);
    var r := DotPrefixed(t);
    assert DotTerminated(r) == r by {
      if DotAtLineEnd(t) {
        var i :| 0 <= i < |t| && t[i] == '.' && LineEnd(t, i + 1);
        if r != t {
          assert r == "." + t && r[i + 1] == '.' && LineEnd(r, i + 2);
        }
      } else {
        assert t == root + "." && t[|root|] == '.' && LineEnd(t, |root| + 1);
      }
    }
    DotPrefixedIdempotent(t);
  }

  // ---- the qualification fold -------------------------------------------------------

  /** `pair[0].sub(/[.]$/, '') + @root`: a one-line name loses one trailing
      dot before the root is appended. */
  function QualifiedName(name: string, root: string): (r: string)
    ensures EndsWith(r, root)
    ensures NoNewline(name) ==> r == (if |name| > 0 && name[|name| - 1] == '.' then name[..|name| - 1] else name) + root
  {
    StripLineEndDotPlain(name);
    var r := StripLineEndDot(name) + root;
    assert r[|r| - |root|..] == root;
    r
  }

  /** One turn of the `inject` in `Sync#calculate_changes`. */
  function QualifyStep(acc: Table, root: string, pair: (string, Types)): Table {
    Put(acc, QualifiedName(pair.0, root), pair.1)
  }

  /** The qualification `inject`, as a left fold. */
  function Qualified(t: Table, root: string): Table {
    if t == [] then [] else QualifyStep(Qualified(t[..|t| - 1], root), root, t[|t| - 1])
  }

  /** The leaf table of the last name of `t` that qualifies to `key`. */
  function LastQualifying(t: Table, root: string, key: string): (r: Option<Types>)
    ensures r.Some? ==> exists i :: 0 <= i < |t| && QualifiedName(t[i].0, root) == key && t[i].1 == r.value
    ensures r.None? ==> forall i :: 0 <= i < |t| ==> QualifiedName(t[i].0, root) != key
  {
    if t == [] then None
    else
      var last := t[|t| - 1];
      assert forall i :: 0 <= i < |t| - 1 ==> t[..|t| - 1][i] == t[i];
      if QualifiedName(last.0, root) == key then Some(last.1)
      else LastQualifying(t[..|t| - 1], root, key)
  }

  /** A qualified name holds the leaves of the last collated name that
      qualifies to it: a name with and without its trailing dot collide. */
  lemma {:induction false} QualifiedGet(t: Table, root: string, key: string)
    ensures Get(Qualified(t, root), key) == LastQualifying(t, root, key)
  {
    if t != [] {
      var front, last := t[..|t| - 1], t[|t| - 1];
      QualifiedGet(front, root, key);
      PutGet(Qualified(front, root), QualifiedName(last.0, root), last.1, key);
    }
  }

  /** `h[k] = v` stores only its own pair: every pair after it was there
      before or is the new one. */
  lemma PutPairs<K, V>(h: Hash<K, V>, k: K, v: V)
    ensures forall i :: 0 <= i < |Put(h, k, v)| ==> Put(h, k, v)[i] in h || Put(h, k, v)[i] == (k, v)
  {
    var r := Put(h, k, v);
    forall i | 0 <= i < |r| ensures r[i] in h || r[i] == (k, v) {
      if i < |h| && r[i] != (k, v) { assert r[i] == h[i]; }
    }
  }

  /** Every qualified name ends with the root, and the table stays well formed. */
  lemma {:induction false} QualifiedShape(t: Table, root: string)
    requires WellFormed(t)
    ensures var q := Qualified(t, root);
      WellFormed(q) && forall i :: 0 <= i < |q| ==> EndsWith(q[i].0, root)
  {
    if t != [] {
      var front, last := t[..|t| - 1], t[|t| - 1];
      assert WellFormed(front) by {
        assert forall i :: 0 <= i < |front| ==> front[i] == t[i];
      }
      QualifiedShape(front, root);
      var acc := Qualified(front, root);
      var key := QualifiedName(last.0, root);
      PutKeys(acc, key, last.1);
      PutPairs(acc, key, last.1);
      var q := Put(acc, key, last.1);
      forall i | 0 <= i < |q| ensures DistinctKeys(q[i].1) && EndsWith(q[i].0, root) {
        if q[i] != (key, last.1) {
          var j :| 0 <= j < |acc| && acc[j] == q[i];
        }
      }
    }
  }

  /** The qualification `inject` of `Sync#calculate_changes`. */
  method Qualify(collated: Table, root: string) returns (acc: Table)
    ensures acc == Qualified(collated, root)
    ensures forall key :: Get(acc, key) == LastQualifying(collated, root, key)
  {
    acc := [];
    var k := 0;
    while k < |collated|
      invariant 0 <= k <= |collated|
      invariant acc == Qualified(collated[..k], root)
    {
      var pair := collated[k];
      acc := Put(acc, StripLineEndDot(pair.0) + root, pair.1);
      assert collated[..k + 1][..k] == collated[..k];
      k := k + 1;
    }
    assert collated[..k] == collated;
    forall key ensures Get(acc, key) == LastQualifying(collated, root, key) {
      QualifiedGet(collated, root, key);
    }
  }

  // ---- retrieve_zone_and_records -----------------------------------------------------

  /** A hosted zone as the provider lists it. */
  datatype HostedZone = HostedZone(name: string, awsId: string)

  /** `@root.end_with?(zone[:name])`. */
  predicate Covers(root: string, z: HostedZone) {
    EndsWith(root, z.name)
  }

  function Candidates(root: string, zones: seq<HostedZone>): (r: seq<HostedZone>)
    ensures forall z :: z in r <==> z in zones && Covers(root, z)
  {
    if zones == [] then []
    else
      assert zones == [zones[0]] + zones[1..];
      (if Covers(root, zones[0]) then [zones[0]] else []) + Candidates(root, zones[1..])
  }

  predicate NameLenLe(a: HostedZone, b: HostedZone) {
    |a.name| <= |b.name|
  }

  /** After sorting by name length, the last zone is a longest one. */
  lemma LongestLast(cs: seq<HostedZone>)
    ensures var sorted := InsertionSort(NameLenLe, cs);
      (sorted == [] <==> cs == []) &&
      (sorted != [] ==> sorted[|sorted| - 1] in cs && forall z :: z in cs ==> |z.name| <= |sorted[|sorted| - 1].name|)
  {
    var sorted := InsertionSort(NameLenLe, cs);
    assert |sorted| == |multiset(sorted)| == |multiset(cs)| == |cs|;
    if sorted != [] {
      InsertionSortSorted(NameLenLe, cs);
      var last := sorted[|sorted| - 1];
      assert last in multiset(cs);
      forall z | z in cs ensures |z.name| <= |last.name| {
        assert z in multiset(sorted);
        LastAbove(NameLenLe, sorted, z);
      }
    }
  }

  /** `zones.select{...}.sort_by{|zone| zone[:name].length }.last`. */
  function SelectZone(root: string, zones: seq<HostedZone>): (r: Option<HostedZone>)
    ensures r.Some? <==> exists z :: z in zones && Covers(root, z)
    ensures r.Some? ==> r.value in zones && Covers(root, r.value)
    ensures r.Some? ==> forall z :: z in zones && Covers(root, z) ==> |z.name| <= |r.value.name|
  {
    var cs := Candidates(root, zones);
    var sorted := InsertionSort(NameLenLe, cs);
    LongestLast(cs);
    if sorted == [] then None else Some(sorted[|sorted| - 1])
  }

  /** However the sort orders zones of equal length, the chosen zone's name
      is the longest covering name. */
  lemma SelectZoneName(root: string, zones: seq<HostedZone>, z: HostedZone)
    requires z in zones && Covers(root, z)
    requires forall y :: y in zones && Covers(root, y) ==> |y.name| <= |z.name|
    ensures SelectZone(root, zones).Some? && SelectZone(root, zones).value.name == z.name
  {
    var r := SelectZone(root, zones).value;
    assert r.name == root[|root| - |r.name|..] && z.name == root[|root| - |z.name|..];
  }

  /** The `select` over `list_resource_record_sets`: the records whose name
      ends with the root, in listing order. */
  function RelevantRecords(root: string, records: seq<ProviderRecord>): (r: seq<ProviderRecord>)
    ensures forall p :: p in r <==> p in records && EndsWith(p.name, root)
    ensures |r| <= |records|
  {
    if records == [] then []
    else
      assert records == [records[0]] + records[1..];
      (if EndsWith(records[0].name, root) then [records[0]] else []) + RelevantRecords(root, records[1..])
  }

  // ---- Sync#calculate_changes ------------------------------------------------------

  /** The changes `Sync#calculate_changes` computes once a zone is chosen,
      with the record comparison as a parameter (`CompareRecords` as the code
      has it). They are sorted, and every one lies under the root. */
  function ZoneChanges(root: string, captured: seq<Record>, listed: seq<ProviderRecord>,
                       same: (RecordHash, RecordHash) -> bool): (r: seq<Change>)
    ensures SortedBy(ChangeLe, r)
    ensures forall c :: c in r ==> EndsWith(c.name, RootName(root))
  {
    var fullRoot := RootName(root);
    ZoneChangesUnderRoot(root, captured, listed, same);
    Diff(Qualified(Collated(captured), fullRoot), Expanded(RelevantRecords(fullRoot, listed)), same)
  }

  /** `Sync#calculate_changes(captured)` for a `Sync` built with `root`:
      `zones` is what `list_hosted_zones` answers and `listRecords` what
      `list_resource_record_sets` answers for a zone id. `None` is the `abort`
      when no zone covers the root. */
  method CalculateZoneChanges(root: string, captured: seq<Record>, zones: seq<HostedZone>,
                              listRecords: string -> seq<ProviderRecord>) returns (r: Option<seq<Change>>)
    ensures var zone := SelectZone(RootName(root), zones);
      (zone.None? ==> r.None?) &&
      (zone.Some? ==> r == Some(ZoneChanges(root, captured, listRecords(zone.value.awsId), CompareRecords)))
  {
    var fullRoot := RootName(root);
    var zone := SelectZone(fullRoot, zones);
    if zone.None? {
      return None;
    }
    var relevant := RelevantRecords(fullRoot, listRecords(zone.value.awsId));
    var collated := Collate(captured);
    var qualified := Qualify(collated, fullRoot);
    var expanded := ExpandRightAws(relevant);
    r := Some(CalculateChanges(qualified, expanded));
  }

  /** Every change the pipeline computes lies under the root: creations
      because every name is qualified with it, deletions because only
      records under it are listed. */
  lemma ChangeUnderRoot(root: string, captured: seq<Record>, listed: seq<ProviderRecord>,
                        same: (RecordHash, RecordHash) -> bool, c: Change)
    requires var fullRoot := RootName(root);
      c in Diff(Qualified(Collated(captured), fullRoot), Expanded(RelevantRecords(fullRoot, listed)), same)
    ensures EndsWith(c.name, RootName(root))
  {
    var fullRoot := RootName(root);
    var newT := Qualified(Collated(captured), fullRoot);
    var relevant := RelevantRecords(fullRoot, listed);
    CollatedWellFormed(captured);
    QualifiedShape(Collated(captured), fullRoot);
    ExpandedWellFormed(relevant);
    DiffIn(newT, Expanded(relevant), same, c);
    if c.action == Create {
      CreatedUnderRoot(newT, fullRoot, c.name, c.rtype);
    } else {
      DeletedUnderRoot(relevant, fullRoot, c.name, c.rtype);
    }
  }

  /** A name stored in a table whose names all end with the root ends with it. */
  lemma CreatedUnderRoot(t: Table, root: string, name: string, rtype: string)
    requires forall i :: 0 <= i < |t| ==> EndsWith(t[i].0, root)
    requires Lookup(t, name, rtype).Some?
    ensures EndsWith(name, root)
  {
    assert HasKey(t, name);
    var i :| 0 <= i < |t| && t[i].0 == name;
  }

  /** A name listed in the expansion of records under the root ends with it. */
  lemma DeletedUnderRoot(rs: seq<ProviderRecord>, root: string, name: string, rtype: string)
    requires forall p :: p in rs ==> EndsWith(p.name, root)
    requires Lookup(Expanded(rs), name, rtype).Some?
    ensures EndsWith(name, root)
  {
    ExpandedLookup(rs, name, rtype);
  }

  lemma ZoneChangesUnderRoot(root: string, captured: seq<Record>, listed: seq<ProviderRecord>,
                              same: (RecordHash, RecordHash) -> bool)
    ensures var fullRoot := RootName(root);
      forall c :: c in Diff(Qualified(Collated(captured), fullRoot), Expanded(RelevantRecords(fullRoot, listed)), same) ==>
        EndsWith(c.name, fullRoot)
  {
    var fullRoot := RootName(root);
    forall c | c in Diff(Qualified(Collated(captured), fullRoot), Expanded(RelevantRecords(fullRoot, listed)), same)
      ensures EndsWith(c.name, fullRoot)
    {
      ChangeUnderRoot(root, captured, listed, same, c);
    }
  }
}
