/** `Sync.compare_records`, `Sync.normRRs` and `Sync.calculate_changes`: the
    diff between the table the capture wants and the table the provider
    holds, as an ordered list of deletions and creations. */
module Changes {
  import opened Hashes
  import opened Records
  import opened Sorting

  datatype Action = Create | Delete

  /** A leaf of one table merged with `:name`, `:type` and `:action`. */
  datatype Change = Change(name: string, rtype: string, entry: Entry, action: Action)

  /** The keys `compare_records` reads from a record hash; a key the hash
      lacks reads as `nil`. Table leaves never carry `:name`, `:type` or
      `:action`. */
  datatype RecordHash = RecordHash(name: Option<string>, rtype: Option<string>, action: Option<Action>, ttl: Ttl, rrs: RRs)

  function AsHash(e: Entry): RecordHash {
    RecordHash(None, None, None, e.ttl, e.rrs)
  }

  /** `{}`. */
  const EmptyHash: RecordHash := RecordHash(None, None, None, TtlNil, RRNil)

  // ---- normRRs and compare_records ------------------------------------------------

  /** `normRRs(val)`: an array is sorted, anything else is left alone. */
  function NormRRs(val: RRs): (r: RRs)
    ensures r.RRList? <==> val.RRList?
    ensures !val.RRList? ==> r == val
    ensures val.RRList? ==> multiset(r.values) == multiset(val.values) && SortedBy(StrLe, r.values)
  {
    match val
    case RRList(vs) => RRList(SortStrings(vs))
    case _ => val
  }

  /** Two value fields normalise alike exactly when they hold the same
      values up to order. */
  predicate SameValues(x: RRs, y: RRs) {
    if x.RRList? && y.RRList? then multiset(x.values) == multiset(y.values) else x == y
  }

  lemma NormRRsSame(x: RRs, y: RRs)
    ensures NormRRs(x) == NormRRs(y) <==> SameValues(x, y)
  {
    if x.RRList? && y.RRList? {
      SortStringsSame(x.values, y.values);
    }
  }

  /** The array `compare_records` builds for `record`: four keys of the record
      itself, then the normalised values of its FIRST argument `a`. */
  function Probe(record: RecordHash, a: RecordHash): (Option<string>, Option<string>, Option<Action>, Ttl, RRs) {
    (record.name, record.rtype, record.action, record.ttl, NormRRs(a.rrs))
  }

  /** `compare_records(a, b)` as written: both arrays end in the values of
      `a`, so the values never take part and only name, type, action and
      ttl are compared. */
  function CompareRecords(a: RecordHash, b: RecordHash): (r: bool)
    ensures r <==> a.name == b.name && a.rtype == b.rtype && a.action == b.action && a.ttl == b.ttl
  {
    Probe(a, a) == Probe(b, a)
  }

  /** `compare_records` as its comment promises ("the same in all
      respects"): each side contributes its own normalised values. */
  function CompareRecordsIntended(a: RecordHash, b: RecordHash): (r: bool)
    ensures r <==> a.name == b.name && a.rtype == b.rtype && a.action == b.action && a.ttl == b.ttl
                   && SameValues(a.rrs, b.rrs)
  {
    NormRRsSame(a.rrs, b.rrs);
    Probe(a, a) == Probe(b, b)
  }

  // ---- calculate_changes ------------------------------------------------------------

  /** `((other[name] and other[name][type]) or {})`. */
  function Counterpart(other: Table, name: string, rtype: string): (r: RecordHash)
    ensures Lookup(other, name, rtype).None? ==> r == EmptyHash
    ensures Lookup(other, name, rtype).Some? ==> r == AsHash(Lookup(other, name, rtype).value)
  {
    match Lookup(other, name, rtype)
    case None => EmptyHash
    case Some(e) => AsHash(e)
  }

  /** Whether a leaf `e` is emitted against its counterpart: a creation when
      `compare_records(old_data, data)` fails, a deletion when
      `compare_records(data, new_data)` fails. */
  predicate Emits(same: (RecordHash, RecordHash) -> bool, action: Action, e: Entry, counterpart: RecordHash) {
    if action == Create then !same(counterpart, AsHash(e)) else !same(AsHash(e), counterpart)
  }

  /** The inner `v.map ... .compact` for one name of `mine`. */
  function LeafChanges(name: string, types: Types, other: Table, same: (RecordHash, RecordHash) -> bool, action: Action): (r: seq<Change>)
    ensures forall c :: c in r <==>
      c.name == name && c.action == action && (exists j :: 0 <= j < |types| && types[j] == (c.rtype, c.entry))
      && Emits(same, action, c.entry, Counterpart(other, name, c.rtype))
  {
    if types == [] then []
    else
      var rtype, e := types[0].0, types[0].1;
      var rest := LeafChanges(name, types[1..], other, same, action);
      assert forall j :: 0 <= j < |types[1..]| ==> types[1..][j] == types[j + 1];
      assert forall j :: 1 <= j < |types| ==> types[j] == types[1..][j - 1];
      (if Emits(same, action, e, Counterpart(other, name, rtype)) then [Change(name, rtype, e, action)] else []) + rest
  }

  /** The outer `map` followed by `flatten`, before the sort. */
  function TableChanges(mine: Table, other: Table, same: (RecordHash, RecordHash) -> bool, action: Action): (r: seq<Change>)
    ensures forall c :: c in r <==>
      c.action == action
      && (exists i, j :: 0 <= i < |mine| && 0 <= j < |mine[i].1| && mine[i].0 == c.name && mine[i].1[j] == (c.rtype, c.entry))
      && Emits(same, action, c.entry, Counterpart(other, c.name, c.rtype))
  {
    if mine == [] then []
    else
      var rest := TableChanges(mine[1..], other, same, action);
      assert forall i :: 0 <= i < |mine[1..]| ==> mine[1..][i] == mine[i + 1];
      assert forall i :: 1 <= i < |mine| ==> mine[i] == mine[1..][i - 1];
      LeafChanges(mine[0].0, mine[0].1, other, same, action) + rest
  }

  lemma {:induction false} LeafChangesNoDup(name: string, types: Types, other: Table, same: (RecordHash, RecordHash) -> bool, action: Action)
    requires DistinctKeys(types)
    ensures NoDup(LeafChanges(name, types, other, same, action))
  {
    if types != [] {
      var rest := LeafChanges(name, types[1..], other, same, action);
      LeafChangesNoDup(name, types[1..], other, same, action);
      var rtype, e := types[0].0, types[0].1;
      var head := if Emits(same, action, e, Counterpart(other, name, rtype)) then [Change(name, rtype, e, action)] else [];
      assert forall c :: c in rest ==> c.rtype != types[0].0 by {
        forall c | c in rest ensures c.rtype != types[0].0 {
          var j :| 0 <= j < |types[1..]| && types[1..][j] == (c.rtype, c.entry);
          assert types[j + 1].0 == c.rtype;
        }
      }
      NoDupConcat(head, rest);
    }
  }

  lemma {:induction false} TableChangesNoDup(mine: Table, other: Table, same: (RecordHash, RecordHash) -> bool, action: Action)
    requires WellFormed(mine)
    ensures NoDup(TableChanges(mine, other, same, action))
  {
    if mine != [] {
      var head := LeafChanges(mine[0].0, mine[0].1, other, same, action);
      var rest := TableChanges(mine[1..], other, same, action);
      LeafChangesNoDup(mine[0].0, mine[0].1, other, same, action);
      assert WellFormed(mine[1..]) by {
        assert forall i :: 0 <= i < |mine[1..]| ==> mine[1..][i] == mine[i + 1];
      }
      TableChangesNoDup(mine[1..], other, same, action);
      assert forall c :: c in rest ==> c.name != mine[0].0 by {
        forall c | c in rest ensures c.name != mine[0].0 {
          var i, j :| 0 <= i < |mine[1..]| && 0 <= j < |mine[1..][i].1| && mine[1..][i].0 == c.name && mine[1..][i].1[j] == (c.rtype, c.entry);
          assert mine[i + 1].0 == c.name;
        }
      }
      NoDupConcat(head, rest);
    }
  }

  /** In a well-formed table the changes are exactly the emitted leaves. */
  lemma TableChangesIn(mine: Table, other: Table, same: (RecordHash, RecordHash) -> bool, action: Action, c: Change)
    requires WellFormed(mine)
    ensures c in TableChanges(mine, other, same, action) <==>
      c.action == action && Lookup(mine, c.name, c.rtype) == Some(c.entry)
      && Emits(same, action, c.entry, Counterpart(other, c.name, c.rtype))
  {
    LookupIff(mine, c.name, c.rtype, c.entry);
  }

  /** The order of `sort_by { [name, type, delete_first] }`. */
  function Rank(a: Action): int {
    if a == Delete then 0 else 1
  }

  predicate ChangeLe(a: Change, b: Change) {
    if a.name != b.name then StrLe(a.name, b.name)
    else if a.rtype != b.rtype then StrLe(a.rtype, b.rtype)
    else Rank(a.action) <= Rank(b.action)
  }

  /** Same name, type and action: the sort key. */
  predicate SameKey(a: Change, b: Change) {
    a.name == b.name && a.rtype == b.rtype && a.action == b.action
  }

  lemma ChangeLeOrder()
    ensures Total(ChangeLe) && Transitive(ChangeLe)
    ensures forall a, b :: ChangeLe(a, b) && ChangeLe(b, a) ==> SameKey(a, b)
  {
    StrLeOrder();
  }

  /** The changes before sorting: deletions, then creations. */
  function Unsorted(newT: Table, oldT: Table, same: (RecordHash, RecordHash) -> bool): seq<Change> {
    TableChanges(oldT, newT, same, Delete) + TableChanges(newT, oldT, same, Create)
  }

  /** `calculate_changes(new_records, old_records)` with the comparison as a
      parameter. */
  function Diff(newT: Table, oldT: Table, same: (RecordHash, RecordHash) -> bool): (r: seq<Change>)
    ensures multiset(r) == multiset(Unsorted(newT, oldT, same))
    ensures SortedBy(ChangeLe, r)
  {
    ChangeLeOrder();
    InsertionSortSorted(ChangeLe, Unsorted(newT, oldT, same));
    InsertionSort(ChangeLe, Unsorted(newT, oldT, same))
  }

  /** `DiffIn` for every change at once. */
  lemma DiffInAll(newT: Table, oldT: Table, same: (RecordHash, RecordHash) -> bool)
    ensures WellFormed(newT) && WellFormed(oldT) ==> forall c :: c in Diff(newT, oldT, same) <==>
      IsCreate(newT, oldT, same, c) || IsDelete(newT, oldT, same, c)
  {
    if WellFormed(newT) && WellFormed(oldT) {
      forall c ensures c in Diff(newT, oldT, same) <==> IsCreate(newT, oldT, same, c) || IsDelete(newT, oldT, same, c) {
        DiffIn(newT, oldT, same, c);
      }
    }
  }

  /** `Sync.calculate_changes`, as written: values never take part, so a leaf
      is deleted or created only when the ttl on the other side (`nil` for a
      missing leaf) differs from its own. */
  function CalculateChanges(newT: Table, oldT: Table): (r: seq<Change>)
    ensures SortedBy(ChangeLe, r)
    ensures WellFormed(newT) && WellFormed(oldT) ==> forall c :: c in r <==>
      (c.action == Create && Lookup(newT, c.name, c.rtype) == Some(c.entry)
       && Counterpart(oldT, c.name, c.rtype).ttl != c.entry.ttl) ||
      (c.action == Delete && Lookup(oldT, c.name, c.rtype) == Some(c.entry)
       && c.entry.ttl != Counterpart(newT, c.name, c.rtype).ttl)
  {
    DiffInAll(newT, oldT, CompareRecords);
    Diff(newT, oldT, CompareRecords)
  }

  /** `Sync.calculate_changes` with the comparison its comment describes: a
      leaf is deleted or created when the other side's ttl or values (up to
      order) differ from its own. */
  function CalculateChangesIntended(newT: Table, oldT: Table): (r: seq<Change>)
    ensures SortedBy(ChangeLe, r)
    ensures WellFormed(newT) && WellFormed(oldT) ==> forall c :: c in r <==>
      (c.action == Create && Lookup(newT, c.name, c.rtype) == Some(c.entry)
       && !(Counterpart(oldT, c.name, c.rtype).ttl == c.entry.ttl && SameValues(Counterpart(oldT, c.name, c.rtype).rrs, c.entry.rrs))) ||
      (c.action == Delete && Lookup(oldT, c.name, c.rtype) == Some(c.entry)
       && !(c.entry.ttl == Counterpart(newT, c.name, c.rtype).ttl && SameValues(c.entry.rrs, Counterpart(newT, c.name, c.rtype).rrs)))
  {
    DiffInAll(newT, oldT, CompareRecordsIntended);
    Diff(newT, oldT, CompareRecordsIntended)
  }

  /** `c` is a creation: a leaf of the new table that differs from its old
      counterpart (`{}` when the old table has none). */
  predicate IsCreate(newT: Table, oldT: Table, same: (RecordHash, RecordHash) -> bool, c: Change) {
    c.action == Create && Lookup(newT, c.name, c.rtype) == Some(c.entry)
    && !same(Counterpart(oldT, c.name, c.rtype), AsHash(c.entry))
  }

  /** `c` is a deletion: a leaf of the old table that differs from its new
      counterpart (`{}` when the new table has none). */
  predicate IsDelete(newT: Table, oldT: Table, same: (RecordHash, RecordHash) -> bool, c: Change) {
    c.action == Delete && Lookup(oldT, c.name, c.rtype) == Some(c.entry)
    && !same(AsHash(c.entry), Counterpart(newT, c.name, c.rtype))
  }

  /** The changes are exactly the creations and the deletions. */
  lemma DiffIn(newT: Table, oldT: Table, same: (RecordHash, RecordHash) -> bool, c: Change)
    requires WellFormed(newT) && WellFormed(oldT)
    ensures c in Diff(newT, oldT, same) <==> IsCreate(newT, oldT, same, c) || IsDelete(newT, oldT, same, c)
  {
    var r := Diff(newT, oldT, same);
    assert c in r <==> c in multiset(r);
    TableChangesIn(oldT, newT, same, Delete, c);
    TableChangesIn(newT, oldT, same, Create, c);
  }

  /** Two changes with the same key are the same change. */
  lemma DiffKeyDetermines(newT: Table, oldT: Table, same: (RecordHash, RecordHash) -> bool, a: Change, b: Change)
    requires WellFormed(newT) && WellFormed(oldT)
    requires a in Diff(newT, oldT, same) && b in Diff(newT, oldT, same)
    ensures SameKey(a, b) ==> a == b
  {
    DiffIn(newT, oldT, same, a);
    DiffIn(newT, oldT, same, b);
  }

  /** No change occurs twice, and no two share a name, a type and an action. */
  lemma DiffDistinctKeys(newT: Table, oldT: Table, same: (RecordHash, RecordHash) -> bool)
    requires WellFormed(newT) && WellFormed(oldT)
    ensures var r := Diff(newT, oldT, same);
      forall i, j :: 0 <= i < j < |r| ==> !SameKey(r[i], r[j])
  {
    var r := Diff(newT, oldT, same);
    var dels, crs := TableChanges(oldT, newT, same, Delete), TableChanges(newT, oldT, same, Create);
    TableChangesNoDup(oldT, newT, same, Delete);
    TableChangesNoDup(newT, oldT, same, Create);
    NoDupConcat(dels, crs);
    InsertionSortNoDup(ChangeLe, Unsorted(newT, oldT, same));
    forall i, j | 0 <= i < j < |r| ensures !SameKey(r[i], r[j]) {
      assert r[i] in r && r[j] in r;
      DiffKeyDetermines(newT, oldT, same, r[i], r[j]);
    }
  }

  /** A name and type present on both sides yields a creation exactly when it
      yields a deletion: a changed record is replaced, never only added or
      only removed. */
  lemma DiffPairs(newT: Table, oldT: Table, same: (RecordHash, RecordHash) -> bool, name: string, rtype: string)
    requires WellFormed(newT) && WellFormed(oldT)
    requires Lookup(newT, name, rtype).Some? && Lookup(oldT, name, rtype).Some?
    ensures var r := Diff(newT, oldT, same);
      (exists c :: c in r && c.action == Create && c.name == name && c.rtype == rtype) <==>
      (exists c :: c in r && c.action == Delete && c.name == name && c.rtype == rtype)
  {
    var r := Diff(newT, oldT, same);
    var en, eo := Lookup(newT, name, rtype).value, Lookup(oldT, name, rtype).value;
    var cr, de := Change(name, rtype, en, Create), Change(name, rtype, eo, Delete);
    DiffIn(newT, oldT, same, cr);
    DiffIn(newT, oldT, same, de);
    forall c | c in r && c.name == name && c.rtype == rtype
      ensures c.action == Create ==> c == cr
      ensures c.action == Delete ==> c == de
    {
      DiffIn(newT, oldT, same, c);
    }
  }

  /** Where a deletion and a creation share a name and type, the creation
      comes right after the deletion. */
  lemma DiffDeleteBeforeCreate(newT: Table, oldT: Table, same: (RecordHash, RecordHash) -> bool, i: int, j: int)
    requires WellFormed(newT) && WellFormed(oldT)
    requires var r := Diff(newT, oldT, same);
      0 <= i < |r| && 0 <= j < |r| && r[i].action == Delete && r[j].action == Create
      && r[i].name == r[j].name && r[i].rtype == r[j].rtype
    ensures j == i + 1
  {
    var r := Diff(newT, oldT, same);
    StrLeOrder();
    assert !ChangeLe(r[j], r[i]);
    forall k | i < k < j ensures SameKey(r[i], r[k]) || SameKey(r[k], r[j]) {
      assert ChangeLe(r[i], r[k]) && ChangeLe(r[k], r[j]);
    }
    assert j <= i + 1 || SameKey(r[i], r[i + 1]) || SameKey(r[i + 1], r[j]);
    DiffDistinctKeys(newT, oldT, same);
  }

  /** The output is the only arrangement of the changes in sort-key order,
      so Ruby's unstable `sort_by` cannot produce another. */
  lemma DiffUnique(newT: Table, oldT: Table, same: (RecordHash, RecordHash) -> bool, s: seq<Change>)
    requires WellFormed(newT) && WellFormed(oldT)
    requires multiset(s) == multiset(Unsorted(newT, oldT, same)) && SortedBy(ChangeLe, s)
    ensures s == Diff(newT, oldT, same)
  {
    var r := Diff(newT, oldT, same);
    ChangeLeOrder();
    forall x, y | x in r && y in r && ChangeLe(x, y) && ChangeLe(y, x) ensures x == y {
      DiffKeyDetermines(newT, oldT, same, x, y);
    }
    SortedUnique(ChangeLe, r, s);
  }

  /** Comparing a table with itself yields no change, for any reflexive
      comparison. */
  lemma DiffSelf(t: Table, same: (RecordHash, RecordHash) -> bool)
    requires WellFormed(t)
    requires forall h :: same(h, h)
    ensures Diff(t, t, same) == []
  {
    var u := Unsorted(t, t, same);
    assert |u| == 0 || u[0] in u;
    forall c ensures c !in u {
      TableChangesIn(t, t, same, Delete, c);
      TableChangesIn(t, t, same, Create, c);
    }
  }

  /** Both comparisons are reflexive, so an unchanged zone yields no change. */
  lemma CalculateChangesSelf(t: Table)
    requires WellFormed(t)
    ensures CalculateChanges(t, t) == [] && CalculateChangesIntended(t, t) == []
  {
    DiffSelf(t, CompareRecords);
    DiffSelf(t, CompareRecordsIntended);
  }

  // ---- the comparison bug, on one record ------------------------------------------

  /** A one-record table. */
  function Single(name: string, rtype: string, e: Entry): (t: Table)
    ensures WellFormed(t) && Lookup(t, name, rtype) == Some(e)
  {
    var t := [(name, [(rtype, e)])];
    GetAt(t, 0);
    GetAt(t[0].1, 0);
    t
  }

  /** The unsorted changes between two one-record tables with the same name
      and type: a deletion and a creation when the comparison fails, nothing
      otherwise. */
  lemma SingleUnsorted(name: string, rtype: string, en: Entry, eo: Entry, same: (RecordHash, RecordHash) -> bool)
    ensures var d := !same(AsHash(eo), AsHash(en));
      Unsorted(Single(name, rtype, en), Single(name, rtype, eo), same) ==
        (if d then [Change(name, rtype, eo, Delete)] else []) + (if d then [Change(name, rtype, en, Create)] else [])
  {
    var newT, oldT := Single(name, rtype, en), Single(name, rtype, eo);
    var d := !same(AsHash(eo), AsHash(en));
    assert newT == [(name, [(rtype, en)])] && oldT == [(name, [(rtype, eo)])];
    assert Counterpart(newT, name, rtype) == AsHash(en) && Counterpart(oldT, name, rtype) == AsHash(eo);
    assert TableChanges(oldT, newT, same, Delete) == LeafChanges(name, [(rtype, eo)], newT, same, Delete) + TableChanges([], newT, same, Delete) by {
      assert oldT[1..] == [];
    }
    assert LeafChanges(name, [(rtype, eo)], newT, same, Delete) == (if d then [Change(name, rtype, eo, Delete)] else []) + LeafChanges(name, [], newT, same, Delete) by {
      assert [(rtype, eo)][1..] == [];
    }
    assert TableChanges(newT, oldT, same, Create) == LeafChanges(name, [(rtype, en)], oldT, same, Create) + TableChanges([], oldT, same, Create) by {
      assert newT[1..] == [];
    }
    assert LeafChanges(name, [(rtype, en)], oldT, same, Create) == (if d then [Change(name, rtype, en, Create)] else []) + LeafChanges(name, [], oldT, same, Create) by {
      assert [(rtype, en)][1..] == [];
    }
  }

  /** As written, a record whose values change while its ttl stays is never
      updated: pointing a CNAME elsewhere yields no change at all. */
  lemma CalculateChangesMissesNewTarget(name: string, ttl: Ttl, x: string, y: string)
    ensures CalculateChanges(Single(name, "CNAME", Entry(ttl, RRList([x]))),
                             Single(name, "CNAME", Entry(ttl, RRList([y])))) == []
  {
    SingleUnsorted(name, "CNAME", Entry(ttl, RRList([x])), Entry(ttl, RRList([y])), CompareRecords);
  }

  /** With the intended comparison the old target is deleted and the new one
      created right after it. */
  lemma CalculateChangesIntendedReplacesTarget(name: string, ttl: Ttl, x: string, y: string)
    requires x != y
    ensures CalculateChangesIntended(Single(name, "CNAME", Entry(ttl, RRList([x]))),
                                     Single(name, "CNAME", Entry(ttl, RRList([y])))) ==
      [Change(name, "CNAME", Entry(ttl, RRList([y])), Delete), Change(name, "CNAME", Entry(ttl, RRList([x])), Create)]
  {
    var de, cr := Change(name, "CNAME", Entry(ttl, RRList([y])), Delete), Change(name, "CNAME", Entry(ttl, RRList([x])), Create);
    assert multiset([y]) != multiset([x]) by { assert y in multiset([y]); }
    assert !CompareRecordsIntended(AsHash(Entry(ttl, RRList([y]))), AsHash(Entry(ttl, RRList([x]))));
    SingleUnsorted(name, "CNAME", Entry(ttl, RRList([x])), Entry(ttl, RRList([y])), CompareRecordsIntended);
    SortPair(ChangeLe, de, cr);
  }
}
