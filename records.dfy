/** The record shapes the engine passes around, and the two-level table
    (name -> type -> entry) that `collate` and `expand_right_aws` build. */
module Records {
  import opened Hashes

  /** A record's `:ttl`. Ruby keeps `100` and `'100'` apart, and a missing
      `:ttl` reads as `nil`. */
  datatype Ttl = TtlInt(n: int) | TtlStr(s: string) | TtlNil

  /** A `:resource_records` value: an array, a single string (as the provider
      library sometimes gives one), or `nil` when absent. */
  datatype RRs = RRList(values: seq<string>) | RRSingle(value: string) | RRNil

  /** `{ :ttl => ..., :resource_records => ... }`, one leaf of the table. */
  datatype Entry = Entry(ttl: Ttl, rrs: RRs)

  /** A captured record as `zonedata` emits it. */
  datatype Record = Record(name: string, rtype: string, ttl: Ttl, data: string)

  /** A record set as the provider lists it. */
  datatype ProviderRecord = ProviderRecord(name: string, rtype: string, ttl: Ttl, rrs: RRs)

  /** type -> entry, for one name. */
  type Types = Hash<string, Entry>

  /** name -> type -> entry. */
  type Table = Hash<string, Types>

  /** `table[name] and table[name][type]`. */
  function Lookup(t: Table, name: string, rtype: string): Option<Entry> {
    match Get(t, name)
    case None => None
    case Some(types) => Get(types, rtype)
  }

  /** Both levels keep distinct keys, as Ruby hashes do. */
  predicate WellFormed(t: Table) {
    DistinctKeys(t) && forall i :: 0 <= i < |t| ==> DistinctKeys(t[i].1)
  }

  /** In a well-formed table a lookup finds exactly the stored leaves. */
  lemma LookupIff(t: Table, name: string, rtype: string, e: Entry)
    requires WellFormed(t)
    ensures Lookup(t, name, rtype) == Some(e) <==>
      exists i, j :: 0 <= i < |t| && 0 <= j < |t[i].1| && t[i].0 == name && t[i].1[j] == (rtype, e)
  {
    if exists i, j :: 0 <= i < |t| && 0 <= j < |t[i].1| && t[i].0 == name && t[i].1[j] == (rtype, e) {
      var i, j :| 0 <= i < |t| && 0 <= j < |t[i].1| && t[i].0 == name && t[i].1[j] == (rtype, e);
      GetAt(t, i);
      GetAt(t[i].1, j);
    }
    if Lookup(t, name, rtype) == Some(e) {
      var i := IndexOf(t, name);
      GetAt(t, i);
      var j := IndexOf(t[i].1, rtype);
      assert t[i].1[j] == (rtype, e);
    }
  }
}
