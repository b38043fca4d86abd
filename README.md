# Zonify in Dafny

Zonify publishes the state of a cloud account as DNS records. It runs in two stages:

1. **Capture.** It reads the compute instances and load balancers and turns them into records:
   - a CNAME per instance;
   - TXT records listing the hosts behind each load balancer and in each security group.
2. **Sync.** It folds those records into a name → type → entry table and reads the provider's hosted zone into the same shape. It then computes the changes that turn the zone into the wanted one: deletions and creations, sorted by name and type, each deletion just before the creation that replaces it.

This project models that engine and the string helpers it relies on, and proves the properties each step promises. Everything is in `lib/zonify.rb`.

- Ruby's insertion-ordered `Hash` is a sequence of key/value pairs (`Hashes`):
  - `h[k] = v` overwrites in place or appends.
  - Lemmas assume the hash invariant that keys are distinct.
- The `inject` folds that mutate an accumulator are methods with loops. Each is proved equal to a fold function, and each fold function is characterised by a lookup lemma. The folds are:
  - `instances`;
  - the security-group grouping in `zonedata`;
  - `collate`;
  - `expand_right_aws`;
  - the qualification fold in `Sync#calculate_changes`.
- The pure parts are functions:
  - the record builders;
  - `normRRs`, `compare_records` and `calculate_changes`;
  - zone choice;
  - the string helpers.
- TTLs are `TtlInt | TtlStr | TtlNil`, so that `100`, `'100'` and `nil` stay apart, as they do in Ruby.
- Ruby's `^` and `$` match at line boundaries. `_dot`, `dot_`, `sub(/[.]$/, '')` and the LDH pattern are modelled with that reading. The load-balancer pattern is modelled only for names without a newline.
- The service calls are parameters of the methods:
  - `describe_instances`
  - `describe_load_balancers`
  - `list_hosted_zones`
  - `list_resource_record_sets`

Two places in the code do not do what their comments or names promise, and both are listed under Findings:

- `compare_records` never compares values.
- `sg_name_to_ldh` replaces only one edge hyphen.

For each, the model has two parts:

- A member that follows the code as written, with a lemma that shows the discrepancy.
- A corrected member whose property is proved.

The pipeline (`Capture.Zonedata`, `Sync.CalculateZoneChanges`) follows the code as written. It names groups with `Names.SgNameToLdh` and compares records with `Changes.CompareRecords`. `Capture.ZoneData` and `Sync.ZoneChanges` take the label function and the comparison as parameters. Passing `Names.SgNameToLdhIntended` or `Changes.CompareRecordsIntended` gives the corrected zone and diff. Every lemma about the diff is stated for any comparison function, so it holds for both.

## Model

| member | source | states |
|---|---|---|
| `Names.DotAtLineStartPlain` | lib/zonify.rb:225 | On a one-line string, `/^[.]/` matches exactly when the first character is a dot. |
| `Names.DotAtLineEndPlain` | lib/zonify.rb:229 | On a one-line string, `/[.]$/` matches exactly when the last character is a dot. |
| `Names.DotPrefixed` | lib/zonify.rb:224-226 | `_dot` returns `s` or `"." + s`. On one line the result starts with a dot, and it equals `s` exactly when `s` already starts with one. |
| `Names.DotPrefixedIdempotent` | lib/zonify.rb:224-226 | `_dot(_dot(s)) == _dot(s)`. |
| `Names.DotTerminated` | lib/zonify.rb:228-230 | `dot_` returns `s` or `s + "."`. On one line the result ends with a dot, and it equals `s` exactly when `s` already ends with one. |
| `Names.DotTerminatedIdempotent` | lib/zonify.rb:228-230 | `dot_(dot_(s)) == dot_(s)`. |
| `Names.StripLineEndDot` | lib/zonify.rb:107 | `sub(/[.]$/, '')` returns its input or removes one character. |
| `Names.StripLineEndDotPlain` | lib/zonify.rb:107 | On a one-line name it removes exactly one trailing dot, and leaves names without one unchanged. |
| `Names.MatchesLdhPlain` | lib/zonify.rb:218 | On one line, `LDH_RE` matches exactly the LDH labels: non-empty, `[a-z0-9-]`, no hyphen at either end. |
| `Names.Downcase` | lib/zonify.rb:220 | `downcase` maps `A`-`Z` to `a`-`z` and leaves every other character alone. |
| `Names.Sanitize` | lib/zonify.rb:220 | `downcase.gsub(/[^a-z0-9-]/, '-')`: same length; each character is its lower-case form when that is an LDH character, otherwise `-`. |
| `Names.SubEdgeHyphen` | lib/zonify.rb:221 | The edge-hyphen `sub` keeps the length and changes only hyphens, each to `0`. |
| `Names.SgNameToLdh` | lib/zonify.rb:218-222 | A name matching `LDH_RE` is returned unchanged. Any other name gives a result of the same length made only of `[a-z0-9-]`. |
| `Names.SgNameToLdhEdges` | lib/zonify.rb:220-221 | As written, only the first edge hyphen becomes `0`: the leading one if there is one, otherwise the trailing one. |
| `Names.SgNameToLdhKeepsLabels` | lib/zonify.rb:218-219 | A one-line LDH label is returned unchanged. |
| `Names.SgNameToLdhKeepsTrailingHyphen` | lib/zonify.rb:218-222 | As written, `"(web)"` becomes `"0web-"`, which is not an LDH label. The corrected version gives `"0web0"`. |
| `Names.EdgeHyphensToZero` | lib/zonify.rb:221 | The corrected replacement: same length, no hyphen left at either end, and only hyphens changed, to `0`. |
| `Names.SgNameToLdhIntended` | lib/zonify.rb:218-222 | The corrected `sg_name_to_ldh` maps every non-empty one-line name to an LDH label, and leaves labels unchanged. |
| `Names.SgNameToLdhIntendedIdempotent` | lib/zonify.rb:218-222 | The corrected function is idempotent. |
| `Names.CutDownElbName` | lib/zonify.rb:213-216 | A returned prefix is a non-empty `[a-z0-9-]` run at the start of the name, followed by a hyphen. |
| `Names.CutDownElbNameMatch` | lib/zonify.rb:213-216 | `cut_down_elb_name` returns a value exactly when `ELB_DNS_RE` matches: an `[a-z0-9-]+` prefix, a hyphen, a run without `-` or `.`, a dot and at least one more character. The value is the prefix, and the match is unique. |
| `Records.LookupIff` | lib/zonify.rb:167-169 | In a well-formed table, `(t[name] and t[name][type])` finds exactly the stored leaves. |
| `Collation.CollateStepLookup` | lib/zonify.rb:138-144 | One record changes only the leaf of its own name and type. |
| `Collation.CollatedLookup` | lib/zonify.rb:134-147 | For every name and type, the collated leaf has three parts: the ttl of the first matching record; for a CNAME only the last value; for any other type every value in input order, duplicates kept. Names and types never listed are absent. |
| `Collation.CollatedWellFormed` | lib/zonify.rb:134-147 | The collated table has distinct keys at both levels. |
| `Collation.Collate` | lib/zonify.rb:134-147 | `Sync.collate`: the loop computes the fold, the result is well formed, and every lookup agrees with the description above. |
| `Collation.ExpandedLookup` | lib/zonify.rb:150-159 | For every name and type, the leaf holds the ttl and values of the last provider record listed with them, and is absent if none is. |
| `Collation.ExpandedWellFormed` | lib/zonify.rb:150-159 | The expanded table has distinct keys at both levels. |
| `Collation.ExpandRightAws` | lib/zonify.rb:150-159 | `Sync.expand_right_aws`: the loop computes the fold, the result is well formed, and every lookup is the last record's ttl and values. |
| `Sorting.InsertionSort` | lib/zonify.rb:184-189 | The sort behind `sort_by` returns a permutation of its input. |
| `Sorting.InsertionSortSorted` | lib/zonify.rb:184-189 | Under a total, transitive order the result is sorted. |
| `Sorting.SortedUnique` | lib/zonify.rb:184-189 | Two sorted permutations of the same elements are equal when the order ties no two distinct elements. So any sort gives the same answer. |
| `Sorting.StrLeOrder` | lib/zonify.rb:188 | String comparison is total, transitive and antisymmetric. |
| `Sorting.SortStrings` | lib/zonify.rb:204 | `val.sort` is a sorted permutation of `val`. |
| `Sorting.SortStringsSame` | lib/zonify.rb:204 | Two arrays sort to the same array exactly when they hold the same values with the same multiplicities. |
| `Changes.NormRRs` | lib/zonify.rb:202-207 | `normRRs` sorts an array and leaves any other value unchanged. |
| `Changes.NormRRsSame` | lib/zonify.rb:202-207 | Two values normalise alike exactly when they are arrays with the same elements up to order, or the same non-array value. |
| `Changes.CompareRecords` | lib/zonify.rb:193-199 | As written, `compare_records(a, b)` holds exactly when name, type, action and ttl agree. The values never take part, so it is reflexive and symmetric, and entries that differ only in their values compare equal. |
| `Changes.CompareRecordsIntended` | lib/zonify.rb:191-199 | The comparison the comment describes also requires the same values up to order. |
| `Changes.LeafChanges` | lib/zonify.rb:168-173 | For one name, the changes are exactly the leaves whose comparison with their counterpart fails, tagged with the name, type and action. |
| `Changes.TableChanges` | lib/zonify.rb:166-183 | For a whole table, the changes are exactly the stored leaves whose comparison with their counterpart fails. A missing counterpart is `{}`. |
| `Changes.TableChangesIn` | lib/zonify.rb:166-183 | In a well-formed table the same statement, by lookup. |
| `Changes.TableChangesNoDup` | lib/zonify.rb:166-183 | A well-formed table yields no change twice. |
| `Changes.ChangeLeOrder` | lib/zonify.rb:184-189 | The order by `[name, type, delete_first]` is total and transitive, and it ties only changes with the same name, type and action. |
| `Changes.Diff` | lib/zonify.rb:184-189 | The output is a sorted permutation of the deletions followed by the creations. |
| `Changes.DiffIn` | lib/zonify.rb:165-190 | A change is in the output exactly in one of two cases. It is a creation carrying a new leaf whose comparison with the old leaf (or `{}`) fails. Or it is a deletion carrying an old leaf whose comparison with the new one (or `{}`) fails. |
| `Changes.DiffDistinctKeys` | lib/zonify.rb:184-189 | No two changes share a name, a type and an action. |
| `Changes.DiffPairs` | lib/zonify.rb:166-183 | For a name and type on both sides, a creation is emitted exactly when a deletion is. |
| `Changes.DiffDeleteBeforeCreate` | lib/zonify.rb:184-189 | A deletion and a creation for one name and type are adjacent, with the deletion first. |
| `Changes.DiffUnique` | lib/zonify.rb:184-189 | Every sorted arrangement of the changes equals the output, so `sort_by`'s instability cannot show. |
| `Changes.DiffSelf` | lib/zonify.rb:165-190 | Diffing a table against itself gives no changes, for any reflexive comparison. |
| `Changes.CalculateChanges` | lib/zonify.rb:165-199 | As written, the result is sorted. For well-formed tables, a leaf is deleted or created exactly when the ttl on the other side differs from its own (`nil` for a missing leaf). Values never matter. |
| `Changes.CalculateChangesIntended` | lib/zonify.rb:165-199 | With the comparison the comment at lines 191-192 describes, the result is sorted. A leaf is deleted or created exactly when the other side's ttl or values (up to order) differ from its own. |
| `Changes.CalculateChangesSelf` | lib/zonify.rb:165-199 | `calculate_changes(t, t) == []`, as written and as intended. |
| `Changes.CalculateChangesMissesNewTarget` | lib/zonify.rb:193-199 | As written, retargeting a CNAME without changing its ttl gives no change. |
| `Changes.CalculateChangesIntendedReplacesTarget` | lib/zonify.rb:191-199 | With the intended comparison, the same input gives a deletion of the old target followed by a creation of the new one. |
| `Capture.SuffixesFrom` | lib/zonify.rb:29-33 | A missing suffix defaults to `inst`, `elb` or `sg`. A given one, including `""`, is kept. |
| `Capture.GroupsOf` | lib/zonify.rb:39-42 | `aws_groups` when present. Otherwise the `group_name`s of `groups`, in order. Otherwise `nil`. |
| `Capture.HostsFoldGet` | lib/zonify.rb:36-47 | The host map holds an id exactly when an instance with that id has a non-empty dns name. Its value is the groups and `dot_(dns)` of the last such instance. |
| `Capture.HostsFoldDistinct` | lib/zonify.rb:36-47 | The host map has distinct keys. |
| `Capture.Instances` | lib/zonify.rb:35-48 | `Capture#instances`: the loop computes the fold, and every lookup agrees with `HostsFoldGet`. |
| `Capture.LoadBalancers` | lib/zonify.rb:49-54 | One entry per described load balancer: its members, and `cut_down_elb_name` of its dns name as the prefix. |
| `Capture.HostRecords` | lib/zonify.rb:58-64 | Exactly two records per host. The records are exactly each host's CNAME and TXT. |
| `Capture.HostRecordsAt` | lib/zonify.rb:58-64 | The records of the k-th host are the k-th pair, in host order. The CNAME `id.<host>`, ttl 86400, points at the dns. The TXT `<host>` has ttl `'100'` and the quoted dns. |
| `Capture.Running` | lib/zonify.rb:66 | At most one running host per listed member. |
| `Capture.RunningIn` | lib/zonify.rb:66 | The running members are exactly the hosts the map knows among a load balancer's members. |
| `Capture.RunningSkipsUnknown` | lib/zonify.rb:66 | A member the host map does not know adds nothing (`compact`). |
| `Capture.ElbRecordsFor` | lib/zonify.rb:65-72 | One TXT per running member, in order, named `<prefix>.<elb>` (`nil` prefix reads as empty), ttl 100, quoted dns. |
| `Capture.ElbRecords` | lib/zonify.rb:65-72 | The load-balancer records are exactly those of the individual load balancers. |
| `Capture.ElbRecordsForIn` | lib/zonify.rb:65-72 | A load balancer publishes a record exactly for each member that is a known host, with that host's dns. |
| `Capture.AddToGroupsGet` | lib/zonify.rb:75-78 | Filing one host under its groups appends its dns to each listed group once per listing, and leaves other groups alone. |
| `Capture.SgFoldGet` | lib/zonify.rb:73-80 | The grouping holds, for each group some host lists, the member dns names host by host, one per listing. Groups nobody lists are absent. |
| `Capture.SgFoldDistinct` | lib/zonify.rb:73-80 | The grouping has distinct keys. |
| `Capture.GroupBySg` | lib/zonify.rb:73-80 | The nested loops compute the grouping fold, with the lookup property above. |
| `Capture.GroupRecords` | lib/zonify.rb:80-87 | One TXT per member of a group, in order, named `<ldh(sg)>.<sg>` for the label function `ldh`, ttl 100, quoted dns. |
| `Capture.SgRecords` | lib/zonify.rb:80-87 | The security-group records are exactly those of the individual groups. |
| `Capture.SgRecordsEdgeHyphen` | lib/zonify.rb:80-87 | As written, a host in the group `(web)` has its TXT at `0web-.<sg>`. The corrected label function puts it at `0web0.<sg>`. |
| `Capture.SgRecordsCover` | lib/zonify.rb:73-87 | For any label function, every listing of a group by a host yields a TXT at the group's name pointing at that host. |
| `Capture.ZoneData` | lib/zonify.rb:55-89 | Load balancers and groups add only TXT records. So the zone's CNAMEs are exactly the hosts' `<id>.<host suffix>` CNAMEs, one per published host. |
| `Capture.Zonedata` | lib/zonify.rb:55-89 | `Capture#zonedata` returns the host records, then the load-balancer records, then the security-group records of the captured host map. Group names come from `sg_name_to_ldh` as written. |
| `Sync.RootName` | lib/zonify.rb:96 | `_dot(dot_(root))` is the root with at most a dot added at each end. For a one-line root it starts and ends with a dot. |
| `Sync.RootNameIdempotent` | lib/zonify.rb:96 | Building the root twice changes nothing. |
| `Sync.QualifiedName` | lib/zonify.rb:107 | The qualified name ends with the root. A one-line name first loses one trailing dot. |
| `Sync.QualifiedGet` | lib/zonify.rb:106-109 | A qualified name holds the leaves of the last collated name that qualifies to it. `www` and `www.` collide and the later one wins. |
| `Sync.QualifiedShape` | lib/zonify.rb:106-109 | Every qualified name ends with the root, and the table stays well formed. |
| `Sync.Qualify` | lib/zonify.rb:106-109 | The qualification loop computes the fold, with the lookup property above. |
| `Sync.Candidates` | lib/zonify.rb:120-122 | The candidates are exactly the listed zones whose name is a suffix of the root. |
| `Sync.LongestLast` | lib/zonify.rb:121-122 | After sorting zones by name length, the last one is a candidate with no longer candidate. The sorted list is empty only when there are no candidates. |
| `Sync.SelectZone` | lib/zonify.rb:120-123 | A zone is chosen exactly when some zone covers the root. The chosen one covers it, and no covering zone has a longer name. |
| `Sync.SelectZoneName` | lib/zonify.rb:120-122 | The chosen zone's name is the longest covering name, however ties are sorted. |
| `Sync.RelevantRecords` | lib/zonify.rb:125-127 | Exactly the listed records whose name ends with the root. |
| `Sync.ZoneChanges` | lib/zonify.rb:104-111 | For any comparison, the changes are sorted by name, type and deletion first, and every one is for a name under the root. |
| `Sync.CalculateZoneChanges` | lib/zonify.rb:103-112 | With no covering zone the result is the abort (`None`). Otherwise it is the as-written diff (`compare_records` of lines 193-199) between the qualified collation of the capture and the expansion of the zone's relevant records. |
| `Sync.ZoneChangesUnderRoot` | lib/zonify.rb:103-127 | For any comparison, every change the pipeline computes is for a name under the root. |

## Findings

| source | as written | input that shows it | evidently intended | confidence | as-written member | corrected member |
|---|---|---|---|---|---|---|
| lib/zonify.rb:196 | Both compared arrays end in `normRRs(a[:resource_records])`, so the values of `b` are never read. | New table `{n => {CNAME => {ttl 300, [x]}}}` against old `{n => {CNAME => {ttl 300, [y]}}}` with `x != y` gives `[]`. | Compare each side's own normalised values, as the comment at lines 191-192 says. The diff is then `[delete y, create x]`. | high, not executed | `Changes.CalculateChangesMissesNewTarget` | `Changes.CalculateChangesIntendedReplacesTarget` |
| lib/zonify.rb:221 | The edge-hyphen `sub` (not `gsub`) replaces only the first hyphen at the start or end of a line. | `sg_name_to_ldh("(web)")` gives `"0web-"`, which does not match `LDH_RE`. | Replace every edge hyphen (`gsub`), giving the label `"0web0"`. | medium, not executed | `Names.SgNameToLdhKeepsTrailingHyphen` | `Names.SgNameToLdhIntended` |

## Left out

- `lib/zonify/resolve.rb` is not part of this model. It is a DNS client over the network, and its lookup loop is driven by the answers it receives.
- `Sync#sync` (lines 113-117) is not modelled. It only submits the computed changes to the provider.
- The remote calls are parameters, not modelled calls:
  - `describe_instances`
  - `describe_load_balancers`
  - `list_hosted_zones`
  - `list_resource_record_sets`
  - `change_resource_record_sets`
- The `abort` at line 123 is the `None` result of `Sync.CalculateZoneChanges`.
- The memoisation of `@r53_zone` and `@r53_records` in `retrieve_zone_and_records` and `clear` (lines 99-102 and 119-130) is not modelled. `Sync.CalculateZoneChanges` reads the listings on every call. The cache only avoids repeated remote calls.
- The commented-out instance-metadata helpers (lines 7-22) are not modelled.
- Sync.SelectZone: Ruby's `sort_by` is not stable, so among covering zones with equally long names Ruby may return any of them. The model returns the last one in listing order. `Sync.SelectZoneName` proves that the chosen name is the same either way. Only the zone id of two identically named zones could differ.
- Names.Downcase: only ASCII letters are lower-cased, as in Ruby before 2.4. From Ruby 2.4 on, `downcase` also folds non-ASCII letters. Two kinds of difference follow. A non-ASCII letter that folds to an ASCII one, such as the Kelvin sign, becomes `k` in Ruby where the model writes `-`. A letter that folds to two characters, such as `İ` (U+0130) to `i̇`, makes Ruby's result one character longer. So the same-length ensures of `Names.Sanitize` and `Names.SgNameToLdh` do not hold for Ruby 2.4 and later on such names.
- Names.CutDownElbName: requires a dns name without a newline. Ruby's `^` and `$` would otherwise let the pattern match on any line.
- Capture.LoadBalancers: requires newline-free dns names, for the same reason.
- Capture.Zonedata: requires newline-free dns names, for the same reason.
- String order compares characters, where Ruby compares bytes. For UTF-8 strings the two orders agree.
- Hash iteration order is the insertion order of the pair sequences. The lemmas assume the distinct-keys invariant that every Ruby hash keeps.
