/** The string helpers of the Zonify module: dot termination, security group
    names made into LDH labels, and the prefix of a load balancer's DNS name.

    Ruby's `^` and `$` anchor at line boundaries, not at the ends of the
    string. The helpers whose patterns are single characters are modelled
    with that reading exactly; the load balancer pattern is modelled for names
    without a newline. */
module Names {
  import opened Hashes

  predicate NoNewline(s: string) {
    forall i :: 0 <= i < |s| ==> s[i] != '\n'
  }

  /** Ruby's `^` at position `i`. */
  predicate LineStart(s: string, i: int) {
    0 <= i <= |s| && (i == 0 || s[i - 1] == '\n')
  }

  /** Ruby's `$` at position `j`. */
  predicate LineEnd(s: string, j: int) {
    0 <= j <= |s| && (j == |s| || s[j] == '\n')
  }

  /** Ruby's `s.end_with?(suffix)`. */
  predicate EndsWith(s: string, suffix: string) {
    |suffix| <= |s| && s[|s| - |suffix|..] == suffix
  }

  /** `/^[.]/.match(s)`: some line of `s` starts with a dot. */
  predicate DotAtLineStart(s: string) {
    exists i :: 0 <= i < |s| && s[i] == '.' && LineStart(s, i)
  }

  /** `/[.]$/.match(s)`: some line of `s` ends with a dot. */
  predicate DotAtLineEnd(s: string) {
    exists i :: 0 <= i < |s| && s[i] == '.' && LineEnd(s, i + 1)
  }

  lemma DotAtLineStartPlain(s: string)
    ensures NoNewline(s) ==> (DotAtLineStart(s) <==> |s| > 0 && s[0] == '.')
  {
    if |s| > 0 && s[0] == '.' { assert LineStart(s, 0); }
  }

  lemma DotAtLineEndPlain(s: string)
    ensures NoNewline(s) ==> (DotAtLineEnd(s) <==> |s| > 0 && s[|s| - 1] == '.')
  {
    if |s| > 0 && s[|s| - 1] == '.' { assert LineEnd(s, |s|); }
  }

  /** `_dot(s)`: a leading dot is added unless a line already starts with one. */
  function DotPrefixed(s: string): (r: string)
    ensures r == s || r == "." + s
    ensures NoNewline(s) ==> |r| > 0 && r[0] == '.'
    ensures NoNewline(s) ==> (r == s <==> |s| > 0 && s[0] == '.')
  {
    DotAtLineStartPlain(s);
    if DotAtLineStart(s) then s else "." + s
  }

  /** `dot_(s)`: a trailing dot is added unless a line already ends with one. */
  function DotTerminated(s: string): (r: string)
    ensures r == s || r == s + "."
    ensures NoNewline(s) ==> |r| > 0 && r[|r| - 1] == '.'
    ensures NoNewline(s) ==> (r == s <==> |s| > 0 && s[|s| - 1] == '.')
  {
    DotAtLineEndPlain(s);
    if DotAtLineEnd(s) then s else s + "."
  }

  lemma DotPrefixedIdempotent(s: string)
    ensures DotPrefixed(DotPrefixed(s)) == DotPrefixed(s)
  {
    if !DotAtLineStart(s) {
      assert LineStart("." + s, 0) && ("." + s)[0] == '.';
    }
  }

  lemma DotTerminatedIdempotent(s: string)
    ensures DotTerminated(DotTerminated(s)) == DotTerminated(s)
  {
    if !DotAtLineEnd(s) {
      var r := s + ".";
      assert LineEnd(r, |s| + 1) && r[|s|] == '.';
    }
  }

  /** `s.sub(/[.]$/, '')`: the first dot that ends a line is removed. */
  function StripLineEndDot(s: string): (r: string)
    ensures r == s || |r| == |s| - 1
    decreases |s|
  {
    if s == [] then s
    else if s[0] == '.' && LineEnd(s, 1) then s[1..]
    else [s[0]] + StripLineEndDot(s[1..])
  }

  /** For a name on one line, `sub(/[.]$/, '')` drops one trailing dot. */
  lemma {:induction false} StripLineEndDotPlain(s: string)
    ensures NoNewline(s) ==> StripLineEndDot(s) == if |s| > 0 && s[|s| - 1] == '.' then s[..|s| - 1] else s
    decreases |s|
  {
    if NoNewline(s) && s != [] && !(s[0] == '.' && LineEnd(s, 1)) {
      StripLineEndDotPlain(s[1..]);
      assert NoNewline(s[1..]) by { assert forall i :: 0 <= i < |s[1..]| ==> s[1..][i] == s[i + 1]; }
      assert s == [s[0]] + s[1..];
      if |s| > 1 && s[|s| - 1] == '.' {
        assert s[1..][..|s| - 2] == s[1..|s| - 1];
        assert [s[0]] + s[1..|s| - 1] == s[..|s| - 1];
      }
    }
  }

  // ---- security group names as LDH labels --------------------------------------

  predicate IsLdhChar(c: char) {
    'a' <= c <= 'z' || '0' <= c <= '9' || c == '-'
  }

  predicate IsLowerAlnum(c: char) {
    'a' <= c <= 'z' || '0' <= c <= '9'
  }

  /** `l` as a whole is `[a-z0-9]|[a-z0-9][a-z0-9-]*[a-z0-9]`. */
  predicate IsLdhLabel(l: string) {
    |l| > 0 && IsLowerAlnum(l[0]) && IsLowerAlnum(l[|l| - 1])
    && forall i :: 0 <= i < |l| ==> IsLdhChar(l[i])
  }

  /** `LDH_RE.match(s)`: some whole line of `s` is an LDH label. */
  predicate MatchesLdh(s: string) {
    exists i, j :: 0 <= i <= j <= |s| && LineStart(s, i) && LineEnd(s, j) && IsLdhLabel(s[i..j])
  }

  lemma MatchesLdhPlain(s: string)
    ensures NoNewline(s) ==> (MatchesLdh(s) <==> IsLdhLabel(s))
  {
    if IsLdhLabel(s) {
      assert LineStart(s, 0) && LineEnd(s, |s|) && s[0..|s|] == s;
    }
  }

  /** Ruby's `downcase` on ASCII letters. */
  function Downcase(c: char): (r: char)
    ensures 'A' <= c <= 'Z' ==> r as int == c as int + 32
    ensures !('A' <= c <= 'Z') ==> r == c
  {
    if 'A' <= c <= 'Z' then (c as int + 32) as char else c
  }

  /** `s.downcase.gsub(/[^a-z0-9-]/, '-')`. */
  function Sanitize(s: string): (r: string)
    ensures |r| == |s|
    ensures forall i :: 0 <= i < |s| ==> IsLdhChar(r[i])
    ensures forall i :: 0 <= i < |s| ==> r[i] == if IsLdhChar(Downcase(s[i])) then Downcase(s[i]) else '-'
  {
    seq(|s|, i requires 0 <= i < |s| => if IsLdhChar(Downcase(s[i])) then Downcase(s[i]) else '-')
  }

  /** `t.sub(/(^-|-$)/, '0')`, scanning from position `p`: the leftmost hyphen
      that starts or ends a line becomes `0`. */
  function SubEdgeHyphen(t: string, p: nat): (r: string)
    requires p <= |t|
    ensures |r| == |t|
    ensures forall i :: 0 <= i < |t| ==> r[i] == t[i] || (t[i] == '-' && r[i] == '0')
    decreases |t| - p
  {
    if p == |t| then t
    else if t[p] == '-' && (LineStart(t, p) || LineEnd(t, p + 1)) then t[p := '0']
    else SubEdgeHyphen(t, p + 1)
  }

  /** `sg_name_to_ldh(s)`. */
  function SgNameToLdh(s: string): (r: string)
    ensures MatchesLdh(s) ==> r == s
    ensures !MatchesLdh(s) ==> |r| == |s| && forall i :: 0 <= i < |r| ==> IsLdhChar(r[i])
  {
    if MatchesLdh(s) then s else SubEdgeHyphen(Sanitize(s), 0)
  }

  lemma {:induction false} SubEdgeHyphenInterior(t: string, p: nat)
    requires NoNewline(t) && 0 < p <= |t|
    ensures SubEdgeHyphen(t, p) == if p < |t| && t[|t| - 1] == '-' then t[|t| - 1 := '0'] else t
    decreases |t| - p
  {
    if p < |t| && !(t[p] == '-' && (LineStart(t, p) || LineEnd(t, p + 1))) {
      SubEdgeHyphenInterior(t, p + 1);
    }
  }

  /** On a name that is not already an LDH label, only the first of a leading
      and a trailing hyphen becomes `0` (`sub`, not `gsub`); everything else is
      the downcased, hyphen-filled name. */
  lemma SgNameToLdhEdges(s: string)
    requires !MatchesLdh(s)
    ensures var t := Sanitize(s);
      SgNameToLdh(s) ==
        if |t| > 0 && t[0] == '-' then t[0 := '0']
        else if |t| > 0 && t[|t| - 1] == '-' then t[|t| - 1 := '0']
        else t
  {
    var t := Sanitize(s);
    assert NoNewline(t);
    if |t| > 0 && t[0] != '-' {
      SubEdgeHyphenInterior(t, 1);
    }
  }

  /** A name on one line that already is an LDH label is kept. */
  lemma SgNameToLdhKeepsLabels(s: string)
    requires NoNewline(s) && IsLdhLabel(s)
    ensures SgNameToLdh(s) == s
  {
    MatchesLdhPlain(s);
  }

  /** `t.gsub(/(^-|-$)/, '0')` on a name without newlines: a leading and a
      trailing hyphen both become `0`. */
  function EdgeHyphensToZero(t: string): (r: string)
    ensures |r| == |t|
    ensures |t| > 0 ==> r[0] != '-' && r[|r| - 1] != '-'
    ensures forall i :: 0 <= i < |t| ==> r[i] == t[i] || (t[i] == '-' && r[i] == '0')
  {
    var t1 := if |t| > 0 && t[0] == '-' then t[0 := '0'] else t;
    if |t1| > 0 && t1[|t1| - 1] == '-' then t1[|t1| - 1 := '0'] else t1
  }

  /** `sg_name_to_ldh` as its pattern evidently intends: the result of a
      non-empty name on one line is always an LDH label. */
  function SgNameToLdhIntended(s: string): (r: string)
    ensures NoNewline(s) && |s| > 0 ==> IsLdhLabel(r)
    ensures NoNewline(s) && IsLdhLabel(s) ==> r == s
    ensures !MatchesLdh(s) ==> |r| == |s|
  {
    MatchesLdhPlain(s);
    if MatchesLdh(s) then s else EdgeHyphensToZero(Sanitize(s))
  }

  lemma SgNameToLdhIntendedIdempotent(s: string)
    requires NoNewline(s) && |s| > 0
    ensures SgNameToLdhIntended(SgNameToLdhIntended(s)) == SgNameToLdhIntended(s)
  {
    var r := SgNameToLdhIntended(s);
    assert NoNewline(r) by {
      if !MatchesLdh(s) {
        forall i | 0 <= i < |r| ensures r[i] != '\n' { assert IsLdhChar(r[i]); }
      }
    }
  }

  /** The name `(web)` shows the difference: `sub` leaves the trailing hyphen,
      so the result is not an LDH label. */
  lemma SgNameToLdhKeepsTrailingHyphen()
    ensures SgNameToLdh("(web)") == "0web-"
    ensures !IsLdhLabel(SgNameToLdh("(web)"))
    ensures SgNameToLdhIntended("(web)") == "0web0"
  {
    var s := "(web)";
    MatchesLdhPlain(s);
    var t := Sanitize(s);
    assert t[0] == '-' && t[1] == 'w' && t[2] == 'e' && t[3] == 'b' && t[4] == '-';
    assert t == "-web-";
    SgNameToLdhEdges(s);
    assert t[0 := '0'] == "0web-";
    assert EdgeHyphensToZero(t) == "0web0";
  }

  // ---- load balancer names ----------------------------------------------------

  /** The first position of `c` in `s`. */
  function FirstIndexOf(s: string, c: char): (r: Option<nat>)
    ensures r.Some? ==> r.value < |s| && s[r.value] == c && forall k :: 0 <= k < r.value ==> s[k] != c
    ensures r.None? ==> forall k :: 0 <= k < |s| ==> s[k] != c
  {
    if s == [] then None
    else if s[0] == c then Some(0)
    else match FirstIndexOf(s[1..], c)
      case None => None
      case Some(i) => Some(i + 1)
  }

  /** The last position of `c` in `s`. */
  function LastIndexOf(s: string, c: char): (r: Option<nat>)
    ensures r.Some? ==> r.value < |s| && s[r.value] == c && forall k :: r.value < k < |s| ==> s[k] != c
    ensures r.None? ==> forall k :: 0 <= k < |s| ==> s[k] != c
  {
    if s == [] then None
    else if s[|s| - 1] == c then Some(|s| - 1)
    else LastIndexOf(s[..|s| - 1], c)
  }

  /** A name on one line of the form `ELB_DNS_RE = /^([a-z0-9-]+)-[^-.]+[.].+$/`:
      group 1 is `s[..h]`, the hyphen after it is at `h`, the dot after
      `[^-.]+` is at `d`. */
  predicate ElbShape(s: string, h: int, d: int) {
    1 <= h && h + 1 < d && d + 1 < |s| && s[h] == '-' && s[d] == '.'
    && (forall k :: 0 <= k < h ==> IsLdhChar(s[k]))
    && (forall k :: h < k < d ==> s[k] != '-' && s[k] != '.')
  }

  /** `cut_down_elb_name(s)`: the `[a-z0-9-]` prefix before the last hyphen
      that precedes the first dot, or `nil` when the pattern does not match. */
  function CutDownElbName(s: string): (r: Option<string>)
    requires NoNewline(s)
    ensures r.Some? ==> 1 <= |r.value| < |s| && s[..|r.value|] == r.value && s[|r.value|] == '-'
    ensures r.Some? ==> forall k :: 0 <= k < |r.value| ==> IsLdhChar(r.value[k])
  {
    match FirstIndexOf(s, '.')
    case None => None
    case Some(d) =>
      match LastIndexOf(s[..d], '-')
      case None => None
      case Some(h) =>
        if 1 <= h && h + 1 < d && d + 1 < |s| && (forall k :: 0 <= k < h ==> IsLdhChar(s[k]))
        then Some(s[..h]) else None
  }

  /** The pattern matches exactly when the name has the shape, the shape fixes
      the group (so the greedy group is the only one), and the result is that
      group. */
  lemma CutDownElbNameMatch(s: string)
    requires NoNewline(s)
    ensures CutDownElbName(s).Some? <==> exists h, d :: ElbShape(s, h, d)
    ensures forall h, d :: ElbShape(s, h, d) ==> CutDownElbName(s) == Some(s[..h])
    ensures forall h, d, h', d' :: ElbShape(s, h, d) && ElbShape(s, h', d') ==> h == h' && d == d'
  {
    forall h, d | ElbShape(s, h, d)
      ensures FirstIndexOf(s, '.') == Some(d) && LastIndexOf(s[..d], '-') == Some(h)
    {
      var f := FirstIndexOf(s, '.');
      assert f.Some? && f.value <= d;
      assert !(f.value < d);
      var l := LastIndexOf(s[..d], '-');
      assert s[..d][h] == '-';
      assert l.Some? && l.value >= h;
    }
    if CutDownElbName(s).Some? {
      var d := FirstIndexOf(s, '.').value;
      var h := LastIndexOf(s[..d], '-').value;
      forall k | h < k < d ensures s[k] != '-' && s[k] != '.' {
        assert s[..d][k] == s[k];
      }
      assert ElbShape(s, h, d);
    }
  }
}
