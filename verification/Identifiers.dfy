/** The scanners for weakness (CWE) and vulnerability (CVE) ids in text, from
    internal/compliance/mapper.go, and the normal form of a CWE id from internal/compliance/cwe.go. */
module Identifiers {
  datatype Pattern = Cwe | Cve

  function Prefix(k: Pattern): (s: string)
    ensures |s| == 4
  {
    match k
    case Cwe => "CWE-"
    case Cve => "CVE-"
  }

  predicate IsDigit(c: char) {
    '0' <= c <= '9'
  }

  /** The end of the longest run of digits from `p` on. */
  function DigitsEnd(s: string, p: nat): (e: nat)
    requires p <= |s|
    ensures p <= e <= |s|
    ensures forall i :: p <= i < e ==> IsDigit(s[i])
    ensures e < |s| ==> !IsDigit(s[e])
    decreases |s| - p
  {
    if p < |s| && IsDigit(s[p]) then DigitsEnd(s, p + 1) else p
  }

  predicate PrefixAt(k: Pattern, s: string, p: nat) {
    p + 4 <= |s| && s[p..p + 4] == Prefix(k)
  }

  /** "CWE-" and at least one digit; "CVE-", exactly four digits, a dash and at least four digits. */
  predicate MatchAt(k: Pattern, s: string, p: nat) {
    PrefixAt(k, s, p) &&
    match k
    case Cwe => DigitsEnd(s, p + 4) > p + 4
    case Cve => DigitsEnd(s, p + 4) == p + 8 && p + 8 < |s| && s[p + 8] == '-' && DigitsEnd(s, p + 9) >= p + 13
  }

  function MatchEnd(k: Pattern, s: string, p: nat): (e: nat)
    requires MatchAt(k, s, p)
    ensures p + 4 < e <= |s|
    ensures e < |s| ==> !IsDigit(s[e])
  {
    match k
    case Cwe => DigitsEnd(s, p + 4)
    case Cve => DigitsEnd(s, p + 9)
  }

  ghost predicate NoMatch(k: Pattern, s: string, lo: nat, hi: nat) {
    forall p :: lo <= p < hi ==> !MatchAt(k, s, p)
  }

  /** The leftmost match from `from` on, or |s|. */
  function FirstMatch(k: Pattern, s: string, from: nat): (p: nat)
    requires from <= |s|
    ensures from <= p <= |s|
    ensures NoMatch(k, s, from, p)
    ensures p < |s| ==> MatchAt(k, s, p)
    decreases |s| - from
  {
    if from == |s| || MatchAt(k, s, from) then from else FirstMatch(k, s, from + 1)
  }

  /** The leftmost match with all its digits, or nothing when no position matches. */
  function Extract(k: Pattern, s: string): string {
    var p := FirstMatch(k, s, 0);
    if p == |s| then "" else s[p..MatchEnd(k, s, p)]
  }

  lemma EmptyExactlyWithoutMatch(k: Pattern, s: string)
    ensures Extract(k, s) == "" <==> NoMatch(k, s, 0, |s|)
  {
    var p := FirstMatch(k, s, 0);
    if p < |s| {
      assert |s[p..MatchEnd(k, s, p)]| > 0;
    }
  }

  lemma LeftmostIsExtracted(k: Pattern, s: string, p: nat)
    requires MatchAt(k, s, p) && NoMatch(k, s, 0, p)
    ensures Extract(k, s) == s[p..MatchEnd(k, s, p)]
  {
    assert FirstMatch(k, s, 0) == p;
  }

  // ---- The scanning loops ----

  /** strings.Index(s[from:], prefix), as a position in `s`. */
  function Index(k: Pattern, s: string, from: nat): (r: int)
    requires from <= |s|
    ensures r == -1 ==> forall p :: from <= p ==> !PrefixAt(k, s, p)
    ensures r != -1 ==> from <= r && PrefixAt(k, s, r) && forall p :: from <= p < r ==> !PrefixAt(k, s, p)
    decreases |s| - from
  {
    if from + 4 > |s| then -1 else if PrefixAt(k, s, from) then from else Index(k, s, from + 1)
  }

  /** The prefix cannot overlap itself, so the scan may resume behind a failed one. */
  lemma ResumeSkipsNothing(k: Pattern, s: string, idx: nat, start: nat)
    requires idx <= start && NoMatch(k, s, 0, idx)
    requires forall p :: idx <= p < start ==> !PrefixAt(k, s, p)
    requires PrefixAt(k, s, start) && !MatchAt(k, s, start)
    ensures NoMatch(k, s, 0, start + 4)
  {
    forall p | 0 <= p < start + 4
      ensures !MatchAt(k, s, p)
    {
      if start < p {
        NoOverlap(k, s, start, p);
      }
    }
  }

  lemma NoOverlap(k: Pattern, s: string, start: nat, p: nat)
    requires PrefixAt(k, s, start) && start < p < start + 4
    ensures !PrefixAt(k, s, p)
  {
    assert s[start..start + 4][p - start] == s[p];
  }

  lemma NothingFound(k: Pattern, s: string, idx: nat)
    requires idx <= |s| && NoMatch(k, s, 0, idx)
    requires forall p :: idx <= p ==> !PrefixAt(k, s, p)
    ensures Extract(k, s) == ""
  {
  }

  method SkipDigits(s: string, p: nat) returns (end: nat)
    requires p <= |s|
    ensures end == DigitsEnd(s, p)
  {
    end := p;
    while end < |s| && '0' <= s[end] <= '9'
      invariant p <= end <= |s| && DigitsEnd(s, end) == DigitsEnd(s, p)
    {
      end := end + 1;
    }
  }

  method ExtractCWEFromString(s: string) returns (id: string)
    ensures id == Extract(Cwe, s)
  {
    var idx := 0;
    while true
      invariant idx <= |s| && NoMatch(Cwe, s, 0, idx)
      decreases |s| - idx
    {
      var start := Index(Cwe, s, idx);
      if start == -1 {
        NothingFound(Cwe, s, idx);
        break;
      }
      var end := SkipDigits(s, start + 4);
      if end > start + 4 {
        LeftmostIsExtracted(Cwe, s, start);
        return s[start..end];
      }
      ResumeSkipsNothing(Cwe, s, idx, start);
      idx := start + 4;
      if idx >= |s| {
        break;
      }
    }
    return "";
  }

  method ExtractCVEFromString(s: string) returns (id: string)
    ensures id == Extract(Cve, s)
  {
    var idx := 0;
    while true
      invariant idx <= |s| && NoMatch(Cve, s, 0, idx)
      decreases |s| - idx
    {
      var start := Index(Cve, s, idx);
      if start == -1 {
        NothingFound(Cve, s, idx);
        break;
      }
      var end := start + 4;
      var yearEnd := SkipDigits(s, end);
      if yearEnd - end == 4 && yearEnd < |s| && s[yearEnd] == '-' && yearEnd + 1 < |s| {
        var idStart := yearEnd + 1;
        var idEnd := SkipDigits(s, idStart);
        if idEnd - idStart >= 4 {
          LeftmostIsExtracted(Cve, s, start);
          return s[start..idEnd];
        }
      }
      ResumeSkipsNothing(Cve, s, idx, start);
      idx := start + 4;
      if idx >= |s| {
        break;
      }
    }
    return "";
  }

  // ---- What an extracted id looks like ----

  lemma {:induction false} DigitsEndOfSlice(s: string, lo: nat, hi: nat, p: nat)
    requires lo <= p <= hi <= |s|
    ensures DigitsEnd(s[lo..hi], p - lo) == if DigitsEnd(s, p) <= hi then DigitsEnd(s, p) - lo else hi - lo
    decreases hi - p
  {
    if p < hi {
      assert s[lo..hi][p - lo] == s[p];
      if IsDigit(s[p]) {
        DigitsEndOfSlice(s, lo, hi, p + 1);
      }
    }
  }

  lemma MatchIsWhole(k: Pattern, s: string, p: nat)
    requires MatchAt(k, s, p)
    ensures var id := s[p..MatchEnd(k, s, p)]; MatchAt(k, id, 0) && MatchEnd(k, id, 0) == |id|
  {
    var e := MatchEnd(k, s, p);
    var id := s[p..e];
    assert id[0..4] == s[p..p + 4];
    DigitsEndOfSlice(s, p, e, p + 4);
    if k == Cve {
      assert id[8] == s[p + 8];
      DigitsEndOfSlice(s, p, e, p + 9);
    }
  }

  /** An extracted id is an id from end to end, and is what is extracted from it. */
  lemma ExtractIsIdempotent(k: Pattern, s: string)
    ensures Extract(k, Extract(k, s)) == Extract(k, s)
    ensures Extract(k, s) != "" ==> MatchAt(k, Extract(k, s), 0) && MatchEnd(k, Extract(k, s), 0) == |Extract(k, s)|
  {
    var p := FirstMatch(k, s, 0);
    if p < |s| {
      MatchIsWhole(k, s, p);
      var id := Extract(k, s);
      assert id[0..|id|] == id;
      LeftmostIsExtracted(k, id, 0);
    }
  }

  // ---- Ids spelled out ----

  ghost predicate AllDigits(s: string, lo: nat, hi: nat) {
    hi <= |s| && forall i :: lo <= i < hi ==> IsDigit(s[i])
  }

  /** `w` is an id: the prefix and digits, at least one for a weakness; for a vulnerability four digits,
      a dash and at least four digits. */
  ghost predicate IsId(k: Pattern, w: string) {
    match k
    case Cwe => |w| >= 5 && w[..4] == "CWE-" && AllDigits(w, 4, |w|)
    case Cve => |w| >= 13 && w[..4] == "CVE-" && AllDigits(w, 4, 8) && w[8] == '-' && AllDigits(w, 9, |w|)
  }

  ghost predicate HoldsId(k: Pattern, s: string, lo: nat, hi: nat) {
    lo <= hi <= |s| && IsId(k, s[lo..hi])
  }

  lemma {:induction false} DigitsReach(s: string, lo: nat, hi: nat)
    requires lo <= hi <= |s| && AllDigits(s, lo, hi)
    ensures DigitsEnd(s, lo) >= hi
    decreases hi - lo
  {
    if lo < hi {
      DigitsReach(s, lo + 1, hi);
    }
  }

  lemma HeldIsMatch(k: Pattern, s: string, lo: nat, hi: nat)
    requires HoldsId(k, s, lo, hi)
    ensures MatchAt(k, s, lo) && hi <= MatchEnd(k, s, lo)
  {
    var w := s[lo..hi];
    assert s[lo..lo + 4] == w[..4];
    assert forall i :: 0 <= i < |w| ==> s[lo + i] == w[i];
    if k == Cwe {
      assert forall i :: lo + 4 <= i < hi ==> s[i] == w[i - lo];
      DigitsReach(s, lo + 4, hi);
    } else {
      assert forall i :: lo + 4 <= i < lo + 8 ==> s[i] == w[i - lo];
      DigitsReach(s, lo + 4, lo + 8);
      assert s[lo + 8] == '-';
      assert forall i :: lo + 9 <= i < hi ==> s[i] == w[i - lo];
      DigitsReach(s, lo + 9, hi);
    }
  }

  lemma MatchHolds(k: Pattern, s: string, p: nat)
    requires MatchAt(k, s, p)
    ensures HoldsId(k, s, p, MatchEnd(k, s, p))
  {
    var w := s[p..MatchEnd(k, s, p)];
    assert w[..4] == s[p..p + 4];
    assert forall i :: 0 <= i < |w| ==> w[i] == s[p + i];
  }

  /** `w` is the first id in the text, with all its digits. */
  ghost predicate FirstId(k: Pattern, s: string, w: string) {
    exists lo: nat, hi: nat :: HoldsId(k, s, lo, hi) && w == s[lo..hi] && LeftmostLongest(k, s, lo, hi)
  }

  ghost predicate LeftmostLongest(k: Pattern, s: string, lo: nat, hi: nat) {
    forall lo': nat, hi': nat :: HoldsId(k, s, lo', hi') ==> lo < lo' || (lo == lo' && hi' <= hi)
  }

  /** The first id of a text is extracted, and nothing from a text without ids. */
  lemma ExtractExactly(k: Pattern, s: string, w: string)
    ensures w != "" ==> (Extract(k, s) == w <==> FirstId(k, s, w))
    ensures Extract(k, s) == "" <==> forall lo: nat, hi: nat :: !HoldsId(k, s, lo, hi)
  {
    forall lo: nat, hi: nat | HoldsId(k, s, lo, hi)
      ensures lo < |s| && MatchAt(k, s, lo) && hi <= MatchEnd(k, s, lo)
    {
      HeldIsMatch(k, s, lo, hi);
    }
    var p := FirstMatch(k, s, 0);
    if p < |s| {
      MatchHolds(k, s, p);
      assert LeftmostLongest(k, s, p, MatchEnd(k, s, p));
      assert |Extract(k, s)| > 0;
    }
  }

  /** A written-out id is extracted from the text around it, if the prefix is not in the text before it
      and no digit follows. */
  lemma WrittenIsExtracted(k: Pattern, before: string, id: string, after: string)
    requires IsId(k, id) && (forall p :: 0 <= p <= |before| ==> !PrefixAt(k, before, p))
    requires after == "" || !IsDigit(after[0])
    ensures Extract(k, before + id + after) == id
  {
    var s, n := before + id + after, |before|;
    assert s[n..n + |id|] == id;
    HeldIsMatch(k, s, n, n + |id|);
    assert s[n..n + 4] == id[..4] == Prefix(k);
    forall p | 0 <= p < n ensures !MatchAt(k, s, p) {
      if PrefixAt(k, s, p) {
        if p + 4 <= n {
          assert before[p..p + 4] == s[p..p + 4];
          assert PrefixAt(k, before, p);
        } else {
          NoOverlap(k, s, p, n);
        }
      }
    }
    LeftmostIsExtracted(k, s, n);
    assert after != "" ==> s[n + |id|] == after[0];
  }
}
