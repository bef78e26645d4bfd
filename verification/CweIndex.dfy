/** The index from weaknesses to controls, from internal/compliance/cwe.go. Text is ASCII. */
module CweIndex {
  import opened Identifiers

  datatype ControlRef = ControlRef(framework: string, controlId: string)
  {
    function Key(): string { framework + ":" + controlId }
  }

  // ---- Normal form of a CWE id ----

  predicate IsSpace(c: char) {
    c == ' ' || '\t' as int <= c as int <= '\r' as int
  }

  function TrimLeft(s: string): (r: string)
    ensures r != "" ==> !IsSpace(r[0])
  {
    if s != "" && IsSpace(s[0]) then TrimLeft(s[1..]) else s
  }

  function TrimRight(s: string): (r: string)
    ensures |r| <= |s|
    ensures r != "" ==> !IsSpace(r[|r| - 1]) && r[0] == s[0]
  {
    if s != "" && IsSpace(s[|s| - 1]) then TrimRight(s[..|s| - 1]) else s
  }

  function UpperChar(c: char): (u: char)
    ensures !('a' <= u <= 'z') && (!('a' <= c <= 'z') ==> u == c)
    ensures IsSpace(u) <==> IsSpace(c)
  {
    if 'a' <= c <= 'z' then ((c as int) - 32) as char else c
  }

  function Upper(s: string): (u: string)
    ensures |u| == |s| && forall i :: 0 <= i < |s| ==> u[i] == UpperChar(s[i])
  {
    seq(|s|, i requires 0 <= i < |s| => UpperChar(s[i]))
  }

  function Cleaned(s: string): string {
    Upper(TrimRight(TrimLeft(s)))
  }

  function WithPrefix(t: string): string {
    if PrefixAt(Cwe, t, 0) then t
    else if |t| >= 3 && t[..3] == "CWE" then "CWE-" + t[3..]
    else "CWE-" + t
  }

  function Normalize(cweId: string): string {
    WithPrefix(Cleaned(cweId))
  }

  /** Upper-case, and without a space at the end. */
  ghost predicate IsClean(s: string) {
    (s != "" ==> !IsSpace(s[|s| - 1])) && forall i :: 0 <= i < |s| ==> !('a' <= s[i] <= 'z')
  }

  ghost predicate IsNormal(s: string) {
    PrefixAt(Cwe, s, 0) && IsClean(s)
  }

  lemma NormalizeGivesNormal(s: string)
    ensures IsNormal(Normalize(s))
  {
    var t := Cleaned(s);
    WithPrefixKeepsClean(t, if |t| >= 3 && t[..3] == "CWE" then t[3..] else t);
  }

  lemma WithPrefixKeepsClean(t: string, rest: string)
    requires IsClean(t) && (rest == t || (|t| >= 3 && rest == t[3..]))
    ensures IsNormal("CWE-" + rest)
  {
    var s := "CWE-" + rest;
    assert s[0..4] == "CWE-";
    assert forall i :: 4 <= i < |s| ==> s[i] == rest[i - 4];
  }

  lemma NormalIsKept(s: string)
    requires IsNormal(s)
    ensures Normalize(s) == s
  {
    assert s[0] == s[0..4][0] == 'C';
    assert TrimLeft(s) == s && TrimRight(s) == s;
    assert Upper(s) == s;
  }

  /** Normalising is idempotent and leaves the ids that the scanner extracts alone. */
  lemma NormalizeSettles(s: string)
    ensures Normalize(Normalize(s)) == Normalize(s)
    ensures Extract(Cwe, s) != "" ==> Normalize(Extract(Cwe, s)) == Extract(Cwe, s)
  {
    NormalizeGivesNormal(s);
    NormalIsKept(Normalize(s));
    var id := Extract(Cwe, s);
    if id != "" {
      ExtractIsIdempotent(Cwe, s);
      assert forall i :: 4 <= i < |id| ==> IsDigit(id[i]);
      assert forall i :: 0 <= i < 4 ==> id[i] == id[0..4][i] == Prefix(Cwe)[i];
      NormalIsKept(id);
    }
  }

  ghost predicate IsNumber(s: string) {
    forall i :: 0 <= i < |s| ==> IsDigit(s[i])
  }

  lemma BareNumber(number: string)
    requires IsNumber(number)
    ensures Normalize(number) == "CWE-" + number
  {
    if |number| >= 3 {
      assert number[..3][0] == number[0] != 'C';
    }
  }

  lemma WithoutDash(number: string)
    requires IsNumber(number)
    ensures Normalize("CWE" + number) == "CWE-" + number
  {
    var s := "CWE" + number;
    assert s[..3] == "CWE" && s[3..] == number;
    assert !PrefixAt(Cwe, s, 0) by {
      if |s| >= 4 {
        assert s[0..4][3] == s[3] == number[0];
      }
    }
  }

  lemma WithDash(number: string)
    requires IsNumber(number)
    ensures Normalize("CWE-" + number) == "CWE-" + number
  {
    var s := "CWE-" + number;
    assert s[0..4] == "CWE-";
  }

  /** A bare number and both spellings with "CWE" name the same weakness. */
  lemma SpellingsAgree(number: string)
    requires IsNumber(number)
    ensures Normalize(number) == Normalize("CWE" + number) == Normalize("CWE-" + number) == "CWE-" + number
  {
    BareNumber(number);
    WithoutDash(number);
    WithDash(number);
  }

  ghost predicate AllSpaces(s: string) {
    forall i :: 0 <= i < |s| ==> IsSpace(s[i])
  }

  lemma {:induction false} TrimLeftDrops(left: string, s: string)
    requires AllSpaces(left)
    ensures TrimLeft(left + s) == TrimLeft(s)
  {
    if left == "" {
      assert left + s == s;
    } else {
      assert (left + s)[1..] == left[1..] + s;
      TrimLeftDrops(left[1..], s);
    }
  }

  lemma {:induction false} TrimRightDrops(s: string, right: string)
    requires AllSpaces(right)
    ensures TrimRight(s + right) == TrimRight(s)
  {
    if right == "" {
      assert s + right == s;
    } else {
      assert (s + right)[..|s + right| - 1] == s + right[..|right| - 1];
      TrimRightDrops(s, right[..|right| - 1]);
    }
  }

  lemma {:induction false} TrimLeftOfSpaces(s: string)
    requires AllSpaces(s)
    ensures TrimLeft(s) == ""
  {
    if s != "" {
      TrimLeftOfSpaces(s[1..]);
    }
  }

  lemma {:induction false} TrimLeftKeepsEnd(s: string, right: string)
    requires TrimLeft(s) != ""
    ensures TrimLeft(s + right) == TrimLeft(s) + right
  {
    if IsSpace(s[0]) {
      assert (s + right)[1..] == s[1..] + right;
      TrimLeftKeepsEnd(s[1..], right);
    }
  }

  lemma {:induction false} OnlySpacesTrimmed(s: string)
    requires TrimLeft(s) == ""
    ensures AllSpaces(s)
  {
    if s != "" {
      OnlySpacesTrimmed(s[1..]);
      assert s == [s[0]] + s[1..];
    }
  }

  /** Spaces around an id do not matter. */
  lemma SpacesAroundIgnored(left: string, s: string, right: string)
    requires AllSpaces(left) && AllSpaces(right)
    ensures Normalize(left + s + right) == Normalize(s)
  {
    assert left + s + right == left + (s + right);
    TrimLeftDrops(left, s + right);
    if TrimLeft(s) == "" {
      OnlySpacesTrimmed(s);
      TrimLeftOfSpaces(s + right);
    } else {
      TrimLeftKeepsEnd(s, right);
      TrimRightDrops(TrimLeft(s), right);
    }
  }

  lemma {:induction false} TrimLeftOfUpper(s: string)
    ensures TrimLeft(Upper(s)) == Upper(TrimLeft(s))
  {
    if s != "" && IsSpace(s[0]) {
      assert Upper(s)[1..] == Upper(s[1..]);
      TrimLeftOfUpper(s[1..]);
    }
  }

  lemma {:induction false} TrimRightOfUpper(s: string)
    ensures TrimRight(Upper(s)) == Upper(TrimRight(s))
  {
    if s != "" && IsSpace(s[|s| - 1]) {
      assert Upper(s)[..|s| - 1] == Upper(s[..|s| - 1]);
      TrimRightOfUpper(s[..|s| - 1]);
    }
  }

  /** Nor does the case of its letters. */
  lemma CaseIgnored(s: string, t: string)
    requires Upper(s) == Upper(t)
    ensures Normalize(s) == Normalize(t)
  {
    TrimLeftOfUpper(s);
    TrimLeftOfUpper(t);
    TrimRightOfUpper(TrimLeft(s));
    TrimRightOfUpper(TrimLeft(t));
  }

  // ---- The two maps ----

  /** One call of AddMapping, its CWE id in normal form. */
  datatype Mapping = Mapping(cwe: string, ref: ControlRef)

  /** The controls given to `cwe`, in the order they were added. */
  function RefsIn(history: seq<Mapping>, cwe: string): seq<ControlRef> {
    if history == [] then []
    else
      var m := history[|history| - 1];
      RefsIn(history[..|history| - 1], cwe) + if m.cwe == cwe then [m.ref] else []
  }

  /** The ids given to the control with key `key`, in the order they were added. */
  function CwesIn(history: seq<Mapping>, key: string): seq<string> {
    if history == [] then []
    else
      var m := history[|history| - 1];
      CwesIn(history[..|history| - 1], key) + if m.ref.Key() == key then [m.cwe] else []
  }

  /** The positions are ascending and are just those of the mappings chosen. */
  ghost predicate Picks(history: seq<Mapping>, chosen: Mapping -> bool, at: seq<nat>) {
    && (forall j, k :: 0 <= j < k < |at| ==> at[j] < at[k])
    && (forall k :: 0 <= k < |at| ==> at[k] < |history| && chosen(history[at[k]]))
    && forall i :: 0 <= i < |history| && chosen(history[i]) ==> i in at
  }

  lemma OneMorePick(history: seq<Mapping>, chosen: Mapping -> bool, at: seq<nat>)
    requires history != [] && Picks(history[..|history| - 1], chosen, at)
    ensures Picks(history, chosen, at + if chosen(history[|history| - 1]) then [|history| - 1] else [])
  {
    var n := |history| - 1;
    assert forall i :: 0 <= i < n ==> history[..n][i] == history[i];
  }

  /** The controls of a weakness are those of its mappings, in the order these were added. */
  lemma {:induction false} RefsInOrder(history: seq<Mapping>, cwe: string) returns (at: seq<nat>)
    ensures Picks(history, (m: Mapping) => m.cwe == cwe, at) && |RefsIn(history, cwe)| == |at|
    ensures forall k :: 0 <= k < |at| ==> RefsIn(history, cwe)[k] == history[at[k]].ref
  {
    at := [];
    if history != [] {
      at := RefsInOrder(history[..|history| - 1], cwe);
      OneMorePick(history, (m: Mapping) => m.cwe == cwe, at);
      at := at + if history[|history| - 1].cwe == cwe then [|history| - 1] else [];
    }
  }

  /** And so are the weaknesses of a control. */
  lemma {:induction false} CwesInOrder(history: seq<Mapping>, key: string) returns (at: seq<nat>)
    ensures Picks(history, (m: Mapping) => m.ref.Key() == key, at) && |CwesIn(history, key)| == |at|
    ensures forall k :: 0 <= k < |at| ==> CwesIn(history, key)[k] == history[at[k]].cwe
  {
    at := [];
    if history != [] {
      at := CwesInOrder(history[..|history| - 1], key);
      OneMorePick(history, (m: Mapping) => m.ref.Key() == key, at);
      at := at + if history[|history| - 1].ref.Key() == key then [|history| - 1] else [];
    }
  }

  function Entry<T>(m: map<string, seq<T>>, k: string): seq<T> {
    if k in m then m[k] else []
  }

  class CWEMapper {
    var cweToControls: map<string, seq<ControlRef>>
    var controlToCWEs: map<string, seq<string>>
    ghost var history: seq<Mapping>

    ghost predicate Valid()
      reads this
    {
      (forall c :: Entry(cweToControls, c) == RefsIn(history, c)) &&
      (forall k :: Entry(controlToCWEs, k) == CwesIn(history, k))
    }

    constructor ()
      ensures Valid() && history == []
    {
      cweToControls, controlToCWEs, history := map[], map[], [];
    }

    method AddMapping(cweId: string, framework: string, controlId: string)
      requires Valid()
      modifies this
      ensures Valid()
      ensures history == old(history) + [Mapping(Normalize(cweId), ControlRef(framework, controlId))]
    {
      var cwe := Normalize(cweId);
      var ref := ControlRef(framework, controlId);
      cweToControls := cweToControls[cwe := Entry(cweToControls, cwe) + [ref]];
      var key := framework + ":" + controlId;
      controlToCWEs := controlToCWEs[key := Entry(controlToCWEs, key) + [cwe]];
      history := history + [Mapping(cwe, ref)];
      assert history[..|history| - 1] == old(history);
    }

    function GetControls(cweId: string): (refs: seq<ControlRef>)
      requires Valid()
      reads this
      ensures refs == RefsIn(history, Normalize(cweId))
    {
      Entry(cweToControls, Normalize(cweId))
    }

    function GetCWEs(framework: string, controlId: string): (cwes: seq<string>)
      requires Valid()
      reads this
      ensures cwes == CwesIn(history, framework + ":" + controlId)
    {
      Entry(controlToCWEs, framework + ":" + controlId)
    }
  }

  function CountCwe(cwes: seq<string>, cwe: string): nat {
    if cwes == [] then 0
    else CountCwe(cwes[..|cwes| - 1], cwe) + if cwes[|cwes| - 1] == cwe then 1 else 0
  }

  function CountKey(refs: seq<ControlRef>, key: string): nat {
    if refs == [] then 0
    else CountKey(refs[..|refs| - 1], key) + if refs[|refs| - 1].Key() == key then 1 else 0
  }

  /** The two maps tell the same story: a control has a weakness as often as the weakness has the
      control. */
  lemma {:induction false} BothViewsAgree(history: seq<Mapping>, cwe: string, key: string)
    ensures CountCwe(CwesIn(history, key), cwe) == CountKey(RefsIn(history, cwe), key)
  {
    if history != [] {
      var before, m := history[..|history| - 1], history[|history| - 1];
      BothViewsAgree(before, cwe, key);
      var cwes, refs := CwesIn(before, key), RefsIn(before, cwe);
      assert (cwes + [m.cwe])[..|cwes|] == cwes && (refs + [m.ref])[..|refs|] == refs;
      assert cwes + [] == cwes && refs + [] == refs;
    }
  }

  /** A key with a single colon splits in only one way. */
  lemma KeyOfOneColon(f: string, id: string, g: string, jd: string)
    requires ':' !in g && ':' !in jd && f + ":" + id == g + ":" + jd
    ensures f == g && id == jd
  {
    var s := g + ":" + jd;
    assert (f + ":" + id)[|f|] == ':' == s[|f|];
    assert |f| == |g|;
    assert f == (f + ":" + id)[..|f|] && g == s[..|g|];
    assert id == (f + ":" + id)[|f| + 1..] && jd == s[|g| + 1..];
  }

  /** Where a name with a colon splits. */
  lemma {:induction false} SplitAtColon(name: string) returns (a: string, b: string)
    requires ':' in name
    ensures name == a + ":" + b
  {
    if name[0] == ':' {
      a, b := "", name[1..];
      assert name == [name[0]] + name[1..];
    } else {
      a, b := SplitAtColon(name[1..]);
      a := [name[0]] + a;
      assert name == [name[0]] + name[1..];
    }
  }
}
