/**
 Which form a client must sign: the rule over the applied upgrade plans, in the
 shape each binding gives it, and what it means for a network over time.
 */
module VersionRule {
  import opened Bytes
  import opened SignBytes

  const V2_UPGRADES: seq<string> := ["v3.2.0", "v3.1.98"]
  const LEGACY_CHAINS: seq<string> := ["qorechain-vladi", "qorechain-diana"]

  /** C qpqc_sign_bytes_version_for; `None` is the NULL chain-id. */
  function VersionFor(chain: Option<string>, applied: int): Version {
    if applied > 0 || chain.None? then FormV2
    else if chain.value in LEGACY_CHAINS then FormV1
    else FormV2
  }

  /** Java signBytesVersionFor: the list refuses to be asked for null. */
  function JavaVersionFor(chain: Option<string>, applied: int): Result<Version> {
    if applied > 0 then Success(FormV2)
    else if chain.None? then Failure
    else if chain.value !in LEGACY_CHAINS then Success(FormV2)
    else Success(FormV1)
  }

  /** The bindings differ on nothing but a missing chain-id. */
  lemma JavaVersionAgrees(chain: Option<string>, applied: int)
    ensures JavaVersionFor(chain, applied) == Success(VersionFor(chain, applied)) <==> chain.Some? || applied > 0
  {
  }

  /** The two networks that existed before v2. */
  predicate Legacy(chain: string) {
    chain == "qorechain-vladi" || chain == "qorechain-diana"
  }

  /** v1 is for those two at no positive height; a missing chain-id is v2 in C, and in Java an exception at no positive height. */
  lemma VersionForExactly(chain: Option<string>, applied: int)
    ensures VersionFor(chain, applied) == if chain.Some? && Legacy(chain.value) && applied <= 0 then FormV1 else FormV2
    ensures JavaVersionFor(chain, applied) ==
      if chain.None? && applied <= 0 then Failure
      else if chain.Some? && Legacy(chain.value) && applied <= 0 then Success(FormV1) else Success(FormV2)
  {
  }

  /** The two plan names that switched a network. */
  predicate Switching(name: string) {
    name == "v3.2.0" || name == "v3.1.98"
  }

  lemma SwitchingIsListed(name: string)
    ensures Switching(name) <==> name in V2_UPGRADES
  {
  }

  // ---- The greatest applied height ----

  /** A plan name as a caller gives it (C allows NULL), and its height. */
  type Record = (Option<string>, int)

  predicate Recognised(r: Record) {
    r.0.Some? && r.0.value in V2_UPGRADES
  }

  /** `best` is the maximum of 0 and the heights of recognised names. */
  ghost predicate IsGreatest(best: int, recs: seq<Record>) {
    && best >= 0
    && (forall r :: r in recs && Recognised(r) ==> r.1 <= best)
    && (best == 0 || exists r :: r in recs && Recognised(r) && r.1 == best)
  }

  /** Only the recognised names with a positive height count: order, repetition and other names do not. */
  lemma OnlyRecognisedPositive(recs: seq<Record>, recs': seq<Record>, best: int, best': int)
    requires forall r :: Recognised(r) && r.1 > 0 ==> (r in recs <==> r in recs')
    requires IsGreatest(best, recs) && IsGreatest(best', recs')
    ensures best == best'
  {
  }

  /** In particular the answer is the same for every permutation of the entries. */
  lemma PermutationInvariant(recs: seq<Record>, recs': seq<Record>, best: int)
    requires multiset(recs) == multiset(recs')
    ensures IsGreatest(best, recs) <==> IsGreatest(best, recs')
  {
    assert forall r :: r in recs <==> r in multiset(recs);
    assert forall r :: r in recs' <==> r in multiset(recs');
  }

  function Zip(names: seq<Option<string>>, heights: seq<int>, n: nat): (recs: seq<Record>)
    requires n <= |names| && n <= |heights|
    ensures |recs| == n
    ensures forall i :: 0 <= i < n ==> recs[i] == (names[i], heights[i])
  {
    seq(n, i requires 0 <= i < n => (names[i], heights[i]))
  }

  /** What the caller's arrays say; a missing array says nothing. */
  function Given(names: Option<seq<Option<string>>>, heights: Option<seq<int>>, n: nat): seq<Record>
    requires names.Some? && heights.Some? ==> n <= |names.value| && n <= |heights.value|
  {
    if names.Some? && heights.Some? then Zip(names.value, heights.value, n) else []
  }

  /** C qpqc_sign_bytes_version_for_applied: a nested loop over entries and plan names. */
  method CVersionForApplied(chain: Option<string>, names: Option<seq<Option<string>>>, heights: Option<seq<int>>, n: nat)
      returns (version: Version)
    requires names.Some? && heights.Some? ==> n <= |names.value| && n <= |heights.value|
    ensures exists b :: IsGreatest(b, Given(names, heights, n)) && version == VersionFor(chain, b)
    ensures chain.Some? ==> version == RustVersionForApplied(chain.value, Merge(Given(names, heights, n)))
    ensures version == FormV1 || version == FormV2
    ensures version == FormV1 <==>
      && chain.Some? && (chain.value == "qorechain-vladi" || chain.value == "qorechain-diana")
      && (names.Some? && heights.Some? ==>
            forall i :: 0 <= i < n && (names.value[i] == Some("v3.2.0") || names.value[i] == Some("v3.1.98")) ==>
              heights.value[i] <= 0)
  {
    ghost var recs := Given(names, heights, n);
    var b := 0;
    if names.Some? && heights.Some? {
      for i := 0 to n
        invariant IsGreatest(b, recs[..i])
      {
        assert recs[..i + 1] == recs[..i] + [recs[i]];
        if names.value[i].Some? {
          var name, h := names.value[i].value, heights.value[i];
          ghost var before := b;
          for k := 0 to |V2_UPGRADES|
            invariant b == if name in V2_UPGRADES[..k] && h > before then h else before
          {
            if name == V2_UPGRADES[k] && h > b {
              b := h;
            }
          }
          assert V2_UPGRADES[..|V2_UPGRADES|] == V2_UPGRADES;
          StepGreatest(before, recs[..i], recs[i], b);
        }
      }
      assert recs[..n] == recs;
    }
    assert IsGreatest(b, recs);
    NoneIsHigh(b, names, heights, n);
    LoopIsLookup(recs, b);
    RustIsGreatest(Merge(recs));
    GreatestInUnique(Merge(recs), b, RustBest(V2_UPGRADES, Merge(recs), 0));
    version := VersionFor(chain, b);
  }

  /** The maximum is 0 when no switching name in the arrays has a positive height. */
  lemma NoneIsHigh(b: int, names: Option<seq<Option<string>>>, heights: Option<seq<int>>, n: nat)
    requires names.Some? && heights.Some? ==> n <= |names.value| && n <= |heights.value|
    requires IsGreatest(b, Given(names, heights, n))
    ensures b <= 0 <==> (names.Some? && heights.Some? ==>
      forall i :: 0 <= i < n && (names.value[i] == Some("v3.2.0") || names.value[i] == Some("v3.1.98")) ==> heights.value[i] <= 0)
  {
    var recs := Given(names, heights, n);
    if names.Some? && heights.Some? {
      forall i | 0 <= i < n && (names.value[i] == Some("v3.2.0") || names.value[i] == Some("v3.1.98"))
        ensures heights.value[i] <= b
      {
        assert recs[i] in recs && Recognised(recs[i]);
      }
      if b > 0 {
        var r :| r in recs && Recognised(r) && r.1 == b;
        SwitchingIsListed(r.0.value);
        var i :| 0 <= i < |recs| && recs[i] == r;
        assert names.value[i] == r.0 && heights.value[i] == b;
      }
    }
  }

  lemma StepGreatest(before: int, recs: seq<Record>, r: Record, after: int)
    requires IsGreatest(before, recs)
    requires after == if Recognised(r) && r.1 > before then r.1 else before
    ensures IsGreatest(after, recs + [r])
  {
    if after == r.1 && Recognised(r) {
      assert r in recs + [r];
    } else if before != 0 {
      var w :| w in recs && Recognised(w) && w.1 == before;
      assert w in recs + [r];
    }
  }

  // ---- The same over a map from name to height ----

  /** Absent means not applied. */
  function Lookup(m: map<string, int>, name: string): int {
    if name in m then m[name] else 0
  }

  ghost predicate IsGreatestIn(best: int, m: map<string, int>) {
    && best >= 0
    && (forall name :: name in V2_UPGRADES ==> Lookup(m, name) <= best)
    && (best == 0 || exists name :: name in V2_UPGRADES && Lookup(m, name) == best)
  }

  lemma GreatestInUnique(m: map<string, int>, b: int, c: int)
    requires IsGreatestIn(b, m) && IsGreatestIn(c, m)
    ensures b == c
  {
  }

  /** Go, JavaScript, Python and Java signBytesVersionForApplied: a lookup per known name. */
  method MapVersionForApplied(chain: string, m: map<string, int>) returns (version: Version)
    ensures exists b :: IsGreatestIn(b, m) && version == VersionFor(Some(chain), b)
    ensures version == RustVersionForApplied(chain, m)
    ensures version == FormV1 <==>
      && (chain == "qorechain-vladi" || chain == "qorechain-diana")
      && ("v3.2.0" in m ==> m["v3.2.0"] <= 0) && ("v3.1.98" in m ==> m["v3.1.98"] <= 0)
  {
    V1Exactly(chain, m);
    var best := 0;
    for k := 0 to |V2_UPGRADES|
      invariant best >= 0
      invariant forall j :: 0 <= j < k ==> Lookup(m, V2_UPGRADES[j]) <= best
      invariant best == 0 || exists j :: 0 <= j < k && Lookup(m, V2_UPGRADES[j]) == best
    {
      var h := Lookup(m, V2_UPGRADES[k]);
      if h > best {
        best := h;
      }
    }
    assert IsGreatestIn(best, m);
    RustIsGreatest(m);
    GreatestInUnique(m, best, RustBest(V2_UPGRADES, m, 0));
    version := VersionFor(Some(chain), best);
  }

  /** Rust: the names that are present, their heights folded with max from 0. */
  function RustBest(names: seq<string>, m: map<string, int>, acc: int): int {
    if names == [] then acc
    else
      var acc' := if names[0] in m && m[names[0]] > acc then m[names[0]] else acc;
      RustBest(names[1..], m, acc')
  }

  function RustVersionForApplied(chain: string, m: map<string, int>): Version {
    VersionFor(Some(chain), RustBest(V2_UPGRADES, m, 0))
  }

  lemma {:induction false} RustFold(names: seq<string>, m: map<string, int>, acc: int)
    ensures var b := RustBest(names, m, acc);
      && b >= acc
      && (forall i :: 0 <= i < |names| && names[i] in m ==> m[names[i]] <= b)
      && (b == acc || exists i :: 0 <= i < |names| && names[i] in m && m[names[i]] == b)
  {
    if names != [] {
      var acc' := if names[0] in m && m[names[0]] > acc then m[names[0]] else acc;
      RustFold(names[1..], m, acc');
      var b := RustBest(names, m, acc);
      forall i | 0 <= i < |names| && names[i] in m ensures m[names[i]] <= b {
        if i > 0 {
          assert names[i] == names[1..][i - 1];
        }
      }
      if b != acc' {
        var i :| 0 <= i < |names[1..]| && names[1..][i] in m && m[names[1..][i]] == b;
        assert names[i + 1] in m && m[names[i + 1]] == b;
      }
    }
  }

  lemma RustIsGreatest(m: map<string, int>)
    ensures IsGreatestIn(RustBest(V2_UPGRADES, m, 0), m)
  {
    RustFold(V2_UPGRADES, m, 0);
    var b := RustBest(V2_UPGRADES, m, 0);
    forall name | name in V2_UPGRADES ensures Lookup(m, name) <= b {
      var i :| 0 <= i < |V2_UPGRADES| && V2_UPGRADES[i] == name;
    }
    if b != 0 {
      var i :| 0 <= i < |V2_UPGRADES| && V2_UPGRADES[i] in m && m[V2_UPGRADES[i]] == b;
      assert V2_UPGRADES[i] in V2_UPGRADES && Lookup(m, V2_UPGRADES[i]) == b;
    }
  }

  /** The entries of a C caller as a map, repeated names merged by their greatest height. */
  function Merge(recs: seq<Record>): map<string, int> {
    if recs == [] then map[]
    else
      var m, r := Merge(recs[..|recs| - 1]), recs[|recs| - 1];
      if r.0.None? || (r.0.value in m && m[r.0.value] >= r.1) then m
      else m[r.0.value := r.1]
  }

  lemma {:induction false} MergeKeepsGreatest(recs: seq<Record>)
    ensures forall r :: r in recs && r.0.Some? ==> r.0.value in Merge(recs) && r.1 <= Merge(recs)[r.0.value]
    ensures forall name :: name in Merge(recs) ==> (Some(name), Merge(recs)[name]) in recs
  {
    if recs != [] {
      MergeKeepsGreatest(recs[..|recs| - 1]);
      assert recs == recs[..|recs| - 1] + [recs[|recs| - 1]];
    }
  }

  /** The nested loop over entries and the lookups in the merged map answer alike. */
  lemma LoopIsLookup(recs: seq<Record>, best: int)
    ensures IsGreatest(best, recs) <==> IsGreatestIn(best, Merge(recs))
  {
    MergeKeepsGreatest(recs);
    var m := Merge(recs);
    if IsGreatest(best, recs) {
      forall name | name in V2_UPGRADES ensures Lookup(m, name) <= best {
        if name in m {
          assert Recognised((Some(name), m[name]));
        }
      }
      if best > 0 {
        var r :| r in recs && Recognised(r) && r.1 == best;
        assert Lookup(m, r.0.value) == best;
      }
    }
    if IsGreatestIn(best, m) {
      forall r | r in recs && Recognised(r) ensures r.1 <= best {
        assert Lookup(m, r.0.value) <= best;
      }
      if best > 0 {
        var name :| name in V2_UPGRADES && Lookup(m, name) == best;
        assert Recognised((Some(name), m[name]));
      }
    }
  }

  // ---- A network over time ----

  /** The form a network verifies, given the plans it has applied. */
  function Form(chain: string, applied: map<string, int>): Version {
    RustVersionForApplied(chain, applied)
  }

  predicate SwitchApplied(applied: map<string, int>) {
    exists name <- V2_UPGRADES :: Lookup(applied, name) > 0
  }

  /** v1 exactly on a legacy chain where neither plan has a positive height. */
  lemma V1Exactly(chain: string, applied: map<string, int>)
    ensures Form(chain, applied) == FormV1 || Form(chain, applied) == FormV2
    ensures Form(chain, applied) == FormV1 <==>
      && (chain == "qorechain-vladi" || chain == "qorechain-diana")
      && ("v3.2.0" in applied ==> applied["v3.2.0"] <= 0) && ("v3.1.98" in applied ==> applied["v3.1.98"] <= 0)
    ensures Form(chain, applied) == if chain in LEGACY_CHAINS && !SwitchApplied(applied) then FormV1 else FormV2
  {
    RustIsGreatest(applied);
    SwitchingIsListed("v3.2.0");
    SwitchingIsListed("v3.1.98");
    if SwitchApplied(applied) {
      var name :| name in V2_UPGRADES && Lookup(applied, name) > 0;
      SwitchingIsListed(name);
    }
  }

  /** What a client may be told next: a recognised plan that has a positive height keeps one. */
  ghost predicate Grows(m: map<string, int>, m': map<string, int>) {
    forall name <- V2_UPGRADES :: Lookup(m, name) > 0 ==> Lookup(m', name) > 0
  }

  ghost predicate History(h: seq<map<string, int>>) {
    forall i :: 0 <= i < |h| - 1 ==> Grows(h[i], h[i + 1])
  }

  lemma {:induction false} HistoryGrows(h: seq<map<string, int>>, i: nat, j: nat)
    requires History(h) && i <= j < |h|
    ensures Grows(h[i], h[j])
    decreases j - i
  {
    if i < j {
      HistoryGrows(h, i, j - 1);
    }
  }

  /** Over its whole history a network changes form at most once, from v1 to v2, and only if it is a legacy one. */
  lemma {:induction false} SwitchesAtMostOnce(chain: string, h: seq<map<string, int>>) returns (k: nat)
    requires History(h)
    ensures k <= |h|
    ensures forall i :: 0 <= i < |h| ==> Form(chain, h[i]) == if i < k then FormV1 else FormV2
    ensures chain != "qorechain-vladi" && chain != "qorechain-diana" ==> k == 0
  {
    k := 0;
    while k < |h| && Form(chain, h[k]) == FormV1
      invariant k <= |h|
      invariant forall i :: 0 <= i < k ==> Form(chain, h[i]) == FormV1
    {
      k := k + 1;
    }
    forall i | 0 <= i < |h| ensures Form(chain, h[i]) == if i < k then FormV1 else FormV2 {
      if k <= i {
        V1Exactly(chain, h[k]);
        V1Exactly(chain, h[i]);
        HistoryGrows(h, k, i);
        if SwitchApplied(h[k]) {
          var name :| name in V2_UPGRADES && Lookup(h[k], name) > 0;
          assert Grows(h[k], h[i]);
        }
      }
    }
    if !Legacy(chain) && k > 0 {
      V1Exactly(chain, h[0]);
    }
  }

  /** What a client learns that asks about some names only. */
  function Asked(applied: map<string, int>, names: set<string>): map<string, int> {
    map name | name in applied && name in names :: applied[name]
  }

  /** Asking less never moves a client to v2 ahead of the network. */
  lemma NeverEarly(chain: string, applied: map<string, int>, names: set<string>)
    requires Form(chain, Asked(applied, names)) == FormV2
    ensures Form(chain, applied) == FormV2
  {
    V1Exactly(chain, applied);
    V1Exactly(chain, Asked(applied, names));
    if SwitchApplied(Asked(applied, names)) {
      var name :| name in V2_UPGRADES && Lookup(Asked(applied, names), name) > 0;
      assert Lookup(applied, name) > 0;
    }
  }

  /** A client reads every network right exactly when it asks about both plan names. */
  lemma AskingEnoughExactly(names: set<string>)
    ensures (forall chain, applied :: Form(chain, Asked(applied, names)) == Form(chain, applied))
       <==> "v3.2.0" in names && "v3.1.98" in names
  {
    if "v3.2.0" in names && "v3.1.98" in names {
      forall chain, applied ensures Form(chain, Asked(applied, names)) == Form(chain, applied) {
        V1Exactly(chain, applied);
        V1Exactly(chain, Asked(applied, names));
        assert forall name :: name in V2_UPGRADES ==> Lookup(Asked(applied, names), name) == Lookup(applied, name);
      }
    } else {
      var name := if "v3.2.0" in names then "v3.1.98" else "v3.2.0";
      var chain, applied := LEGACY_CHAINS[1], map[name := 1];
      V1Exactly(chain, applied);
      V1Exactly(chain, Asked(applied, names));
      assert Lookup(applied, name) > 0;
      assert forall other :: other in V2_UPGRADES ==> Lookup(Asked(applied, names), other) == 0;
      assert Form(chain, Asked(applied, names)) != Form(chain, applied);
    }
  }
}
