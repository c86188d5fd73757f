/** The definition index: which definition describes a device.

    The index is a hash map from model string to positions, newest first. What
    it must pick is stated over the plain list of definitions, with no index. */
module DefinitionIndex {
  import opened Wrappers
  import opened Words
  import opened Matcher
  import opened IeeeText

  datatype Definition = Definition(model: string, models: seq<string>, fingerprints: seq<Fingerprint>)

  datatype IndexError = Unreachable(model: string) | EmptyFingerprint(model: string)

  /** Every model string a definition is reachable under. */
  function ModelStrings(d: Definition): set<string> {
    (set m | m in d.models) + (set f | f in d.fingerprints && f.modelId.Some? :: f.modelId.value)
  }

  /** Each model string is indexed as written in lower case, and normalised. */
  function Keys(d: Definition): set<string> {
    (set m | m in ModelStrings(d) :: LowerAll(m)) + (set m | m in ModelStrings(d) :: IndexKey(m))
  }

  /** The positions of the definitions having a key, newest first. */
  function Positions(defs: seq<Definition>, key: string): seq<nat> {
    if defs == [] then []
    else
      var before, last := defs[..|defs| - 1], |defs| - 1;
      if key in Keys(defs[last]) then [last] + Positions(before, key) else Positions(before, key)
  }

  lemma {:induction false} PositionsAre(defs: seq<Definition>, key: string)
    ensures forall p :: p in Positions(defs, key) <==> 0 <= p < |defs| && key in Keys(defs[p])
    ensures forall i, j :: 0 <= i < j < |Positions(defs, key)| ==> Positions(defs, key)[i] > Positions(defs, key)[j]
  {
    if defs != [] {
      var before, last := defs[..|defs| - 1], |defs| - 1;
      PositionsAre(before, key);
      PositionsAmong(before, defs, key, Positions(before, key));
      if key in Keys(defs[last]) {
        PositionCons(last, Positions(before, key));
      }
    }
  }

  lemma PositionsAmong(before: seq<Definition>, defs: seq<Definition>, key: string, older: seq<nat>)
    requires before <= defs
    requires forall p :: p in older <==> 0 <= p < |before| && key in Keys(before[p])
    ensures forall p :: p in older <==> 0 <= p < |before| && key in Keys(defs[p])
  {
  }

  lemma PositionCons(last: nat, older: seq<nat>)
    requires forall p :: p in older ==> p < last
    requires forall i, j :: 0 <= i < j < |older| ==> older[i] > older[j]
    ensures forall p :: p in [last] + older <==> p == last || p in older
    ensures forall i, j :: 0 <= i < j < |older| + 1 ==> ([last] + older)[i] > ([last] + older)[j]
  {
    assert forall j :: 0 <= j < |older| ==> older[j] in older;
  }

  lemma PositionsSnoc(defs: seq<Definition>, d: Definition, key: string)
    ensures Positions(defs + [d], key) ==
            if key in Keys(d) then [|defs|] + Positions(defs, key) else Positions(defs, key)
  {
    assert (defs + [d])[..|defs|] == defs;
  }

  // ---------------------------------------------------------------------
  // What a scan of the catalogue would pick

  predicate Candidate(defs: seq<Definition>, key: string, p: nat) {
    p < |defs| && key in Keys(defs[p])
  }

  /** The exact key when some definition has it, and the normalised one otherwise. */
  ghost function KeyFor(defs: seq<Definition>, model: string): string {
    if exists p :: Candidate(defs, LowerAll(model), p) then LowerAll(model) else IndexKey(model)
  }

  ghost predicate SoleWithModels(defs: seq<Definition>, key: string, p: nat) {
    && Candidate(defs, key, p) && defs[p].models != []
    && forall q: nat :: Candidate(defs, key, q) ==> q == p
  }

  ghost predicate HasSole(defs: seq<Definition>, key: string) {
    exists p: nat :: SoleWithModels(defs, key, p)
  }

  /** Fingerprint `f` of candidate `p` describes the device. */
  predicate Matching(defs: seq<Definition>, key: string, device: DeviceMatch, p: nat, f: nat) {
    Candidate(defs, key, p) && f < |defs[p].fingerprints| && Matches(defs[p].fingerprints[f], device)
  }

  ghost predicate HasMatch(defs: seq<Definition>, key: string, device: DeviceMatch) {
    exists p: nat, f: nat :: Matching(defs, key, device, p, f)
  }

  /** A matching fingerprint of highest priority, and of the newest definition among those. */
  ghost predicate BestFingerprint(defs: seq<Definition>, key: string, device: DeviceMatch, p: nat, f: nat) {
    && Matching(defs, key, device, p, f)
    && forall q: nat, g: nat :: Matching(defs, key, device, q, g) ==>
         defs[q].fingerprints[g].priority < defs[p].fingerprints[f].priority ||
         (defs[q].fingerprints[g].priority == defs[p].fingerprints[f].priority && q <= p)
  }

  ghost predicate BestByFingerprint(defs: seq<Definition>, key: string, device: DeviceMatch, p: nat) {
    exists f: nat :: BestFingerprint(defs, key, device, p, f)
  }

  predicate Lists(defs: seq<Definition>, key: string, model: string, p: nat) {
    Candidate(defs, key, p) && (model in defs[p].models || NormaliseModel(model) in defs[p].models)
  }

  ghost predicate HasListing(defs: seq<Definition>, key: string, model: string) {
    exists p: nat :: Lists(defs, key, model, p)
  }

  ghost predicate NewestListing(defs: seq<Definition>, key: string, model: string, p: nat) {
    Lists(defs, key, model, p) && forall q: nat :: Lists(defs, key, model, q) ==> q <= p
  }

  /** The resolution rule: a sole candidate with models wins outright; then the
      best matching fingerprint; then the newest definition listing the model. */
  ghost predicate IsResolution(defs: seq<Definition>, device: DeviceMatch, r: Option<nat>) {
    if device.modelId.None? then r == None
    else
      var model := device.modelId.value;
      var key := KeyFor(defs, model);
      if HasSole(defs, key) then r.Some? && SoleWithModels(defs, key, r.value)
      else if HasMatch(defs, key, device) then r.Some? && BestByFingerprint(defs, key, device, r.value)
      else if HasListing(defs, key, model) then r.Some? && NewestListing(defs, key, model, r.value)
      else r == None
  }

  // ---------------------------------------------------------------------
  // The same, over a list of candidate positions

  /** The candidates of a key, newest first. */
  ghost predicate AreCandidates(defs: seq<Definition>, key: string, candidates: seq<nat>) {
    && (forall i :: 0 <= i < |candidates| ==> Candidate(defs, key, candidates[i]))
    && (forall p: nat :: Candidate(defs, key, p) ==> p in candidates)
    && forall i, j :: 0 <= i < j < |candidates| ==> candidates[i] > candidates[j]
  }

  predicate Hit(defs: seq<Definition>, candidates: seq<nat>, device: DeviceMatch, c: nat, f: nat) {
    && c < |candidates| && candidates[c] < |defs| && f < |defs[candidates[c]].fingerprints|
    && Matches(defs[candidates[c]].fingerprints[f], device)
  }

  function PriorityAt(defs: seq<Definition>, candidates: seq<nat>, c: nat, f: nat): i32
    requires c < |candidates| && candidates[c] < |defs| && f < |defs[candidates[c]].fingerprints|
  {
    defs[candidates[c]].fingerprints[f].priority
  }

  /** Whether (`d`, `g`) comes before (`c`, `f`) in the scan. */
  predicate Before(d: nat, g: nat, c: nat, f: nat) { d < c || (d == c && g < f) }

  /** The first of highest priority among the hits before (`c`, `f`). */
  ghost predicate BestBefore(defs: seq<Definition>, candidates: seq<nat>, device: DeviceMatch, c: nat, f: nat, b: nat, at: nat) {
    && Hit(defs, candidates, device, b, at)
    && forall d: nat, g: nat :: Hit(defs, candidates, device, d, g) && Before(d, g, c, f) ==>
         PriorityAt(defs, candidates, d, g) < PriorityAt(defs, candidates, b, at) ||
         (PriorityAt(defs, candidates, d, g) == PriorityAt(defs, candidates, b, at) && b <= d)
  }

  ghost predicate NoHitBefore(defs: seq<Definition>, candidates: seq<nat>, device: DeviceMatch, c: nat, f: nat) {
    forall d: nat, g: nat :: Before(d, g, c, f) ==> !Hit(defs, candidates, device, d, g)
  }

  lemma CandidatesOfKey(defs: seq<Definition>, key: string)
    ensures AreCandidates(defs, key, Positions(defs, key))
    ensures (exists p :: Candidate(defs, key, p)) <==> Positions(defs, key) != []
  {
    PositionsAre(defs, key);
    var c := Positions(defs, key);
    assert forall i :: 0 <= i < |c| ==> c[i] in c;
    if c != [] {
      assert Candidate(defs, key, c[0]);
    } else {
      assert forall p: nat :: Candidate(defs, key, p) ==> p in c;
    }
  }

  lemma SoleIsSingle(defs: seq<Definition>, key: string, candidates: seq<nat>)
    requires AreCandidates(defs, key, candidates)
    ensures HasSole(defs, key) <==> |candidates| == 1 && defs[candidates[0]].models != []
    ensures HasSole(defs, key) ==> SoleWithModels(defs, key, candidates[0])
  {
    if |candidates| == 1 && defs[candidates[0]].models != [] {
      assert SoleWithModels(defs, key, candidates[0]);
    }
    assert |candidates| > 1 ==> candidates[0] > candidates[1];
    if HasSole(defs, key) {
      var p: nat :| SoleWithModels(defs, key, p);
      assert p in candidates;
      assert forall i :: 0 <= i < |candidates| ==> candidates[i] == p;
    }
  }

  lemma MatchIsHit(defs: seq<Definition>, key: string, candidates: seq<nat>, device: DeviceMatch, p: nat, f: nat) returns (c: nat)
    requires AreCandidates(defs, key, candidates) && Matching(defs, key, device, p, f)
    ensures Hit(defs, candidates, device, c, f) && candidates[c] == p
  {
    assert p in candidates;
    c :| 0 <= c < |candidates| && candidates[c] == p;
  }

  /** First-wins over newest-first candidates is newest-wins over the catalogue. */
  lemma BestHitIsBest(defs: seq<Definition>, key: string, candidates: seq<nat>, device: DeviceMatch, b: nat, at: nat)
    requires AreCandidates(defs, key, candidates)
    requires BestBefore(defs, candidates, device, |candidates|, 0, b, at)
    ensures HasMatch(defs, key, device) && BestByFingerprint(defs, key, device, candidates[b])
  {
    var p := candidates[b];
    assert Matching(defs, key, device, p, at);
    forall q: nat, g: nat | Matching(defs, key, device, q, g)
      ensures defs[q].fingerprints[g].priority < defs[p].fingerprints[at].priority ||
              (defs[q].fingerprints[g].priority == defs[p].fingerprints[at].priority && q <= p)
    {
      var c := MatchIsHit(defs, key, candidates, device, q, g);
      assert Before(c, g, |candidates|, 0);
    }
    assert BestFingerprint(defs, key, device, p, at);
  }

  lemma NoHitNoMatch(defs: seq<Definition>, key: string, candidates: seq<nat>, device: DeviceMatch)
    requires AreCandidates(defs, key, candidates) && NoHitBefore(defs, candidates, device, |candidates|, 0)
    ensures !HasMatch(defs, key, device)
  {
    if HasMatch(defs, key, device) {
      var p: nat, f: nat :| Matching(defs, key, device, p, f);
      var c := MatchIsHit(defs, key, candidates, device, p, f);
    }
  }

  // ---------------------------------------------------------------------
  // The index

  function Bucket(m: map<string, seq<nat>>, key: string): seq<nat> {
    if key in m then m[key] else []
  }

  class Index {
    var definitions: seq<Definition>
    var byModel: map<string, seq<nat>>

    /** Each bucket holds exactly the positions having its key, newest first, and
        no bucket is empty. */
    ghost predicate Valid()
      reads this
    {
      && (forall key :: Bucket(byModel, key) == Positions(definitions, key))
      && forall key :: key in byModel ==> byModel[key] != []
    }

    constructor ()
      ensures Valid() && definitions == []
    {
      definitions, byModel := [], map[];
    }

    method Insert(definition: Definition) returns (r: Result<(), IndexError>)
      requires Valid()
      modifies this
      ensures Valid()
      ensures r == if definition.models == [] && definition.fingerprints == [] then Err(Unreachable(definition.model))
                   else if exists f :: f in definition.fingerprints && IsEmpty(f) then Err(EmptyFingerprint(definition.model))
                   else Ok(())
      ensures definitions == old(definitions) + if r.Ok? then [definition] else []
    {
      if definition.models == [] && definition.fingerprints == [] {
        return Err(Unreachable(definition.model));
      }
      if exists f :: f in definition.fingerprints && IsEmpty(f) {
        return Err(EmptyFingerprint(definition.model));
      }
      AddPosition(Keys(definition), |definitions|);
      forall key
        ensures Bucket(byModel, key) == Positions(definitions + [definition], key)
      {
        PositionsSnoc(definitions, definition, key);
      }
      definitions := definitions + [definition];
      r := Ok(());
    }

    /** Prepends a position to the bucket of every key. */
    method AddPosition(keys: set<string>, position: nat)
      modifies this`byModel
      ensures forall key ::
                Bucket(byModel, key) == if key in keys then [position] + Bucket(old(byModel), key) else Bucket(old(byModel), key)
      ensures (forall key :: key in old(byModel) ==> old(byModel)[key] != []) ==>
                forall key :: key in byModel ==> byModel[key] != []
    {
      var todo := keys;
      while todo != {}
        invariant todo <= keys
        invariant forall key ::
                    Bucket(byModel, key) == if key in keys - todo then [position] + Bucket(old(byModel), key)
                                            else Bucket(old(byModel), key)
        invariant (forall key :: key in old(byModel) ==> old(byModel)[key] != []) ==>
                    forall key :: key in byModel ==> byModel[key] != []
        decreases todo
      {
        var key :| key in todo;
        byModel := byModel[key := [position] + Bucket(byModel, key)];
        todo := todo - {key};
      }
    }

    /** Candidates for a model string: exact key first, then normalised. */
    method Candidates(model: string) returns (candidates: Option<seq<nat>>)
      requires Valid()
      ensures AreCandidates(definitions, KeyFor(definitions, model), if candidates.Some? then candidates.value else [])
      ensures candidates.Some? ==> candidates.value != []
    {
      CandidatesOfKey(definitions, LowerAll(model));
      CandidatesOfKey(definitions, IndexKey(model));
      if LowerAll(model) in byModel {
        return Some(byModel[LowerAll(model)]);
      }
      assert Bucket(byModel, LowerAll(model)) == [];
      if IndexKey(model) in byModel {
        return Some(byModel[IndexKey(model)]);
      }
      assert Bucket(byModel, IndexKey(model)) == [];
      return None;
    }

    /** The position of the definition for a device. */
    method Resolve(device: DeviceMatch) returns (position: Option<nat>)
      requires Valid()
      ensures IsResolution(definitions, device, position)
    {
      if device.modelId.None? {
        return None;
      }
      var model := device.modelId.value;
      ghost var key := KeyFor(definitions, model);
      var found := Candidates(model);
      if found.None? {
        assert AreCandidates(definitions, key, []);
        return None;
      }
      var candidates := found.value;
      SoleIsSingle(definitions, key, candidates);
      if |candidates| == 1 && definitions[candidates[0]].models != [] {
        return Some(candidates[0]);
      }
      var best, b, at := BestOf(candidates, device);
      if best.Some? {
        BestHitIsBest(definitions, key, candidates, device, b, at);
        return Some(best.value.1);
      }
      NoHitNoMatch(definitions, key, candidates, device);
      position := NewestListed(candidates, model, key);
    }

    /** Highest priority among matching fingerprints, the first one winning ties. */
    method BestOf(candidates: seq<nat>, device: DeviceMatch) returns (best: Option<(i32, nat)>, ghost b: nat, ghost at: nat)
      requires forall i :: 0 <= i < |candidates| ==> candidates[i] < |definitions|
      ensures best.None? ==> NoHitBefore(definitions, candidates, device, |candidates|, 0)
      ensures best.Some? ==>
                BestBefore(definitions, candidates, device, |candidates|, 0, b, at) && best.value.1 == candidates[b]
    {
      best, b, at := None, 0, 0;
      for c := 0 to |candidates|
        invariant best.None? ==> NoHitBefore(definitions, candidates, device, c, 0)
        invariant best.Some? ==>
                    && b < c && BestBefore(definitions, candidates, device, c, 0, b, at)
                    && best.value == (PriorityAt(definitions, candidates, b, at), candidates[b])
      {
        var fingerprints := definitions[candidates[c]].fingerprints;
        for f := 0 to |fingerprints|
          invariant best.None? ==> NoHitBefore(definitions, candidates, device, c, f)
          invariant best.Some? ==>
                      && b <= c && BestBefore(definitions, candidates, device, c, f, b, at)
                      && best.value == (PriorityAt(definitions, candidates, b, at), candidates[b])
        {
          if Matches(fingerprints[f], device) && (best.None? || fingerprints[f].priority > best.value.0) {
            assert Hit(definitions, candidates, device, c, f);
            best, b, at := Some((fingerprints[f].priority, candidates[c])), c, f;
          }
        }
      }
    }

    /** The first candidate whose model list has the reported or normalised string. */
    method NewestListed(candidates: seq<nat>, model: string, ghost key: string) returns (position: Option<nat>)
      requires AreCandidates(definitions, key, candidates)
      ensures if HasListing(definitions, key, model)
              then position.Some? && NewestListing(definitions, key, model, position.value)
              else position == None
    {
      var normalised := NormaliseModel(model);
      for c := 0 to |candidates|
        invariant forall a :: 0 <= a < c ==> !Lists(definitions, key, model, candidates[a])
      {
        if model in definitions[candidates[c]].models || normalised in definitions[candidates[c]].models {
          forall q: nat | Lists(definitions, key, model, q)
            ensures q <= candidates[c]
          {
            assert q in candidates;
          }
          assert NewestListing(definitions, key, model, candidates[c]);
          return Some(candidates[c]);
        }
      }
      forall p: nat
        ensures !Lists(definitions, key, model, p)
      {
        assert Candidate(definitions, key, p) ==> p in candidates;
      }
      return None;
    }
  }

  // ---------------------------------------------------------------------
  // Consequences

  /** The rule determines the answer. */
  lemma ResolutionIsUnique(defs: seq<Definition>, device: DeviceMatch, r: Option<nat>, s: Option<nat>)
    requires IsResolution(defs, device, r) && IsResolution(defs, device, s)
    ensures r == s
  {
    if device.modelId.Some? {
      var key := KeyFor(defs, device.modelId.value);
      if !HasSole(defs, key) && HasMatch(defs, key, device) {
        var f: nat :| BestFingerprint(defs, key, device, r.value, f);
        var g: nat :| BestFingerprint(defs, key, device, s.value, g);
      }
    }
  }

  /** An accepted definition is indexed exactly when it states a model string. */
  lemma IndexedExactly(d: Definition)
    ensures Keys(d) != {} <==> d.models != [] || exists f :: f in d.fingerprints && f.modelId.Some?
  {
    if d.models != [] {
      assert d.models[0] in ModelStrings(d);
      assert LowerAll(d.models[0]) in Keys(d);
    } else if exists f :: f in d.fingerprints && f.modelId.Some? {
      var f :| f in d.fingerprints && f.modelId.Some?;
      assert f.modelId.value in ModelStrings(d);
      assert LowerAll(f.modelId.value) in Keys(d);
    }
  }

  /** So a definition that only has fingerprints without a model is accepted and
      can never be found, whatever the device and the rest of the catalogue. */
  lemma UnindexedIsNeverFound(defs: seq<Definition>, device: DeviceMatch, p: nat)
    requires p < |defs| && Keys(defs[p]) == {}
    ensures !IsResolution(defs, device, Some(p))
  {
    if device.modelId.Some? {
      assert !Candidate(defs, KeyFor(defs, device.modelId.value), p);
    }
  }

  lemma BestBySight(defs: seq<Definition>, key: string, d: DeviceMatch, e: DeviceMatch)
    requires forall f :: Matches(f, d) == Matches(f, e)
    ensures HasMatch(defs, key, d) ==> HasMatch(defs, key, e)
    ensures forall p: nat :: BestByFingerprint(defs, key, d, p) ==> BestByFingerprint(defs, key, e, p)
  {
    assert forall p: nat, f: nat :: Matching(defs, key, d, p, f) == Matching(defs, key, e, p, f);
    forall p: nat | BestByFingerprint(defs, key, d, p)
      ensures BestByFingerprint(defs, key, e, p)
    {
      var f: nat :| BestFingerprint(defs, key, d, p, f);
      assert BestFingerprint(defs, key, e, p, f);
    }
  }

  /** Two listings of a device's endpoints always get the same definition, whatever
      the catalogue, if and only if no fingerprint can tell them apart. */
  lemma ResolutionIgnoresOrder(d: DeviceMatch, e: DeviceMatch)
    requires e == d.(endpoints := e.endpoints) && d.modelId.Some?
    ensures (forall defs, r :: IsResolution(defs, d, r) == IsResolution(defs, e, r)) <==> Indistinct(d, e)
  {
    if Indistinct(d, e) {
      forall defs, r
        ensures IsResolution(defs, d, r) == IsResolution(defs, e, r)
      {
        IndistinctResolve(defs, d, e, r);
      }
    } else {
      var f := Telling(d, e);
      var defs := [Definition("", [], [f.(modelId := d.modelId)])];
      OnlyFingerprint(defs, f, d);
      OnlyFingerprint(defs, f, e);
    }
  }

  lemma IndistinctResolve(defs: seq<Definition>, d: DeviceMatch, e: DeviceMatch, r: Option<nat>)
    requires e == d.(endpoints := e.endpoints) && Indistinct(d, e)
    ensures IsResolution(defs, d, r) == IsResolution(defs, e, r)
  {
    forall f
      ensures Matches(f, d) == Matches(f, e)
    {
      IndistinctMatches(f, d, e);
    }
    if d.modelId.Some? {
      BestBySight(defs, KeyFor(defs, d.modelId.value), d, e);
      BestBySight(defs, KeyFor(defs, d.modelId.value), e, d);
    }
  }

  /** A catalogue of one definition with one fingerprint and no model list resolves
      a device exactly when that fingerprint matches it. */
  lemma OnlyFingerprint(defs: seq<Definition>, f: Fingerprint, d: DeviceMatch)
    requires d.modelId.Some? && f.modelId.None?
    requires defs == [Definition("", [], [f.(modelId := d.modelId)])]
    ensures IsResolution(defs, d, None) <==> !Matches(f, d)
  {
    var model := d.modelId.value;
    var key, named := KeyFor(defs, model), f.(modelId := d.modelId);
    assert defs[0].fingerprints[0] == named;
    assert model in ModelStrings(defs[0]);
    assert LowerAll(model) in Keys(defs[0]) && Candidate(defs, LowerAll(model), 0);
    assert Matching(defs, key, d, 0, 0) <==> Matches(f, d);
    assert forall p: nat, g: nat :: Matching(defs, key, d, p, g) ==> p == 0 && g == 0;
  }
}
