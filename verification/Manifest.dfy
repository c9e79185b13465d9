/** Contests, their placeholders and ballot styles: src/electionguard/manifest.cpp. */
module Manifests {
  import opened Arith
  import opened ElementQ
  import opened Hashing
  import opened Hex
  import opened Permutations
  import opened Sorting

  datatype SelectionDescription = SelectionDescription(objectId: string, candidateId: string, sequenceOrder: nat) {
    function CryptoHash(sha: Sha): (r: nat)
      ensures r < Q
    {
      HashElems(sha, HashedItems())
    }

    function HashedItems(): seq<Item> {
      [Text(objectId), Number(sequenceOrder), Text(candidateId)]
    }
  }

  function SelectionOrder(s: SelectionDescription): int {
    s.sequenceOrder
  }

  datatype VoteVariation = OneOfM | NOfM | OtherVariation(name: string) {
    function Name(): string {
      match this
      case OneOfM => "one_of_m"
      case NOfM => "n_of_m"
      case OtherVariation(name) => name
    }
  }

  /** Title and subtitle enter only through their hashes. */
  datatype Titles = Untitled | Titled(title: nat, subtitle: nat)

  datatype ContestDescription = ContestDescription(
    objectId: string, electoralDistrictId: string, sequenceOrder: nat, voteVariation: VoteVariation,
    numberElected: nat, votesAllowed: nat, name: string, titles: Titles, selections: seq<SelectionDescription>)
  {
    function GetSelections(): seq<SelectionDescription> {
      Sort(SelectionOrder, selections)
    }

    /** The hash takes the selections as stored, not as sorted. */
    function CryptoHash(sha: Sha): (r: nat)
      ensures r < Q
    {
      HashElems(sha, HashedItems(sha))
    }

    function HashedItems(sha: Sha): seq<Item> {
      [Text(objectId), Number(sequenceOrder), Text(electoralDistrictId), Text(voteVariation.Name()),
       if titles.Titled? then Element(titles.title) else Null,
       if titles.Titled? then Element(titles.subtitle) else Null,
       Text(name), Number(numberElected), Number(votesAllowed), Many(SelectionItems(sha))]
    }

    function SelectionItems(sha: Sha): seq<Item> {
      seq(|selections|, i requires 0 <= i < |selections| => Element(selections[i].CryptoHash(sha)))
    }

    /** What a copy holds: without a title the number of votes allowed is derived afresh. */
    function Copied(): ContestDescription {
      if titles.Titled? then this
      else this.(votesAllowed := if voteVariation.NOfM? || voteVariation.OneOfM? then numberElected else 0)
    }
  }

  function ContestOrder(c: ContestWithPlaceholders): int {
    c.description.sequenceOrder
  }

  datatype ContestWithPlaceholders = ContestWithPlaceholders(
    description: ContestDescription, placeholderSelections: seq<SelectionDescription>)
  {
    function GetPlaceholders(): seq<SelectionDescription> {
      Sort(SelectionOrder, placeholderSelections)
    }
  }

  datatype BallotStyle = BallotStyle(objectId: string, geopoliticalUnitIds: seq<string>)

  datatype Candidate = Candidate(objectId: string, partyId: string)

  datatype Manifest = Manifest(
    geopoliticalUnits: seq<string>, parties: seq<string>, candidates: seq<Candidate>,
    contests: seq<ContestDescription>, ballotStyles: seq<BallotStyle>)
  {
    function GetContests(): seq<ContestDescription> {
      Sort(DescriptionOrder, contests)
    }
  }

  function DescriptionOrder(c: ContestDescription): int {
    c.sequenceOrder
  }

  datatype InternalManifest = InternalManifest(
    contests: seq<ContestWithPlaceholders>, ballotStyles: seq<BallotStyle>, manifestHash: Word)

  // ------------------------------------------------------------------- validity

  predicate Distinct<T(==)>(xs: seq<T>) {
    forall i, j :: 0 <= i < j < |xs| ==> xs[i] != xs[j]
  }

  /** No identifier is empty and none occurs twice. */
  predicate UniqueIds(ids: seq<string>) {
    Distinct(ids) && "" !in ids
  }

  function Elements<T>(xs: seq<T>): set<T> {
    set x | x in xs
  }

  function NonEmpty(ids: seq<string>): set<string> {
    Elements(ids) - {""}
  }

  /** The source counts a set to find out whether the values put into it are distinct. */
  lemma {:induction false} DistinctByCounting<T>(xs: seq<T>)
    ensures |Elements(xs)| <= |xs|
    ensures |Elements(xs)| == |xs| <==> Distinct(xs)
  {
    if xs == [] {
    } else {
      var n := |xs| - 1;
      var last, front := xs[n], xs[..n];
      DistinctByCounting(front);
      assert xs == front + [last];
      assert Elements(xs) == Elements(front) + {last};
      if last in front {
        var i :| 0 <= i < n && xs[i] == last;
        assert Elements(xs) == Elements(front);
      } else {
        assert last !in Elements(front);
        assert forall i :: 0 <= i < n ==> xs[i] == front[i] && front[i] in front;
      }
    }
  }

  lemma ElementsStep<T>(xs: seq<T>, i: nat)
    requires i < |xs|
    ensures Elements(xs[..i + 1]) == Elements(xs[..i]) + {xs[i]}
    ensures xs[..|xs|] == xs && Elements(xs[..0]) == {}
  {
    assert xs[..i + 1] == xs[..i] + [xs[i]];
  }

  /** Empty identifiers are left out of the set, so that they are missed in the count. */
  lemma UniqueByCounting(ids: seq<string>)
    ensures |NonEmpty(ids)| == |ids| <==> UniqueIds(ids)
  {
    DistinctByCounting(ids);
    if "" in ids {
      assert |Elements(ids) - {""}| == |Elements(ids)| - 1;
    } else {
      assert NonEmpty(ids) == Elements(ids);
    }
  }

  function SelectionIds(selections: seq<SelectionDescription>): seq<string> {
    Map((s: SelectionDescription) => s.objectId, selections)
  }

  function CandidateIds(selections: seq<SelectionDescription>): seq<string> {
    Map((s: SelectionDescription) => s.candidateId, selections)
  }

  function SelectionOrders(selections: seq<SelectionDescription>): seq<nat> {
    Map((s: SelectionDescription) => s.sequenceOrder, selections)
  }

  predicate ValidContest(c: ContestDescription) {
    && c.numberElected <= |c.selections|
    && (c.votesAllowed == 0 || c.numberElected <= c.votesAllowed)
    && UniqueIds(CandidateIds(c.selections))
    && UniqueIds(SelectionIds(c.selections))
    && Distinct(SelectionOrders(c.selections))
  }

  /** ContestDescription::isValid. The order in which the selections are visited does not matter. */
  method ContestIsValid(c: ContestDescription) returns (success: bool)
    ensures success <==> ValidContest(c)
  {
    var candidateIds: set<string>, selectionIds: set<string>, sequenceIds: set<nat> := {}, {}, {};
    ghost var allCandidates, allIds, allOrders :=
      CandidateIds(c.selections), SelectionIds(c.selections), SelectionOrders(c.selections);
    for i := 0 to |c.selections|
      invariant selectionIds == NonEmpty(allIds[..i])
      invariant candidateIds == NonEmpty(allCandidates[..i])
      invariant sequenceIds == Elements(allOrders[..i])
    {
      hide Elements;
      var selection := c.selections[i];
      ElementsStep(allIds, i);
      ElementsStep(allCandidates, i);
      ElementsStep(allOrders, i);
      if selection.objectId != "" {
        selectionIds := selectionIds + {selection.objectId};
      }
      if selection.candidateId != "" {
        candidateIds := candidateIds + {selection.candidateId};
      }
      sequenceIds := sequenceIds + {selection.sequenceOrder};
    }
    hide Distinct, UniqueIds, Elements, NonEmpty;
    assert allIds[..|allIds|] == allIds && allCandidates[..|allIds|] == allCandidates &&
           allOrders[..|allIds|] == allOrders;
    UniqueByCounting(allIds);
    UniqueByCounting(allCandidates);
    DistinctByCounting(allOrders);
    success := && c.numberElected <= |c.selections|
               && (c.votesAllowed == 0 || c.numberElected <= c.votesAllowed)
               && |candidateIds| == |c.selections|
               && |selectionIds| == |c.selections|
               && |sequenceIds| == |c.selections|;
  }

  function StyleIds(styles: seq<BallotStyle>): seq<string> {
    Map((b: BallotStyle) => b.objectId, styles)
  }

  function ContestIds(contests: seq<ContestDescription>): seq<string> {
    Map((c: ContestDescription) => c.objectId, contests)
  }

  function ContestOrders(contests: seq<ContestDescription>): seq<nat> {
    Map((c: ContestDescription) => c.sequenceOrder, contests)
  }

  function CandidateObjectIds(candidates: seq<Candidate>): seq<string> {
    Map((c: Candidate) => c.objectId, candidates)
  }

  predicate ValidStyle(style: BallotStyle, gpUnits: seq<string>) {
    && style.geopoliticalUnitIds != []
    && forall id :: id in style.geopoliticalUnitIds ==> id in NonEmpty(gpUnits)
  }

  predicate ValidManifest(m: Manifest) {
    && UniqueIds(m.geopoliticalUnits)
    && UniqueIds(StyleIds(m.ballotStyles))
    && (forall i :: 0 <= i < |m.ballotStyles| ==> ValidStyle(m.ballotStyles[i], m.geopoliticalUnits))
    && UniqueIds(m.parties)
    && UniqueIds(CandidateObjectIds(m.candidates))
    && (forall i :: 0 <= i < |m.candidates| ==> m.candidates[i].partyId == "" || m.candidates[i].partyId in m.parties)
    && UniqueIds(ContestIds(m.contests))
    && Distinct(ContestOrders(m.contests))
    && (forall i :: 0 <= i < |m.contests| ==> ValidContest(m.contests[i]))
    && (forall i :: 0 <= i < |m.contests| ==> m.contests[i].electoralDistrictId in NonEmpty(m.geopoliticalUnits))
  }

  method CollectIds(ids: seq<string>) returns (collected: set<string>)
    ensures collected == NonEmpty(ids)
    ensures |collected| == |ids| <==> UniqueIds(ids)
  {
    collected := {};
    for i := 0 to |ids|
      invariant collected == NonEmpty(ids[..i])
    {
      assert ids[..i + 1] == ids[..i] + [ids[i]];
      if ids[i] != "" {
        collected := collected + {ids[i]};
      }
    }
    assert ids[..|ids|] == ids;
    UniqueByCounting(ids);
  }

  method StylesAreValid(m: Manifest, gpUnitIds: set<string>) returns (valid: bool)
    requires gpUnitIds == NonEmpty(m.geopoliticalUnits)
    ensures valid <==> && UniqueIds(StyleIds(m.ballotStyles))
                       && forall i :: 0 <= i < |m.ballotStyles| ==> ValidStyle(m.ballotStyles[i], m.geopoliticalUnits)
  {
    var ballotStyleIds: set<string>, validUnits := {}, true;
    ghost var ids := StyleIds(m.ballotStyles);
    for i := 0 to |m.ballotStyles|
      invariant ballotStyleIds == NonEmpty(ids[..i])
      invariant validUnits <==> forall j :: 0 <= j < i ==> ValidStyle(m.ballotStyles[j], m.geopoliticalUnits)
    {
      var style := m.ballotStyles[i];
      assert ids[..i + 1] == ids[..i] + [style.objectId];
      if style.objectId != "" {
        ballotStyleIds := ballotStyleIds + {style.objectId};
      }
      if style.geopoliticalUnitIds == [] {
        assert !ValidStyle(style, m.geopoliticalUnits);
        return false;
      }
      var before := validUnits;
      for j := 0 to |style.geopoliticalUnitIds|
        invariant validUnits <==> before && forall l :: 0 <= l < j ==> style.geopoliticalUnitIds[l] in gpUnitIds
      {
        validUnits := validUnits && style.geopoliticalUnitIds[j] in gpUnitIds;
      }
    }
    assert ids[..|ids|] == ids;
    UniqueByCounting(ids);
    valid := |ballotStyleIds| == |m.ballotStyles| && validUnits;
  }

  method ContestsAreValid(m: Manifest, gpUnitIds: set<string>) returns (valid: bool)
    requires gpUnitIds == NonEmpty(m.geopoliticalUnits)
    ensures valid <==>
            && UniqueIds(ContestIds(m.contests))
            && Distinct(ContestOrders(m.contests))
            && (forall i :: 0 <= i < |m.contests| ==> ValidContest(m.contests[i]))
            && (forall i :: 0 <= i < |m.contests| ==>
                  m.contests[i].electoralDistrictId in NonEmpty(m.geopoliticalUnits))
  {
    hide ValidContest, UniqueIds, Distinct;
    var contestIds: set<string>, sequenceIds: set<nat>, properties, districts := {}, {}, true, true;
    ghost var ids, orders := ContestIds(m.contests), ContestOrders(m.contests);
    for i := 0 to |m.contests|
      invariant contestIds == NonEmpty(ids[..i]) && sequenceIds == Elements(orders[..i])
      invariant properties <==> forall j :: 0 <= j < i ==> ValidContest(m.contests[j])
      invariant districts <==> forall j :: 0 <= j < i ==> m.contests[j].electoralDistrictId in gpUnitIds
    {
      var contest := m.contests[i];
      assert ids[..i + 1] == ids[..i] + [contest.objectId];
      assert orders[..i + 1] == orders[..i] + [contest.sequenceOrder];
      var contestValid := ContestIsValid(contest);
      properties := properties && contestValid;
      if contest.objectId != "" {
        contestIds := contestIds + {contest.objectId};
      }
      sequenceIds := sequenceIds + {contest.sequenceOrder};
      districts := districts && contest.electoralDistrictId != "" && contest.electoralDistrictId in gpUnitIds;
    }
    assert ids[..|ids|] == ids && orders[..|ids|] == orders;
    UniqueByCounting(ids);
    DistinctByCounting(orders);
    valid := |contestIds| == |m.contests| && |sequenceIds| == |m.contests| && properties && districts;
  }

  method CandidatesAreValid(m: Manifest, partyIds: set<string>) returns (valid: bool)
    requires partyIds == NonEmpty(m.parties)
    ensures valid <==>
            && UniqueIds(CandidateObjectIds(m.candidates))
            && forall i :: 0 <= i < |m.candidates| ==>
                 m.candidates[i].partyId == "" || m.candidates[i].partyId in m.parties
  {
    hide UniqueIds;
    var candidateIds := CollectIds(CandidateObjectIds(m.candidates));
    var validParties := true;
    for i := 0 to |m.candidates|
      invariant validParties <==>
                forall j :: 0 <= j < i ==> m.candidates[j].partyId == "" || m.candidates[j].partyId in m.parties
    {
      validParties := validParties && (m.candidates[i].partyId == "" || m.candidates[i].partyId in partyIds);
    }
    valid := |candidateIds| == |m.candidates| && validParties;
  }

  /** Manifest::isValid. */
  method ManifestIsValid(m: Manifest) returns (success: bool)
    ensures success <==> ValidManifest(m)
  {
    hide UniqueIds, Distinct, ValidContest, ValidStyle, NonEmpty, ContestIds, ContestOrders, StyleIds;
    var gpUnitIds := CollectIds(m.geopoliticalUnits);
    var stylesValid := StylesAreValid(m, gpUnitIds);
    var partyIds := CollectIds(m.parties);
    var candidatesValid := CandidatesAreValid(m, partyIds);
    var contestsValid := ContestsAreValid(m, gpUnitIds);
    success := |gpUnitIds| == |m.geopoliticalUnits| && stylesValid && |partyIds| == |m.parties| && candidatesValid
               && contestsValid;
  }

  // ----------------------------------------------------------------- placeholders

  /** The running maximum is a 32-bit variable that larger sequence orders are cut down to. */
  function MaxOrder32(selections: seq<SelectionDescription>): (r: nat)
    ensures r < UINT32
  {
    if selections == [] then 0
    else
      var m, order := MaxOrder32(selections[..|selections| - 1]), selections[|selections| - 1].sequenceOrder;
      if order > m then order % UINT32 else m
  }

  /** generatePlaceholderSelectionFrom. */
  function PlaceholderFrom(contestId: string, useSequenceId: nat): SelectionDescription {
    var id := contestId + "-" + Decimal(useSequenceId);
    SelectionDescription(id + "-placeholder", id + "-candidate", useSequenceId)
  }

  function FirstPlaceholder(c: ContestDescription): (r: nat)
    ensures r < UINT32
  {
    (MaxOrder32(c.GetSelections()) + 1) % UINT32
  }

  function Placeholders(c: ContestDescription): (r: seq<SelectionDescription>)
    ensures |r| == c.numberElected
  {
    seq(c.numberElected, i requires 0 <= i < c.numberElected =>
      PlaceholderFrom(c.objectId, (FirstPlaceholder(c) + i) % UINT64))
  }

  function WithPlaceholders(c: ContestDescription): ContestWithPlaceholders {
    ContestWithPlaceholders(c.Copied(), Placeholders(c))
  }

  method GenerateContestsWithPlaceholders(contests: seq<ContestDescription>)
      returns (result: seq<ContestWithPlaceholders>)
    ensures |result| == |contests|
    ensures forall i :: 0 <= i < |contests| ==> result[i] == WithPlaceholders(contests[i])
  {
    hide Sort;
    result := [];
    for c := 0 to |contests|
      invariant |result| == c
      invariant forall i :: 0 <= i < c ==> result[i] == WithPlaceholders(contests[i])
    {
      var contest := contests[c];
      var placeholders := [];
      var maxSequenceOrder := 0;
      var selections := contest.GetSelections();
      for i := 0 to |selections|
        invariant maxSequenceOrder == MaxOrder32(selections[..i])
      {
        assert selections[..i + 1][..i] == selections[..i];
        var sequenceOrder := selections[i].sequenceOrder;
        if sequenceOrder > maxSequenceOrder {
          maxSequenceOrder := sequenceOrder % UINT32;
        }
      }
      assert selections[..|selections|] == selections;
      maxSequenceOrder := (maxSequenceOrder + 1) % UINT32;
      assert maxSequenceOrder == FirstPlaceholder(contest);
      for i := 0 to contest.numberElected
        invariant |placeholders| == i && placeholders == Placeholders(contest)[..i]
      {
        assert Placeholders(contest)[i] == PlaceholderFrom(contest.objectId, (maxSequenceOrder + i) % UINT64);
        assert Placeholders(contest)[..i + 1] == Placeholders(contest)[..i] + [Placeholders(contest)[i]];
        placeholders := placeholders + [PlaceholderFrom(contest.objectId, (maxSequenceOrder + i) % UINT64)];
      }
      result := result + [ContestWithPlaceholders(contest.Copied(), placeholders)];
    }
  }

  /** The internal manifest made from a manifest whose hash is `manifestHash`. */
  function InternalFrom(m: Manifest, manifestHash: Word): InternalManifest {
    var contests := m.GetContests();
    InternalManifest(seq(|contests|, i requires 0 <= i < |contests| => WithPlaceholders(contests[i])),
                     m.ballotStyles, manifestHash)
  }

  method MakeInternal(m: Manifest, manifestHash: Word) returns (r: InternalManifest)
    ensures r == InternalFrom(m, manifestHash)
  {
    hide Sort, Placeholders;
    var contests := GenerateContestsWithPlaceholders(m.GetContests());
    r := InternalManifest(contests, m.ballotStyles, manifestHash);
  }

  /** What encryption needs of a contest: distinct identifiers and a placeholder for every seat. */
  predicate Encryptable(c: ContestWithPlaceholders) {
    && Distinct(SelectionIds(c.description.selections))
    && |c.placeholderSelections| == c.description.numberElected
  }

  /** A valid manifest gives contests that can be encrypted, with distinct orders and identifiers. */
  lemma ValidManifestGives(m: Manifest, manifestHash: Word)
    requires ValidManifest(m)
    ensures var contests := InternalFrom(m, manifestHash).contests;
            && DistinctKeys(ContestOrder, contests)
            && (forall c :: c in contests ==> Encryptable(c))
            && (forall i, j :: 0 <= i < j < |contests| ==>
                  contests[i].description.objectId != contests[j].description.objectId)
  {
    hide Sort, Placeholders, ValidContest, ValidStyle;
    var sorted := m.GetContests();
    var contests := InternalFrom(m, manifestHash).contests;
    SortSorts(DescriptionOrder, m.contests);
    assert DistinctKeys(DescriptionOrder, m.contests) by {
      forall i, j | 0 <= i < j < |m.contests|
        ensures DescriptionOrder(m.contests[i]) != DescriptionOrder(m.contests[j]) {
        assert ContestOrders(m.contests)[i] != ContestOrders(m.contests)[j];
      }
    }
    DistinctPermuted(DescriptionOrder, m.contests, sorted);
    forall i, j | 0 <= i < j < |contests| ensures ContestOrder(contests[i]) != ContestOrder(contests[j]) {
      assert DescriptionOrder(sorted[i]) != DescriptionOrder(sorted[j]);
    }
    ContestIdsPermuted(m.contests, sorted);
    forall i, j | 0 <= i < j < |contests| ensures contests[i].description.objectId != contests[j].description.objectId {
      assert ContestIds(sorted)[i] != ContestIds(sorted)[j];
    }
    forall i | 0 <= i < |contests| ensures Encryptable(contests[i]) {
      assert sorted[i] in multiset(m.contests);
      ValidContestEncryptable(sorted[i]);
    }
  }

  lemma ValidContestEncryptable(c: ContestDescription)
    requires ValidContest(c)
    ensures Encryptable(WithPlaceholders(c))
  {
  }

  lemma {:induction false} MaxBounds(selections: seq<SelectionDescription>)
    requires forall i :: 0 <= i < |selections| ==> selections[i].sequenceOrder < UINT32
    ensures forall i :: 0 <= i < |selections| ==> selections[i].sequenceOrder <= MaxOrder32(selections)
    ensures if selections == [] then MaxOrder32(selections) == 0
            else exists i :: 0 <= i < |selections| && selections[i].sequenceOrder == MaxOrder32(selections)
  {
    if selections == [] {
    } else {
      var n := |selections| - 1;
      MaxBounds(selections[..n]);
      if selections[n].sequenceOrder <= MaxOrder32(selections[..n]) {
        if n == 0 {
          assert selections[0].sequenceOrder == MaxOrder32(selections);
        } else {
          var i :| 0 <= i < n && selections[..n][i].sequenceOrder == MaxOrder32(selections[..n]);
          assert selections[i].sequenceOrder == MaxOrder32(selections);
        }
      }
      forall i | 0 <= i < |selections| ensures selections[i].sequenceOrder <= MaxOrder32(selections) {
        assert i < n ==> selections[i] == selections[..n][i];
      }
    }
  }

  /** No two placeholders of a contest share an identifier. */
  lemma PlaceholderIdsDistinct(c: ContestDescription)
    requires c.numberElected < UINT64 - UINT32
    ensures Distinct(SelectionIds(Placeholders(c)))
  {
    hide FirstPlaceholder;
    PlaceholderOrders(c);
    var placeholders := Placeholders(c);
    forall i, j | 0 <= i < j < |placeholders| ensures placeholders[i].objectId != placeholders[j].objectId {
      assert placeholders[i] == PlaceholderFrom(c.objectId, placeholders[i].sequenceOrder);
      assert placeholders[j] == PlaceholderFrom(c.objectId, placeholders[j].sequenceOrder);
      PlaceholderIdGivesOrder(c.objectId, placeholders[i].sequenceOrder, c.objectId, placeholders[j].sequenceOrder);
    }
  }

  /** A placeholder's identifiers name its contest and its number, whatever the contest's identifier contains. */
  lemma PlaceholderIdGivesOrder(contestId: string, m: nat, contestId': string, n: nat)
    ensures PlaceholderFrom(contestId, m).objectId == PlaceholderFrom(contestId', n).objectId ==>
              contestId == contestId' && m == n
    ensures PlaceholderFrom(contestId, m).candidateId == PlaceholderFrom(contestId', n).candidateId ==>
              contestId == contestId' && m == n
  {
    hide Decimal;
    DecimalClean(m);
    DecimalClean(n);
    SameFront(contestId + "-" + Decimal(m), contestId' + "-" + Decimal(n), "-placeholder");
    SameFront(contestId + "-" + Decimal(m), contestId' + "-" + Decimal(n), "-candidate");
    LastDash(contestId, Decimal(m), contestId', Decimal(n));
  }

  lemma LastDash(a: string, x: string, b: string, y: string)
    requires AllHex(x) && AllHex(y)
    ensures a + "-" + x == b + "-" + y ==> a == b && x == y
  {
    var s, t := a + "-" + x, b + "-" + y;
    if s == t {
      assert s[|a|] == '-' && t[|b|] == '-';
      assert forall i :: |a| < i < |s| ==> s[i] == x[i - |a| - 1];
      assert forall i :: |b| < i < |t| ==> t[i] == y[i - |b| - 1];
      assert |a| == |b|;
      assert a == s[..|a|] && b == t[..|b|] && x == s[|a| + 1..] && y == t[|b| + 1..];
    }
  }

  lemma SameFront(x: string, y: string, back: string)
    ensures x + back == y + back ==> x == y
  {
    var s, t := x + back, y + back;
    if s == t {
      assert x == s[..|s| - |back|] && y == t[..|t| - |back|];
    }
  }

  predicate PlaceholdersAbove(c: ContestDescription) {
    forall i, j :: 0 <= i < |c.selections| && 0 <= j < c.numberElected ==>
      c.selections[i].sequenceOrder < Placeholders(c)[j].sequenceOrder
  }

  /**
   * Placeholders, if any, come after every selection exactly when no sequence order reaches 2^32 - 1, the largest
   * 32-bit value, at which the increment wraps. (A vector of placeholders is never so long that the 64-bit sum wraps.)
   */
  lemma PlaceholdersFollowSelections(c: ContestDescription)
    requires c.numberElected < UINT64 - UINT32
    ensures PlaceholdersAbove(c) <==>
            c.numberElected == 0 || forall i :: 0 <= i < |c.selections| ==> c.selections[i].sequenceOrder < UINT32 - 1
    ensures Distinct(SelectionOrders(Placeholders(c)))
  {
    hide MaxOrder32, Sort;
    PlaceholderOrders(c);
    var sorted := c.GetSelections();
    if c.numberElected == 0 {
    } else if i :| 0 <= i < |c.selections| && c.selections[i].sequenceOrder >= UINT32 - 1 {
      assert !(c.selections[i].sequenceOrder < Placeholders(c)[0].sequenceOrder);
    } else {
      SortSorts(SelectionOrder, c.selections);
      forall i | 0 <= i < |sorted| ensures sorted[i] in c.selections {
        assert sorted[i] in multiset(c.selections);
      }
      MaxBounds(sorted);
      forall i | 0 <= i < |c.selections| ensures c.selections[i].sequenceOrder <= MaxOrder32(sorted) {
        assert c.selections[i] in multiset(sorted);
      }
      assert MaxOrder32(sorted) < UINT32 - 1;
      ModIs(MaxOrder32(sorted) + 1, 0, MaxOrder32(sorted) + 1, UINT32);
    }
  }

  /** No placeholder takes the order of a selection. */
  predicate PlaceholdersApart(c: ContestDescription) {
    forall i, j :: 0 <= i < |c.selections| && 0 <= j < c.numberElected ==>
      c.selections[i].sequenceOrder != Placeholders(c)[j].sequenceOrder
  }

  /** Exactly the orders from the first placeholder's on are taken, as many as there are seats. */
  lemma PlaceholdersShareNoOrder(c: ContestDescription)
    requires c.numberElected < UINT64 - UINT32
    ensures PlaceholdersApart(c) <==>
            forall i :: 0 <= i < |c.selections| ==>
              !(FirstPlaceholder(c) <= c.selections[i].sequenceOrder < FirstPlaceholder(c) + c.numberElected)
  {
    hide FirstPlaceholder;
    PlaceholderOrders(c);
    forall i | 0 <= i < |c.selections|
               && FirstPlaceholder(c) <= c.selections[i].sequenceOrder < FirstPlaceholder(c) + c.numberElected
      ensures !PlaceholdersApart(c)
    {
      var j := c.selections[i].sequenceOrder - FirstPlaceholder(c);
      assert Placeholders(c)[j].sequenceOrder == c.selections[i].sequenceOrder;
    }
  }

  /** Placeholders are numbered consecutively. */
  lemma PlaceholderOrders(c: ContestDescription)
    requires c.numberElected < UINT64 - UINT32
    ensures forall i :: 0 <= i < c.numberElected ==> Placeholders(c)[i].sequenceOrder == FirstPlaceholder(c) + i
  {
    hide FirstPlaceholder;
    forall i | 0 <= i < c.numberElected ensures Placeholders(c)[i].sequenceOrder == FirstPlaceholder(c) + i {
      var order := FirstPlaceholder(c) + i;
      assert Placeholders(c)[i] == PlaceholderFrom(c.objectId, order % UINT64);
      ModIs(order, 0, order, UINT64);
    }
  }

  /** At the largest 32-bit order a placeholder takes the order of a selection. */
  lemma PlaceholderOrderCollides()
    ensures var low, high := SelectionDescription("a", "x", 0), SelectionDescription("b", "y", UINT32 - 1);
            var c := ContestDescription("contest", "unit", 0, OneOfM, 1, 1, "", Untitled, [low, high]);
            ValidContest(c) && Placeholders(c)[0].sequenceOrder == low.sequenceOrder
  {
    var low, high := SelectionDescription("a", "x", 0), SelectionDescription("b", "y", UINT32 - 1);
    var c := ContestDescription("contest", "unit", 0, OneOfM, 1, 1, "", Untitled, [low, high]);
    SortOfSorted(SelectionOrder, c.selections);
    var sorted := c.GetSelections();
    assert sorted[..1] == [low] && [low][..0] == [];
    assert MaxOrder32([low]) == 0;
    assert MaxOrder32(sorted) == UINT32 - 1;
  }

  // ---------------------------------------------------------------- ballot styles

  function FindStyle(styles: seq<BallotStyle>, id: string): Result<BallotStyle> {
    if styles == [] then Err("no such ballot style")
    else if styles[0].objectId == id then Ok(styles[0])
    else FindStyle(styles[1..], id)
  }

  /** The i-th style is the first one with the identifier. */
  predicate IsStyle(styles: seq<BallotStyle>, i: nat, id: string) {
    i < |styles| && styles[i].objectId == id && forall j :: 0 <= j < i ==> styles[j].objectId != id
  }

  /** The lookup finds the first style with the identifier, and fails exactly when there is none. */
  lemma {:induction false} StyleFound(styles: seq<BallotStyle>, id: string)
    ensures FindStyle(styles, id).Err? <==> forall i :: 0 <= i < |styles| ==> styles[i].objectId != id
    ensures forall i: nat :: IsStyle(styles, i, id) ==> FindStyle(styles, id) == Ok(styles[i])
    ensures FindStyle(styles, id).Ok? ==> exists i: nat :: IsStyle(styles, i, id)
  {
    if styles == [] {
    } else if styles[0].objectId == id {
      assert IsStyle(styles, 0, id);
    } else {
      var rest := styles[1..];
      StyleFound(rest, id);
      assert forall i :: 0 <= i < |rest| ==> rest[i] == styles[i + 1];
      forall i: nat | IsStyle(styles, i, id) ensures FindStyle(styles, id) == Ok(styles[i]) {
        assert IsStyle(rest, i - 1, id);
      }
      if FindStyle(styles, id).Ok? {
        var i: nat :| IsStyle(rest, i, id);
        assert IsStyle(styles, i + 1, id);
      }
    }
  }

  method GetBallotStyle(manifest: InternalManifest, ballotStyleId: string) returns (r: Result<BallotStyle>)
    ensures r == FindStyle(manifest.ballotStyles, ballotStyleId)
  {
    for i := 0 to |manifest.ballotStyles|
      invariant FindStyle(manifest.ballotStyles[i..], ballotStyleId) == FindStyle(manifest.ballotStyles, ballotStyleId)
    {
      assert manifest.ballotStyles[i..][1..] == manifest.ballotStyles[i + 1..];
      if manifest.ballotStyles[i].objectId == ballotStyleId {
        return Ok(manifest.ballotStyles[i]);
      }
    }
    r := Err("no such ballot style");
  }

  /** Once per occurrence of the contest's district in the style. */
  function Occurrences(contest: ContestWithPlaceholders, units: seq<string>): seq<ContestWithPlaceholders> {
    if units == [] then []
    else Occurrences(contest, units[..|units| - 1]) +
         if units[|units| - 1] == contest.description.electoralDistrictId then [contest] else []
  }

  function Matching(contests: seq<ContestWithPlaceholders>, units: seq<string>): seq<ContestWithPlaceholders> {
    if contests == [] then []
    else Matching(contests[..|contests| - 1], units) + Occurrences(contests[|contests| - 1], units)
  }

  lemma OccurrencesStart(contest: ContestWithPlaceholders, units: seq<string>)
    ensures Occurrences(contest, units[..0]) == []
  {
  }

  lemma OccurrencesStep(contest: ContestWithPlaceholders, units: seq<string>, j: nat)
    requires j < |units|
    ensures Occurrences(contest, units[..j + 1])
            == Occurrences(contest, units[..j])
               + if units[j] == contest.description.electoralDistrictId then [contest] else []
  {
    assert units[..j + 1][..j] == units[..j];
  }

  lemma MatchingStart(contests: seq<ContestWithPlaceholders>, units: seq<string>)
    ensures Matching(contests[..0], units) == []
  {
  }

  lemma MatchingStep(contests: seq<ContestWithPlaceholders>, units: seq<string>, i: nat)
    requires i < |contests|
    ensures Matching(contests[..i + 1], units) == Matching(contests[..i], units) + Occurrences(contests[i], units)
  {
    assert contests[..i + 1][..i] == contests[..i];
  }

  function ContestsFor(manifest: InternalManifest, ballotStyleId: string): Result<seq<ContestWithPlaceholders>> {
    var style := FindStyle(manifest.ballotStyles, ballotStyleId);
    if style.Err? || style.value.geopoliticalUnitIds == [] then Err("Could not resolve a valid geopolitical unit")
    else Ok(Sort(ContestOrder, Matching(manifest.contests, style.value.geopoliticalUnitIds)))
  }

  /** The nested loops: contests of the manifest outside, districts of the style inside. */
  method CollectMatching(contests: seq<ContestWithPlaceholders>, units: seq<string>)
      returns (r: seq<ContestWithPlaceholders>)
    ensures r == Matching(contests, units)
  {
    hide Matching, Occurrences;
    r := [];
    MatchingStart(contests, units);
    for i := 0 to |contests|
      invariant r == Matching(contests[..i], units)
    {
      var contest := contests[i];
      ghost var before := r;
      OccurrencesStart(contest, units);
      for j := 0 to |units|
        invariant r == before + Occurrences(contest, units[..j])
      {
        OccurrencesStep(contest, units, j);
        if contest.description.electoralDistrictId == units[j] {
          r := r + [contest];
        }
      }
      assert units[..|units|] == units;
      MatchingStep(contests, units, i);
    }
    assert contests[..|contests|] == contests;
  }

  method GetContestsFor(manifest: InternalManifest, ballotStyleId: string)
      returns (r: Result<seq<ContestWithPlaceholders>>)
    ensures r == ContestsFor(manifest, ballotStyleId)
  {
    var style := GetBallotStyle(manifest, ballotStyleId);
    if style.Err? || style.value.geopoliticalUnitIds == [] {
      return Err("Could not resolve a valid geopolitical unit");
    }
    var contests := CollectMatching(manifest.contests, style.value.geopoliticalUnitIds);
    return Ok(Sort(ContestOrder, contests));
  }

  predicate DistinctUnits(units: seq<string>) {
    forall i, j :: 0 <= i < j < |units| ==> units[i] != units[j]
  }

  lemma {:induction false} OccursOnce(contest: ContestWithPlaceholders, units: seq<string>)
    requires DistinctUnits(units)
    ensures Occurrences(contest, units) == if contest.description.electoralDistrictId in units then [contest] else []
  {
    if units == [] {
    } else {
      OccursOnce(contest, units[..|units| - 1]);
    }
  }

  lemma {:induction false} MatchingMembers(contests: seq<ContestWithPlaceholders>, units: seq<string>,
                                           c: ContestWithPlaceholders)
    requires DistinctUnits(units)
    ensures c in Matching(contests, units) <==> c in contests && c.description.electoralDistrictId in units
  {
    if contests == [] {
    } else {
      var n := |contests| - 1;
      MatchingMembers(contests[..n], units, c);
      OccursOnce(contests[n], units);
      assert contests == contests[..n] + [contests[n]];
    }
  }

  lemma {:induction false} MatchingFrom(contests: seq<ContestWithPlaceholders>, units: seq<string>,
                                        c: ContestWithPlaceholders)
    ensures c in Matching(contests, units) ==> c in contests
  {
    if contests == [] {
    } else {
      var n := |contests| - 1;
      MatchingFrom(contests[..n], units, c);
      OccurrencesAre(contests[n], units);
      assert contests == contests[..n] + [contests[n]];
    }
  }

  lemma {:induction false} OccurrencesAre(contest: ContestWithPlaceholders, units: seq<string>)
    ensures forall c :: c in Occurrences(contest, units) ==> c == contest
  {
    if units == [] {
    } else {
      OccurrencesAre(contest, units[..|units| - 1]);
    }
  }

  /** Each contest of the style only once. */
  lemma {:induction false} MatchingDistinct(contests: seq<ContestWithPlaceholders>, units: seq<string>)
    requires DistinctUnits(units) && DistinctKeys(ContestOrder, contests)
    ensures DistinctKeys(ContestOrder, Matching(contests, units))
  {
    if contests == [] {
    } else {
      var n := |contests| - 1;
      MatchingDistinct(contests[..n], units);
      OccursOnce(contests[n], units);
      var front := Matching(contests[..n], units);
      forall i | 0 <= i < |front| ensures ContestOrder(front[i]) != ContestOrder(contests[n]) {
        MatchingMembers(contests[..n], units, front[i]);
        assert front[i] in contests[..n];
      }
    }
  }

  lemma {:induction false} OccurrenceCount(contest: ContestWithPlaceholders, units: seq<string>,
                                           c: ContestWithPlaceholders)
    ensures multiset(Occurrences(contest, units))[c]
            == if c == contest then multiset(units)[c.description.electoralDistrictId] else 0
  {
    if units == [] {
    } else {
      var n := |units| - 1;
      OccurrenceCount(contest, units[..n], c);
      assert units == units[..n] + [units[n]];
    }
  }

  lemma TimesNext(x: nat, y: nat)
    ensures (x + 1) * y == x * y + y
  {
  }

  lemma {:induction false} MatchingCount(contests: seq<ContestWithPlaceholders>, units: seq<string>,
                                         c: ContestWithPlaceholders)
    ensures multiset(Matching(contests, units))[c]
            == multiset(contests)[c] * multiset(units)[c.description.electoralDistrictId]
  {
    hide Occurrences, Matching;
    if contests == [] {
      MatchingStart(contests, units);
    } else {
      var n := |contests| - 1;
      var before, times := multiset(contests[..n])[c], multiset(units)[c.description.electoralDistrictId];
      MatchingCount(contests[..n], units, c);
      OccurrenceCount(contests[n], units, c);
      MatchingStep(contests, units, n);
      assert contests == contests[..n] + [contests[n]] && contests[..n + 1] == contests;
      assert multiset(contests)[c] == before + if c == contests[n] then 1 else 0;
      TimesNext(before, times);
    }
  }

  /**
   * getContestsFor fails exactly when no style has the identifier or the first one that has it names no district.
   * Otherwise it returns every contest as often as the style names its district, in sequence order.
   */
  lemma ContestsForCounts(manifest: InternalManifest, ballotStyleId: string)
    ensures ContestsFor(manifest, ballotStyleId).Err? <==>
            forall i: nat :: IsStyle(manifest.ballotStyles, i, ballotStyleId) ==>
              manifest.ballotStyles[i].geopoliticalUnitIds == []
    ensures ContestsFor(manifest, ballotStyleId).Ok? ==>
            forall i: nat, c :: IsStyle(manifest.ballotStyles, i, ballotStyleId) ==>
              multiset(ContestsFor(manifest, ballotStyleId).value)[c]
              == multiset(manifest.contests)[c]
                 * multiset(manifest.ballotStyles[i].geopoliticalUnitIds)[c.description.electoralDistrictId]
    ensures ContestsFor(manifest, ballotStyleId).Ok? ==>
              Sorted(ContestOrder, ContestsFor(manifest, ballotStyleId).value)
  {
    hide Matching, Sort, FindStyle, IsStyle;
    StyleFound(manifest.ballotStyles, ballotStyleId);
    if ContestsFor(manifest, ballotStyleId).Ok? {
      var units := FindStyle(manifest.ballotStyles, ballotStyleId).value.geopoliticalUnitIds;
      SortSorts(ContestOrder, Matching(manifest.contests, units));
      forall c
        ensures multiset(ContestsFor(manifest, ballotStyleId).value)[c]
                == multiset(manifest.contests)[c] * multiset(units)[c.description.electoralDistrictId]
      {
        MatchingCount(manifest.contests, units, c);
      }
    }
  }

  /**
   * With distinct contest orders and no district named twice by the style, getContestsFor returns exactly the
   * contests of the style's districts, each once, strictly increasing in sequence order.
   */
  lemma ContestsForStyle(manifest: InternalManifest, ballotStyleId: string, s: nat)
    requires DistinctKeys(ContestOrder, manifest.contests) && IsStyle(manifest.ballotStyles, s, ballotStyleId)
    requires manifest.ballotStyles[s].geopoliticalUnitIds != []
    requires DistinctUnits(manifest.ballotStyles[s].geopoliticalUnitIds)
    ensures var r := ContestsFor(manifest, ballotStyleId);
            && r.Ok?
            && Sorted(ContestOrder, r.value) && DistinctKeys(ContestOrder, r.value)
            && (forall c :: c in r.value <==>
                  && c in manifest.contests
                  && c.description.electoralDistrictId in manifest.ballotStyles[s].geopoliticalUnitIds)
  {
    StyleFound(manifest.ballotStyles, ballotStyleId);
    var units := manifest.ballotStyles[s].geopoliticalUnitIds;
    var matching := Matching(manifest.contests, units);
    MatchingDistinct(manifest.contests, units);
    SortSorts(ContestOrder, matching);
    var sorted := Sort(ContestOrder, matching);
    DistinctPermuted(ContestOrder, matching, sorted);
    forall c
      ensures c in sorted <==> c in manifest.contests && c.description.electoralDistrictId in units
    {
      MatchingMembers(manifest.contests, units, c);
      assert c in sorted <==> c in multiset(sorted);
      assert c in matching <==> c in multiset(matching);
    }
  }

  /** Distinctness does not depend on the order. */
  lemma DistinctPermuted<T(!new)>(key: T -> int, xs: seq<T>, ys: seq<T>)
    requires multiset(xs) == multiset(ys) && DistinctKeys(key, xs)
    ensures DistinctKeys(key, ys)
  {
    forall i, j | 0 <= i < j < |ys| ensures key(ys[i]) != key(ys[j]) {
      if key(ys[i]) == key(ys[j]) {
        TwiceInMultiset(ys, i, j);
        var a :| 0 <= a < |xs| && xs[a] == ys[i] by {
          assert ys[i] in multiset(xs);
        }
        var b :| 0 <= b < |xs| && xs[b] == ys[j] by {
          assert ys[j] in multiset(xs);
        }
        assert a == b;
        Once(xs, a);
      }
    }
  }

  lemma ContestIdsPermuted(xs: seq<ContestDescription>, ys: seq<ContestDescription>)
    requires multiset(xs) == multiset(ys) && Distinct(ContestIds(xs))
    ensures Distinct(ContestIds(ys))
  {
    forall i, j | 0 <= i < j < |ys| ensures ys[i].objectId != ys[j].objectId {
      if ys[i].objectId == ys[j].objectId {
        TwiceInMultiset(ys, i, j);
        var a :| 0 <= a < |xs| && xs[a] == ys[i] by {
          assert ys[i] in multiset(xs);
        }
        var b :| 0 <= b < |xs| && xs[b] == ys[j] by {
          assert ys[j] in multiset(xs);
        }
        assert ContestIds(xs)[a] == ContestIds(xs)[b];
        forall l | 0 <= l < |xs| && l != a ensures xs[l] != xs[a] {
          assert ContestIds(xs)[l] != ContestIds(xs)[a];
        }
        Once(xs, a);
      }
    }
  }

  lemma IdsPermuted(xs: seq<SelectionDescription>, ys: seq<SelectionDescription>)
    requires multiset(xs) == multiset(ys) && Distinct(SelectionIds(xs))
    ensures Distinct(SelectionIds(ys))
  {
    forall i, j | 0 <= i < j < |ys| ensures ys[i].objectId != ys[j].objectId {
      if ys[i].objectId == ys[j].objectId {
        TwiceInMultiset(ys, i, j);
        var a :| 0 <= a < |xs| && xs[a] == ys[i] by {
          assert ys[i] in multiset(xs);
        }
        var b :| 0 <= b < |xs| && xs[b] == ys[j] by {
          assert ys[j] in multiset(xs);
        }
        assert SelectionIds(xs)[a] == SelectionIds(xs)[b];
        assert a == b;
        forall l | 0 <= l < |xs| && l != a ensures xs[l] != xs[a] {
          assert SelectionIds(xs)[l] != SelectionIds(xs)[a];
        }
        Once(xs, a);
      }
    }
  }

  lemma Once<T>(xs: seq<T>, a: nat)
    requires a < |xs| && forall l :: 0 <= l < |xs| && l != a ==> xs[l] != xs[a]
    ensures multiset(xs)[xs[a]] == 1
  {
    assert xs == xs[..a] + [xs[a]] + xs[a + 1..];
    assert xs[a] !in xs[..a] && xs[a] !in xs[a + 1..];
  }

  lemma TwiceInMultiset<T>(ys: seq<T>, i: nat, j: nat)
    requires i < j < |ys|
    ensures ys[i] == ys[j] ==> multiset(ys)[ys[i]] >= 2
  {
    assert ys == ys[..i] + [ys[i]] + ys[i + 1..j] + [ys[j]] + ys[j + 1..];
  }

  // ----------------------------------------------- what a description hash commits to

  /** Everything that is hashed for a selection, names and identifiers as printed. */
  predicate SameSelection(s: SelectionDescription, s': SelectionDescription) {
    && Printed(s.objectId) == Printed(s'.objectId) && s.sequenceOrder == s'.sequenceOrder
    && Printed(s.candidateId) == Printed(s'.candidateId)
  }

  /**
   * The hash of a selection description determines the description exactly as far as its text can be read: unless the
   * two texts collide, two descriptions with one hash agree if and only if their identifiers contain equally many
   * delimiters.
   */
  lemma SelectionHashBinds(sha: Sha, s: SelectionDescription, s': SelectionDescription)
    requires s.CryptoHash(sha) == s'.CryptoHash(sha)
    ensures || Collide(sha, RenderAll(sha, s.HashedItems()), RenderAll(sha, s'.HashedItems()))
            || (SameSelection(s, s') <==> Delimiters(Printed(s.objectId)) == Delimiters(Printed(s'.objectId)))
  {
    hide Digest, Delimited, Collide, Delimiters, Decimal, Clean;
    var xs, ys := RenderAll(sha, s.HashedItems()), RenderAll(sha, s'.HashedItems());
    EqualDigests(sha, xs, ys);
    if Delimited(xs) == Delimited(ys) {
      assert xs[0] == Printed(s.objectId) && ys[0] == Printed(s'.objectId);
      assert xs[1] == Render(sha, Number(s.sequenceOrder)) && ys[1] == Render(sha, Number(s'.sequenceOrder));
      assert xs[2] == Printed(s.candidateId) && ys[2] == Printed(s'.candidateId);
      NumericClean(sha, Number(s.sequenceOrder));
      NumericClean(sha, Number(s'.sequenceOrder));
      ThreeFieldsFixed(xs, ys);
      if xs == ys {
        NumericFixed(sha, Number(s.sequenceOrder), Number(s'.sequenceOrder));
      }
    }
  }

  /** Of three fields the middle one is clean, so the first decides. */
  lemma ThreeFieldsFixed(xs: seq<string>, ys: seq<string>)
    requires |xs| == |ys| == 3 && Clean(xs[1]) && Clean(ys[1]) && Delimited(xs) == Delimited(ys)
    ensures xs == ys <==> Delimiters(xs[0]) == Delimiters(ys[0])
  {
    hide Clean, Delimiters;
    CutByDelimiters(xs[0], ys[0], Delimited(xs[1..]), Delimited(ys[1..]));
    if Delimiters(xs[0]) == Delimiters(ys[0]) {
      CleanFrontFixesFields([xs[1]], xs[2], [ys[1]], ys[2]) by {
        assert [xs[1]] + [xs[2]] == xs[1..] && [ys[1]] + [ys[2]] == ys[1..];
      }
      assert xs == [xs[0], xs[1], xs[2]] && ys == [ys[0], ys[1], ys[2]];
    }
  }

  predicate SamePrintedTexts(c: ContestDescription, c': ContestDescription) {
    && Printed(c.objectId) == Printed(c'.objectId)
    && Printed(c.electoralDistrictId) == Printed(c'.electoralDistrictId)
    && Printed(c.voteVariation.Name()) == Printed(c'.voteVariation.Name())
    && Printed(c.name) == Printed(c'.name)
  }

  predicate SameTextDelimiters(c: ContestDescription, c': ContestDescription) {
    && Delimiters(Printed(c.objectId)) == Delimiters(Printed(c'.objectId))
    && Delimiters(Printed(c.electoralDistrictId)) == Delimiters(Printed(c'.electoralDistrictId))
    && Delimiters(Printed(c.voteVariation.Name())) == Delimiters(Printed(c'.voteVariation.Name()))
    && Delimiters(Printed(c.name)) == Delimiters(Printed(c'.name))
  }

  predicate SameContest(sha: Sha, c: ContestDescription, c': ContestDescription) {
    && SamePrintedTexts(c, c')
    && c.sequenceOrder == c'.sequenceOrder && c.titles == c'.titles
    && c.numberElected == c'.numberElected && c.votesAllowed == c'.votesAllowed
    && |c.selections| == |c'.selections|
    && forall i :: 0 <= i < |c.selections| ==> c.selections[i].CryptoHash(sha) == c'.selections[i].CryptoHash(sha)
  }

  /**
   * The same for contests: unless texts hashed for them collide, two descriptions with one hash agree in every hashed
   * field, selection hashes included, if and only if their four free texts contain equally many delimiters.
   */
  lemma ContestHashBinds(sha: Sha, c: ContestDescription, c': ContestDescription)
    requires c.CryptoHash(sha) == c'.CryptoHash(sha)
    ensures || Collide(sha, RenderAll(sha, c.HashedItems(sha)), RenderAll(sha, c'.HashedItems(sha)))
            || Collide(sha, RenderAll(sha, c.SelectionItems(sha)), RenderAll(sha, c'.SelectionItems(sha)))
            || (SameContest(sha, c, c') <==> SameTextDelimiters(c, c'))
  {
    hide HashElems, Render, Collide, Delimiters, SelectionDescription.CryptoHash;
    var items, items' := c.HashedItems(sha), c'.HashedItems(sha);
    HashFixesFields(sha, items, items');
    if SameTextDelimiters(c, c') {
      DescriptionDelimiters(sha, c, c');
      if RenderAll(sha, items) == RenderAll(sha, items') {
        DescriptionRead(sha, c, c');
      }
    }
  }

  lemma PrintedIs(sha: Sha, s: string)
    ensures Render(sha, Text(s)) == Printed(s)
  {
  }

  lemma DescriptionDelimiters(sha: Sha, c: ContestDescription, c': ContestDescription)
    requires SameTextDelimiters(c, c')
    ensures SameDelimiterCounts(RenderAll(sha, c.HashedItems(sha)), RenderAll(sha, c'.HashedItems(sha)))
  {
    hide Render, Delimiters, Printed, ContestDescription.SelectionItems, VoteVariation.Name, RenderAll;
    var items, items' := c.HashedItems(sha), c'.HashedItems(sha);
    assert items[0] == Text(c.objectId) && items'[0] == Text(c'.objectId);
    assert items[2] == Text(c.electoralDistrictId) && items'[2] == Text(c'.electoralDistrictId);
    assert items[3] == Text(c.voteVariation.Name()) && items'[3] == Text(c'.voteVariation.Name());
    assert items[6] == Text(c.name) && items'[6] == Text(c'.name);
    forall i | 0 <= i < 10
      ensures Delimiters(RenderAll(sha, items)[i]) == Delimiters(RenderAll(sha, items')[i])
    {
      assert i != 0 && i != 2 && i != 3 && i != 6 ==> !items[i].Text? && !items'[i].Text?;
      ItemDelimiters(sha, items[i]);
      ItemDelimiters(sha, items'[i]);
      assert RenderAll(sha, items)[i] == Render(sha, items[i]);
      assert RenderAll(sha, items')[i] == Render(sha, items'[i]);
    }
  }

  lemma ItemDelimiters(sha: Sha, item: Item)
    ensures item.Text? ==> Delimiters(Render(sha, item)) == Delimiters(Printed(item.s))
    ensures !item.Text? ==> Delimiters(Render(sha, item)) == 0
  {
    hide Delimiters;
    if item.Text? {
      PrintedIs(sha, item.s);
    } else if Numeric(item) {
      NumericClean(sha, item);
    } else {
      ListClean(sha, item);
    }
  }

  lemma DescriptionRead(sha: Sha, c: ContestDescription, c': ContestDescription)
    requires RenderAll(sha, c.HashedItems(sha)) == RenderAll(sha, c'.HashedItems(sha))
    ensures SameContest(sha, c, c')
            || Collide(sha, RenderAll(sha, c.SelectionItems(sha)), RenderAll(sha, c'.SelectionItems(sha)))
  {
    hide Render, Collide, Printed, SelectionDescription.CryptoHash;
    var items, items' := c.HashedItems(sha), c'.HashedItems(sha);
    forall i | 0 <= i < |items| ensures Render(sha, items[i]) == Render(sha, items'[i]) {
      assert RenderAll(sha, items)[i] == Render(sha, items[i]);
      assert RenderAll(sha, items')[i] == Render(sha, items'[i]);
    }
    TextRead(sha, items[0], items'[0]);
    TextRead(sha, items[2], items'[2]);
    TextRead(sha, items[3], items'[3]);
    TextRead(sha, items[6], items'[6]);
    assert SamePrintedTexts(c, c');
    NumericFixed(sha, items[1], items'[1]);
    TitleRead(sha, items[4], items'[4]);
    TitleRead(sha, items[5], items'[5]);
    NumericFixed(sha, items[7], items'[7]);
    NumericFixed(sha, items[8], items'[8]);
    assert c.titles == c'.titles;
    ManyBinds(sha, c.SelectionItems(sha), c'.SelectionItems(sha));
    assert items[9] == Many(c.SelectionItems(sha)) && items'[9] == Many(c'.SelectionItems(sha));
    if c.SelectionItems(sha) == c'.SelectionItems(sha) {
      assert |c.selections| == |c.SelectionItems(sha)| == |c'.selections|;
      forall i | 0 <= i < |c.selections| ensures c.selections[i].CryptoHash(sha) == c'.selections[i].CryptoHash(sha) {
        assert c.SelectionItems(sha)[i] == c'.SelectionItems(sha)[i];
      }
    }
  }

  lemma TextRead(sha: Sha, item: Item, item': Item)
    requires item.Text? && item'.Text? && Render(sha, item) == Render(sha, item')
    ensures Printed(item.s) == Printed(item'.s)
  {
  }

  lemma TitleRead(sha: Sha, item: Item, item': Item)
    requires (item.Null? || item.Element?) && (item'.Null? || item'.Element?)
    requires Render(sha, item) == Render(sha, item')
    ensures item == item'
  {
    hide ToHex;
    if item.Element? {
      HexIsNotNull(item.value);
    }
    if item'.Element? {
      HexIsNotNull(item'.value);
    }
    if item.Element? && item'.Element? {
      ToHexInjective(item.value, item'.value);
    }
  }
}
