/** get_president_tendance_annee and get_president_tendance_region_annee: the
    votes of the presidential ballots of one round, summed per (year, courant),
    and per (year, region name, courant). */
module Tendance {
  import opened Models
  import opened Relational
  import opened Joins

  /** A row of get_president_tendance_annee. */
  datatype TendanceRow = TendanceRow(annee: string, courant: string, resultat: int)

  /** A row of get_president_tendance_region_annee; `region` is the column 'Region'. */
  datatype TendanceRegionRow = TendanceRegionRow(annee: string, region: string, courant: string, resultat: int)

  /** The store holds the result `r`, of the candidate-party `cp`, in the
      presidential ballot `b` of the round. */
  predicate Voted(db: Store, b: UrneVote, r: ResultatCondidatParti, cp: CandidatParti, isFinal: bool)
  {
    b in db.urneVotes && r in db.resultats && cp in db.candidatPartis
    && r.urneVoteId == b.id && cp.id == r.candidatParti && Presidential(b, isFinal)
  }

  // Keys and columns.
  function FactKey(f: PartiFact): (string, string) { (f.ballot.annee, f.parti.courant) }
  function FactValue(f: PartiFact): int { f.resultat.value }
  function LocatedKey(p: Located<PartiFact>): (string, string, string)
  {
    (p.fact.ballot.annee, p.region.departmentName, p.fact.parti.courant)
  }
  function LocatedValue(p: Located<PartiFact>): int { p.fact.resultat.value }
  function RowKey(r: TendanceRow): (string, string) { (r.annee, r.courant) }
  function RowValue(r: TendanceRow): int { r.resultat }
  function RegionRowKey(r: TendanceRegionRow): (string, string, string) { (r.annee, r.region, r.courant) }
  function RegionRowValue(r: TendanceRegionRow): int { r.resultat }

  /** The (year, courant) part of a (year, region name, courant) key. */
  function DropRegion(k: (string, string, string)): (string, string) { (k.0, k.2) }

  /** `urne_vote JOIN resultat_candidat JOIN candidat_parti
      WHERE final_round = isFinal AND is_legis = 0`. */
  function TendanceFacts(db: Store, isFinal: bool): seq<PartiFact>
  {
    PartiJoin(ResultJoin(db.urneVotes, db.resultats, isFinal), db.candidatPartis)
  }

  /** The same rows joined with `region ON department_code = region_id`. */
  function TendanceRegionFacts(db: Store, isFinal: bool): seq<Located<PartiFact>>
  {
    RegionJoin(TendanceFacts(db, isFinal), PartiRegion, db.regions)
  }

  lemma FactOfVote(db: Store, b: UrneVote, r: ResultatCondidatParti, cp: CandidatParti, isFinal: bool)
    requires Voted(db, b, r, cp, isFinal)
    ensures PartiFact(b, r, cp) in TendanceFacts(db, isFinal)
  {
    assert BallotResult(b, r) in ResultJoin(db.urneVotes, db.resultats, isFinal);
  }

  lemma VoteOfFact(db: Store, isFinal: bool, f: PartiFact)
    requires f in TendanceFacts(db, isFinal)
    ensures Voted(db, f.ballot, f.resultat, f.parti, isFinal)
  {
    assert BallotResult(f.ballot, f.resultat) in ResultJoin(db.urneVotes, db.resultats, isFinal);
  }

  /** get_president_tendance_annee(isFinal): one row per (year, courant) that
      has a counted result, holding the sum of `value` over that group. */
  function Tendance(db: Store, isFinal: bool): (rows: seq<TendanceRow>)
    ensures forall i, j :: 0 <= i < j < |rows| ==> RowKey(rows[i]) != RowKey(rows[j])
    ensures forall b, r, cp :: Voted(db, b, r, cp, isFinal) ==>
      exists i :: 0 <= i < |rows| && RowKey(rows[i]) == (b.annee, cp.courant)
    ensures forall i :: 0 <= i < |rows| ==>
      exists b, r, cp :: Voted(db, b, r, cp, isFinal) && RowKey(rows[i]) == (b.annee, cp.courant)
    ensures forall i :: 0 <= i < |rows| ==>
      rows[i].resultat == SumAt(TendanceFacts(db, isFinal), FactKey, FactValue, RowKey(rows[i]))
  {
    var facts := TendanceFacts(db, isFinal);
    var ks := GroupKeys(facts, FactKey);
    var rows := seq(|ks|, i requires 0 <= i < |ks| => TendanceRow(ks[i].0, ks[i].1, SumAt(facts, FactKey, FactValue, ks[i])));
    assert forall i :: 0 <= i < |rows| ==> rows[i] == TendanceRow(ks[i].0, ks[i].1, SumAt(facts, FactKey, FactValue, ks[i]));
    TendanceCoverage(db, isFinal, ks, rows);
    rows
  }

  lemma TendanceCoverage(db: Store, isFinal: bool, ks: seq<(string, string)>, rows: seq<TendanceRow>)
    requires ks == GroupKeys(TendanceFacts(db, isFinal), FactKey)
    requires |rows| == |ks| && forall i :: 0 <= i < |ks| ==> RowKey(rows[i]) == ks[i]
    ensures forall i, j :: 0 <= i < j < |rows| ==> RowKey(rows[i]) != RowKey(rows[j])
    ensures forall b, r, cp :: Voted(db, b, r, cp, isFinal) ==>
      exists i :: 0 <= i < |rows| && RowKey(rows[i]) == (b.annee, cp.courant)
    ensures forall i :: 0 <= i < |rows| ==>
      exists b, r, cp :: Voted(db, b, r, cp, isFinal) && RowKey(rows[i]) == (b.annee, cp.courant)
  {
    var facts := TendanceFacts(db, isFinal);
    KeysCover(facts, FactKey);
    forall b, r, cp | Voted(db, b, r, cp, isFinal)
      ensures exists i :: 0 <= i < |rows| && RowKey(rows[i]) == (b.annee, cp.courant)
    {
      FactOfVote(db, b, r, cp, isFinal);
      var j :| 0 <= j < |facts| && facts[j] == PartiFact(b, r, cp);
      assert FactKey(facts[j]) in ks;
      var i :| 0 <= i < |ks| && ks[i] == FactKey(facts[j]);
      assert RowKey(rows[i]) == (b.annee, cp.courant);
    }
    forall i | 0 <= i < |rows|
      ensures exists b, r, cp :: Voted(db, b, r, cp, isFinal) && RowKey(rows[i]) == (b.annee, cp.courant)
    {
      assert ks[i] in ks;
      var j := KeyWitness(facts, FactKey, ks[i]);
      assert facts[j] in facts;
      VoteOfFact(db, isFinal, facts[j]);
    }
  }

  /** get_president_tendance_region_annee(isFinal): one row per (year, region
      name, courant) of the counted results joined with their regions, holding
      the sum of `value` over that group. */
  function TendanceRegion(db: Store, isFinal: bool): (rows: seq<TendanceRegionRow>)
    ensures forall i, j :: 0 <= i < j < |rows| ==> RegionRowKey(rows[i]) != RegionRowKey(rows[j])
    ensures forall k :: k in Keys(rows, RegionRowKey) <==> k in Keys(TendanceRegionFacts(db, isFinal), LocatedKey)
    ensures forall i :: 0 <= i < |rows| ==>
      rows[i].resultat == SumAt(TendanceRegionFacts(db, isFinal), LocatedKey, LocatedValue, RegionRowKey(rows[i]))
  {
    var facts := TendanceRegionFacts(db, isFinal);
    var ks := GroupKeys(facts, LocatedKey);
    var rows := seq(|ks|, i requires 0 <= i < |ks| =>
      TendanceRegionRow(ks[i].0, ks[i].1, ks[i].2, SumAt(facts, LocatedKey, LocatedValue, ks[i])));
    assert forall i :: 0 <= i < |ks| ==> RegionRowKey(rows[i]) == ks[i];
    assert Keys(rows, RegionRowKey) == ks;
    rows
  }

  /** Every regional row comes from a counted result whose ballot's department
      code a region of that name carries. */
  lemma TendanceRegionRowHasSource(db: Store, isFinal: bool, i: nat)
    requires i < |TendanceRegion(db, isFinal)|
    ensures exists b, r, cp, g ::
              Voted(db, b, r, cp, isFinal) && g in db.regions && g.departmentCode == b.regionId
              && RegionRowKey(TendanceRegion(db, isFinal)[i]) == (b.annee, g.departmentName, cp.courant)
  {
    var rows, facts := TendanceRegion(db, isFinal), TendanceRegionFacts(db, isFinal);
    KeysCover(rows, RegionRowKey);
    var j := KeyWitness(facts, LocatedKey, RegionRowKey(rows[i]));
    var p := facts[j];
    assert p in facts;
    VoteOfFact(db, isFinal, p.fact);
  }

  /** Every counted result whose ballot's department code a region carries
      shows up in the regional row of its year, region name and courant. */
  lemma TendanceRegionSourceHasRow(db: Store, isFinal: bool, b: UrneVote, r: ResultatCondidatParti, cp: CandidatParti, g: Region)
    requires Voted(db, b, r, cp, isFinal) && g in db.regions && g.departmentCode == b.regionId
    ensures exists i :: 0 <= i < |TendanceRegion(db, isFinal)|
                        && RegionRowKey(TendanceRegion(db, isFinal)[i]) == (b.annee, g.departmentName, cp.courant)
  {
    var rows, facts := TendanceRegion(db, isFinal), TendanceRegionFacts(db, isFinal);
    FactOfVote(db, b, r, cp, isFinal);
    assert Located(PartiFact(b, r, cp), g) in facts;
    var j :| 0 <= j < |facts| && facts[j] == Located(PartiFact(b, r, cp), g);
    KeysCover(facts, LocatedKey);
    assert LocatedKey(facts[j]) in Keys(rows, RegionRowKey);
    var i := KeyWitness(rows, RegionRowKey, LocatedKey(facts[j]));
  }

  // ---------------------------------------------------------------------------
  // Properties relating the two queries.

  /** The regional rows of (year, courant) `k`, summed over region names. */
  function RegionsTotal(rows: seq<TendanceRegionRow>, k: (string, string)): int
  {
    SumSel(rows, RegionRowKey, DropRegion, k, RegionRowValue)
  }

  /** Grouping loses nothing: the national rows add up to every counted vote. */
  lemma {:induction false} TendanceGrandTotal(db: Store, isFinal: bool)
    ensures Total(Tendance(db, isFinal), RowValue) == Total(TendanceFacts(db, isFinal), FactValue)
  {
    var rows, facts := Tendance(db, isFinal), TendanceFacts(db, isFinal);
    forall k | k in Keys(facts, FactKey) ensures k in Keys(rows, RowKey) {
      var j := KeyWitness(facts, FactKey, k);
      assert facts[j] in facts;
      VoteOfFact(db, isFinal, facts[j]);
      var i :| 0 <= i < |rows| && RowKey(rows[i]) == (facts[j].ballot.annee, facts[j].parti.courant);
      KeysCover(rows, RowKey);
    }
    GroupedSum(rows, RowKey, RowValue, facts, FactKey, FactValue, Everything, true);
    SumSelEverything(rows, RowKey, RowValue);
    SumSelEverything(facts, FactKey, FactValue);
  }

  /** When every counted ballot matches exactly one region, the regional rows
      of a (year, courant), summed over region names, equal its national row. */
  lemma {:induction false} TendanceRegionRollsUp(db: Store, isFinal: bool, i: nat)
    requires OneRegionEach(db, isFinal)
    requires i < |Tendance(db, isFinal)|
    ensures RegionsTotal(TendanceRegion(db, isFinal), RowKey(Tendance(db, isFinal)[i])) == Tendance(db, isFinal)[i].resultat
  {
    var rows, facts, national := TendanceRegion(db, isFinal), TendanceRegionFacts(db, isFinal), TendanceFacts(db, isFinal);
    var k := RowKey(Tendance(db, isFinal)[i]);
    GroupedSum(rows, RegionRowKey, RegionRowValue, facts, LocatedKey, LocatedValue, DropRegion, k);
    forall j | 0 <= j < |national| ensures CodeCount(db.regions, PartiRegion(national[j])) == 1 {
      assert national[j] in national;
      VoteOfFact(db, isFinal, national[j]);
    }
    RegionJoinSum(national, PartiRegion, db.regions, LocatedKey, DropRegion, LocatedValue, FactKey, Id, FactValue, k);
    SumSelId(national, FactKey, FactValue, k);
  }

  /** The inner join with `region` only ever drops rows: every (year, courant)
      of the regional query is a key of the national query. */
  lemma TendanceRegionKeysAreNational(db: Store, isFinal: bool, i: nat)
    requires i < |TendanceRegion(db, isFinal)|
    ensures exists j :: 0 <= j < |Tendance(db, isFinal)|
                        && RowKey(Tendance(db, isFinal)[j]) == DropRegion(RegionRowKey(TendanceRegion(db, isFinal)[i]))
  {
    TendanceRegionRowHasSource(db, isFinal, i);
    var b, r, cp, g :| Voted(db, b, r, cp, isFinal) && g in db.regions && g.departmentCode == b.regionId
                       && RegionRowKey(TendanceRegion(db, isFinal)[i]) == (b.annee, g.departmentName, cp.courant);
    var national := Tendance(db, isFinal);
    var k :| 0 <= k < |national| && RowKey(national[k]) == (b.annee, cp.courant);
  }
}
