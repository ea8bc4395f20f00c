/** get_president_national_annee and get_president_regional_annee: the four
    participation counters of the presidential ballots of one round, summed
    per year, and per year and region name. */
module Participation {
  import opened Models
  import opened Relational
  import opened Joins
  import Departements

  /** The four summed counters of a result row: 'total des inscripts',
      'total des Éxprimés', 'total des Blancs et nuls', 'total des Votants'. */
  datatype Totals = Totals(inscripts: int, exprimes: int, nullparts: int, votants: int)

  /** A row of get_president_national_annee. */
  datatype NationalRow = NationalRow(annee: string, totals: Totals)

  /** A row of get_president_regional_annee; `region` is the column 'Region'. */
  datatype RegionalRow = RegionalRow(annee: string, region: string, totals: Totals)

  /** The store holds the meta row `m` of the presidential ballot `b` of the round. */
  predicate Counted(db: Store, b: UrneVote, m: ResultatMetaInfo, isFinal: bool)
  {
    b in db.urneVotes && m in db.metaInfos && m.urneVoteId == b.id && Presidential(b, isFinal)
  }

  // Keys and columns of the joined rows.
  function FactYear(f: MetaFact): string { f.ballot.annee }
  function FactInscripts(f: MetaFact): int { f.meta.inscripts }
  function FactExprimes(f: MetaFact): int { f.meta.exprimes }
  function FactNullparts(f: MetaFact): int { f.meta.nullparts }
  function FactVotants(f: MetaFact): int { f.meta.votants }

  function LocatedKey(p: Located<MetaFact>): (string, string) { (p.fact.ballot.annee, p.region.departmentName) }
  function LocatedInscripts(p: Located<MetaFact>): int { p.fact.meta.inscripts }
  function LocatedExprimes(p: Located<MetaFact>): int { p.fact.meta.exprimes }
  function LocatedNullparts(p: Located<MetaFact>): int { p.fact.meta.nullparts }
  function LocatedVotants(p: Located<MetaFact>): int { p.fact.meta.votants }

  // Keys and columns of the result rows.
  function NationalYear(r: NationalRow): string { r.annee }
  function NationalInscripts(r: NationalRow): int { r.totals.inscripts }
  function NationalExprimes(r: NationalRow): int { r.totals.exprimes }
  function NationalNullparts(r: NationalRow): int { r.totals.nullparts }
  function NationalVotants(r: NationalRow): int { r.totals.votants }

  function RegionalKey(r: RegionalRow): (string, string) { (r.annee, r.region) }
  function RegionalInscripts(r: RegionalRow): int { r.totals.inscripts }
  function RegionalExprimes(r: RegionalRow): int { r.totals.exprimes }
  function RegionalNullparts(r: RegionalRow): int { r.totals.nullparts }
  function RegionalVotants(r: RegionalRow): int { r.totals.votants }

  /** The year part of a (year, region name) key. */
  function KeyYear(k: (string, string)): string { k.0 }

  /** The four sums of the group of year `y`. */
  function FactSums(facts: seq<MetaFact>, y: string): Totals
  {
    Totals(SumAt(facts, FactYear, FactInscripts, y), SumAt(facts, FactYear, FactExprimes, y),
           SumAt(facts, FactYear, FactNullparts, y), SumAt(facts, FactYear, FactVotants, y))
  }

  /** The four sums of the group of (year, region name) `k`. */
  function LocatedSums(facts: seq<Located<MetaFact>>, k: (string, string)): Totals
  {
    Totals(SumAt(facts, LocatedKey, LocatedInscripts, k), SumAt(facts, LocatedKey, LocatedExprimes, k),
           SumAt(facts, LocatedKey, LocatedNullparts, k), SumAt(facts, LocatedKey, LocatedVotants, k))
  }

  /** `urne_vote JOIN resultat_metainfo WHERE is_legis = 0 AND final_round = isFinal`. */
  function NationalFacts(db: Store, isFinal: bool): seq<MetaFact>
  {
    MetaJoin(db.urneVotes, db.metaInfos, isFinal)
  }

  /** The same rows joined with `region ON department_code = region_id`. */
  function RegionalFacts(db: Store, isFinal: bool): seq<Located<MetaFact>>
  {
    RegionJoin(NationalFacts(db, isFinal), MetaRegion, db.regions)
  }

  /** get_president_national_annee(isFinal): one row per year that has a
      counted meta row, holding that year's four sums. */
  function NationalParticipation(db: Store, isFinal: bool): (rows: seq<NationalRow>)
    ensures forall i, j :: 0 <= i < j < |rows| ==> rows[i].annee != rows[j].annee
    ensures forall b, m :: Counted(db, b, m, isFinal) ==>
      exists i :: 0 <= i < |rows| && rows[i].annee == b.annee
    ensures forall i :: 0 <= i < |rows| ==>
      exists b, m :: Counted(db, b, m, isFinal) && b.annee == rows[i].annee
    ensures forall i :: 0 <= i < |rows| ==> rows[i].totals == FactSums(NationalFacts(db, isFinal), rows[i].annee)
  {
    var facts := NationalFacts(db, isFinal);
    var ys := GroupKeys(facts, FactYear);
    var rows := seq(|ys|, i requires 0 <= i < |ys| => NationalRow(ys[i], FactSums(facts, ys[i])));
    assert forall i :: 0 <= i < |rows| ==> rows[i] == NationalRow(ys[i], FactSums(facts, ys[i]));
    NationalCoverage(db, isFinal, ys, rows);
    rows
  }

  lemma NationalCoverage(db: Store, isFinal: bool, ys: seq<string>, rows: seq<NationalRow>)
    requires ys == GroupKeys(NationalFacts(db, isFinal), FactYear)
    requires |rows| == |ys| && forall i :: 0 <= i < |ys| ==> rows[i].annee == ys[i]
    ensures forall i, j :: 0 <= i < j < |rows| ==> rows[i].annee != rows[j].annee
    ensures forall b, m :: Counted(db, b, m, isFinal) ==> exists i :: 0 <= i < |rows| && rows[i].annee == b.annee
    ensures forall i :: 0 <= i < |rows| ==> exists b, m :: Counted(db, b, m, isFinal) && b.annee == rows[i].annee
  {
    var facts := NationalFacts(db, isFinal);
    KeysCover(facts, FactYear);
    forall b, m | Counted(db, b, m, isFinal) ensures exists i :: 0 <= i < |rows| && rows[i].annee == b.annee {
      assert MetaFact(b, m) in facts;
      var j :| 0 <= j < |facts| && facts[j] == MetaFact(b, m);
      assert FactYear(facts[j]) in ys;
      var i :| 0 <= i < |ys| && ys[i] == b.annee;
      assert rows[i].annee == b.annee;
    }
    forall i | 0 <= i < |rows| ensures exists b, m :: Counted(db, b, m, isFinal) && b.annee == rows[i].annee {
      assert ys[i] in ys;
      var j := KeyWitness(facts, FactYear, ys[i]);
      assert facts[j] in facts;
      assert Counted(db, facts[j].ballot, facts[j].meta, isFinal);
    }
  }

  /** get_president_regional_annee(isFinal): one row per (year, region name)
      of the counted meta rows joined with their regions, holding that group's
      four sums. */
  function RegionalParticipation(db: Store, isFinal: bool): (rows: seq<RegionalRow>)
    ensures forall i, j :: 0 <= i < j < |rows| ==> RegionalKey(rows[i]) != RegionalKey(rows[j])
    ensures forall k :: k in Keys(rows, RegionalKey) <==> k in Keys(RegionalFacts(db, isFinal), LocatedKey)
    ensures forall i :: 0 <= i < |rows| ==>
      rows[i].totals == LocatedSums(RegionalFacts(db, isFinal), RegionalKey(rows[i]))
  {
    var facts := RegionalFacts(db, isFinal);
    var ks := GroupKeys(facts, LocatedKey);
    var rows := seq(|ks|, i requires 0 <= i < |ks| => RegionalRow(ks[i].0, ks[i].1, LocatedSums(facts, ks[i])));
    assert forall i :: 0 <= i < |ks| ==> RegionalKey(rows[i]) == ks[i];
    assert Keys(rows, RegionalKey) == ks;
    rows
  }

  /** Every regional row comes from a counted meta row whose ballot's
      department code a region of that name carries. */
  lemma RegionalRowHasSource(db: Store, isFinal: bool, i: nat)
    requires i < |RegionalParticipation(db, isFinal)|
    ensures exists b, m, g :: Counted(db, b, m, isFinal) && g in db.regions && g.departmentCode == b.regionId
                              && RegionalKey(RegionalParticipation(db, isFinal)[i]) == (b.annee, g.departmentName)
  {
    var rows, facts := RegionalParticipation(db, isFinal), RegionalFacts(db, isFinal);
    KeysCover(rows, RegionalKey);
    var j := KeyWitness(facts, LocatedKey, RegionalKey(rows[i]));
    var p := facts[j];
    assert p in facts;
    assert p.fact in NationalFacts(db, isFinal);
    assert Counted(db, p.fact.ballot, p.fact.meta, isFinal);
  }

  /** Every counted meta row whose ballot's department code a region carries
      shows up in the regional row of its year and that region's name. */
  lemma RegionalSourceHasRow(db: Store, isFinal: bool, b: UrneVote, m: ResultatMetaInfo, g: Region)
    requires Counted(db, b, m, isFinal) && g in db.regions && g.departmentCode == b.regionId
    ensures exists i :: 0 <= i < |RegionalParticipation(db, isFinal)|
                        && RegionalKey(RegionalParticipation(db, isFinal)[i]) == (b.annee, g.departmentName)
  {
    var rows, facts := RegionalParticipation(db, isFinal), RegionalFacts(db, isFinal);
    var p := Located(MetaFact(b, m), g);
    assert MetaFact(b, m) in NationalFacts(db, isFinal);
    assert p in facts;
    var j :| 0 <= j < |facts| && facts[j] == p;
    KeysCover(facts, LocatedKey);
    assert LocatedKey(facts[j]) in Keys(rows, RegionalKey);
    var i := KeyWitness(rows, RegionalKey, LocatedKey(p));
  }

  // ---------------------------------------------------------------------------
  // Properties relating the two queries.

  /** The regional rows of year `y`, summed over region names. */
  function YearTotals(rows: seq<RegionalRow>, y: string): Totals
  {
    Totals(SumSel(rows, RegionalKey, KeyYear, y, RegionalInscripts), SumSel(rows, RegionalKey, KeyYear, y, RegionalExprimes),
           SumSel(rows, RegionalKey, KeyYear, y, RegionalNullparts), SumSel(rows, RegionalKey, KeyYear, y, RegionalVotants))
  }

  /** The four columns of the national query, each summed over all its rows. */
  function GrandTotals(rows: seq<NationalRow>): Totals
  {
    Totals(Total(rows, NationalInscripts), Total(rows, NationalExprimes),
           Total(rows, NationalNullparts), Total(rows, NationalVotants))
  }

  /** Grouping by year loses nothing: each column of the national query, summed
      over its rows, is that column summed over every counted meta row. */
  lemma {:induction false} NationalGrandTotals(db: Store, isFinal: bool)
    ensures GrandTotals(NationalParticipation(db, isFinal))
         == Totals(Total(NationalFacts(db, isFinal), FactInscripts), Total(NationalFacts(db, isFinal), FactExprimes),
                   Total(NationalFacts(db, isFinal), FactNullparts), Total(NationalFacts(db, isFinal), FactVotants))
  {
    NationalColumnTotal(db, isFinal, NationalInscripts, FactInscripts);
    NationalColumnTotal(db, isFinal, NationalExprimes, FactExprimes);
    NationalColumnTotal(db, isFinal, NationalNullparts, FactNullparts);
    NationalColumnTotal(db, isFinal, NationalVotants, FactVotants);
  }

  lemma {:induction false} NationalColumnTotal(db: Store, isFinal: bool, rcol: NationalRow -> int, fcol: MetaFact -> int)
    requires forall i :: 0 <= i < |NationalParticipation(db, isFinal)| ==>
      rcol(NationalParticipation(db, isFinal)[i])
        == SumAt(NationalFacts(db, isFinal), FactYear, fcol, NationalParticipation(db, isFinal)[i].annee)
    ensures Total(NationalParticipation(db, isFinal), rcol) == Total(NationalFacts(db, isFinal), fcol)
  {
    var rows, facts := NationalParticipation(db, isFinal), NationalFacts(db, isFinal);
    forall k | k in Keys(facts, FactYear) ensures k in Keys(rows, NationalYear) {
      var j := KeyWitness(facts, FactYear, k);
      assert facts[j] in facts;
      assert Counted(db, facts[j].ballot, facts[j].meta, isFinal);
      var i :| 0 <= i < |rows| && rows[i].annee == facts[j].ballot.annee;
      KeysCover(rows, NationalYear);
      assert NationalYear(rows[i]) == k;
    }
    GroupedSum(rows, NationalYear, rcol, facts, FactYear, fcol, Everything, true);
    SumSelEverything(rows, NationalYear, rcol);
    SumSelEverything(facts, FactYear, fcol);
  }

  /** The inner join with `region` only ever drops rows: every year of the
      regional query is a year of the national query. */
  lemma RegionalYearsAreNational(db: Store, isFinal: bool, i: nat)
    requires i < |RegionalParticipation(db, isFinal)|
    ensures exists j :: 0 <= j < |NationalParticipation(db, isFinal)|
                        && NationalParticipation(db, isFinal)[j].annee == RegionalParticipation(db, isFinal)[i].annee
  {
    RegionalRowHasSource(db, isFinal, i);
    var b, m, g :| Counted(db, b, m, isFinal) && g in db.regions && g.departmentCode == b.regionId
                   && RegionalKey(RegionalParticipation(db, isFinal)[i]) == (b.annee, g.departmentName);
    var national := NationalParticipation(db, isFinal);
    var k :| 0 <= k < |national| && national[k].annee == b.annee;
  }

  /** When every counted ballot matches exactly one region, the regional rows
      of a year, summed over region names, equal that year's national row. */
  lemma {:induction false} RegionalRollsUpToNational(db: Store, isFinal: bool, i: nat)
    requires OneRegionEach(db, isFinal)
    requires i < |NationalParticipation(db, isFinal)|
    ensures YearTotals(RegionalParticipation(db, isFinal), NationalParticipation(db, isFinal)[i].annee)
         == NationalParticipation(db, isFinal)[i].totals
  {
    var y := NationalParticipation(db, isFinal)[i].annee;
    RegionalColumnRollsUp(db, isFinal, y, RegionalInscripts, LocatedInscripts, FactInscripts);
    RegionalColumnRollsUp(db, isFinal, y, RegionalExprimes, LocatedExprimes, FactExprimes);
    RegionalColumnRollsUp(db, isFinal, y, RegionalNullparts, LocatedNullparts, FactNullparts);
    RegionalColumnRollsUp(db, isFinal, y, RegionalVotants, LocatedVotants, FactVotants);
  }

  lemma {:induction false} RegionalColumnRollsUp(
    db: Store, isFinal: bool, y: string,
    rcol: RegionalRow -> int, lcol: Located<MetaFact> -> int, fcol: MetaFact -> int)
    requires OneRegionEach(db, isFinal)
    requires forall i :: 0 <= i < |RegionalParticipation(db, isFinal)| ==>
      rcol(RegionalParticipation(db, isFinal)[i])
        == SumAt(RegionalFacts(db, isFinal), LocatedKey, lcol, RegionalKey(RegionalParticipation(db, isFinal)[i]))
    requires forall f, g :: lcol(Located(f, g)) == fcol(f)
    ensures SumSel(RegionalParticipation(db, isFinal), RegionalKey, KeyYear, y, rcol)
         == SumAt(NationalFacts(db, isFinal), FactYear, fcol, y)
  {
    var rows, facts, national := RegionalParticipation(db, isFinal), RegionalFacts(db, isFinal), NationalFacts(db, isFinal);
    GroupedSum(rows, RegionalKey, rcol, facts, LocatedKey, lcol, KeyYear, y);
    forall j | 0 <= j < |national| ensures CodeCount(db.regions, MetaRegion(national[j])) == 1 {
      assert national[j] in national;
    }
    RegionJoinSum(national, MetaRegion, db.regions, LocatedKey, KeyYear, lcol, FactYear, Id, fcol, y);
    SumSelId(national, FactYear, fcol, y);
  }

  /** The region names of the regional query are names get_departements lists. */
  lemma RegionalNamesAreDepartements(db: Store, isFinal: bool, i: nat)
    requires i < |RegionalParticipation(db, isFinal)|
    ensures RegionalParticipation(db, isFinal)[i].region in Departements.Departements(db)
  {
    RegionalRowHasSource(db, isFinal, i);
    var b, m, g :| Counted(db, b, m, isFinal) && g in db.regions && g.departmentCode == b.regionId
                   && RegionalKey(RegionalParticipation(db, isFinal)[i]) == (b.annee, g.departmentName);
    Departements.DepartementsListsEveryRegion(db, g);
  }
}
