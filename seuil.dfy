/** get_seuil_per_region: for every (region name, year) with presidential
    second-round results, the smallest first-round share among the
    candidate-parties of those second-round results. The share of a
    candidate-party is 100 times its first-round votes over all first-round
    votes of the same year and department code, rounded to two decimals. */
module Seuil {
  import opened Models
  import opened Relational
  import opened Joins

  // ---------------------------------------------------------------------------
  // ROUND(x, 2)

  /** SQLite's ROUND(x, 2): to the nearest hundredth, halves away from zero. */
  function Round2(x: real): (r: real)
    ensures (r * 100.0).Floor as real == r * 100.0
    ensures x >= 0.0 ==> x - 0.005 < r <= x + 0.005
    ensures x < 0.0 ==> x - 0.005 <= r < x + 0.005
  {
    if x >= 0.0 then
      var n := (x * 100.0 + 0.5).Floor;
      Hundredths(n);
      (n as real) / 100.0
    else
      var n := ((-x) * 100.0 + 0.5).Floor;
      Hundredths(-n);
      -((n as real) / 100.0)
  }

  /** `n / 100` is a whole number of hundredths. */
  lemma Hundredths(n: int)
    ensures ((n as real) / 100.0 * 100.0).Floor == n
  {
    assert (n as real) / 100.0 * 100.0 == n as real;
  }

  lemma FloorMonotone(a: real, b: real)
    requires a <= b
    ensures a.Floor <= b.Floor
  {
    assert (a.Floor as real) <= a < (b.Floor as real) + 1.0;
  }

  /** Rounding never reverses an order, so the minimum of rounded shares is the
      rounded minimum share. */
  lemma Round2Monotone(x: real, y: real)
    requires x <= y
    ensures Round2(x) <= Round2(y)
  {
    if 0.0 <= x {
      FloorMonotone(x * 100.0 + 0.5, y * 100.0 + 0.5);
    } else if y < 0.0 {
      FloorMonotone((-y) * 100.0 + 0.5, (-x) * 100.0 + 0.5);
    } else {
      assert ((-x) * 100.0 + 0.5).Floor >= 0;
      assert (y * 100.0 + 0.5).Floor >= 0;
    }
  }

  /** Rounding keeps a percentage a percentage. */
  lemma Round2Percent(x: real)
    requires 0.0 <= x <= 100.0
    ensures 0.0 <= Round2(x) <= 100.0
  {
    Round2Monotone(0.0, x);
    Round2Monotone(x, 100.0);
    assert (100.0 * 100.0 + 0.5).Floor == 10000;
    assert (0.0 * 100.0 + 0.5).Floor == 0;
  }

  // ---------------------------------------------------------------------------
  // The correlated sub-queries

  function ResultValue(f: BallotResult): int { f.resultat.value }
  function ResultParti(f: BallotResult): int { f.resultat.candidatParti }

  function FirstRoundIn(brs: seq<BallotResult>, annee: string, regionId: int): (rows: seq<BallotResult>)
    ensures forall f :: f in rows <==> f in brs && f.ballot.annee == annee && f.ballot.regionId == regionId
  {
    if brs == [] then []
    else (if brs[0].ballot.annee == annee && brs[0].ballot.regionId == regionId then [brs[0]] else [])
         + FirstRoundIn(brs[1..], annee, regionId)
  }

  /** The rows both sub-queries read: `resultat_candidat JOIN urne_vote` on the
      presidential first-round ballots of year `annee` and department code
      `regionId` (`LIKE` on a year without wildcards is equality). */
  function FirstRound(db: Store, annee: string, regionId: int): (rows: seq<BallotResult>)
    ensures forall f :: f in rows <==>
      f.ballot in db.urneVotes && f.resultat in db.resultats && f.resultat.urneVoteId == f.ballot.id
      && Presidential(f.ballot, false) && f.ballot.annee == annee && f.ballot.regionId == regionId
  {
    FirstRoundIn(ResultJoin(db.urneVotes, db.resultats, false), annee, regionId)
  }

  lemma {:induction false} FirstRoundInCount(brs: seq<BallotResult>, annee: string, regionId: int, f: BallotResult)
    ensures multiset(FirstRoundIn(brs, annee, regionId))[f]
         == if f.ballot.annee == annee && f.ballot.regionId == regionId then multiset(brs)[f] else 0
  {
    if brs != [] {
      assert brs == [brs[0]] + brs[1..];
      FirstRoundInCount(brs[1..], annee, regionId, f);
    }
  }

  /** The sub-queries read the result `r` of ballot `b` once for every copy of
      `b` times every copy of `r` in the store, when they match. */
  lemma FirstRoundCount(db: Store, annee: string, regionId: int, b: UrneVote, r: ResultatCondidatParti)
    ensures multiset(FirstRound(db, annee, regionId))[BallotResult(b, r)]
         == if r.urneVoteId == b.id && Presidential(b, false) && b.annee == annee && b.regionId == regionId
            then multiset(db.urneVotes)[b] * multiset(db.resultats)[r] else 0
  {
    FirstRoundInCount(ResultJoin(db.urneVotes, db.resultats, false), annee, regionId, BallotResult(b, r));
    ResultJoinCount(db.urneVotes, db.resultats, false, b, r);
  }

  /** The scalar sub-query over the first-round rows `rows` for candidate-party
      `cpId`: `ROUND(SUM(value of cpId) * 100.00 / SUM(value), 2)`. */
  function ShareOf(rows: seq<BallotResult>, cpId: int): (s: Option<real>)
    ensures s.None? <==>
      (forall j :: 0 <= j < |rows| ==> rows[j].resultat.candidatParti != cpId) || Total(rows, ResultValue) == 0
    ensures s.Some? ==>
      s.value == Round2((SumAt(rows, ResultParti, ResultValue, cpId) as real) * 100.0 / (Total(rows, ResultValue) as real))
  {
    CountAtPositive(rows, ResultParti, cpId);
    if CountAt(rows, ResultParti, cpId) == 0 then None   // HAVING keeps no group
    else
      var total := Total(rows, ResultValue);
      if total == 0 then None                           // SQLite divides by zero to NULL
      else Some(Round2((SumAt(rows, ResultParti, ResultValue, cpId) as real) * 100.0 / (total as real)))
  }

  /** The share of candidate-party `cpId` in the first round of year `annee`
      and department code `regionId`. */
  function Share(db: Store, annee: string, regionId: int, cpId: int): (s: Option<real>)
    ensures s.None? <==>
      (forall f :: f in FirstRound(db, annee, regionId) ==> f.resultat.candidatParti != cpId)
      || Total(FirstRound(db, annee, regionId), ResultValue) == 0
  {
    ShareOf(FirstRound(db, annee, regionId), cpId)
  }

  lemma RatioIsPercent(p: real, t: real)
    requires 0.0 <= p <= t && t > 0.0
    ensures 0.0 <= p * 100.0 / t <= 100.0
  {
    var x := p * 100.0 / t;
    assert x * t == p * 100.0;
  }

  /** With non-negative vote counts every share is a percentage. */
  lemma ShareOfIsPercent(rows: seq<BallotResult>, cpId: int)
    requires forall j :: 0 <= j < |rows| ==> rows[j].resultat.value >= 0
    ensures ShareOf(rows, cpId).Some? ==> 0.0 <= ShareOf(rows, cpId).value <= 100.0
  {
    if ShareOf(rows, cpId).Some? {
      SumAtBounds(rows, ResultParti, ResultValue, cpId);
      var part, total := SumAt(rows, ResultParti, ResultValue, cpId), Total(rows, ResultValue);
      RatioIsPercent(part as real, total as real);
      Round2Percent((part as real) * 100.0 / (total as real));
    }
  }

  /** With non-negative vote counts in the store, every share is a percentage. */
  lemma ShareIsPercent(db: Store, annee: string, regionId: int, cpId: int)
    requires forall r :: r in db.resultats ==> r.value >= 0
    ensures Share(db, annee, regionId, cpId).Some? ==> 0.0 <= Share(db, annee, regionId, cpId).value <= 100.0
  {
    var rows := FirstRound(db, annee, regionId);
    forall j | 0 <= j < |rows| ensures rows[j].resultat.value >= 0 {
      assert rows[j] in rows;
    }
    ShareOfIsPercent(rows, cpId);
  }

  // ---------------------------------------------------------------------------
  // The outer query

  /** `resultat_candidat JOIN urne_vote JOIN candidat_parti JOIN candidat JOIN region
      WHERE final_round = 1 AND is_legis = 0`: the second-round results. */
  function Qualifiers(db: Store): (qs: seq<Located<PartiFact>>)
    ensures forall q :: q in qs <==> exists c :: SecondRound(db, q.fact.ballot, q.fact.resultat, q.fact.parti, c, q.region)
  {
    var qs := RegionJoin(CandidatJoin(PartiJoin(ResultJoin(db.urneVotes, db.resultats, true), db.candidatPartis),
                                      db.candidats),
                         PartiRegion, db.regions);
    assert forall q :: q in qs <==> exists c :: SecondRound(db, q.fact.ballot, q.fact.resultat, q.fact.parti, c, q.region) by {
      forall q ensures q in qs <==> exists c :: SecondRound(db, q.fact.ballot, q.fact.resultat, q.fact.parti, c, q.region) {
        if q in qs {
          SecondRoundOfJoined(db, q);
        }
        if c :| SecondRound(db, q.fact.ballot, q.fact.resultat, q.fact.parti, c, q.region) {
          JoinedOfSecondRound(db, q.fact.ballot, q.fact.resultat, q.fact.parti, c, q.region);
        }
      }
    }
    qs
  }

  /** The GROUP BY key (department_name, uv_annee) of a second-round result. */
  function GroupKey(p: Located<PartiFact>): (string, string) { (p.region.departmentName, p.fact.ballot.annee) }

  /** A second-round result with its group and the share of its candidate-party,
      correlated on its ballot's year and department code. */
  datatype Scored = Scored(key: (string, string), share: Option<real>)

  function Scores(db: Store, qs: seq<Located<PartiFact>>): seq<Scored>
  {
    if qs == [] then []
    else [Scored(GroupKey(qs[0]), Share(db, qs[0].fact.ballot.annee, qs[0].fact.ballot.regionId, qs[0].fact.parti.id))]
         + Scores(db, qs[1..])
  }

  /** Scoring keeps each second-round result in place, with its group and the
      share of its candidate-party in its ballot's year and department. */
  lemma {:induction false} ScoresAt(db: Store, qs: seq<Located<PartiFact>>)
    ensures |Scores(db, qs)| == |qs|
    ensures forall i :: 0 <= i < |qs| ==>
      Scores(db, qs)[i] == Scored(GroupKey(qs[i]), Share(db, qs[i].fact.ballot.annee, qs[i].fact.ballot.regionId, qs[i].fact.parti.id))
  {
    if qs != [] {
      ScoresAt(db, qs[1..]);
      assert forall i :: 0 < i < |qs| ==> qs[i] == qs[1..][i - 1];
    }
  }

  /** SQL MIN of two values, NULL being ignored. */
  function Least(a: Option<real>, b: Option<real>): Option<real>
  {
    if a.None? then b
    else if b.None? then a
    else if a.value <= b.value then a else b
  }

  /** `MIN(share)` over the group `k`: NULL exactly when every share of the
      group is NULL, and otherwise one of the group's shares, no larger than
      any other. */
  function MinAt(ss: seq<Scored>, k: (string, string)): (m: Option<real>)
    ensures m.None? <==> forall i :: 0 <= i < |ss| && ss[i].key == k ==> ss[i].share.None?
    ensures m.Some? ==> exists i :: 0 <= i < |ss| && ss[i].key == k && ss[i].share == m
    ensures m.Some? ==> forall i :: 0 <= i < |ss| && ss[i].key == k && ss[i].share.Some? ==> m.value <= ss[i].share.value
  {
    if ss == [] then None
    else
      var rest := MinAt(ss[1..], k);
      assert forall i :: 0 < i < |ss| ==> ss[i] == ss[1..][i - 1];
      assert rest.Some? ==> exists i :: 0 < i < |ss| && ss[i].key == k && ss[i].share == rest by {
        if rest.Some? {
          var i :| 0 <= i < |ss[1..]| && ss[1..][i].key == k && ss[1..][i].share == rest;
          assert ss[i + 1].key == k && ss[i + 1].share == rest;
        }
      }
      Least(if ss[0].key == k then ss[0].share else None, rest)
  }

  /** A row of get_seuil_per_region (the bare `department_code` column is left out). */
  datatype SeuilRow = SeuilRow(departmentName: string, annee: string, rs: Option<real>)

  function RowKey(r: SeuilRow): (string, string) { (r.departmentName, r.annee) }

  /** get_seuil_per_region(): one row per (region name, year) that has a
      second-round result, holding the MIN of those results' shares. */
  function Seuil(db: Store): (rows: seq<SeuilRow>)
    ensures forall i, j :: 0 <= i < j < |rows| ==> RowKey(rows[i]) != RowKey(rows[j])
    ensures forall k :: k in Keys(rows, RowKey) <==> k in Keys(Qualifiers(db), GroupKey)
    ensures forall i :: 0 <= i < |rows| ==> rows[i].rs == MinAt(Scores(db, Qualifiers(db)), RowKey(rows[i]))
  {
    var qs := Qualifiers(db);
    var ks := GroupKeys(qs, GroupKey);
    var rows := seq(|ks|, i requires 0 <= i < |ks| => SeuilRow(ks[i].0, ks[i].1, MinAt(Scores(db, qs), ks[i])));
    assert forall i :: 0 <= i < |ks| ==> RowKey(rows[i]) == ks[i];
    assert Keys(rows, RowKey) == ks;
    rows
  }

  /** The share of the candidate-party of a second-round result, in the first
      round of its ballot's year and department code. */
  function QualifierShare(db: Store, q: Located<PartiFact>): Option<real>
  {
    Share(db, q.fact.ballot.annee, q.fact.ballot.regionId, q.fact.parti.id)
  }

  /** MIN over the scores of a group is NULL exactly when every second-round
      result of the group has a NULL share; otherwise it is the share of one
      of them, and no other non-NULL share of the group is smaller. */
  lemma ScoresMin(db: Store, qs: seq<Located<PartiFact>>, k: (string, string))
    ensures var m := MinAt(Scores(db, qs), k);
      && (m.None? <==> forall j :: 0 <= j < |qs| && GroupKey(qs[j]) == k ==> QualifierShare(db, qs[j]).None?)
      && (m.Some? ==> exists j :: 0 <= j < |qs| && GroupKey(qs[j]) == k && QualifierShare(db, qs[j]) == m)
      && (m.Some? ==> forall j :: 0 <= j < |qs| && GroupKey(qs[j]) == k && QualifierShare(db, qs[j]).Some?
                        ==> m.value <= QualifierShare(db, qs[j]).value)
  {
    var ss := Scores(db, qs);
    ScoresAt(db, qs);
    assert forall j :: 0 <= j < |qs| ==> ss[j] == Scored(GroupKey(qs[j]), QualifierShare(db, qs[j]));
  }

  /** The threshold of a row is NULL exactly when every second-round result of
      its group has a NULL share; otherwise it is the share of one of them, and
      no other non-NULL share of the group is smaller. */
  lemma SeuilIsMinShare(db: Store, i: nat)
    requires i < |Seuil(db)|
    ensures var row, qs := Seuil(db)[i], Qualifiers(db);
      && (row.rs.None? <==>
            forall j :: 0 <= j < |qs| && GroupKey(qs[j]) == RowKey(row) ==> QualifierShare(db, qs[j]).None?)
      && (row.rs.Some? ==>
            exists j :: 0 <= j < |qs| && GroupKey(qs[j]) == RowKey(row) && QualifierShare(db, qs[j]) == row.rs)
      && (row.rs.Some? ==>
            forall j :: 0 <= j < |qs| && GroupKey(qs[j]) == RowKey(row) && QualifierShare(db, qs[j]).Some?
              ==> row.rs.value <= QualifierShare(db, qs[j]).value)
  {
    ScoresMin(db, Qualifiers(db), RowKey(Seuil(db)[i]));
  }

  /** With non-negative vote counts every threshold is a percentage. */
  lemma SeuilIsPercent(db: Store, i: nat)
    requires forall r :: r in db.resultats ==> r.value >= 0
    requires i < |Seuil(db)|
    ensures Seuil(db)[i].rs.Some? ==> 0.0 <= Seuil(db)[i].rs.value <= 100.0
  {
    if Seuil(db)[i].rs.Some? {
      var q := MinShareWitness(db, i);
      ShareIsPercent(db, q.fact.ballot.annee, q.fact.ballot.regionId, q.fact.parti.id);
    }
  }

  /** The second-round result whose share is a non-NULL threshold. */
  lemma MinShareWitness(db: Store, i: nat) returns (q: Located<PartiFact>)
    requires i < |Seuil(db)| && Seuil(db)[i].rs.Some?
    ensures Share(db, q.fact.ballot.annee, q.fact.ballot.regionId, q.fact.parti.id) == Seuil(db)[i].rs
  {
    var row, qs := Seuil(db)[i], Qualifiers(db);
    SeuilIsMinShare(db, i);
    var j :| 0 <= j < |qs| && GroupKey(qs[j]) == RowKey(row) && QualifierShare(db, qs[j]) == row.rs;
    q := qs[j];
  }

  // ---------------------------------------------------------------------------
  // In terms of the store

  /** Result `r` of candidate-party `cp` (candidate `c`) in the presidential
      second-round ballot `b`, whose department code region `g` carries. */
  predicate SecondRound(db: Store, b: UrneVote, r: ResultatCondidatParti, cp: CandidatParti, c: Candidat, g: Region)
  {
    && b in db.urneVotes && r in db.resultats && r.urneVoteId == b.id && Presidential(b, true)
    && cp in db.candidatPartis && cp.id == r.candidatParti
    && c in db.candidats && c.id == cp.candidatId
    && g in db.regions && g.departmentCode == b.regionId
  }

  lemma JoinedOfSecondRound(db: Store, b: UrneVote, r: ResultatCondidatParti, cp: CandidatParti, c: Candidat, g: Region)
    requires SecondRound(db, b, r, cp, c, g)
    ensures Located(PartiFact(b, r, cp), g)
         in RegionJoin(CandidatJoin(PartiJoin(ResultJoin(db.urneVotes, db.resultats, true), db.candidatPartis),
                                    db.candidats),
                       PartiRegion, db.regions)
  {
    var brs := ResultJoin(db.urneVotes, db.resultats, true);
    assert BallotResult(b, r) in brs;
    var pfs := PartiJoin(brs, db.candidatPartis);
    assert PartiFact(b, r, cp) in pfs;
    assert PartiFact(b, r, cp) in CandidatJoin(pfs, db.candidats);
  }

  lemma SecondRoundOfJoined(db: Store, q: Located<PartiFact>)
    requires q in RegionJoin(CandidatJoin(PartiJoin(ResultJoin(db.urneVotes, db.resultats, true), db.candidatPartis),
                                          db.candidats),
                             PartiRegion, db.regions)
    ensures exists c :: SecondRound(db, q.fact.ballot, q.fact.resultat, q.fact.parti, c, q.region)
  {
    var brs := ResultJoin(db.urneVotes, db.resultats, true);
    var pfs := PartiJoin(brs, db.candidatPartis);
    assert q.fact in CandidatJoin(pfs, db.candidats);
    assert BallotResult(q.fact.ballot, q.fact.resultat) in brs;
    var c :| c in db.candidats && c.id == q.fact.parti.candidatId;
    assert SecondRound(db, q.fact.ballot, q.fact.resultat, q.fact.parti, c, q.region);
  }

  /** Every threshold row is the region name and year of some second-round
      result: no (region, year) without one gets a row. */
  lemma SeuilRowHasSecondRound(db: Store, i: nat)
    requires i < |Seuil(db)|
    ensures exists b, r, cp, c, g ::
              SecondRound(db, b, r, cp, c, g) && RowKey(Seuil(db)[i]) == (g.departmentName, b.annee)
  {
    var rows, qs := Seuil(db), Qualifiers(db);
    KeysCover(rows, RowKey);
    var j := KeyWitness(qs, GroupKey, RowKey(rows[i]));
    assert qs[j] in qs;
  }

  /** Every second-round result shows up in the threshold row of its region
      name and year. */
  lemma SeuilSourceHasRow(db: Store, b: UrneVote, r: ResultatCondidatParti, cp: CandidatParti, c: Candidat, g: Region)
    requires SecondRound(db, b, r, cp, c, g)
    ensures exists i :: 0 <= i < |Seuil(db)| && RowKey(Seuil(db)[i]) == (g.departmentName, b.annee)
  {
    var qs := Qualifiers(db);
    assert Located(PartiFact(b, r, cp), g) in qs;
    var j :| 0 <= j < |qs| && qs[j] == Located(PartiFact(b, r, cp), g);
    assert GroupKey(qs[j]) == (g.departmentName, b.annee);
    KeysCover(qs, GroupKey);
    var i := KeyWitness(Seuil(db), RowKey, GroupKey(qs[j]));
  }

  /** Distinct keys that are exactly the keys of a non-empty table of a single key: one. */
  lemma OnlyKey(rows: seq<SeuilRow>, qs: seq<Located<PartiFact>>, k: (string, string))
    requires |qs| > 0 && forall j :: 0 <= j < |qs| ==> GroupKey(qs[j]) == k
    requires forall i, j :: 0 <= i < j < |rows| ==> RowKey(rows[i]) != RowKey(rows[j])
    requires forall k' :: k' in Keys(rows, RowKey) <==> k' in Keys(qs, GroupKey)
    ensures |rows| == 1 && RowKey(rows[0]) == k
  {
    KeysCover(qs, GroupKey);
    KeysCover(rows, RowKey);
    assert GroupKey(qs[0]) == k;
    var i0 := KeyWitness(rows, RowKey, k);
    forall i | 0 <= i < |rows| ensures RowKey(rows[i]) == k {
      var j := KeyWitness(qs, GroupKey, RowKey(rows[i]));
    }
    assert |rows| > 1 ==> RowKey(rows[0]) == RowKey(rows[1]);
  }

  /** When every second-round result falls in one group, the query returns
      exactly that group's row. */
  lemma SingleGroup(db: Store, k: (string, string))
    requires |Qualifiers(db)| > 0
    requires forall j :: 0 <= j < |Qualifiers(db)| ==> GroupKey(Qualifiers(db)[j]) == k
    ensures Seuil(db) == [SeuilRow(k.0, k.1, MinAt(Scores(db, Qualifiers(db)), k))]
  {
    var rows := Seuil(db);
    OnlyKey(rows, Qualifiers(db), k);
    assert rows[0].rs == MinAt(Scores(db, Qualifiers(db)), RowKey(rows[0]));
  }

  // ---------------------------------------------------------------------------
  // A worked example

  /** One department, one year: A, B and C get 100, 200 and 700 first-round
      votes, and A and B go on to the second round. */
  function ExampleStore(): Store
  {
    var first := UrneVote(1, 1, 75, "2022", false, false);
    var second := UrneVote(2, 1, 75, "2022", true, false);
    Store(
      [Region(1, 75, "Paris")],
      [Candidat(1, "A"), Candidat(2, "B"), Candidat(3, "C")],
      [CandidatParti(11, "gauche", 1, 1), CandidatParti(12, "droite", 2, 2), CandidatParti(13, "centre", 3, 3)],
      [first, second],
      [ResultatCondidatParti(1, 1, 11, 100), ResultatCondidatParti(2, 1, 12, 200), ResultatCondidatParti(3, 1, 13, 700),
       ResultatCondidatParti(4, 2, 11, 600), ResultatCondidatParti(5, 2, 12, 400)],
      [])
  }

  /** The example's first round, as the sub-queries see it. */
  function ExampleFirstRows(): seq<BallotResult>
  {
    var b := UrneVote(1, 1, 75, "2022", false, false);
    [BallotResult(b, ResultatCondidatParti(1, 1, 11, 100)), BallotResult(b, ResultatCondidatParti(2, 1, 12, 200)),
     BallotResult(b, ResultatCondidatParti(3, 1, 13, 700))]
  }

  lemma ExampleFirstRound()
    ensures FirstRound(ExampleStore(), "2022", 75) == ExampleFirstRows()
  {
    var db := ExampleStore();
    var rs := db.resultats;
    assert ResultsOf(db.urneVotes[0], rs) == ExampleFirstRows();
    assert ResultJoin(db.urneVotes, rs, false) == ResultsOf(db.urneVotes[0], rs);
  }

  /** A holds 100 of the 1000 first-round votes, B 200. */
  lemma ExampleShareOf()
    ensures ShareOf(ExampleFirstRows(), 11) == Some(10.0)
    ensures ShareOf(ExampleFirstRows(), 12) == Some(20.0)
  {
    var fr := ExampleFirstRows();
    assert Total(fr, ResultValue) == 1000;
    assert CountAt(fr, ResultParti, 11) == 1 && SumAt(fr, ResultParti, ResultValue, 11) == 100;
    assert CountAt(fr, ResultParti, 12) == 1 && SumAt(fr, ResultParti, ResultValue, 12) == 200;
    assert (1000.5).Floor == 1000 && (2000.5).Floor == 2000;
  }

  /** The example's second round: A's and B's results, in the one region. */
  function ExampleQualifiers(): seq<Located<PartiFact>>
  {
    var b := UrneVote(2, 1, 75, "2022", true, false);
    var g := Region(1, 75, "Paris");
    [Located(PartiFact(b, ResultatCondidatParti(4, 2, 11, 600), CandidatParti(11, "gauche", 1, 1)), g),
     Located(PartiFact(b, ResultatCondidatParti(5, 2, 12, 400), CandidatParti(12, "droite", 2, 2)), g)]
  }

  function ExampleSecondRows(): seq<BallotResult>
  {
    var b := UrneVote(2, 1, 75, "2022", true, false);
    [BallotResult(b, ResultatCondidatParti(4, 2, 11, 600)), BallotResult(b, ResultatCondidatParti(5, 2, 12, 400))]
  }

  function ExampleSecondPartis(): seq<PartiFact>
  {
    var b := UrneVote(2, 1, 75, "2022", true, false);
    [PartiFact(b, ResultatCondidatParti(4, 2, 11, 600), CandidatParti(11, "gauche", 1, 1)),
     PartiFact(b, ResultatCondidatParti(5, 2, 12, 400), CandidatParti(12, "droite", 2, 2))]
  }

  lemma ExampleSecondStep1()
    ensures ResultJoin(ExampleStore().urneVotes, ExampleStore().resultats, true) == ExampleSecondRows()
  {
  }
  lemma ExampleSecondStep2()
    ensures PartiJoin(ExampleSecondRows(), ExampleStore().candidatPartis) == ExampleSecondPartis()
  {
  }
  lemma ExampleSecondStep3()
    ensures CandidatJoin(ExampleSecondPartis(), ExampleStore().candidats) == ExampleSecondPartis()
  {
  }
  lemma ExampleSecondStep4()
    ensures RegionJoin(ExampleSecondPartis(), PartiRegion, ExampleStore().regions) == ExampleQualifiers()
  {
  }

  lemma ExampleSecondRound()
    ensures Qualifiers(ExampleStore()) == ExampleQualifiers()
  {
    ExampleSecondStep1();
    ExampleSecondStep2();
    ExampleSecondStep3();
    ExampleSecondStep4();
  }

  lemma ExampleShares(db: Store)
    requires db == ExampleStore()
    ensures Share(db, "2022", 75, 11) == Some(10.0)
    ensures Share(db, "2022", 75, 12) == Some(20.0)
  {
    ExampleFirstRound();
    ExampleShareOf();
  }

  lemma ExampleScores(db: Store)
    requires db == ExampleStore()
    ensures Scores(db, ExampleQualifiers())
         == [Scored(("Paris", "2022"), Some(10.0)), Scored(("Paris", "2022"), Some(20.0))]
  {
    ExampleShares(db);
    ScoresAt(db, ExampleQualifiers());
  }

  /** A's 10.00 is the smaller of the two qualifiers' shares. */
  lemma ExampleMin()
    ensures MinAt([Scored(("Paris", "2022"), Some(10.0)), Scored(("Paris", "2022"), Some(20.0))], ("Paris", "2022"))
         == Some(10.0)
  {
  }

  lemma ExampleMinScore(db: Store)
    requires db == ExampleStore()
    ensures MinAt(Scores(db, Qualifiers(db)), ("Paris", "2022")) == Some(10.0)
  {
    ExampleSecondRound();
    ExampleScores(db);
    ExampleMin();
  }

  lemma ExampleQualifierKeys()
    ensures |ExampleQualifiers()| == 2
    ensures forall j :: 0 <= j < 2 ==> GroupKey(ExampleQualifiers()[j]) == ("Paris", "2022")
  {
  }

  lemma ExampleOneGroup(db: Store)
    requires db == ExampleStore()
    ensures |Qualifiers(db)| > 0
    ensures forall j :: 0 <= j < |Qualifiers(db)| ==> GroupKey(Qualifiers(db)[j]) == ("Paris", "2022")
  {
    ExampleSecondRound();
    ExampleQualifierKeys();
  }

  /** The threshold of the example is A's 10.00 percent: the smaller of the two
      qualifiers' first-round shares, not C's 70.00, who did not qualify. */
  lemma ExampleThreshold(db: Store)
    requires db == ExampleStore()
    ensures Seuil(db) == [SeuilRow("Paris", "2022", Some(10.0))]
  {
    ExampleOneGroup(db);
    ExampleMinScore(db);
    SingleGroup(db, ("Paris", "2022"));
  }
}
