/** The inner joins the queries of front.py share, as bag joins over the
    store's sequences: a joined row appears once for every combination of
    matching input rows, so a duplicated key multiplies rows exactly as SQL
    does. The order of the joined rows is the nested-loop order; SQL leaves it
    unspecified and no query result depends on it except through GROUP BY
    row order, which SQL leaves unspecified too. */
module Joins {
  import opened Models
  import opened Relational

  /** A row of `urne_vote JOIN resultat_metainfo`. */
  datatype MetaFact = MetaFact(ballot: UrneVote, meta: ResultatMetaInfo)

  /** A row of `urne_vote JOIN resultat_candidat`. */
  datatype BallotResult = BallotResult(ballot: UrneVote, resultat: ResultatCondidatParti)

  /** A row of `urne_vote JOIN resultat_candidat JOIN candidat_parti`. */
  datatype PartiFact = PartiFact(ballot: UrneVote, resultat: ResultatCondidatParti, parti: CandidatParti)

  /** A joined row extended with the region its ballot's department code matches. */
  datatype Located<F> = Located(fact: F, region: Region)

  // ---------------------------------------------------------------------------
  // urne_vote JOIN resultat_metainfo ON resultat_metainfo.urne_vote_id = urne_vote.id

  function MetasOf(b: UrneVote, ms: seq<ResultatMetaInfo>): (j: seq<MetaFact>)
    ensures forall f :: f in j <==> f.ballot == b && f.meta in ms && f.meta.urneVoteId == b.id
  {
    if ms == [] then []
    else (if ms[0].urneVoteId == b.id then [MetaFact(b, ms[0])] else []) + MetasOf(b, ms[1..])
  }

  /** The meta rows of the presidential ballots of one round, each paired with its ballot. */
  function MetaJoin(bs: seq<UrneVote>, ms: seq<ResultatMetaInfo>, finalRound: bool): (j: seq<MetaFact>)
    ensures forall f :: f in j <==>
      f.ballot in bs && f.meta in ms && f.meta.urneVoteId == f.ballot.id && Presidential(f.ballot, finalRound)
  {
    if bs == [] then []
    else (if Presidential(bs[0], finalRound) then MetasOf(bs[0], ms) else []) + MetaJoin(bs[1..], ms, finalRound)
  }

  // ---------------------------------------------------------------------------
  // urne_vote JOIN resultat_candidat ON resultat_candidat.urne_vote_id = urne_vote.id

  function ResultsOf(b: UrneVote, rs: seq<ResultatCondidatParti>): (j: seq<BallotResult>)
    ensures forall f :: f in j <==> f.ballot == b && f.resultat in rs && f.resultat.urneVoteId == b.id
  {
    if rs == [] then []
    else (if rs[0].urneVoteId == b.id then [BallotResult(b, rs[0])] else []) + ResultsOf(b, rs[1..])
  }

  /** The candidate results of the presidential ballots of one round, each paired with its ballot. */
  function ResultJoin(bs: seq<UrneVote>, rs: seq<ResultatCondidatParti>, finalRound: bool): (j: seq<BallotResult>)
    ensures forall f :: f in j <==>
      f.ballot in bs && f.resultat in rs && f.resultat.urneVoteId == f.ballot.id && Presidential(f.ballot, finalRound)
  {
    if bs == [] then []
    else (if Presidential(bs[0], finalRound) then ResultsOf(bs[0], rs) else []) + ResultJoin(bs[1..], rs, finalRound)
  }

  // ---------------------------------------------------------------------------
  // ... JOIN candidat_parti ON candidat_parti.id = resultat_candidat.candidat_parti

  function PartisOf(f: BallotResult, cps: seq<CandidatParti>): (j: seq<PartiFact>)
    ensures forall p :: p in j <==>
      p.ballot == f.ballot && p.resultat == f.resultat && p.parti in cps && p.parti.id == f.resultat.candidatParti
  {
    if cps == [] then []
    else (if cps[0].id == f.resultat.candidatParti then [PartiFact(f.ballot, f.resultat, cps[0])] else [])
         + PartisOf(f, cps[1..])
  }

  function PartiJoin(brs: seq<BallotResult>, cps: seq<CandidatParti>): (j: seq<PartiFact>)
    ensures forall p :: p in j <==>
      BallotResult(p.ballot, p.resultat) in brs && p.parti in cps && p.parti.id == p.resultat.candidatParti
  {
    if brs == [] then []
    else PartisOf(brs[0], cps) + PartiJoin(brs[1..], cps)
  }

  // ---------------------------------------------------------------------------
  // ... JOIN candidat ON candidat.id = candidat_parti.candidat_id [AND candidat_name = name]

  /** `f` once for every candidate row its candidate-party points to. */
  function CandidatsOf(f: PartiFact, cs: seq<Candidat>): (j: seq<PartiFact>)
    ensures forall p :: p in j <==> p == f && exists c :: c in cs && c.id == f.parti.candidatId
  {
    if cs == [] then []
    else (if cs[0].id == f.parti.candidatId then [f] else []) + CandidatsOf(f, cs[1..])
  }

  function CandidatJoin(fs: seq<PartiFact>, cs: seq<Candidat>): (j: seq<PartiFact>)
    ensures forall p :: p in j <==> p in fs && exists c :: c in cs && c.id == p.parti.candidatId
  {
    if fs == [] then []
    else CandidatsOf(fs[0], cs) + CandidatJoin(fs[1..], cs)
  }

  /** `f` once for every candidate row named `name` its candidate-party points to. */
  function NamedOf(f: PartiFact, cs: seq<Candidat>, name: string): (j: seq<PartiFact>)
    ensures forall p :: p in j <==>
      p == f && exists c :: c in cs && c.id == f.parti.candidatId && c.candidatName == name
  {
    if cs == [] then []
    else (if cs[0].id == f.parti.candidatId && cs[0].candidatName == name then [f] else [])
         + NamedOf(f, cs[1..], name)
  }

  function NamedCandidatJoin(fs: seq<PartiFact>, cs: seq<Candidat>, name: string): (j: seq<PartiFact>)
    ensures forall p :: p in j <==>
      p in fs && exists c :: c in cs && c.id == p.parti.candidatId && c.candidatName == name
  {
    if fs == [] then []
    else NamedOf(fs[0], cs, name) + NamedCandidatJoin(fs[1..], cs, name)
  }

  // ---------------------------------------------------------------------------
  // ... JOIN region ON region.department_code = urne_vote.region_id

  /** The department code of the ballot a joined row comes from. */
  function MetaRegion(f: MetaFact): int { f.ballot.regionId }
  function PartiRegion(f: PartiFact): int { f.ballot.regionId }

  /** How many regions carry department code `code`. */
  function CodeCount(gs: seq<Region>, code: int): nat
  {
    if gs == [] then 0
    else (if gs[0].departmentCode == code then 1 else 0) + CodeCount(gs[1..], code)
  }

  /** Every counted ballot's department code is carried by exactly one region. */
  predicate OneRegionEach(db: Store, isFinal: bool)
  {
    forall b :: b in db.urneVotes && Presidential(b, isFinal) ==> CodeCount(db.regions, b.regionId) == 1
  }

  function RegionsFor<F(!new)>(f: F, code: int, gs: seq<Region>): (j: seq<Located<F>>)
    ensures forall p :: p in j <==> p.fact == f && p.region in gs && p.region.departmentCode == code
  {
    if gs == [] then []
    else (if gs[0].departmentCode == code then [Located(f, gs[0])] else []) + RegionsFor(f, code, gs[1..])
  }

  /** The inner join of `fs` with the regions, on the department code. A row
      whose code no region carries is dropped; one whose code several regions
      carry is repeated once per region. */
  function RegionJoin<F(!new)>(fs: seq<F>, code: F -> int, gs: seq<Region>): (j: seq<Located<F>>)
    ensures forall p :: p in j <==> p.fact in fs && p.region in gs && p.region.departmentCode == code(p.fact)
  {
    if fs == [] then []
    else RegionsFor(fs[0], code(fs[0]), gs) + RegionJoin(fs[1..], code, gs)
  }

  lemma {:induction false} RegionsForAbsent<F(!new), S, K2>(
    f: F, code: int, gs: seq<Region>, key2: Located<F> -> K2, sel2: K2 -> S, s: S, col2: Located<F> -> int)
    requires CodeCount(gs, code) == 0
    ensures SumSel(RegionsFor(f, code, gs), key2, sel2, s, col2) == 0
  {
    if gs != [] {
      assert RegionsFor(f, code, gs) == [] + RegionsFor(f, code, gs[1..]) == RegionsFor(f, code, gs[1..]);
      RegionsForAbsent(f, code, gs[1..], key2, sel2, s, col2);
    }
  }

  lemma {:induction false} RegionsForOnce<F(!new), K, S, K2>(
    f: F, code: int, gs: seq<Region>, key2: Located<F> -> K2, sel2: K2 -> S, s: S, col2: Located<F> -> int,
    key: F -> K, sel: K -> S, col: F -> int)
    requires CodeCount(gs, code) == 1
    requires forall g :: sel2(key2(Located(f, g))) == sel(key(f)) && col2(Located(f, g)) == col(f)
    ensures SumSel(RegionsFor(f, code, gs), key2, sel2, s, col2) == if sel(key(f)) == s then col(f) else 0
  {
    var head := if gs[0].departmentCode == code then [Located(f, gs[0])] else [];
    SumSelAppend(head, RegionsFor(f, code, gs[1..]), key2, sel2, s, col2);
    if gs[0].departmentCode == code {
      RegionsForAbsent(f, code, gs[1..], key2, sel2, s, col2);
    } else {
      RegionsForOnce(f, code, gs[1..], key2, sel2, s, col2, key, sel, col);
    }
  }

  /** When every row of `fs` matches exactly one region, joining the regions
      in neither drops nor repeats a row: any sum over the joined rows that
      does not look at the region equals the same sum over `fs`. */
  lemma {:induction false} RegionJoinSum<F(!new), K, S, K2>(
    fs: seq<F>, code: F -> int, gs: seq<Region>,
    key2: Located<F> -> K2, sel2: K2 -> S, col2: Located<F> -> int,
    key: F -> K, sel: K -> S, col: F -> int, s: S)
    requires forall i :: 0 <= i < |fs| ==> CodeCount(gs, code(fs[i])) == 1
    requires forall f, g :: sel2(key2(Located(f, g))) == sel(key(f)) && col2(Located(f, g)) == col(f)
    ensures SumSel(RegionJoin(fs, code, gs), key2, sel2, s, col2) == SumSel(fs, key, sel, s, col)
  {
    if fs != [] {
      SumSelAppend(RegionsFor(fs[0], code(fs[0]), gs), RegionJoin(fs[1..], code, gs), key2, sel2, s, col2);
      RegionsForOnce(fs[0], code(fs[0]), gs, key2, sel2, s, col2, key, sel, col);
      RegionJoinSum(fs[1..], code, gs, key2, sel2, col2, key, sel, col, s);
    }
  }

  // ---------------------------------------------------------------------------
  // Multiplicities: a joined row occurs once per combination of input rows.

  /** One more copy of a row adds one more round of its partners. */
  lemma StepCount(c: int, k: int)
    ensures (c + 1) * k == c * k + k
  {
  }

  lemma {:induction false} MetasOfCount(b: UrneVote, ms: seq<ResultatMetaInfo>, b': UrneVote, m: ResultatMetaInfo)
    ensures multiset(MetasOf(b, ms))[MetaFact(b', m)] == if b' == b && m.urneVoteId == b.id then multiset(ms)[m] else 0
  {
    if ms != [] {
      assert ms == [ms[0]] + ms[1..];
      MetasOfCount(b, ms[1..], b', m);
    }
  }

  /** The pair (ballot `b`, meta row `m`) occurs in the join once for every
      copy of `b` times every copy of `m`, when they match and `b` is counted. */
  lemma {:induction false} MetaJoinCount(bs: seq<UrneVote>, ms: seq<ResultatMetaInfo>, finalRound: bool,
                                         b: UrneVote, m: ResultatMetaInfo)
    ensures multiset(MetaJoin(bs, ms, finalRound))[MetaFact(b, m)]
         == if m.urneVoteId == b.id && Presidential(b, finalRound) then multiset(bs)[b] * multiset(ms)[m] else 0
  {
    if bs != [] {
      assert bs == [bs[0]] + bs[1..];
      var c, k := multiset(bs[1..])[b], multiset(ms)[m];
      assert multiset(bs)[b] == (if bs[0] == b then 1 else 0) + c;
      var head := if Presidential(bs[0], finalRound) then MetasOf(bs[0], ms) else [];
      assert MetaJoin(bs, ms, finalRound) == head + MetaJoin(bs[1..], ms, finalRound);
      assert multiset(MetaJoin(bs, ms, finalRound))[MetaFact(b, m)]
          == multiset(head)[MetaFact(b, m)] + multiset(MetaJoin(bs[1..], ms, finalRound))[MetaFact(b, m)];
      MetaJoinCount(bs[1..], ms, finalRound, b, m);
      MetasOfCount(bs[0], ms, b, m);
      StepCount(c, k);
    }
  }

  lemma {:induction false} ResultsOfCount(b: UrneVote, rs: seq<ResultatCondidatParti>, b': UrneVote, r: ResultatCondidatParti)
    ensures multiset(ResultsOf(b, rs))[BallotResult(b', r)] == if b' == b && r.urneVoteId == b.id then multiset(rs)[r] else 0
  {
    if rs != [] {
      assert rs == [rs[0]] + rs[1..];
      ResultsOfCount(b, rs[1..], b', r);
    }
  }

  /** The pair (ballot `b`, result `r`) occurs in the join once for every
      copy of `b` times every copy of `r`, when they match and `b` is counted. */
  lemma {:induction false} ResultJoinCount(bs: seq<UrneVote>, rs: seq<ResultatCondidatParti>, finalRound: bool,
                                           b: UrneVote, r: ResultatCondidatParti)
    ensures multiset(ResultJoin(bs, rs, finalRound))[BallotResult(b, r)]
         == if r.urneVoteId == b.id && Presidential(b, finalRound) then multiset(bs)[b] * multiset(rs)[r] else 0
  {
    if bs != [] {
      assert bs == [bs[0]] + bs[1..];
      var c, k := multiset(bs[1..])[b], multiset(rs)[r];
      assert multiset(bs)[b] == (if bs[0] == b then 1 else 0) + c;
      var head := if Presidential(bs[0], finalRound) then ResultsOf(bs[0], rs) else [];
      assert ResultJoin(bs, rs, finalRound) == head + ResultJoin(bs[1..], rs, finalRound);
      assert multiset(ResultJoin(bs, rs, finalRound))[BallotResult(b, r)]
          == multiset(head)[BallotResult(b, r)] + multiset(ResultJoin(bs[1..], rs, finalRound))[BallotResult(b, r)];
      ResultJoinCount(bs[1..], rs, finalRound, b, r);
      ResultsOfCount(bs[0], rs, b, r);
      StepCount(c, k);
    }
  }

  lemma {:induction false} PartisOfCount(f: BallotResult, cps: seq<CandidatParti>, p: PartiFact)
    ensures multiset(PartisOf(f, cps))[p]
         == if BallotResult(p.ballot, p.resultat) == f && p.parti.id == f.resultat.candidatParti
            then multiset(cps)[p.parti] else 0
  {
    if cps != [] {
      assert cps == [cps[0]] + cps[1..];
      PartisOfCount(f, cps[1..], p);
    }
  }

  /** A row extended with a candidate-party occurs once for every copy of the
      row times every copy of the candidate-party, when the ids match. */
  lemma {:induction false} PartiJoinCount(brs: seq<BallotResult>, cps: seq<CandidatParti>, p: PartiFact)
    ensures multiset(PartiJoin(brs, cps))[p]
         == if p.parti.id == p.resultat.candidatParti
            then multiset(brs)[BallotResult(p.ballot, p.resultat)] * multiset(cps)[p.parti] else 0
  {
    if brs != [] {
      assert brs == [brs[0]] + brs[1..];
      var f := BallotResult(p.ballot, p.resultat);
      var c, k := multiset(brs[1..])[f], multiset(cps)[p.parti];
      assert multiset(brs)[f] == (if brs[0] == f then 1 else 0) + c;
      assert PartiJoin(brs, cps) == PartisOf(brs[0], cps) + PartiJoin(brs[1..], cps);
      assert multiset(PartiJoin(brs, cps))[p] == multiset(PartisOf(brs[0], cps))[p] + multiset(PartiJoin(brs[1..], cps))[p];
      PartiJoinCount(brs[1..], cps, p);
      PartisOfCount(brs[0], cps, p);
      StepCount(c, k);
    }
  }

  /** How many candidate rows carry id `id` and name `name`. */
  function NameCount(cs: seq<Candidat>, id: int, name: string): nat
  {
    if cs == [] then 0
    else (if cs[0].id == id && cs[0].candidatName == name then 1 else 0) + NameCount(cs[1..], id, name)
  }

  lemma {:induction false} NamedOfCount(f: PartiFact, cs: seq<Candidat>, name: string, p: PartiFact)
    ensures multiset(NamedOf(f, cs, name))[p] == if p == f then NameCount(cs, f.parti.candidatId, name) else 0
  {
    if cs != [] {
      NamedOfCount(f, cs[1..], name, p);
    }
  }

  lemma NamedCandidatJoinSplit(fs: seq<PartiFact>, cs: seq<Candidat>, name: string, p: PartiFact)
    requires fs != []
    ensures multiset(NamedCandidatJoin(fs, cs, name))[p]
         == multiset(NamedOf(fs[0], cs, name))[p] + multiset(NamedCandidatJoin(fs[1..], cs, name))[p]
    ensures multiset(fs)[p] == (if fs[0] == p then 1 else 0) + multiset(fs[1..])[p]
  {
    assert fs == [fs[0]] + fs[1..];
    assert NamedCandidatJoin(fs, cs, name) == NamedOf(fs[0], cs, name) + NamedCandidatJoin(fs[1..], cs, name);
  }

  /** A row occurs in the name-filtered join with `candidat` once for every
      copy of it times every candidate row of its candidate id and that name. */
  lemma {:induction false} NamedCandidatJoinCount(fs: seq<PartiFact>, cs: seq<Candidat>, name: string, p: PartiFact)
    ensures multiset(NamedCandidatJoin(fs, cs, name))[p] == multiset(fs)[p] * NameCount(cs, p.parti.candidatId, name)
  {
    if fs != [] {
      var c, k := multiset(fs[1..])[p], NameCount(cs, p.parti.candidatId, name);
      NamedCandidatJoinSplit(fs, cs, name, p);
      NamedCandidatJoinCount(fs[1..], cs, name, p);
      NamedOfCount(fs[0], cs, name, p);
      StepCount(c, k);
    }
  }

  lemma {:induction false} RegionsForCount<F(!new)>(f: F, code: int, gs: seq<Region>, p: Located<F>)
    ensures multiset(RegionsFor(f, code, gs))[p]
         == if p.fact == f && p.region.departmentCode == code then multiset(gs)[p.region] else 0
  {
    if gs != [] {
      assert gs == [gs[0]] + gs[1..];
      RegionsForCount(f, code, gs[1..], p);
    }
  }

  /** A row paired with a region occurs once for every copy of the row times
      every copy of the region, when the region carries the row's code. */
  lemma {:induction false} RegionJoinCount<F(!new)>(fs: seq<F>, code: F -> int, gs: seq<Region>, p: Located<F>)
    ensures multiset(RegionJoin(fs, code, gs))[p]
         == if p.region.departmentCode == code(p.fact) then multiset(fs)[p.fact] * multiset(gs)[p.region] else 0
  {
    if fs != [] {
      assert fs == [fs[0]] + fs[1..];
      var c, k := multiset(fs[1..])[p.fact], multiset(gs)[p.region];
      assert multiset(fs)[p.fact] == (if fs[0] == p.fact then 1 else 0) + c;
      assert RegionJoin(fs, code, gs) == RegionsFor(fs[0], code(fs[0]), gs) + RegionJoin(fs[1..], code, gs);
      assert multiset(RegionJoin(fs, code, gs))[p]
          == multiset(RegionsFor(fs[0], code(fs[0]), gs))[p] + multiset(RegionJoin(fs[1..], code, gs))[p];
      RegionJoinCount(fs[1..], code, gs, p);
      RegionsForCount(fs[0], code(fs[0]), gs, p);
      StepCount(c, k);
    }
  }
}
