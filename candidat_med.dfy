/** get_candidat_med: the mean result of one named candidate per region name,
    over the presidential ballots of one round, best region first. */
module CandidatMed {
  import opened Models
  import opened Relational
  import opened Joins

  /** A row of get_candidat_med (the bare `annee` column is left out). */
  datatype MedRow = MedRow(departmentName: string, resultat: real)

  /** `urne_vote JOIN resultat_candidat JOIN region JOIN candidat_parti JOIN candidat
      WHERE is_legis = 0 AND final_round = isFinal AND candidat_name = name`. */
  function MedFacts(db: Store, isFinal: bool, name: string): seq<Located<PartiFact>>
  {
    RegionJoin(NamedCandidatJoin(PartiJoin(ResultJoin(db.urneVotes, db.resultats, isFinal), db.candidatPartis),
                                 db.candidats, name),
               PartiRegion, db.regions)
  }

  function RegionName(p: Located<PartiFact>): string { p.region.departmentName }
  function Value(p: Located<PartiFact>): int { p.fact.resultat.value }

  // ---------------------------------------------------------------------------
  // ORDER BY resultat DESC

  /** Rows in non-increasing order of `resultat`. */
  predicate NonIncreasing(rows: seq<MedRow>)
  {
    forall i, j :: 0 <= i < j < |rows| ==> rows[i].resultat >= rows[j].resultat
  }

  /** `r` placed before the first row it is not smaller than. */
  function Insert(r: MedRow, rows: seq<MedRow>): (out: seq<MedRow>)
    ensures multiset(out) == multiset(rows) + multiset{r}
    ensures forall x :: x in out <==> x == r || x in rows
  {
    if rows == [] || r.resultat >= rows[0].resultat then [r] + rows
    else
      assert rows == [rows[0]] + rows[1..];
      [rows[0]] + Insert(r, rows[1..])
  }

  /** A row no smaller than every row of a sorted table can head it. */
  lemma ConsSorted(x: MedRow, rows: seq<MedRow>)
    requires NonIncreasing(rows)
    requires forall j :: 0 <= j < |rows| ==> rows[j].resultat <= x.resultat
    ensures NonIncreasing([x] + rows)
  {
    var out := [x] + rows;
    forall i, j | 0 <= i < j < |out| ensures out[i].resultat >= out[j].resultat {
      assert out[j] == rows[j - 1];
      if i > 0 {
        assert out[i] == rows[i - 1];
      }
    }
  }

  /** Inserting into a sorted table keeps it sorted. */
  lemma {:induction false} InsertSorted(r: MedRow, rows: seq<MedRow>)
    requires NonIncreasing(rows)
    ensures NonIncreasing(Insert(r, rows))
  {
    if rows == [] || r.resultat >= rows[0].resultat {
      ConsSorted(r, rows);
    } else {
      var tail := rows[1..];
      assert NonIncreasing(tail);
      var rest := Insert(r, tail);
      InsertSorted(r, tail);
      forall j | 0 <= j < |rest| ensures rest[j].resultat <= rows[0].resultat {
        assert rest[j] in rest;
        if rest[j] != r {
          var k :| 0 <= k < |tail| && tail[k] == rest[j];
          assert rows[k + 1] == rest[j];
        }
      }
      ConsSorted(rows[0], rest);
    }
  }

  /** Insertion sort into non-increasing order: a permutation of its input. */
  function SortDesc(rows: seq<MedRow>): (out: seq<MedRow>)
    ensures multiset(out) == multiset(rows)
    ensures NonIncreasing(out)
  {
    if rows == [] then []
    else
      assert rows == [rows[0]] + rows[1..];
      InsertSorted(rows[0], SortDesc(rows[1..]));
      Insert(rows[0], SortDesc(rows[1..]))
  }

  /** A value occurring once in a multiset occurs at one position only. */
  lemma {:induction false} CountOne<T>(s: seq<T>, x: T)
    requires NoDup(s)
    ensures multiset(s)[x] <= 1
  {
    if s != [] {
      assert s == [s[0]] + s[1..];
      assert NoDup(s[1..]) by {
        forall i, j | 0 <= i < j < |s[1..]| ensures s[1..][i] != s[1..][j] {
          assert s[1..][i] == s[i + 1] && s[1..][j] == s[j + 1];
        }
      }
      CountOne(s[1..], x);
      assert s[0] !in s[1..] by {
        forall i | 0 <= i < |s[1..]| ensures s[1..][i] != s[0] {
          assert s[1..][i] == s[i + 1];
        }
      }
    }
  }

  lemma TwoPositions<T>(s: seq<T>, i: nat, j: nat)
    requires i < j < |s| && multiset(s)[s[i]] <= 1
    ensures s[i] != s[j]
  {
    assert s == s[..j] + s[j..];
    assert s[i] in s[..j];
    assert s[j] in s[j..];
  }

  /** A permutation of a sequence without repetitions has none either. */
  lemma PermutationNoDup<T>(a: seq<T>, b: seq<T>)
    requires NoDup(a) && multiset(a) == multiset(b)
    ensures NoDup(b)
  {
    forall i, j | 0 <= i < j < |b| ensures b[i] != b[j] {
      CountOne(a, b[i]);
      TwoPositions(b, i, j);
    }
  }

  /** A permutation has the same members. */
  lemma SameMembers<T>(a: seq<T>, b: seq<T>, x: T)
    requires multiset(a) == multiset(b)
    ensures x in a <==> x in b
  {
    assert x in a <==> x in multiset(a);
    assert x in b <==> x in multiset(b);
  }

  /** A permutation has the same key column, as a set. */
  lemma PermutedKeys<R, K>(a: seq<R>, b: seq<R>, key: R -> K, k: K)
    requires multiset(a) == multiset(b)
    requires k in Keys(a, key)
    ensures k in Keys(b, key)
  {
    var j := KeyWitness(a, key, k);
    SameMembers(a, b, a[j]);
    var i :| 0 <= i < |b| && b[i] == a[j];
    KeysCover(b, key);
  }

  // ---------------------------------------------------------------------------
  // The query

  /** The mean of the values of region name `n`, for a group that has rows. */
  function Mean(facts: seq<Located<PartiFact>>, n: string): (m: real)
    ensures CountAt(facts, RegionName, n) > 0 ==>
      m * (CountAt(facts, RegionName, n) as real) == SumAt(facts, RegionName, Value, n) as real
  {
    var count := CountAt(facts, RegionName, n);
    if count == 0 then 0.0 else (SumAt(facts, RegionName, Value, n) as real) / (count as real)
  }

  function RowName(r: MedRow): string { r.departmentName }

  /** GROUP BY department_name, AVG(value) per group, in group order. */
  function Grouped(facts: seq<Located<PartiFact>>): (rows: seq<MedRow>)
    ensures forall i, j :: 0 <= i < j < |rows| ==> rows[i].departmentName != rows[j].departmentName
    ensures forall n :: n in Keys(rows, RowName) <==> n in Keys(facts, RegionName)
    ensures forall i :: 0 <= i < |rows| ==> rows[i].resultat == Mean(facts, rows[i].departmentName)
  {
    var ks := GroupKeys(facts, RegionName);
    var rows := seq(|ks|, i requires 0 <= i < |ks| => MedRow(ks[i], Mean(facts, ks[i])));
    assert forall i :: 0 <= i < |ks| ==> RowName(rows[i]) == ks[i];
    assert Keys(rows, RowName) == ks;
    rows
  }

  /** get_candidat_med(isFinal, name): one row per region name with results of
      the candidate called `name`, holding their mean, best region first. */
  function CandidatMed(db: Store, isFinal: bool, name: string): (rows: seq<MedRow>)
    ensures NonIncreasing(rows)
    ensures forall i, j :: 0 <= i < j < |rows| ==> rows[i].departmentName != rows[j].departmentName
    ensures forall n :: n in Keys(rows, RowName) <==> n in Keys(MedFacts(db, isFinal, name), RegionName)
    ensures forall i :: 0 <= i < |rows| ==>
      rows[i].resultat == Mean(MedFacts(db, isFinal, name), rows[i].departmentName)
  {
    var facts := MedFacts(db, isFinal, name);
    var grouped := Grouped(facts);
    var rows := SortDesc(grouped);
    SortingKeepsGroups(facts, grouped, rows);
    rows
  }

  /** Reordering the grouped rows keeps every property of the grouping. */
  lemma SortingKeepsGroups(facts: seq<Located<PartiFact>>, grouped: seq<MedRow>, rows: seq<MedRow>)
    requires multiset(rows) == multiset(grouped)
    requires forall i, j :: 0 <= i < j < |grouped| ==> grouped[i].departmentName != grouped[j].departmentName
    requires forall n :: n in Keys(grouped, RowName) <==> n in Keys(facts, RegionName)
    requires forall i :: 0 <= i < |grouped| ==> grouped[i].resultat == Mean(facts, grouped[i].departmentName)
    ensures forall i, j :: 0 <= i < j < |rows| ==> rows[i].departmentName != rows[j].departmentName
    ensures forall n :: n in Keys(rows, RowName) <==> n in Keys(facts, RegionName)
    ensures forall i :: 0 <= i < |rows| ==> rows[i].resultat == Mean(facts, rows[i].departmentName)
  {
    forall i | 0 <= i < |rows| ensures rows[i].resultat == Mean(facts, rows[i].departmentName) {
      SameMembers(grouped, rows, rows[i]);
      var k :| 0 <= k < |grouped| && grouped[k] == rows[i];
    }
    forall n ensures n in Keys(rows, RowName) <==> n in Keys(facts, RegionName) {
      if n in Keys(rows, RowName) {
        PermutedKeys(rows, grouped, RowName, n);
      }
      if n in Keys(grouped, RowName) {
        PermutedKeys(grouped, rows, RowName, n);
      }
    }
    assert NoDup(grouped);
    PermutationNoDup(grouped, rows);
    forall i, j | 0 <= i < j < |rows| ensures rows[i].departmentName != rows[j].departmentName {
      assert rows[i] != rows[j];
    }
  }

  // ---------------------------------------------------------------------------
  // In terms of the store

  /** Result `r` of candidate-party `cp`, whose candidate `c` is called `name`,
      in the presidential ballot `b` of the round, whose department code
      region `g` carries. */
  predicate Named(db: Store, isFinal: bool, name: string,
                  b: UrneVote, r: ResultatCondidatParti, cp: CandidatParti, c: Candidat, g: Region)
  {
    && b in db.urneVotes && r in db.resultats && r.urneVoteId == b.id && Presidential(b, isFinal)
    && cp in db.candidatPartis && cp.id == r.candidatParti
    && c in db.candidats && c.id == cp.candidatId && c.candidatName == name
    && g in db.regions && g.departmentCode == b.regionId
  }

  lemma FactOfNamed(db: Store, isFinal: bool, name: string,
                    b: UrneVote, r: ResultatCondidatParti, cp: CandidatParti, c: Candidat, g: Region)
    requires Named(db, isFinal, name, b, r, cp, c, g)
    ensures Located(PartiFact(b, r, cp), g) in MedFacts(db, isFinal, name)
  {
    var brs := ResultJoin(db.urneVotes, db.resultats, isFinal);
    assert BallotResult(b, r) in brs;
    var pfs := PartiJoin(brs, db.candidatPartis);
    assert PartiFact(b, r, cp) in pfs;
    assert PartiFact(b, r, cp) in NamedCandidatJoin(pfs, db.candidats, name);
  }

  lemma NamedOfFact(db: Store, isFinal: bool, name: string, p: Located<PartiFact>)
    requires p in MedFacts(db, isFinal, name)
    ensures exists c :: Named(db, isFinal, name, p.fact.ballot, p.fact.resultat, p.fact.parti, c, p.region)
  {
    var brs := ResultJoin(db.urneVotes, db.resultats, isFinal);
    var pfs := PartiJoin(brs, db.candidatPartis);
    assert p.fact in NamedCandidatJoin(pfs, db.candidats, name);
    assert BallotResult(p.fact.ballot, p.fact.resultat) in brs;
    var c :| c in db.candidats && c.id == p.fact.parti.candidatId && c.candidatName == name;
    assert Named(db, isFinal, name, p.fact.ballot, p.fact.resultat, p.fact.parti, c, p.region);
  }

  /** Every row is the region name of some result of a candidate called `name`. */
  lemma MedRowHasSource(db: Store, isFinal: bool, name: string, i: nat)
    requires i < |CandidatMed(db, isFinal, name)|
    ensures exists b, r, cp, c, g :: Named(db, isFinal, name, b, r, cp, c, g)
                                     && CandidatMed(db, isFinal, name)[i].departmentName == g.departmentName
  {
    var rows, facts := CandidatMed(db, isFinal, name), MedFacts(db, isFinal, name);
    KeysCover(rows, RowName);
    var j := KeyWitness(facts, RegionName, RowName(rows[i]));
    assert facts[j] in facts;
    NamedOfFact(db, isFinal, name, facts[j]);
  }

  /** Every result of a candidate called `name` shows up in the row of its
      region name. */
  lemma MedSourceHasRow(db: Store, isFinal: bool, name: string,
                        b: UrneVote, r: ResultatCondidatParti, cp: CandidatParti, c: Candidat, g: Region)
    requires Named(db, isFinal, name, b, r, cp, c, g)
    ensures exists i :: 0 <= i < |CandidatMed(db, isFinal, name)|
                        && CandidatMed(db, isFinal, name)[i].departmentName == g.departmentName
  {
    var rows, facts := CandidatMed(db, isFinal, name), MedFacts(db, isFinal, name);
    FactOfNamed(db, isFinal, name, b, r, cp, c, g);
    var j :| 0 <= j < |facts| && facts[j] == Located(PartiFact(b, r, cp), g);
    KeysCover(facts, RegionName);
    assert RegionName(facts[j]) in Keys(rows, RowName);
    var i := KeyWitness(rows, RowName, RegionName(facts[j]));
  }

  /** No result joins with a candidate of a name no candidate carries. */
  lemma {:induction false} NoneNamed(f: PartiFact, cs: seq<Candidat>, name: string)
    requires forall c :: c in cs ==> c.candidatName != name
    ensures NamedOf(f, cs, name) == []
  {
    if cs != [] {
      assert cs[0] in cs;
      assert forall c :: c in cs[1..] ==> c in cs;
      NoneNamed(f, cs[1..], name);
    }
  }

  lemma {:induction false} NoneNamedJoin(fs: seq<PartiFact>, cs: seq<Candidat>, name: string)
    requires forall c :: c in cs ==> c.candidatName != name
    ensures NamedCandidatJoin(fs, cs, name) == []
  {
    if fs != [] {
      NoneNamed(fs[0], cs, name);
      NoneNamedJoin(fs[1..], cs, name);
    }
  }

  /** The name is matched exactly: a name no candidate carries gives no row. */
  lemma UnknownName(db: Store, isFinal: bool, name: string)
    requires forall c :: c in db.candidats ==> c.candidatName != name
    ensures CandidatMed(db, isFinal, name) == []
  {
    NoneNamedJoin(PartiJoin(ResultJoin(db.urneVotes, db.resultats, isFinal), db.candidatPartis), db.candidats, name);
    assert MedFacts(db, isFinal, name) == [];
    assert Keys([], RegionName) == [];
    assert Grouped([]) == [];
  }

  /** A group's sum lies between its size times the least and times the
      greatest of its values. */
  lemma {:induction false} SumAtBetween(facts: seq<Located<PartiFact>>, n: string, lo: int, hi: int)
    requires forall j :: 0 <= j < |facts| && RegionName(facts[j]) == n ==> lo <= Value(facts[j]) <= hi
    ensures CountAt(facts, RegionName, n) * lo <= SumAt(facts, RegionName, Value, n)
                                             <= CountAt(facts, RegionName, n) * hi
  {
    if facts != [] {
      var rest := facts[1..];
      assert forall j :: 0 <= j < |rest| ==> rest[j] == facts[j + 1];
      SumAtBetween(rest, n, lo, hi);
      var c, t := CountAt(rest, RegionName, n), SumAt(rest, RegionName, Value, n);
      if RegionName(facts[0]) == n {
        assert (c + 1) * lo == c * lo + lo && (c + 1) * hi == c * hi + hi;
      }
    }
  }

  /** A quotient by a positive count of a sum between count * lo and count * hi
      lies between lo and hi. */
  lemma QuotientBetween(sum: int, count: int, lo: int, hi: int)
    requires count > 0 && count * lo <= sum <= count * hi
    ensures lo as real <= (sum as real) / (count as real) <= hi as real
  {
    var m := (sum as real) / (count as real);
    assert m * (count as real) == sum as real;
    assert ((count * lo) as real) == (count as real) * (lo as real);
    assert ((count * hi) as real) == (count as real) * (hi as real);
    assert (m - lo as real) * (count as real) == (sum - count * lo) as real;
    assert (hi as real - m) * (count as real) == (count * hi - sum) as real;
  }

  /** AVG lies between the least and the greatest value of its group. */
  lemma MeanBetween(facts: seq<Located<PartiFact>>, n: string, lo: int, hi: int)
    requires n in Keys(facts, RegionName)
    requires forall j :: 0 <= j < |facts| && RegionName(facts[j]) == n ==> lo <= Value(facts[j]) <= hi
    ensures lo as real <= Mean(facts, n) <= hi as real
  {
    var j := KeyWitness(facts, RegionName, n);
    CountAtPositive(facts, RegionName, n);
    SumAtBetween(facts, n, lo, hi);
    QuotientBetween(SumAt(facts, RegionName, Value, n), CountAt(facts, RegionName, n), lo, hi);
  }
}
