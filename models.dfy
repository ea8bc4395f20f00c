/** The election store: the record shapes of the six tables the queries read.
    Every table is a finite sequence of rows; nothing in the model writes to it. */
module Models {

  /** Table `region`. Ballots refer to a region through `departmentCode`, which
      the schema does not declare unique. */
  datatype Region = Region(id: int, departmentCode: int, departmentName: string)

  /** Table `candidat`. */
  datatype Candidat = Candidat(id: int, candidatName: string)

  /** Table `candidat_parti`: a candidate running for a party, tagged with a
      political tendency (`courant`). */
  datatype CandidatParti = CandidatParti(id: int, courant: string, candidatId: int, partiId: int)

  /** Table `urne_vote`: one ballot box of one year, round and election type.
      `finalRound` is false for the first round; `isLegis` is false for a
      presidential election. */
  datatype UrneVote = UrneVote(
    id: int, circonscription: int, regionId: int, annee: string,
    finalRound: bool, isLegis: bool)

  /** Table `resultat_candidat`: the votes one candidate-party got in one ballot
      box (the type name keeps the spelling of the schema's class). */
  datatype ResultatCondidatParti = ResultatCondidatParti(id: int, urneVoteId: int, candidatParti: int, value: int)

  /** Table `resultat_metainfo`: the four counters of one ballot box. */
  datatype ResultatMetaInfo = ResultatMetaInfo(
    id: int, urneVoteId: int, inscripts: int, votants: int, nullparts: int, exprimes: int)

  /** The tables the queries read, as they stand in the database. */
  datatype Store = Store(
    regions: seq<Region>,
    candidats: seq<Candidat>,
    candidatPartis: seq<CandidatParti>,
    urneVotes: seq<UrneVote>,
    resultats: seq<ResultatCondidatParti>,
    metaInfos: seq<ResultatMetaInfo>)

  /** A value SQL may leave NULL. */
  datatype Option<T> = None | Some(value: T)

  /** The filter `is_legis == 0 AND final_round == finalRound` every query applies. */
  predicate Presidential(b: UrneVote, finalRound: bool)
  {
    !b.isLegis && b.finalRound == finalRound
  }
}
