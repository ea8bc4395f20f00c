/** get_departements: the `department_name` column of table `region`. */
module Departements {
  import opened Models

  /** One name per region row, in table order, duplicates kept. */
  function Departements(db: Store): (names: seq<string>)
    ensures |names| == |db.regions|
    ensures forall i :: 0 <= i < |db.regions| ==> names[i] == db.regions[i].departmentName
  {
    seq(|db.regions|, i requires 0 <= i < |db.regions| => db.regions[i].departmentName)
  }

  /** The name of every region row is listed. */
  lemma {:induction false} DepartementsListsEveryRegion(db: Store, g: Region)
    requires g in db.regions
    ensures g.departmentName in Departements(db)
  {
    var i :| 0 <= i < |db.regions| && db.regions[i] == g;
    assert Departements(db)[i] == g.departmentName;
  }
}
