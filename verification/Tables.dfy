/** What the tables have in common: optional columns and row ids. */
module Tables {

  datatype Option<+T> = None | Some(value: T)

  type Id = nat

  // ----- Row ids: one more than the largest in the table. -----

  lemma {:induction false} MaxExists(ids: set<Id>)
    requires ids != {}
    ensures exists m :: m in ids && forall i <- ids :: i <= m
  {
    var x :| x in ids;
    if ids - {x} != {} {
      MaxExists(ids - {x});
      var m :| m in ids - {x} && forall i <- ids - {x} :: i <= m;
      var top := if m < x then x else m;
      forall i | i in ids ensures i <= top {
        assert i == x || i in ids - {x};
      }
    } else {
      assert ids == {x};
      assert x in ids && forall i <- ids :: i <= x;
    }
  }

  ghost function MaxId(ids: set<Id>): (m: Id)
    requires ids != {}
    ensures m in ids && forall i <- ids :: i <= m
  {
    MaxExists(ids);
    var m :| m in ids && forall i <- ids :: i <= m;
    m
  }

  /** Not AUTOINCREMENT: deleting the row with the largest id frees that id. */
  ghost function NextId(ids: set<Id>): (n: Id)
    ensures n !in ids && n > 0 && forall i <- ids :: i < n
  {
    if ids == {} then 1 else MaxId(ids) + 1
  }
}
