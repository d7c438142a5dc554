/**
 * The `Reg` table as a sequence of rows in storage order. `stu_id` is not
 * unique in the schema, so a query by student id takes the first row that
 * has it.
 */
module Records {

  datatype Option<T> = None | Some(value: T)

  /** The creation time, left uninterpreted: it is set once and never changed. */
  type Timestamp = int

  /** One registration row (the surrogate primary key `id` is not modelled). */
  datatype Reg = Reg(
    name: string,
    stuId: string,
    majorClass: string,
    firstChoice: string,
    secondChoice: string,
    intro: string,
    time: Timestamp)

  /** `Reg.query.filter_by(stu_id=id).first()`: the index of the first row with that id. */
  function FindFirst(rs: seq<Reg>, id: string): (r: Option<nat>)
    ensures r.Some? ==> r.value < |rs| && rs[r.value].stuId == id
    ensures r.Some? ==> forall j :: 0 <= j < r.value ==> rs[j].stuId != id
    ensures r.None? <==> forall j :: 0 <= j < |rs| ==> rs[j].stuId != id
  {
    if |rs| == 0 then None
    else if rs[0].stuId == id then Some(0)
    else match FindFirst(rs[1..], id)
      case None => None
      case Some(i) => Some(i + 1)
  }

  /** The intended invariant: at most one row per student id. */
  predicate UniqueIds(rs: seq<Reg>)
  {
    forall i, j :: 0 <= i < j < |rs| ==> rs[i].stuId != rs[j].stuId
  }

  /** The number of rows holding student id `id`. */
  function CountId(rs: seq<Reg>, id: string): (n: nat)
    ensures n <= |rs|
  {
    if |rs| == 0 then 0
    else (if rs[0].stuId == id then 1 else 0) + CountId(rs[1..], id)
  }

  /** The table without row `i`; the other rows keep their order. */
  function RemoveAt(rs: seq<Reg>, i: nat): (rs': seq<Reg>)
    requires i < |rs|
    ensures |rs'| == |rs| - 1
    ensures forall j :: 0 <= j < i ==> rs'[j] == rs[j]
    ensures forall j :: i <= j < |rs'| ==> rs'[j] == rs[j + 1]
  {
    rs[..i] + rs[i + 1..]
  }

  /** Under the invariant, "at most one row per id" is literally a count of at most one. */
  lemma {:induction false} UniqueIdsCount(rs: seq<Reg>, id: string)
    requires UniqueIds(rs)
    ensures CountId(rs, id) <= 1
    ensures CountId(rs, id) == 1 <==> exists j :: 0 <= j < |rs| && rs[j].stuId == id
  {
    if |rs| > 0 {
      UniqueIdsCount(rs[1..], id);
      if rs[0].stuId == id {
        assert forall j :: 0 <= j < |rs[1..]| ==> rs[1..][j].stuId != id by {
          forall j | 0 <= j < |rs[1..]| ensures rs[1..][j].stuId != id {
            assert rs[1..][j] == rs[j + 1];
          }
        }
      } else if exists j :: 0 <= j < |rs| && rs[j].stuId == id {
        var j :| 0 <= j < |rs| && rs[j].stuId == id;
        assert rs[1..][j - 1] == rs[j];
      }
    }
  }

  /** Appending a row whose id no row has keeps the invariant. */
  lemma AppendFreshKeepsUnique(rs: seq<Reg>, r: Reg)
    requires UniqueIds(rs)
    requires forall j :: 0 <= j < |rs| ==> rs[j].stuId != r.stuId
    ensures UniqueIds(rs + [r])
  {
  }

  /** Rewriting a row without touching its id keeps the invariant. */
  lemma SameIdsKeepUnique(rs: seq<Reg>, rs': seq<Reg>)
    requires UniqueIds(rs)
    requires |rs'| == |rs|
    requires forall j :: 0 <= j < |rs| ==> rs'[j].stuId == rs[j].stuId
    ensures UniqueIds(rs')
  {
  }

  /** Removing a row keeps the invariant. */
  lemma RemoveAtKeepsUnique(rs: seq<Reg>, i: nat)
    requires UniqueIds(rs)
    requires i < |rs|
    ensures UniqueIds(RemoveAt(rs, i))
  {
    var rs' := RemoveAt(rs, i);
    forall a, b | 0 <= a < b < |rs'| ensures rs'[a].stuId != rs'[b].stuId {
      var a0 := if a < i then a else a + 1;
      var b0 := if b < i then b else b + 1;
      assert rs'[a] == rs[a0] && rs'[b] == rs[b0] && a0 < b0;
    }
  }

  /** Under the invariant, removing the row with id `id` leaves no row with that id. */
  lemma RemoveFirstLeavesNone(rs: seq<Reg>, id: string)
    requires UniqueIds(rs)
    requires FindFirst(rs, id).Some?
    ensures forall j :: 0 <= j < |rs| - 1 ==> RemoveAt(rs, FindFirst(rs, id).value)[j].stuId != id
  {
  }

  /**
   * Under the invariant the first match is the only match, so it carries a
   * given name exactly when some row has both the id and the name.
   */
  lemma FirstMatchIsOnlyMatch(rs: seq<Reg>, id: string, name: string)
    requires UniqueIds(rs)
    ensures (FindFirst(rs, id).Some? && rs[FindFirst(rs, id).value].name == name)
            <==> exists k :: 0 <= k < |rs| && rs[k].stuId == id && rs[k].name == name
  {
    if exists k :: 0 <= k < |rs| && rs[k].stuId == id && rs[k].name == name {
      var k :| 0 <= k < |rs| && rs[k].stuId == id && rs[k].name == name;
      var i := FindFirst(rs, id).value;
      assert i == k by {
        if i < k { assert rs[i].stuId == rs[k].stuId; }
      }
    }
  }
}
