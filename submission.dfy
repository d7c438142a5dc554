/**
 * The registration form's POST path (`index` in app.py) as a function from
 * the table, the config and the submitted form to the rendered outcome and
 * the new table. The config is only read.
 */
module Submission {
  import opened Text
  import opened Flags
  import opened Records

  /** The longest introduction that is stored; longer ones are cut. */
  const IntroLimit: nat := 200

  /** The fields of the posted form, as sent. */
  datatype Form = Form(
    name: string,
    stuId: string,
    majorClass: string,
    first: string,
    second: string,
    intro: string)

  /**
   * What the form page shows after a POST. `editOpen` is the
   * `allow_edit` flag passed to the page.
   */
  datatype SubmitOutcome =
    | Closed
    | Conflict(editOpen: bool)
    | Updated(name: string, stuId: string, editOpen: bool)
    | Created(name: string, stuId: string, editOpen: bool)

  /** The row a first submission creates, stamped with the time of the insert. */
  function NewReg(f: Form, now: Timestamp): (r: Reg)
    ensures r.name == Strip(f.name) && r.stuId == Strip(f.stuId)
    ensures r.majorClass == f.majorClass
    ensures r.firstChoice == f.first && r.secondChoice == f.second
    ensures r.intro == Truncate(f.intro, IntroLimit) && |r.intro| <= IntroLimit
    ensures r.time == now
  {
    Reg(Strip(f.name), Strip(f.stuId), f.majorClass, f.first, f.second, Truncate(f.intro, IntroLimit), now)
  }

  /** The matching row with the new choices and introduction; nothing else of it changes. */
  function Revised(r: Reg, f: Form): (r': Reg)
    ensures r'.name == r.name && r'.stuId == r.stuId
    ensures r'.majorClass == r.majorClass && r'.time == r.time
    ensures r'.firstChoice == f.first && r'.secondChoice == f.second
    ensures r'.intro == Truncate(f.intro, IntroLimit)
  {
    r.(firstChoice := f.first, secondChoice := f.second, intro := Truncate(f.intro, IntroLimit))
  }

  /**
   * One POST of the form. Closed: nothing happens. Otherwise the stripped
   * id is looked up; a first match with another name is a conflict, one
   * with the same name is revised in place, and no match appends a row.
   */
  function SubmitStep(rs: seq<Reg>, c: Config, f: Form, now: Timestamp): (res: (SubmitOutcome, seq<Reg>))
    ensures res.0.Closed? <==> !Flag(c, AllowKey)
    ensures |res.1| == |rs| + (if res.0.Created? then 1 else 0)
    ensures res.0.Closed? || res.0.Conflict? ==> res.1 == rs
  {
    if !Flag(c, AllowKey) then (Closed, rs)
    else
      var name := Strip(f.name);
      var id := Strip(f.stuId);
      var editOpen := Flag(c, AllowEditKey);
      match FindFirst(rs, id)
      case Some(i) =>
        if rs[i].name != name then (Conflict(editOpen), rs)
        else (Updated(name, id, editOpen), rs[i := Revised(rs[i], f)])
      case None =>
        (Created(name, id, editOpen), rs + [NewReg(f, now)])
  }

  /** Registration closed: the table is untouched whatever is posted. */
  lemma SubmitWhenClosed(rs: seq<Reg>, c: Config, f: Form, now: Timestamp)
    requires !Flag(c, AllowKey)
    ensures SubmitStep(rs, c, f, now) == (Closed, rs)
  {
  }

  /** A stripped id no row has: exactly one row is appended, holding the submitted values. */
  lemma SubmitFreshId(rs: seq<Reg>, c: Config, f: Form, now: Timestamp)
    requires Flag(c, AllowKey)
    requires forall j :: 0 <= j < |rs| ==> rs[j].stuId != Strip(f.stuId)
    ensures SubmitStep(rs, c, f, now).0 == Created(Strip(f.name), Strip(f.stuId), Flag(c, AllowEditKey))
    ensures SubmitStep(rs, c, f, now).1 == rs + [NewReg(f, now)]
  {
  }

  /** An id whose first row has another name: conflict, and the table is untouched. */
  lemma SubmitConflict(rs: seq<Reg>, c: Config, f: Form, now: Timestamp)
    requires Flag(c, AllowKey)
    ensures var found := FindFirst(rs, Strip(f.stuId));
            found.Some? && rs[found.value].name != Strip(f.name) ==>
              SubmitStep(rs, c, f, now) == (Conflict(Flag(c, AllowEditKey)), rs)
  {
  }

  /**
   * An id held by a row with the same name: only that first row's choices and
   * introduction change; its name, id, class and time and every other row stay.
   */
  lemma SubmitUpdate(rs: seq<Reg>, c: Config, f: Form, now: Timestamp)
    requires Flag(c, AllowKey)
    ensures var found := FindFirst(rs, Strip(f.stuId));
            var res := SubmitStep(rs, c, f, now);
            found.Some? && rs[found.value].name == Strip(f.name) ==>
              && res.0 == Updated(Strip(f.name), Strip(f.stuId), Flag(c, AllowEditKey))
              && |res.1| == |rs|
              && (forall j :: 0 <= j < |rs| && j != found.value ==> res.1[j] == rs[j])
              && res.1[found.value] == rs[found.value].(firstChoice := f.first, secondChoice := f.second,
                                                        intro := Truncate(f.intro, IntroLimit))
  {
  }

  /** Every submission keeps "at most one row per student id". */
  lemma SubmitKeepsUniqueIds(rs: seq<Reg>, c: Config, f: Form, now: Timestamp)
    requires UniqueIds(rs)
    ensures UniqueIds(SubmitStep(rs, c, f, now).1)
  {
    var rs' := SubmitStep(rs, c, f, now).1;
    if Flag(c, AllowKey) {
      match FindFirst(rs, Strip(f.stuId))
      case Some(i) =>
        SameIdsKeepUnique(rs, rs');
      case None =>
        AppendFreshKeepsUnique(rs, NewReg(f, now));
    }
  }

  /**
   * After a create or an update, looking the stripped id up again finds the
   * submitted name and choices, and (from a table that keeps the invariant)
   * exactly one row holds that id.
   */
  lemma SubmitThenLookup(rs: seq<Reg>, c: Config, f: Form, now: Timestamp)
    requires UniqueIds(rs)
    ensures var res := SubmitStep(rs, c, f, now);
            var found := FindFirst(res.1, Strip(f.stuId));
            res.0.Created? || res.0.Updated? ==>
              && found.Some?
              && res.1[found.value].name == Strip(f.name)
              && res.1[found.value].firstChoice == f.first
              && res.1[found.value].secondChoice == f.second
              && res.1[found.value].intro == Truncate(f.intro, IntroLimit)
              && CountId(res.1, Strip(f.stuId)) == 1
  {
    var id := Strip(f.stuId);
    var rs' := SubmitStep(rs, c, f, now).1;
    SubmitKeepsUniqueIds(rs, c, f, now);
    if !Flag(c, AllowKey) {
      return;
    }
    match FindFirst(rs, id) {
      case Some(i) =>
        assert rs'[i].stuId == id;
        assert FindFirst(rs', id) == Some(i) by {
          assert forall j :: 0 <= j < i ==> rs'[j] == rs[j];
        }
      case None =>
        assert rs'[|rs|].stuId == id;
        assert FindFirst(rs', id) == Some(|rs|) by {
          assert forall j :: 0 <= j < |rs| ==> rs'[j] == rs[j];
        }
    }
    UniqueIdsCount(rs', id);
  }

  /**
   * Submitting twice with the same name and id (registration open) leaves a
   * single row for that id, carrying the second submission's choices and the
   * first submission's class and time.
   */
  lemma ResubmitUpdatesNotDuplicates(rs: seq<Reg>, c: Config, f1: Form, f2: Form, t1: Timestamp, t2: Timestamp)
    requires UniqueIds(rs)
    requires Flag(c, AllowKey)
    requires forall j :: 0 <= j < |rs| ==> rs[j].stuId != Strip(f1.stuId)
    requires Strip(f2.stuId) == Strip(f1.stuId) && Strip(f2.name) == Strip(f1.name)
    ensures var rs2 := SubmitStep(SubmitStep(rs, c, f1, t1).1, c, f2, t2).1;
            && |rs2| == |rs| + 1
            && CountId(rs2, Strip(f1.stuId)) == 1
            && rs2[|rs|] == NewReg(f1, t1).(firstChoice := f2.first, secondChoice := f2.second, intro := Truncate(f2.intro, IntroLimit))
  {
    var rs1 := SubmitStep(rs, c, f1, t1).1;
    SubmitFreshId(rs, c, f1, t1);
    SubmitThenLookup(rs, c, f1, t1);
    assert FindFirst(rs1, Strip(f1.stuId)) == Some(|rs|) by {
      assert forall j :: 0 <= j < |rs| ==> rs1[j] == rs[j];
    }
    SubmitUpdate(rs1, c, f2, t2);
    SubmitThenLookup(rs1, c, f2, t2);
  }

  /**
   * Toggling `allow` on an open system closes it: a submission then changes
   * nothing. Toggling it again opens it; editing's flag is unaffected.
   */
  lemma ToggleGatesSubmission(rs: seq<Reg>, c: Config, f: Form, now: Timestamp)
    requires AllowKey in c && AllowEditKey in c
    requires Flag(c, AllowKey)
    ensures SubmitStep(rs, ToggleRequest(c, true, false), f, now) == (Closed, rs)
    ensures Flag(ToggleRequest(ToggleRequest(c, true, false), true, false), AllowKey)
    ensures Flag(ToggleRequest(c, true, false), AllowEditKey) == Flag(c, AllowEditKey)
  {
    ToggleRequestFlips(c, true, false);
    ToggleRequestFlips(ToggleRequest(c, true, false), true, false);
  }
}
