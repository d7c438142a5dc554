/**
 * The Flask handlers of app.py as methods on one object that owns the two
 * tables: `records` (the `Reg` rows in storage order) and `config` (the
 * `Config` rows). Each handler returns what its page shows instead of
 * rendering it; redirects return nothing.
 */
module App {
  import opened Text
  import opened Flags
  import opened Records
  import opened Submission
  import opened Download

  /** What the form page shows on a GET. */
  datatype FormPage =
    | ClosedForm
    | BlankForm(editOpen: bool)
    | Prefilled(name: string, stuId: string, first: string, second: string, intro: string, editOpen: bool)

  /** What the edit page shows after a POST of name and student id. */
  datatype EditOutcome =
    | RegistrationClosed
    | EditingClosed
    | NotFound
    | Mismatch
    | Found(rec: Reg)

  /** `delete_one` either deletes a row or answers 404. */
  datatype DeleteOutcome = Deleted | Missing

  class RegistrationSystem {
    var records: seq<Reg>
    var config: Config

    /** Both flag rows exist; the startup block establishes this and nothing removes them. */
    ghost predicate Valid()
      reads this
    {
      AllowKey in config && AllowEditKey in config
    }

    /**
     * Application startup over an existing database: the tables keep their
     * rows and each missing flag row is added with value "1".
     */
    constructor (stored: seq<Reg>, storedConfig: Config)
      ensures Valid()
      ensures records == stored
      ensures config == Initialized(storedConfig)
    {
      records := stored;
      var c := storedConfig;
      if AllowKey !in c {
        c := c[AllowKey := "1"];
      }
      if AllowEditKey !in c {
        c := c[AllowEditKey := "1"];
      }
      config := c;
    }

    /** `allow_register()`: on when the `allow` row is missing or holds "1". */
    function AllowRegister(): (on: bool)
      reads this
      ensures AllowKey !in config ==> on
      ensures AllowKey in config ==> (on <==> config[AllowKey] == "1")
    {
      Flag(config, AllowKey)
    }

    /** `allow_edit()`: on when the `allow_edit` row is missing or holds "1". */
    function AllowEdit(): (on: bool)
      reads this
      ensures AllowEditKey !in config ==> on
      ensures AllowEditKey in config ==> (on <==> config[AllowEditKey] == "1")
    {
      Flag(config, AllowEditKey)
    }

    /**
     * POST to the form: the outcome and the new table are those of
     * SubmitStep; the config is not touched, and a table with at most one
     * row per student id keeps that property.
     */
    method Submit(f: Form, now: Timestamp) returns (out: SubmitOutcome)
      modifies this
      ensures (out, records) == SubmitStep(old(records), old(config), f, now)
      ensures config == old(config)
      ensures UniqueIds(old(records)) ==> UniqueIds(records)
    {
      if !AllowRegister() {
        return Closed;
      }
      var name := Strip(f.name);
      var id := Strip(f.stuId);
      var exist := FindFirst(records, id);
      if exist.Some? {
        var i := exist.value;
        if records[i].name != name {
          return Conflict(AllowEdit());
        }
        var r := records[i];
        r := r.(firstChoice := f.first);
        r := r.(secondChoice := f.second);
        r := r.(intro := Truncate(f.intro, IntroLimit));
        records := records[i := r];
        out := Updated(name, id, AllowEdit());
      } else {
        records := records + [Reg(name, id, f.majorClass, f.first, f.second, Truncate(f.intro, IntroLimit), now)];
        out := Created(name, id, AllowEdit());
      }
      if UniqueIds(old(records)) {
        SubmitKeepsUniqueIds(old(records), config, f, now);
      }
    }

    /**
     * GET of the form: closed when registration is closed; otherwise the
     * row of the session's student id (no strip, empty counts as none)
     * pre-fills the form when one exists.
     */
    method FormView(sessionStuId: Option<string>) returns (page: FormPage)
      ensures page.ClosedForm? <==> !AllowRegister()
      ensures page.Prefilled? <==>
        AllowRegister() && sessionStuId.Some? && sessionStuId.value != ""
        && exists k :: 0 <= k < |records| && records[k].stuId == sessionStuId.value
      ensures page.Prefilled? ==>
        var r := records[FindFirst(records, sessionStuId.value).value];
        page == Prefilled(r.name, r.stuId, r.firstChoice, r.secondChoice, r.intro, AllowEdit())
      ensures page.BlankForm? ==> page.editOpen == AllowEdit()
    {
      if !AllowRegister() {
        return ClosedForm;
      }
      if sessionStuId.Some? && sessionStuId.value != "" {
        var found := FindFirst(records, sessionStuId.value);
        if found.Some? {
          var r := records[found.value];
          return Prefilled(r.name, r.stuId, r.firstChoice, r.secondChoice, r.intro, AllowEdit());
        }
      }
      page := BlankForm(AllowEdit());
    }

    /**
     * POST to the edit page. Registration closed is reported before
     * editing closed; then the stripped id is looked up and its first row
     * must carry the stripped name. Nothing is changed.
     */
    method EditLookup(name: string, stuId: string) returns (out: EditOutcome)
      ensures out.RegistrationClosed? <==> !AllowRegister()
      ensures out.EditingClosed? <==> AllowRegister() && !AllowEdit()
      ensures out.NotFound? <==>
        AllowRegister() && AllowEdit() && forall k :: 0 <= k < |records| ==> records[k].stuId != Strip(stuId)
      ensures out.Mismatch? <==>
        AllowRegister() && AllowEdit() && FindFirst(records, Strip(stuId)).Some?
        && records[FindFirst(records, Strip(stuId)).value].name != Strip(name)
      ensures out.Found? <==>
        AllowRegister() && AllowEdit() && FindFirst(records, Strip(stuId)).Some?
        && records[FindFirst(records, Strip(stuId)).value].name == Strip(name)
      ensures out.Found? ==>
        out.rec == records[FindFirst(records, Strip(stuId)).value]
        && out.rec.stuId == Strip(stuId) && out.rec.name == Strip(name)
      ensures UniqueIds(records) && AllowRegister() && AllowEdit() ==>
        (out.Found? <==> exists k :: 0 <= k < |records| && records[k].stuId == Strip(stuId) && records[k].name == Strip(name))
    {
      if !AllowRegister() {
        return RegistrationClosed;
      }
      if !AllowEdit() {
        return EditingClosed;
      }
      var n := Strip(name);
      var id := Strip(stuId);
      var rec := FindFirst(records, id);
      if UniqueIds(records) {
        FirstMatchIsOnlyMatch(records, id, n);
      }
      if rec.None? {
        return NotFound;
      }
      if records[rec.value].name != n {
        return Mismatch;
      }
      out := Found(records[rec.value]);
    }

    /**
     * POST to the admin page: `toggle` flips `allow`, `toggle_edit` flips
     * `allow_edit`, each only when present. The table is not touched.
     */
    method Admin(toggle: bool, toggleEdit: bool)
      requires Valid()
      modifies this
      ensures Valid()
      ensures config == ToggleRequest(old(config), toggle, toggleEdit)
      ensures records == old(records)
    {
      if toggle {
        config := config[AllowKey := Flipped(config[AllowKey])];
      }
      if toggleEdit {
        config := config[AllowEditKey := Flipped(config[AllowEditKey])];
      }
    }

    /**
     * `delete_one`: the first row with the posted id is removed and the
     * others keep their order; a missing field or an id no row has is a 404
     * that changes nothing. The id is not stripped.
     */
    method DeleteOne(stuId: Option<string>) returns (out: DeleteOutcome)
      modifies this
      ensures config == old(config)
      ensures out.Missing? <==> stuId.None? || forall k :: 0 <= k < |old(records)| ==> old(records)[k].stuId != stuId.value
      ensures out.Missing? ==> records == old(records)
      ensures out.Deleted? ==> records == RemoveAt(old(records), FindFirst(old(records), stuId.value).value)
      ensures UniqueIds(old(records)) ==> UniqueIds(records)
    {
      if stuId.None? {
        return Missing;
      }
      var reg := FindFirst(records, stuId.value);
      if reg.None? {
        return Missing;
      }
      if UniqueIds(records) {
        RemoveAtKeepsUnique(records, reg.value);
      }
      records := RemoveAt(records, reg.value);
      out := Deleted;
    }

    /** `delete_all`: every row is removed; the config stays. */
    method DeleteAll()
      modifies this
      ensures records == []
      ensures config == old(config)
    {
      records := [];
    }

    /**
     * `download`: the header row, then one row per registration in
     * (first choice, second choice) order.
     */
    method ExportRows() returns (rows: seq<Row>)
      ensures |rows| == |records| + 1
      ensures rows[0] == Header
      ensures forall k :: 0 <= k < |records| ==> rows[k + 1] == RowOf(SortByChoices(records)[k])
    {
      var regs := SortByChoices(records);
      rows := [Header];
      var i := 0;
      while i < |regs|
        invariant 0 <= i <= |regs|
        invariant |rows| == i + 1
        invariant rows[0] == Header
        invariant forall k :: 0 <= k < i ==> rows[k + 1] == RowOf(regs[k])
      {
        rows := rows + [RowOf(regs[i])];
        i := i + 1;
      }
    }
  }
}
