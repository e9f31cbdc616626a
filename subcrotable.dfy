/**
  The subcro management table: the flag cells, the add and edit dialogs
  with their schema (which leaves an unset flag out), the values the edit
  dialog opens with, and the update and delete requests for the chosen row.
 */
module SubcroTable {
  import opened Wrappers
  import opened Text
  import opened Json
  import opened Schema
  import opened Http
  import opened FlagSwitch
  import Routes
  import HotelTable

  // ---------------------------------------------------------------------------
  // The flag cells

  /** A flag cell: "Enabled" for exactly the value 1, "Disabled" for NULL, 0 and every other value. */
  function FlagText(v: Option<int>): (r: string)
    ensures r == "Enabled" || r == "Disabled"
    ensures r == "Enabled" <==> v == Some(1)
  {
    if v == Some(1) then "Enabled" else "Disabled"
  }

  // ---------------------------------------------------------------------------
  // The dialogs

  /**
    This page's schema for a flag (`z.coerce.number().optional()`): an unset
    flag stays unset, any other value goes through `Number()`, and `NaN` is
    refused.
   */
  function FormFlag(v: Option<Json>): (r: Option<Field<int>>)
    ensures v.None? ==> r == Some(Absent)
    ensures v.Some? ==> (r.None? <==> NumberOf(v.value).None?)
    ensures v.Some? && r.Some? ==> r.value == Given(NumberOf(v.value).value)
  {
    if v.None? then Some(Absent)
    else
      match NumberOf(v.value)
      case None => None
      case Some(n) => Some(Given(n))
  }

  /** The dialog's data as the schema passes it on; None keeps the dialog open. */
  function FormData(v: SubcroValues): (r: Option<InsertSubcro>)
    ensures r.Some? <==> FormFlag(v.flagcro).Some? && FormFlag(v.webcallback).Some?
    ensures r.Some? ==> && r.value.maincro == v.maincro && r.value.subcro == v.subcro
                        && r.value.labelText == Given(v.labelText)
                        && Some(r.value.flagcro) == FormFlag(v.flagcro)
                        && Some(r.value.webcallback) == FormFlag(v.webcallback)
  {
    match (FormFlag(v.flagcro), FormFlag(v.webcallback))
    case (Some(f), Some(w)) => Some(InsertSubcro(v.maincro, v.subcro, Given(v.labelText), f, w))
    case _ => None
  }

  /**
    The two pages' schemas agree on every value the form holds for a flag
    and differ only on an unset one: the hotel page's schema gives 0, this
    page's leaves it out. Both dialogs start with the flags set, so no
    dialog reaches the unset case; the difference lies in the schemas.
   */
  lemma SchemasDifferOnUnset(v: Option<Json>)
    ensures v.Some? ==> FormFlag(v) == HotelTable.FormFlag(v)
    ensures v.None? ==> FormFlag(v) == Some(Absent) && HotelTable.FormFlag(v) == Some(Given(0))
  {
  }

  /** POST /api/subcro with the add dialog's data. */
  function CreateRequest(v: SubcroValues): (r: Option<Request>)
    ensures r.Some? <==> FormData(v).Some?
  {
    match FormData(v)
    case None => None
    case Some(d) => Some(Request(Post, "/api/subcro", map[], SubcroJson(d)))
  }

  /**
    The server creates the subcro the add dialog holds; a flag left unset
    would not be in the body, and the column would be stored NULL, which
    the table shows as "Disabled". The dialog's default values set both
    flags, so no dialog reaches the unset case; it shows what the schema does.
   */
  lemma UnsetFlagStoredNull(v: SubcroValues, id: int, current: Option<User>, isEmail: string -> bool)
    requires FormData(v).Some?
    ensures var d := FormData(v).value;
      && Routes.Decide(Routes.CreateSubcro, "", CreateRequest(v).value, current, isEmail)
           == Routes.Invoke(Routes.CreateSubcroCall(d))
      && (v.flagcro.None? ==> Member(CreateRequest(v).value.body, "flagcro").None?
                              && NewSubcro(id, d).flagcro.None? && FlagText(NewSubcro(id, d).flagcro) == "Disabled")
      && (v.webcallback.None? ==> Member(CreateRequest(v).value.body, "webcallback").None?
                                  && NewSubcro(id, d).webcallback.None?)
  {
    var d := FormData(v).value;
    SubcroRoundTrip(d);
    Routes.CreateSubcroDecided(CreateRequest(v).value, current, isEmail);
    if v.flagcro.None? {
      assert OptionalNum(SubcroJson(d), "flagcro") == Some(Absent);
    }
    if v.webcallback.None? {
      assert OptionalNum(SubcroJson(d), "webcallback") == Some(Absent);
    }
  }

  // ---------------------------------------------------------------------------
  // Editing

  /**
    `editForm.reset` with the edited row: a NULL or empty label becomes "",
    a NULL flag becomes 0, and every flag value, 0 included, is kept.
   */
  function EditDefaults(s: Subcro): (r: SubcroValues)
    ensures r.maincro == s.maincro && r.subcro == s.subcro
    ensures r.labelText == if s.labelText.Some? then s.labelText.value else ""
    ensures s.flagcro.Some? ==> r.flagcro == Some(Num(s.flagcro.value))
    ensures s.flagcro.None? ==> r.flagcro == Some(Num(0))
    ensures s.webcallback.Some? ==> r.webcallback == Some(Num(s.webcallback.value))
    ensures s.webcallback.None? ==> r.webcallback == Some(Num(0))
  {
    SubcroValues(s.maincro, s.subcro,
                 if s.labelText.Some? && s.labelText.value != "" then s.labelText.value else "",
                 Some(Num(if s.flagcro.None? then 0 else s.flagcro.value)),
                 Some(Num(if s.webcallback.None? then 0 else s.webcallback.value)))
  }

  /** The switches in the edit dialog are on exactly where the row's cells read "Enabled". */
  lemma EditSwitchesMatchCells(s: Subcro)
    ensures Checked(EditDefaults(s).flagcro.value) <==> FlagText(s.flagcro) == "Enabled"
    ensures Checked(EditDefaults(s).webcallback.value) <==> FlagText(s.webcallback) == "Enabled"
  {
  }

  /**
    The hotel page's `|| 0` and this page's `?? 0` give the same flag
    numbers for every row; the label differs only where it is blank, which
    the hotel page shows as 'N/A' and the edit dialog as "".
   */
  lemma HotelInfoAgreesWithEditForm(s: Subcro)
    ensures EditDefaults(s).flagcro == Some(Num(HotelTable.OrZero(s.flagcro)))
    ensures EditDefaults(s).webcallback == Some(Num(HotelTable.OrZero(s.webcallback)))
    ensures EditDefaults(s).labelText != "" ==> HotelTable.LabelShown(s.labelText) == EditDefaults(s).labelText
    ensures EditDefaults(s).labelText == "" ==> HotelTable.LabelShown(s.labelText) == "N/A"
  {
  }

  /**
    Saving the edit dialog as it opened passes the schema and keeps the
    row's key, names and both flag cells; it writes 0 over a NULL flag and
    "" over a NULL label.
   */
  lemma UnchangedEditKeepsCells(s: Subcro)
    ensures FormData(EditDefaults(s)).Some?
    ensures var u := UpdatedSubcro(s, FormData(EditDefaults(s)).value);
      && u.id == s.id && u.maincro == s.maincro && u.subcro == s.subcro
      && FlagText(u.flagcro) == FlagText(s.flagcro) && FlagText(u.webcallback) == FlagText(s.webcallback)
      && u.flagcro.Some? && u.webcallback.Some?
      && u.labelText == Some(if s.labelText.Some? then s.labelText.value else "")
  {
  }

  /** The path of a subcro row. */
  function SubcroPath(id: int): string {
    "/api/subcro/" + IntText(id)
  }

  /** The edit submit: PUT to the edited row's id with the dialog's data; nothing without a row being edited. */
  function UpdateRequest(editing: Option<Subcro>, v: SubcroValues): (r: Option<Request>)
    ensures r.Some? <==> editing.Some? && FormData(v).Some?
    ensures r.Some? ==> r.value.verb == Put && r.value.path == SubcroPath(editing.value.id)
  {
    if editing.None? || FormData(v).None? then None
    else Some(Request(Put, SubcroPath(editing.value.id), map[], SubcroJson(FormData(v).value)))
  }

  /** The delete confirmation: DELETE to the chosen row's id. */
  function DeleteRequest(deleting: Option<Subcro>): (r: Option<Request>)
    ensures r.Some? <==> deleting.Some?
    ensures r.Some? ==> r.value.verb == Delete && r.value.path == SubcroPath(deleting.value.id)
  {
    if deleting.None? then None else Some(Request(Delete, SubcroPath(deleting.value.id), map[], Null))
  }

  /** The id segment of the path arrives as the route parameter. */
  lemma SubcroPathParts(id: int)
    ensures Routes.PathParts(SubcroPath(id)) == ["", "api", "subcro", IntText(id)]
  {
    Routes.IdPathParts("subcro", id);
    assert SubcroPath(id) == "/api/" + "subcro" + "/" + IntText(id);
  }

  /**
    The edit updates the row chosen in the table, by its id, with the
    dialog's data; the dialog has no id field that could redirect it.
   */
  lemma UpdateTargetsChosenRow(s: Subcro, v: SubcroValues, current: Option<User>, isEmail: string -> bool)
    requires FormData(v).Some?
    ensures Routes.Decide(Routes.UpdateSubcro, IntText(s.id), UpdateRequest(Some(s), v).value, current, isEmail)
      == Routes.Invoke(Routes.UpdateSubcroCall(s.id, FormData(v).value))
  {
    ParseIntText(s.id);
    SubcroRoundTrip(FormData(v).value);
    Routes.UpdateSubcroDecided(IntText(s.id), UpdateRequest(Some(s), v).value, current, isEmail);
  }

  /** The delete confirmation deletes exactly the chosen row's id. */
  lemma DeleteTargetsChosenRow(s: Subcro, current: Option<User>, isEmail: string -> bool)
    ensures Routes.Decide(Routes.DeleteSubcro, IntText(s.id), DeleteRequest(Some(s)).value, current, isEmail)
      == Routes.Invoke(Routes.DeleteSubcroCall(s.id))
  {
    ParseIntText(s.id);
    Routes.DeleteSubcroDecided(IntText(s.id), DeleteRequest(Some(s)).value, current, isEmail);
  }
}
