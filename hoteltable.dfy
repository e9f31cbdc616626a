/**
  The hotel management table: the subcro columns looked up from the loaded
  subcro list, the add, edit and delete requests, and the dialog that
  creates a subcro from the add-hotel form and selects it there.
 */
module HotelTable {
  import opened Wrappers
  import opened Json
  import opened Schema
  import opened Http
  import opened FlagSwitch
  import Routes
  import Server
  import Storage
  import Dashboard

  // ---------------------------------------------------------------------------
  // The subcro columns

  /** What the table shows about a hotel's subcro. */
  datatype SubcroInfo = SubcroInfo(subcro: string, maincro: string, labelText: string, flagcro: int, webcallback: int)

  /** `x || 0` on a nullable integer column. */
  function OrZero(v: Option<int>): (r: int)
    ensures r == if v.Some? then v.value else 0
  {
    if v.Some? && v.value != 0 then v.value else 0
  }

  /** `label || 'N/A'`: never blank, and 'N/A' both for a missing label and for the label "N/A". */
  function LabelShown(v: Option<string>): (r: string)
    ensures r != ""
    ensures r == "N/A" <==> v.None? || v.value == "" || v.value == "N/A"
    ensures v.Some? && v.value != "" ==> r == v.value
  {
    if v.Some? && v.value != "" then v.value else "N/A"
  }

  /**
    `getSubcroInfo`: null when no loaded subcro has the id; otherwise the
    first one that has it, with its label or 'N/A' and its flags or 0.
   */
  function GetSubcroInfo(subcros: seq<Subcro>, id: int): (r: Option<SubcroInfo>)
    ensures r.None? <==> forall i :: 0 <= i < |subcros| ==> subcros[i].id != id
    ensures r.Some? ==> exists i :: (0 <= i < |subcros| && subcros[i].id == id
      && (forall j :: 0 <= j < i ==> subcros[j].id != id)
      && r.value.subcro == subcros[i].subcro && r.value.maincro == subcros[i].maincro
      && r.value.labelText == LabelShown(subcros[i].labelText)
      && r.value.flagcro == (if subcros[i].flagcro.Some? then subcros[i].flagcro.value else 0)
      && r.value.webcallback == (if subcros[i].webcallback.Some? then subcros[i].webcallback.value else 0))
  {
    match FindSubcro(subcros, id)
    case None => None
    case Some(s) => Some(SubcroInfo(s.subcro, s.maincro, LabelShown(s.labelText), OrZero(s.flagcro), OrZero(s.webcallback)))
  }

  /** The "SubCro" cell of a hotel row. */
  function SubcroCell(subcros: seq<Subcro>, h: Hotel): string {
    var info := GetSubcroInfo(subcros, h.subcroId);
    if info.Some? then info.value.subcro else "N/A"
  }

  /** The "MainCro" cell of a hotel row. */
  function MaincroCell(subcros: seq<Subcro>, h: Hotel): string {
    var info := GetSubcroInfo(subcros, h.subcroId);
    if info.Some? then info.value.maincro else "N/A"
  }

  /**
    Both cells read 'N/A' when no loaded subcro has the hotel's `subcroId`;
    otherwise they show the names of the first one that has it.
   */
  lemma CellsOfRow(subcros: seq<Subcro>, h: Hotel, i: nat)
    ensures (forall k :: 0 <= k < |subcros| ==> subcros[k].id != h.subcroId) ==>
      SubcroCell(subcros, h) == "N/A" && MaincroCell(subcros, h) == "N/A"
    ensures i < |subcros| && subcros[i].id == h.subcroId && (forall j :: 0 <= j < i ==> subcros[j].id != h.subcroId) ==>
      SubcroCell(subcros, h) == subcros[i].subcro && MaincroCell(subcros, h) == subcros[i].maincro
  {
    if i < |subcros| && subcros[i].id == h.subcroId && (forall j :: 0 <= j < i ==> subcros[j].id != h.subcroId) {
      FindSubcroFirst(subcros, h.subcroId, i);
    }
  }

  /**
    The dashboard counts a hotel under the maincro its "MainCro" cell shows,
    and does not count a hotel whose cell reads 'N/A' for want of a subcro.
   */
  lemma ChartAgreesWithTable(subcros: seq<Subcro>, h: Hotel)
    ensures Dashboard.MaincroOf(h, subcros).Some? ==> MaincroCell(subcros, h) == Dashboard.MaincroOf(h, subcros).value
    ensures Dashboard.MaincroOf(h, subcros).None? ==> MaincroCell(subcros, h) == "N/A"
  {
  }

  // ---------------------------------------------------------------------------
  // Creating a subcro from the add-hotel form

  /**
    This page's subcro schema for a flag (`z.coerce.number().default(0)`):
    an unset flag is 0, any other value goes through `Number()`, and `NaN`
    is refused.
   */
  function FormFlag(v: Option<Json>): (r: Option<Field<int>>)
    ensures r.Some? ==> r.value.Given?
    ensures v.None? ==> r == Some(Given(0))
    ensures v.Some? ==> (r.None? <==> NumberOf(v.value).None?)
    ensures v.Some? && r.Some? ==> r.value.value == NumberOf(v.value).value
  {
    if v.None? then Some(Given(0))
    else
      match NumberOf(v.value)
      case None => None
      case Some(n) => Some(Given(n))
  }

  /** The dialog's data as the schema passes it on; None keeps the dialog open. */
  function SubcroFormData(v: SubcroValues): (r: Option<InsertSubcro>)
    ensures r.Some? <==> FormFlag(v.flagcro).Some? && FormFlag(v.webcallback).Some?
    ensures r.Some? ==> && r.value.maincro == v.maincro && r.value.subcro == v.subcro
                        && r.value.labelText == Given(v.labelText)
                        && r.value.flagcro.Given? && r.value.webcallback.Given?
  {
    match (FormFlag(v.flagcro), FormFlag(v.webcallback))
    case (Some(f), Some(w)) => Some(InsertSubcro(v.maincro, v.subcro, Given(v.labelText), f, w))
    case _ => None
  }

  /** POST /api/subcro with the dialog's data. */
  function CreateSubcroRequest(v: SubcroValues): (r: Option<Request>)
    ensures r.Some? <==> SubcroFormData(v).Some?
  {
    match SubcroFormData(v)
    case None => None
    case Some(d) => Some(Request(Post, "/api/subcro", map[], SubcroJson(d)))
  }

  /**
    The server creates the subcro the dialog holds, and a subcro created
    here is stored with a label and both flags, never NULL: an unset flag
    would be stored as 0. The dialog's default values set both flags, so no
    dialog reaches the unset case; it shows what the schema does.
   */
  lemma DialogSubcroHasFlags(v: SubcroValues, id: int, current: Option<User>, isEmail: string -> bool)
    requires SubcroFormData(v).Some?
    ensures var d := SubcroFormData(v).value;
      && Routes.Decide(Routes.CreateSubcro, "", CreateSubcroRequest(v).value, current, isEmail)
           == Routes.Invoke(Routes.CreateSubcroCall(d))
      && NewSubcro(id, d).labelText == Some(v.labelText)
      && NewSubcro(id, d).flagcro.Some? && NewSubcro(id, d).webcallback.Some?
      && (v.flagcro.None? ==> NewSubcro(id, d).flagcro == Some(0))
      && (v.webcallback.None? ==> NewSubcro(id, d).webcallback == Some(0))
  {
    var d := SubcroFormData(v).value;
    SubcroRoundTrip(d);
    Routes.CreateSubcroDecided(CreateSubcroRequest(v).value, current, isEmail);
  }

  /** The dialog opens with empty texts and both flags 0, which the schema passes as they are. */
  lemma DialogDefaultsPass()
    ensures SubcroFormData(NewSubcroDefaults) == Some(InsertSubcro("", "", Given(""), Given(0), Given(0)))
  {
  }

  /** The add-hotel form: the chosen code and subcro id; the id is unset at first. */
  datatype HotelForm = HotelForm(codeHotel: string, subcroId: Option<Json>)

  const AddHotelDefaults := HotelForm("", None)

  /** `insertHotelSchema` on the form: the subcro id must be a number. */
  function HotelFormData(f: HotelForm): (r: Option<Hotel>)
    ensures r.Some? <==> f.subcroId.Some? && f.subcroId.value.Num?
    ensures r.Some? ==> r.value.codeHotel == f.codeHotel && Num(r.value.subcroId) == f.subcroId.value
  {
    if f.subcroId.Some? && f.subcroId.value.Num? then Some(Hotel(f.codeHotel, f.subcroId.value.n)) else None
  }

  /** `addForm.setValue("subcroId", newSubcro.id)` with the row the server sent back. */
  function SelectCreated(f: HotelForm, created: Json): (r: HotelForm)
    ensures r.codeHotel == f.codeHotel && r.subcroId == Member(created, "id")
  {
    HotelForm(f.codeHotel, Member(created, "id"))
  }

  /**
    Submitting the subcro dialog from the add-hotel form: nothing happens
    while the schema refuses the dialog; otherwise the subcro is stored
    under the next id and the add-hotel form now holds that id, so the
    hotel it adds references the subcro just created. When the server
    refuses the row (500) the form stays as it was.
   */
  method AddSubcroFromHotelDialog(db: Storage.DatabaseStorage, form: HotelForm, v: SubcroValues, dbError: string)
    returns (next: HotelForm, reply: Option<Reply>)
    requires db.Valid()
    modifies db
    ensures db.Valid()
    ensures SubcroFormData(v).None? ==> reply.None? && next == form && db.subcros == old(db.subcros)
    ensures db.users == old(db.users) && db.hotels == old(db.hotels) && db.nextUserId == old(db.nextUserId)
    ensures SubcroFormData(v).Some? ==>
      var id := NextSubcroId(old(db.subcros));
      var stored := FitsInteger(id) && SubcroFits(SubcroFormData(v).value);
      && (stored ==>
            var row := NewSubcro(id, SubcroFormData(v).value);
            && reply == Some(Reply(201, JsonBody(SubcroRecord(row))))
            && db.subcros == old(db.subcros)[id := row]
            && HotelFormData(next) == Some(Hotel(form.codeHotel, id))
            && id in db.subcros)
      && (!stored ==>
            reply == Some(Server.ServerError("Error creating subcro", dbError)) && next == form
            && db.subcros == old(db.subcros))
  {
    var data := SubcroFormData(v);
    if data.None? {
      return form, None;
    }
    var r := Server.CreateSubcro(db, data.value, dbError);
    reply := Some(r);
    if r.status != 201 {
      return form, reply;
    }
    next := SelectCreated(form, r.body.value);
  }

  // ---------------------------------------------------------------------------
  // Editing and deleting a hotel

  /** The path of a hotel: the code as it is, not URL-encoded. */
  function HotelPath(code: string): string {
    "/api/hotel/" + code
  }

  /** The edit form opens on the edited hotel's code and subcro id. */
  function EditDefaults(h: Hotel): (r: HotelForm)
    ensures HotelFormData(r) == Some(h)
  {
    HotelForm(h.codeHotel, Some(Num(h.subcroId)))
  }

  /** The edit submit: PUT to the edited hotel's code with the form's data; nothing without a hotel being edited. */
  function EditRequest(editing: Option<Hotel>, f: HotelForm): (r: Option<Request>)
    ensures r.Some? <==> editing.Some? && HotelFormData(f).Some?
    ensures r.Some? ==> r.value.verb == Put && r.value.path == HotelPath(editing.value.codeHotel)
  {
    if editing.None? || HotelFormData(f).None? then None
    else Some(Request(Put, HotelPath(editing.value.codeHotel), map[], HotelJson(HotelFormData(f).value)))
  }

  /** The delete confirmation: DELETE to the chosen hotel's code. */
  function DeleteRequest(deleting: Option<Hotel>): (r: Option<Request>)
    ensures r.Some? <==> deleting.Some?
    ensures r.Some? ==> r.value.verb == Delete && r.value.path == HotelPath(deleting.value.codeHotel)
  {
    if deleting.None? then None else Some(Request(Delete, HotelPath(deleting.value.codeHotel), map[], Null))
  }

  /**
    The edit updates the hotel stored under the code of the row being
    edited, with the data of the form; a code without '/' arrives whole as
    the route parameter. The dialog's code field is disabled and opens on
    the edited hotel's code, so the page always sends that code back; the
    lemma below states the edit for that form.
   */
  lemma EditTargetsEditedHotel(h: Hotel, f: HotelForm, current: Option<User>, isEmail: string -> bool)
    requires HotelFormData(f).Some?
    ensures var req := EditRequest(Some(h), f).value;
      Routes.Decide(Routes.UpdateHotel, h.codeHotel, req, current, isEmail)
        == Routes.Invoke(Routes.UpdateHotelCall(h.codeHotel, HotelFormData(f).value))
    ensures '/' !in h.codeHotel ==> Routes.PathParts(HotelPath(h.codeHotel)) == ["", "api", "hotel", h.codeHotel]
  {
    HotelRoundTrip(HotelFormData(f).value);
    if '/' !in h.codeHotel {
      Routes.ApiPathParts("hotel", h.codeHotel);
      assert HotelPath(h.codeHotel) == "/api/" + "hotel" + "/" + h.codeHotel;
    }
  }

  /**
    The edit as the dialog submits it: the form opened on `h`, the code
    field left as it is (it is disabled) and a subcro id chosen. The PUT
    goes to `h`'s own code and asks to store `h` under that same code with
    the chosen subcro, so the edit never renames a hotel.
   */
  lemma EditKeepsCode(h: Hotel, chosen: int, current: Option<User>, isEmail: string -> bool)
    ensures var f := EditDefaults(h).(subcroId := Some(Num(chosen)));
      && EditRequest(Some(h), f).Some?
      && Routes.Decide(Routes.UpdateHotel, h.codeHotel, EditRequest(Some(h), f).value, current, isEmail)
        == Routes.Invoke(Routes.UpdateHotelCall(h.codeHotel, Hotel(h.codeHotel, chosen)))
  {
    var f := EditDefaults(h).(subcroId := Some(Num(chosen)));
    assert HotelFormData(f) == Some(Hotel(h.codeHotel, chosen));
    EditTargetsEditedHotel(h, f, current, isEmail);
  }
}
