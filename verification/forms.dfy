/** The form record of models/Form.js, the request body the POST and PUT
    handlers read it from, the `hobbies` normalisation they share, and the
    `resumeUrl` every response adds to a record. */
module Forms {
  import opened JsValues

  /** A stored submission. `None` is a field left unset (`undefined`) or
      `null`; `resume` names a file in the upload directory. */
  datatype FormRecord = FormRecord(
    fullName: Option<string>,
    email: Option<string>,
    contact: Option<string>,
    gender: Option<string>,
    hobbies: seq<string>,
    subject: Option<string>,
    about: Option<string>,
    password: Option<string>,
    resume: Option<string>)

  /** The text fields of a multipart request (`req.body`). */
  datatype RequestBody = RequestBody(
    fullName: Option<string>,
    email: Option<string>,
    contact: Option<string>,
    gender: Option<string>,
    hobbies: BodyValue,
    subject: Option<string>,
    about: Option<string>,
    password: Option<string>)

  /** A record as the handlers send it back: the stored fields, the id and
      the derived `resumeUrl`. */
  datatype FormView = FormView(id: nat, form: FormRecord, resumeUrl: Option<string>)

  /** The route under which `express.static` serves the upload directory. */
  const FilesRoute := "/api/upload/files/"

  /** `req.body.hobbies || []`, then a string is wrapped in an array. */
  function NormalizeHobbies(v: BodyValue): (r: seq<string>)
    ensures v.Text? && v.text != "" ==> r == [v.text]
    ensures v.Many? ==> r == v.items
    ensures v == Absent || v == Text("") ==> r == []
  {
    var h := if Truthy(v) then v else Many([]);
    match h
    case Text(t) => [t]
    case Many(items) => items
    case Absent => []
  }

  /** How multer delivers the checked boxes of a form field: nothing when
      none is checked, a string for one, an array for several. */
  function EncodeSelection(selected: seq<string>): (v: BodyValue)
    ensures |selected| == 0 <==> v == Absent
    ensures |selected| == 1 ==> v == Text(selected[0])
    ensures |selected| >= 2 ==> v == Many(selected)
  {
    if |selected| == 0 then Absent
    else if |selected| == 1 then Text(selected[0])
    else Many(selected)
  }

  /** Normalisation recovers exactly the selected hobbies, in order and with
      repeats, unless the one selected value is the empty string, which
      JavaScript's `||` turns into no hobbies at all. */
  lemma HobbiesRoundTrip(selected: seq<string>)
    ensures selected != [""] ==> NormalizeHobbies(EncodeSelection(selected)) == selected
    ensures selected == [""] ==> NormalizeHobbies(EncodeSelection(selected)) == []
  {
    if |selected| == 1 {
      assert selected == [selected[0]];
    }
  }

  /** `resume ? "/api/upload/files/" + resume : null`. */
  function ResumeUrl(resume: Option<string>): (url: Option<string>)
    ensures url.Some? <==> Present(resume)
    ensures url.Some? ==> url.value == FilesRoute + resume.value
    ensures url.Some? ==> |url.value| > |FilesRoute| && url.value[..|FilesRoute|] == FilesRoute
  {
    if Present(resume) then Some(FilesRoute + resume.value) else None
  }

  /** The file `express.static` serves for a URL under the files route. */
  function ServedFile(url: string): (name: string)
    requires |url| >= |FilesRoute| && url[..|FilesRoute|] == FilesRoute
    ensures FilesRoute + name == url
  {
    url[|FilesRoute|..]
  }

  /** Every `resumeUrl` leads back, through the files route, to the record's
      own stored file. */
  lemma ResumeUrlServesResume(resume: Option<string>)
    requires Present(resume)
    ensures ServedFile(ResumeUrl(resume).value) == resume.value
  {
    var url := ResumeUrl(resume).value;
    assert url == FilesRoute + resume.value;
    assert url[|FilesRoute|..] == resume.value;
  }

  /** The response object `{...record, resumeUrl}`. */
  function ViewOf(id: nat, form: FormRecord): (v: FormView)
    ensures v.id == id && v.form == form
    ensures v.resumeUrl.Some? <==> Present(form.resume)
    ensures Present(form.resume) ==> v.resumeUrl == Some(FilesRoute + form.resume.value)
  {
    FormView(id, form, ResumeUrl(form.resume))
  }

  /** The record's fields are the request's: the seven text fields as sent
      (unset when absent) and the normalised hobbies. */
  predicate CarriesBody(form: FormRecord, body: RequestBody) {
    && form.fullName == body.fullName
    && form.email == body.email
    && form.contact == body.contact
    && form.gender == body.gender
    && form.subject == body.subject
    && form.about == body.about
    && form.password == body.password
    && form.hobbies == NormalizeHobbies(body.hobbies)
  }

  /** The record the handlers build from a request body and a resume. */
  function FromBody(body: RequestBody, resume: Option<string>): (form: FormRecord)
    ensures CarriesBody(form, body)
    ensures form.resume == resume
  {
    FormRecord(body.fullName, body.email, body.contact, body.gender,
               NormalizeHobbies(body.hobbies), body.subject, body.about,
               body.password, resume)
  }
}
