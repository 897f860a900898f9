/** The four handlers of the form router as transitions over the service
    state (record collection, upload directory, next id). Each request is
    one atomic step; the upload step runs before the POST and PUT handlers,
    so a rejected file ends the request before any handler code runs. */
module FormService {
  import opened JsValues
  import opened NodePath
  import opened Upload
  import opened Forms
  import opened Store

  /** The record collection in natural order, the filenames present in the
      upload directory, and the id the store hands out next. */
  datatype State = State(docs: seq<Doc>, files: set<string>, nextId: nat)

  datatype Response =
    | Listed(views: seq<FormView>)
    | Created(view: FormView)
    | Updated(view: FormView)
    | Deleted
    | NotFound
    | UploadFailed(error: UploadError)

  datatype Step = Step(next: State, response: Response)

  datatype Request =
    | GetForms
    | PostForm(body: RequestBody, file: Option<FilePart>)
    | PutForm(id: nat, body: RequestBody, file: Option<FilePart>)
    | DeleteForm(id: nat)

  /** Ids are unique and all below the next id to be handed out. */
  predicate Valid(s: State) {
    && UniqueIds(s.docs)
    && forall i :: 0 <= i < |s.docs| ==> s.docs[i].id < s.nextId
  }

  /** Every record's resume names a file in the upload directory, and no two
      records name the same file. */
  predicate FilesConsistent(s: State) {
    && (forall i :: 0 <= i < |s.docs| && Present(s.docs[i].form.resume) ==>
          s.docs[i].form.resume.value in s.files)
    && (forall i, j :: 0 <= i < j < |s.docs| && Present(s.docs[i].form.resume) ==>
          s.docs[j].form.resume != s.docs[i].form.resume)
  }

  /** The upload directory once multer has written the accepted file, if any. */
  function WithUpload(files: set<string>, stored: Option<string>): (r: set<string>)
    ensures stored.None? ==> r == files
    ensures stored.Some? ==> r == files + {stored.value}
  {
    if stored.Some? then files + {stored.value} else files
  }

  /** GET `/`: every record, in store order, with its `resumeUrl`. */
  function List(s: State): (views: seq<FormView>)
    ensures |views| == |s.docs|
    ensures forall i :: 0 <= i < |views| ==>
              views[i].id == s.docs[i].id && views[i].form == s.docs[i].form
    ensures forall i :: 0 <= i < |views| ==>
              (views[i].resumeUrl.Some? <==> Present(s.docs[i].form.resume))
    ensures forall i :: 0 <= i < |views| ==> views[i] == ViewOf(s.docs[i].id, s.docs[i].form)
  {
    seq(|s.docs|, i requires 0 <= i < |s.docs| => ViewOf(s.docs[i].id, s.docs[i].form))
  }

  /** POST `/`: a new record from the body, with the uploaded file as its
      resume; a rejected upload changes nothing. */
  function Create(s: State, body: RequestBody, file: Option<FilePart>, suffix: string): (r: Step)
    ensures Receive(file, suffix).Rejected? ==>
              r == Step(s, UploadFailed(Receive(file, suffix).error))
    ensures Receive(file, suffix).Accepted? ==>
              && r.response.Created?
              && r.response.view == ViewOf(s.nextId, r.response.view.form)
              && CarriesBody(r.response.view.form, body)
              && r.response.view.form.resume == Receive(file, suffix).stored
              && r.next.docs == s.docs + [Doc(s.nextId, r.response.view.form)]
              && r.next.files == WithUpload(s.files, Receive(file, suffix).stored)
              && r.next.nextId > s.nextId
  {
    match Receive(file, suffix)
    case Rejected(e) => Step(s, UploadFailed(e))
    case Accepted(stored) =>
      var form := FromBody(body, stored);
      var next := State(s.docs + [Doc(s.nextId, form)], WithUpload(s.files, stored), s.nextId + 1);
      Step(next, Created(ViewOf(s.nextId, form)))
  }

  /** PUT `/:id`: overwrite every field of the record with the request's;
      with a new file, drop the old resume file and point at the new one.
      The upload has already happened when the id is looked up. */
  function Update(s: State, id: nat, body: RequestBody, file: Option<FilePart>, suffix: string): (r: Step)
    ensures Receive(file, suffix).Rejected? ==>
              r == Step(s, UploadFailed(Receive(file, suffix).error))
    ensures Receive(file, suffix).Accepted? && Find(s.docs, id).None? ==>
              && r.response == NotFound
              && r.next.docs == s.docs
              && r.next.nextId == s.nextId
              && r.next.files == WithUpload(s.files, Receive(file, suffix).stored)
    ensures Receive(file, suffix).Accepted? && Find(s.docs, id).Some? ==>
              Overwritten(s, Find(s.docs, id).value, body, Receive(file, suffix).stored, r)
  {
    match Receive(file, suffix)
    case Rejected(e) => Step(s, UploadFailed(e))
    case Accepted(stored) =>
      match Find(s.docs, id)
      case None => Step(s.(files := WithUpload(s.files, stored)), NotFound)
      case Some(i) => Overwrite(s, i, body, stored)
  }

  /** What PUT does to the record found at position `i`: every field now
      comes from the body; the resume moves to the new file, whose
      predecessor leaves the upload directory, or stays put without one;
      no other record changes. */
  predicate Overwritten(s: State, i: nat, body: RequestBody, stored: Option<string>, r: Step)
    requires i < |s.docs|
  {
    var prior := s.docs[i].form;
    && r.response.Updated?
    && r.response.view == ViewOf(s.docs[i].id, r.response.view.form)
    && CarriesBody(r.response.view.form, body)
    && r.next.docs == s.docs[i := Doc(s.docs[i].id, r.response.view.form)]
    && r.next.nextId == s.nextId
    && (stored.Some? ==>
          && r.response.view.form.resume == stored
          && r.next.files == WithUpload(s.files, stored)
                             - (if Present(prior.resume) then {prior.resume.value} else {}))
    && (stored.None? ==>
          r.response.view.form.resume == prior.resume && r.next.files == s.files)
  }

  /** The PUT handler once the record is found and the upload is stored. */
  function Overwrite(s: State, i: nat, body: RequestBody, stored: Option<string>): (r: Step)
    requires i < |s.docs|
    ensures Overwritten(s, i, body, stored, r)
  {
    var prior := s.docs[i].form;
    var files := WithUpload(s.files, stored);
    var files' :=
      if stored.Some? && Present(prior.resume) && prior.resume.value in files
      then files - {prior.resume.value} else files;
    var resume := if stored.Some? then stored else prior.resume;
    var form := FromBody(body, resume);
    Step(s.(docs := s.docs[i := Doc(s.docs[i].id, form)], files := files'), Updated(ViewOf(s.docs[i].id, form)))
  }

  /** DELETE `/:id`: remove the record, then its resume file if it exists. */
  function Delete(s: State, id: nat): (r: Step)
    ensures Find(s.docs, id).None? ==> r == Step(s, NotFound)
    ensures Find(s.docs, id).Some? ==>
              var i := Find(s.docs, id).value;
              var gone := s.docs[i].form;
              && r.response == Deleted
              && r.next.docs == RemoveAt(s.docs, i)
              && r.next.nextId == s.nextId
              && r.next.files == s.files - (if Present(gone.resume) then {gone.resume.value} else {})
  {
    match Find(s.docs, id)
    case None => Step(s, NotFound)
    case Some(i) =>
      var gone := s.docs[i].form;
      var files :=
        if Present(gone.resume) && gone.resume.value in s.files
        then s.files - {gone.resume.value} else s.files;
      Step(s.(docs := RemoveAt(s.docs, i), files := files), Deleted)
  }

  /** The router: one request, one step. `suffix` stands for the
      time-and-random part of a generated filename. */
  function Handle(s: State, req: Request, suffix: string): (r: Step)
    ensures req.GetForms? ==> r.next == s && r.response == Listed(List(s))
    ensures r.next.nextId >= s.nextId
  {
    match req
    case GetForms => Step(s, Listed(List(s)))
    case PostForm(body, file) => Create(s, body, file, suffix)
    case PutForm(id, body, file) => Update(s, id, body, file, suffix)
    case DeleteForm(id) => Delete(s, id)
  }
}
