/** What the handlers promise across requests: the invariants every step
    keeps, each step's effect on the id-to-record map, and the round trips
    between create, list, update and delete. */
module ServiceProperties {
  import opened JsValues
  import opened NodePath
  import opened Upload
  import opened Forms
  import opened Store
  import opened FormService

  /** The file a request uploads, if any, gets a name not yet in the upload
      directory (what the time-and-random suffix is there to ensure). */
  predicate FreshUpload(s: State, file: Option<FilePart>, suffix: string) {
    Receive(file, suffix).Accepted? && Receive(file, suffix).stored.Some? ==>
      Receive(file, suffix).stored.value !in s.files
  }

  predicate FreshRequest(s: State, req: Request, suffix: string) {
    match req
    case PostForm(_, file) => FreshUpload(s, file, suffix)
    case PutForm(_, _, file) => FreshUpload(s, file, suffix)
    case _ => true
  }

  /** An accepted upload of a named file is stored under a non-empty name,
      so the record that takes it has a `resumeUrl`; an unnamed part stores
      nothing. */
  lemma StoredNamePresent(file: Option<FilePart>, suffix: string)
    requires Receive(file, suffix).Accepted?
    ensures Present(Receive(file, suffix).stored) <==> file.Some? && OriginalName(file.value) != ""
  {
    if file.Some? && OriginalName(file.value) != "" {
      FilterNeedsExtension(OriginalName(file.value));
    }
  }

  /** Every request keeps ids unique and below the next id. */
  lemma HandlePreservesValid(s: State, req: Request, suffix: string)
    requires Valid(s)
    ensures Valid(Handle(s, req, suffix).next)
  {
    match req
    case GetForms =>
    case PostForm(body, file) =>
      var next := Handle(s, req, suffix).next;
      if Receive(file, suffix).Accepted? {
        assert forall i :: 0 <= i < |s.docs| ==> next.docs[i] == s.docs[i];
      }
    case PutForm(id, body, file) =>
    case DeleteForm(id) =>
      if Find(s.docs, id).Some? {
        RemoveKeepsUnique(s.docs, Find(s.docs, id).value);
      }
  }

  /** With fresh upload names, every request keeps each resume pointing at a
      file of its own. */
  lemma HandlePreservesFiles(s: State, req: Request, suffix: string)
    requires Valid(s) && FilesConsistent(s)
    requires FreshRequest(s, req, suffix)
    ensures FilesConsistent(Handle(s, req, suffix).next)
  {
    match req
    case GetForms =>
    case PostForm(body, file) =>
      CreatePreservesFiles(s, body, file, suffix);
    case PutForm(id, body, file) =>
      UpdatePreservesFiles(s, id, body, file, suffix);
    case DeleteForm(id) =>
      DeletePreservesFiles(s, id);
  }

  lemma CreatePreservesFiles(s: State, body: RequestBody, file: Option<FilePart>, suffix: string)
    requires FilesConsistent(s)
    requires FreshUpload(s, file, suffix)
    ensures FilesConsistent(Create(s, body, file, suffix).next)
  {
    var r := Create(s, body, file, suffix);
    if Receive(file, suffix).Accepted? {
      AppendPreservesFiles(s, r.next, Doc(s.nextId, r.response.view.form));
    }
  }

  /** Appending a record whose resume is a file new to the directory keeps
      every resume pointing at a file of its own. */
  lemma AppendPreservesFiles(s: State, next: State, d: Doc)
    requires FilesConsistent(s)
    requires next.docs == s.docs + [d]
    requires s.files <= next.files
    requires Present(d.form.resume) ==> d.form.resume.value in next.files && d.form.resume.value !in s.files
    ensures FilesConsistent(next)
  {
    assert forall i :: 0 <= i < |s.docs| ==> next.docs[i] == s.docs[i];
  }

  lemma UpdatePreservesFiles(s: State, id: nat, body: RequestBody, file: Option<FilePart>, suffix: string)
    requires FilesConsistent(s)
    requires FreshUpload(s, file, suffix)
    ensures FilesConsistent(Update(s, id, body, file, suffix).next)
  {
    UpdateStepPreservesFiles(s, id, body, Receive(file, suffix), Update(s, id, body, file, suffix));
  }

  /** The same, for any step that does what `Update` promises given the
      upload step's outcome `received`. */
  lemma UpdateStepPreservesFiles(s: State, id: nat, body: RequestBody, received: UploadResult, r: Step)
    requires FilesConsistent(s)
    requires received.Accepted? && received.stored.Some? ==> received.stored.value !in s.files
    requires received.Rejected? ==> r.next == s
    requires received.Accepted? && Find(s.docs, id).None? ==>
               r.next.docs == s.docs && r.next.files == WithUpload(s.files, received.stored)
    requires received.Accepted? && Find(s.docs, id).Some? ==>
               Overwritten(s, Find(s.docs, id).value, body, received.stored, r)
    ensures FilesConsistent(r.next)
  {
    if received.Accepted? && Find(s.docs, id).Some? && received.stored.Some? {
      ReplaceResumePreservesFiles(s, Find(s.docs, id).value, r.next, received.stored.value);
    }
  }

  /** Pointing record `i` at a fresh file and dropping its old one keeps
      every resume pointing at a file of its own. */
  lemma ReplaceResumePreservesFiles(s: State, i: nat, next: State, name: string)
    requires FilesConsistent(s)
    requires i < |s.docs|
    requires name !in s.files
    requires |next.docs| == |s.docs|
    requires forall j :: 0 <= j < |s.docs| && j != i ==> next.docs[j] == s.docs[j]
    requires next.docs[i].form.resume == Some(name)
    requires var prior := s.docs[i].form.resume;
             next.files == (s.files + {name}) - (if Present(prior) then {prior.value} else {})
    ensures FilesConsistent(next)
  {
    var prior := s.docs[i].form.resume;
    assert Present(prior) ==> prior.value != name;
    forall j | 0 <= j < |next.docs| && Present(next.docs[j].form.resume)
      ensures next.docs[j].form.resume.value in next.files
    {
      if j != i {
        if j < i {
          assert s.docs[i].form.resume != s.docs[j].form.resume;
        } else {
          assert s.docs[j].form.resume != s.docs[i].form.resume;
        }
      }
    }
  }

  lemma DeletePreservesFiles(s: State, id: nat)
    requires FilesConsistent(s)
    ensures FilesConsistent(Delete(s, id).next)
  {
    if Find(s.docs, id).Some? {
      var i := Find(s.docs, id).value;
      var next := Delete(s, id).next;
      forall j | 0 <= j < |next.docs| && Present(next.docs[j].form.resume)
        ensures next.docs[j].form.resume.value in next.files
      {
        var k := if j < i then j else j + 1;
        assert next.docs[j] == s.docs[k];
        if k < i {
          assert s.docs[i].form.resume != s.docs[k].form.resume;
        } else {
          assert s.docs[k].form.resume != s.docs[i].form.resume;
        }
      }
      forall a, b | 0 <= a < b < |next.docs| && Present(next.docs[a].form.resume)
        ensures next.docs[b].form.resume != next.docs[a].form.resume
      {
        var ka := if a < i then a else a + 1;
        var kb := if b < i then b else b + 1;
        assert next.docs[a] == s.docs[ka] && next.docs[b] == s.docs[kb];
      }
    }
  }

  /** Create adds exactly one record, under a fresh id, and keeps every
      other record. */
  lemma CreateRecords(s: State, body: RequestBody, file: Option<FilePart>, suffix: string)
    requires Valid(s)
    requires Receive(file, suffix).Accepted?
    ensures s.nextId !in Records(s.docs)
    ensures var r := Create(s, body, file, suffix);
            Records(r.next.docs) == Records(s.docs)[s.nextId := r.response.view.form]
  {
    var r := Create(s, body, file, suffix);
    RecordsAppend(s.docs, Doc(s.nextId, r.response.view.form));
  }

  /** Creating and then listing gives the earlier listing plus one entry: the
      new record, carrying the request's fields, with a `resumeUrl` exactly
      when a file came with the request. No other entry has the new id. */
  lemma CreateThenList(s: State, body: RequestBody, file: Option<FilePart>, suffix: string)
    requires Valid(s)
    requires Receive(file, suffix).Accepted?
    ensures var r := Create(s, body, file, suffix);
            var views := List(r.next);
            && views == List(s) + [r.response.view]
            && views[|s.docs|].id == s.nextId
            && CarriesBody(views[|s.docs|].form, body)
            && (views[|s.docs|].resumeUrl.Some? <==> file.Some? && OriginalName(file.value) != "")
            && forall k :: 0 <= k < |views| && views[k].id == s.nextId ==> k == |s.docs|
  {
    var r := Create(s, body, file, suffix);
    var views := List(r.next);
    StoredNamePresent(file, suffix);
    ListAppend(s, r.next, Doc(s.nextId, r.response.view.form));
    assert views == List(s) + [r.response.view];
    assert views[|s.docs|] == r.response.view;
    assert forall k :: 0 <= k < |s.docs| ==> views[k].id == s.docs[k].id;
  }

  /** Listing a collection with one document appended lists the old
      collection, then that document. */
  lemma ListAppend(s: State, next: State, d: Doc)
    requires next.docs == s.docs + [d]
    ensures List(next) == List(s) + [ViewOf(d.id, d.form)]
  {
    var views := List(next);
    var expected := List(s) + [ViewOf(d.id, d.form)];
    assert |views| == |expected|;
    forall k | 0 <= k < |views|
      ensures views[k] == expected[k]
    {
      if k < |s.docs| {
        assert next.docs[k] == s.docs[k];
      }
    }
  }

  /** Update overwrites the record under `id` and nothing else; on a missing
      id, or when the upload is refused, the records stay as they were. */
  lemma UpdateRecords(s: State, id: nat, body: RequestBody, file: Option<FilePart>, suffix: string)
    requires Valid(s)
    ensures var r := Update(s, id, body, file, suffix);
            && (Receive(file, suffix).Rejected? ==> r.response.UploadFailed? && r.next == s)
            && (Receive(file, suffix).Accepted? && id !in Records(s.docs) ==>
                  r.response == NotFound && Records(r.next.docs) == Records(s.docs))
            && (Receive(file, suffix).Accepted? && id in Records(s.docs) ==>
                  && r.response.Updated?
                  && Records(r.next.docs) == Records(s.docs)[id := r.response.view.form])
  {
    var r := Update(s, id, body, file, suffix);
    FindAgreesWithRecords(s.docs, id);
    if Receive(file, suffix).Accepted? && Find(s.docs, id).Some? {
      RecordsReplace(s.docs, Find(s.docs, id).value, r.response.view.form);
    }
  }

  /** Update on a missing id still leaves the freshly uploaded file in the
      upload directory, because multer wrote it before the lookup; only a
      refused upload leaves nothing behind. */
  lemma UpdateMissingKeepsUpload(s: State, id: nat, body: RequestBody, file: FilePart, suffix: string)
    requires id !in Ids(s.docs)
    ensures var r := Update(s, id, body, Some(file), suffix);
            && (Receive(Some(file), suffix).Rejected? ==> r.response.UploadFailed? && r.next == s)
            && (Receive(Some(file), suffix).Accepted? ==>
                  && r.response == NotFound
                  && r.next.docs == s.docs
                  && (OriginalName(file) != "" ==> GeneratedName(suffix, OriginalName(file)) in r.next.files)
                  && (OriginalName(file) == "" ==> r.next.files == s.files))
  {
  }

  /** Delete removes exactly the record under `id`, so a later lookup fails,
      and takes its resume file with it; a missing id changes nothing. */
  lemma DeleteRecords(s: State, id: nat)
    requires Valid(s)
    ensures var r := Delete(s, id);
            && (id !in Records(s.docs) ==> r == Step(s, NotFound))
            && (id in Records(s.docs) ==>
                  && r.response == Deleted
                  && Records(r.next.docs) == Records(s.docs) - {id}
                  && Find(r.next.docs, id).None?
                  && (Present(Records(s.docs)[id].resume) ==>
                        r.next.files == s.files - {Records(s.docs)[id].resume.value}
                        && Records(s.docs)[id].resume.value !in r.next.files)
                  && (!Present(Records(s.docs)[id].resume) ==> r.next.files == s.files))
  {
    FindAgreesWithRecords(s.docs, id);
    if Find(s.docs, id).Some? {
      var i := Find(s.docs, id).value;
      RecordsRemove(s.docs, i);
      RemoveKeepsUnique(s.docs, i);
    }
  }

  /** An update whose new file gets the very name of the record's current
      resume writes the file and then unlinks it, leaving the record pointing
      at a file that is gone. Fresh names rule this out. */
  lemma UpdateOntoOwnResumeLosesFile(s: State, i: nat, body: RequestBody, file: FilePart, suffix: string, name: string)
    requires Valid(s)
    requires i < |s.docs|
    requires s.docs[i].form.resume == Some(name)
    ensures Receive(Some(file), suffix) == Accepted(Some(name)) ==>
              var r := Update(s, s.docs[i].id, body, Some(file), suffix);
              && r.response.Updated?
              && r.response.view.form.resume == Some(name)
              && name == GeneratedName(suffix, OriginalName(file))
              && name !in r.next.files
  {
    if Receive(Some(file), suffix) == Accepted(Some(name)) {
      var id := s.docs[i].id;
      assert id in Ids(s.docs);
      assert Find(s.docs, id) == Some(i);
      StoredNamePresent(Some(file), suffix);
    }
  }

  /** POST with `{fullName: "Ann", email: "a@x.com", hobbies: "chess"}` and no
      file: one-element hobbies and no `resumeUrl`. */
  lemma SingleHobbyScenario(s: State, suffix: string)
    ensures var body := RequestBody(Some("Ann"), Some("a@x.com"), None, None, Text("chess"), None, None, None);
            var r := Create(s, body, None, suffix);
            && r.response.Created?
            && r.response.view.form.hobbies == ["chess"]
            && r.response.view.form.fullName == Some("Ann")
            && r.response.view.resumeUrl == None
  {
  }
}
