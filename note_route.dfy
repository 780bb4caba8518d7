/**
 * The `POST /note` handler: a three-way decision on the submitted form,
 * between saving the description as a new note and previewing an uploaded
 * image as a Markdown reference appended to it.
 */
module NoteRoute {
  import opened Wrappers
  import opened Notes
  import opened UploadBinder

  /** What the upload middleware puts in `req.file`: the name it stored the file under and the client's name for it. */
  datatype UploadedFile = UploadedFile(filename: string, originalname: string)

  /** One submitted form: the `upload` and `description` fields of `req.body` (absent is None) and `req.file`. */
  datatype Submission = Submission(upload: Option<string>, description: Option<string>, file: Option<UploadedFile>)

  /** The JavaScript truthiness of a form field: present and not the empty string. */
  predicate Truthy(field: Option<string>) {
    field.Some? && field.value != ""
  }

  /** How a template literal prints a form field: an absent one prints as `undefined`. */
  function TemplateText(field: Option<string>): string {
    match field
    case Some(text) => text
    case None => "undefined"
  }

  datatype Branch = Save | Preview | Ignore

  /** Which arm of the handler's `if` / `else if` a submission takes. */
  function Route(s: Submission): (b: Branch)
    ensures b == Save <==> !Truthy(s.upload) && Truthy(s.description)
    ensures b == Preview <==> Truthy(s.upload) && s.file.Some?
    ensures b == Ignore <==> (Truthy(s.upload) && s.file.None?) || (!Truthy(s.upload) && !Truthy(s.description))
  {
    if !Truthy(s.upload) && Truthy(s.description) then Save
    else if Truthy(s.upload) && s.file.Some? then Preview
    else Ignore
  }

  /** The unsaved body the preview shows for a submission with a file. */
  function PreviewOf(s: Submission): string
    requires s.file.Some?
  {
    PreviewContent(TemplateText(s.description), s.file.value.originalname, s.file.value.filename)
  }

  /** The response, as far as the core decides it: a redirect, the rendered feed view, or nothing at all. */
  datatype Response = Redirect(location: string) | RenderIndex(content: Option<string>, notes: seq<Note>) | NoResponse

  /**
   * The handler. Saving appends exactly one note and redirects to the feed;
   * previewing leaves the store as it was and shows the feed with the
   * composed body; a submission matching neither changes nothing and gets no
   * response.
   */
  method HandleNote(store: NoteStore, s: Submission, render: string -> string) returns (response: Response)
    requires store.Valid()
    modifies store
    ensures store.Valid()
    ensures Route(s) == Save ==>
              store.notes == old(store.notes) + [Note(old(store.nextId), s.description.value)] &&
              store.nextId == old(store.nextId) + 1 &&
              response == Redirect("/")
    ensures Route(s) == Preview ==>
              unchanged(store) &&
              response == RenderIndex(Some(PreviewOf(s)), RetrieveNotes(old(store.notes), render))
    ensures Route(s) == Ignore ==> unchanged(store) && response == NoResponse
  {
    if !Truthy(s.upload) && Truthy(s.description) {
      var _ := store.SaveNote(s.description.value);
      response := Redirect("/");
    } else if Truthy(s.upload) && s.file.Some? {
      var content := PreviewContent(TemplateText(s.description), s.file.value.originalname, s.file.value.filename);
      response := RenderIndex(Some(content), RetrieveNotes(store.notes, render));
    } else {
      response := NoResponse;
    }
  }

  /**
   * The preview does not persist the composed body; submitting that body
   * again, without flag or file, is what stores it, as one new note.
   */
  method PreviewThenSave(store: NoteStore, s: Submission, render: string -> string)
      returns (preview: Response, saved: Response)
    requires store.Valid()
    requires Truthy(s.upload) && s.file.Some?
    modifies store
    ensures store.Valid()
    ensures preview == RenderIndex(Some(PreviewOf(s)), RetrieveNotes(old(store.notes), render))
    ensures saved == Redirect("/")
    ensures store.notes == old(store.notes) + [Note(old(store.nextId), PreviewOf(s))]
  {
    preview := HandleNote(store, s, render);
    var body := PreviewOf(s);
    PreviewContentParts(TemplateText(s.description), s.file.value.originalname, s.file.value.filename);
    saved := HandleNote(store, Submission(None, Some(body), None), render);
  }

  /** The worked example of a save: no flag, no file, description `buy milk`. */
  lemma SaveScenario()
    ensures Route(Submission(None, Some("buy milk"), None)) == Save
  {
  }

  /** The literal text of the preview example, checked on its own so the example's proof stays small. */
  lemma LookExampleText()
    ensures "look" + " ![" + "original.jpg" + "](" + "/uploads/" + "xyz123.jpg" + ")"
            == "look ![original.jpg](/uploads/xyz123.jpg)"
  {
  }

  /** The stored name of the preview example is made of unreserved characters. */
  lemma StoredNameUnreserved(name: string)
    requires name == "xyz123.jpg"
    ensures forall i :: 0 <= i < |name| ==> UriComponent.IsUnreserved(name[i])
  {
  }

  /** The worked example of a preview: description `look`, file `original.jpg` stored as `xyz123.jpg`. */
  lemma PreviewScenario(s: Submission, flag: string, description: string, file: UploadedFile)
    requires flag != "" && description == "look" && file == UploadedFile("xyz123.jpg", "original.jpg")
    requires s == Submission(Some(flag), Some(description), Some(file))
    ensures Route(s) == Preview
    ensures PreviewOf(s) == "look ![original.jpg](/uploads/xyz123.jpg)"
  {
    StoredNameUnreserved(file.filename);
    PreviewUnreservedName(description, file.originalname, file.filename);
    LookExampleText();
  }
}
