/**
 * The dialog for creating or editing an annotation: a type choice (margin or
 * inline), a note, a preview of the selected text, and the save/cancel
 * outcomes. The React component is modelled as a state (`Form`) and an event
 * function (`Handle`) whose outcome says what the component reports to its
 * parent.
 */
module AnnotationForm {
  import opened Wrappers
  import opened JsString
  import opened Annotations

  /** The dialog's own state: the chosen type and the note as typed. */
  datatype Form = Form(noteType: NoteType, note: string)

  /** What the dialog reports to its parent after an event. */
  datatype Outcome = Stay | Save(noteType: NoteType, note: string) | Cancel

  datatype Event =
    | ChooseType(choice: NoteType)
    | EditNote(text: string)
    | SubmitForm
    | KeyDown(key: string)
    | BackdropClick
    | CancelClick

  /** A new annotation starts as an empty margin note; editing starts from
      the existing annotation's type and note. */
  function InitialForm(existing: Option<Annotation>): (f: Form)
    ensures existing.None? ==> f == Form(Margin, "")
    ensures existing.Some? ==> f.noteType == existing.value.noteType && f.note == existing.value.note
  {
    match existing
    case None => Form(Margin, "")
    case Some(a) => Form(a.noteType, a.note)
  }

  /**
   * `handleSubmit`: a note that is only white space saves nothing;
   * otherwise the type and the note without its surrounding white space
   * are saved.
   */
  function SubmitNote(form: Form): (r: Option<(NoteType, string)>)
    ensures r.None? <==> AllSpace(form.note)
    ensures r.Some? ==> var (t, note) := r.value;
      && t == form.noteType
      && note != []
      && !IsSpace(note[0]) && !IsSpace(note[|note| - 1])
      && NonSpaceChars(note) == NonSpaceChars(form.note)
      && LeadingSpace(form.note) + |note| <= |form.note|
      && note == form.note[LeadingSpace(form.note)..LeadingSpace(form.note) + |note|]
  {
    var trimmed := Trim(form.note);
    TrimKeepsVisible(form.note);
    if trimmed == [] then None else Some((form.noteType, trimmed))
  }

  /** The save button is disabled while the note is blank. */
  function SubmitDisabled(form: Form): (disabled: bool)
    ensures disabled <==> AllSpace(form.note)
  {
    Trim(form.note) == []
  }

  /** The button is disabled exactly when submitting would save nothing. */
  lemma DisabledIffNothingSaved(form: Form)
    ensures SubmitDisabled(form) <==> SubmitNote(form).None?
  {
  }

  /**
   * The dialog's events. A type choice or an edit changes the form; a submit
   * saves when the note is not blank; Escape (listened for on the whole
   * document), the backdrop and the cancel button cancel; other keys do
   * nothing.
   */
  function Handle(form: Form, ev: Event): (r: (Form, Outcome))
    ensures ev.ChooseType? ==> r == (form.(noteType := ev.choice), Stay)
    ensures ev.EditNote? ==> r == (form.(note := ev.text), Stay)
    ensures ev.SubmitForm? ==> r.0 == form && (r.1 == Stay <==> AllSpace(form.note))
    ensures ev.SubmitForm? && r.1.Save? ==> SubmitNote(form) == Some((r.1.noteType, r.1.note))
    ensures ev.KeyDown? ==> r.0 == form && (r.1 == Cancel <==> ev.key == "Escape") && !r.1.Save?
    ensures ev.BackdropClick? || ev.CancelClick? ==> r == (form, Cancel)
  {
    match ev
    case ChooseType(choice) => (form.(noteType := choice), Stay)
    case EditNote(text) => (form.(note := text), Stay)
    case SubmitForm =>
      (match SubmitNote(form)
       case None => (form, Stay)
       case Some((t, note)) => (form, Save(t, note)))
    case KeyDown(key) => (form, if key == "Escape" then Cancel else Stay)
    case BackdropClick => (form, Cancel)
    case CancelClick => (form, Cancel)
  }

  /** Reopening a saved annotation and submitting it unchanged saves the
      same type and note again. */
  lemma ResubmitSaved(form: Form, a: Annotation)
    requires SubmitNote(form) == Some((a.noteType, a.note))
    ensures SubmitNote(InitialForm(Some(a))) == Some((a.noteType, a.note))
  {
    var f := InitialForm(Some(a));
    assert f.note == a.note && a.note != [];
    TrimOfTrimmed(a.note);
    assert Trim(f.note) == a.note;
  }

  /** Typing a note and submitting saves it, trimmed, under the chosen type:
      the sequence the page runs for a new annotation. */
  lemma TypeThenSubmit(choice: NoteType, text: string)
    requires !AllSpace(text)
    ensures var f := Handle(Handle(InitialForm(None), ChooseType(choice)).0, EditNote(text)).0;
      Handle(f, SubmitForm).1 == Save(choice, Trim(text))
  {
  }

  // ---------------------------------------------------------------------
  // Preview and labels
  // ---------------------------------------------------------------------

  const PreviewLength: nat := 80

  /** The selected text as previewed: cut to 80 characters with "..."
      appended when longer. */
  function Truncated(selected: string): (r: string)
    ensures |selected| <= PreviewLength ==> r == selected
    ensures |selected| > PreviewLength ==>
      |r| == PreviewLength + 3 && r[..PreviewLength] == selected[..PreviewLength] && r[PreviewLength..] == "..."
  {
    if |selected| > PreviewLength then Slice(selected, 0, PreviewLength) + "..." else selected
  }

  /** The preview shows the text unchanged exactly when it is short, or
      when it is 83 characters already ending in "..." after its 80th. */
  lemma TruncatedUnchanged(selected: string)
    ensures Truncated(selected) == selected <==>
      |selected| <= PreviewLength || (|selected| == PreviewLength + 3 && selected[PreviewLength..] == "...")
  {
    var r := Truncated(selected);
    if |selected| == PreviewLength + 3 && selected[PreviewLength..] == "..." {
      assert r == r[..PreviewLength] + r[PreviewLength..];
      assert selected == selected[..PreviewLength] + selected[PreviewLength..];
    }
  }

  /** The preview is never longer than 83 characters and always starts with
      the first (up to) 80 characters of the selection. */
  lemma TruncatedBounded(selected: string)
    ensures var r := Truncated(selected);
      && |r| <= PreviewLength + 3
      && (|selected| <= PreviewLength ==> r == selected)
      && (|selected| > PreviewLength ==> selected[..PreviewLength] <= r)
  {
  }

  /** The dialog's heading. */
  function Heading(existing: Option<Annotation>): (r: string)
    ensures r == "Edit Annotation" <==> existing.Some?
    ensures r == "New Annotation" <==> existing.None?
  {
    if existing.Some? then "Edit Annotation" else "New Annotation"
  }

  /** The submit button's label. */
  function ButtonLabel(existing: Option<Annotation>): (r: string)
    ensures r == "Save Changes" <==> existing.Some?
    ensures r == "Add Annotation" <==> existing.None?
  {
    if existing.Some? then "Save Changes" else "Add Annotation"
  }
}
