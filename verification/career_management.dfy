/** The career postings page: editing the two bullet lists of the dialog,
    the submit-enable rule, and how the page's list of careers follows a
    save, a delete or an active-status toggle. */
module CareerManagement {
  import opened Wrappers
  import Strings
  import Sequences

  datatype Career = Career(
    id: string,
    jobTitle: string,
    field: string,
    workType: string,
    employmentType: string,
    description: string,
    responsibilities: seq<string>,
    requirements: seq<string>,
    isActive: bool)

  datatype CareerForm = CareerForm(
    jobTitle: string,
    field: string,
    workType: string,
    employmentType: string,
    description: string,
    responsibilities: seq<string>,
    requirements: seq<string>)

  /** The dialog: its form, the career being edited (if any), the pending
      text of the two "add" inputs, and whether it is shown. */
  datatype Dialog = Dialog(
    form: CareerForm,
    current: Option<Career>,
    tempResponsibility: string,
    tempRequirement: string,
    open: bool)

  const EmptyForm := CareerForm("", "", "", "", "", [], [])

  // ---------------------------------------------------------------------------
  // Bullet lists

  /** Adding the pending text to a list: when it has a non-whitespace
      character its trimmed form is appended and the input is cleared;
      otherwise nothing changes. */
  function AddItem(items: seq<string>, pending: string): (r: (seq<string>, string))
    ensures Strings.AllWhitespace(pending) ==> r == (items, pending)
    ensures !Strings.AllWhitespace(pending) ==>
      && |r.0| == |items| + 1
      && r.0[..|items|] == items
      && r.0[|items|] == Strings.Trim(pending)
      && r.0[|items|] != ""
      && Strings.IsTrimmed(r.0[|items|])
      && r.1 == ""
  {
    Strings.TrimEmptyIffBlank(pending);
    var t := Strings.Trim(pending);
    if t != "" then (items + [t], "") else (items, pending)
  }

  /** `addResponsibility`: only the responsibilities and their pending input
      can change; `...formData` keeps every other field. */
  function AddResponsibility(d: Dialog): (r: Dialog)
    ensures r.(form := r.form.(responsibilities := d.form.responsibilities), tempResponsibility := d.tempResponsibility) == d
    ensures Strings.AllWhitespace(d.tempResponsibility) ==> r == d
    ensures !Strings.AllWhitespace(d.tempResponsibility) ==>
      && |r.form.responsibilities| == |d.form.responsibilities| + 1
      && r.form.responsibilities[..|d.form.responsibilities|] == d.form.responsibilities
      && r.form.responsibilities[|d.form.responsibilities|] == Strings.Trim(d.tempResponsibility)
      && r.tempResponsibility == ""
  {
    var (items, pending) := AddItem(d.form.responsibilities, d.tempResponsibility);
    Strings.TrimEmptyIffBlank(d.tempResponsibility);
    d.(form := d.form.(responsibilities := items), tempResponsibility := pending)
  }

  /** `removeResponsibility(index)`: `splice(index, 1)` on a copy; nothing but
      the responsibilities changes. */
  function RemoveResponsibility(d: Dialog, index: int): (r: Dialog)
    ensures r.(form := r.form.(responsibilities := d.form.responsibilities)) == d
    ensures 0 <= index < |d.form.responsibilities| ==>
      r.form.responsibilities == d.form.responsibilities[..index] + d.form.responsibilities[index + 1..]
    ensures index >= |d.form.responsibilities| ==> r == d
  {
    var items := Sequences.RemoveAt(d.form.responsibilities, index);
    assert 0 <= index < |d.form.responsibilities| ==>
      items == d.form.responsibilities[..index] + d.form.responsibilities[index + 1..];
    d.(form := d.form.(responsibilities := items))
  }

  /** `addRequirement`: only the requirements and their pending input can
      change. */
  function AddRequirement(d: Dialog): (r: Dialog)
    ensures r.(form := r.form.(requirements := d.form.requirements), tempRequirement := d.tempRequirement) == d
    ensures Strings.AllWhitespace(d.tempRequirement) ==> r == d
    ensures !Strings.AllWhitespace(d.tempRequirement) ==>
      && |r.form.requirements| == |d.form.requirements| + 1
      && r.form.requirements[..|d.form.requirements|] == d.form.requirements
      && r.form.requirements[|d.form.requirements|] == Strings.Trim(d.tempRequirement)
      && r.tempRequirement == ""
  {
    var (items, pending) := AddItem(d.form.requirements, d.tempRequirement);
    Strings.TrimEmptyIffBlank(d.tempRequirement);
    d.(form := d.form.(requirements := items), tempRequirement := pending)
  }

  /** `removeRequirement(index)`: nothing but the requirements changes. */
  function RemoveRequirement(d: Dialog, index: int): (r: Dialog)
    ensures r.(form := r.form.(requirements := d.form.requirements)) == d
    ensures 0 <= index < |d.form.requirements| ==>
      r.form.requirements == d.form.requirements[..index] + d.form.requirements[index + 1..]
    ensures index >= |d.form.requirements| ==> r == d
  {
    var items := Sequences.RemoveAt(d.form.requirements, index);
    assert 0 <= index < |d.form.requirements| ==>
      items == d.form.requirements[..index] + d.form.requirements[index + 1..];
    d.(form := d.form.(requirements := items))
  }

  /** Removing the item just added undoes the addition, apart from the
      cleared input. */
  lemma AddThenRemoveResponsibility(d: Dialog)
    requires !Strings.AllWhitespace(d.tempResponsibility)
    ensures RemoveResponsibility(AddResponsibility(d), |d.form.responsibilities|).form == d.form
  {
    var a := AddResponsibility(d);
    var n := |d.form.responsibilities|;
    assert a.form.responsibilities[..n] + a.form.responsibilities[n + 1..] == d.form.responsibilities;
  }

  lemma AddThenRemoveRequirement(d: Dialog)
    requires !Strings.AllWhitespace(d.tempRequirement)
    ensures RemoveRequirement(AddRequirement(d), |d.form.requirements|).form == d.form
  {
    var a := AddRequirement(d);
    var n := |d.form.requirements|;
    assert a.form.requirements[..n] + a.form.requirements[n + 1..] == d.form.requirements;
  }

  // ---------------------------------------------------------------------------
  // Dialog

  /** The submit button is disabled while any text field or either list is empty. */
  predicate SubmitDisabled(f: CareerForm) {
    || f.jobTitle == "" || f.field == "" || f.workType == ""
    || f.employmentType == "" || f.description == ""
    || |f.responsibilities| == 0 || |f.requirements| == 0
  }

  /** `handleCloseDialog`: the dialog is hidden and every input cleared. */
  function CloseDialog(d: Dialog): (r: Dialog)
    ensures !r.open && r.current.None?
    ensures r.form == EmptyForm
    ensures r.tempResponsibility == "" && r.tempRequirement == ""
  {
    Dialog(EmptyForm, None, "", "", false)
  }

  /** `handleEdit` for a career: the dialog opens on a copy of its fields. */
  function OpenForEdit(d: Dialog, c: Career): (r: Dialog)
    ensures r.open && r.current == Some(c)
    ensures r.tempResponsibility == d.tempResponsibility && r.tempRequirement == d.tempRequirement
    ensures && r.form.jobTitle == c.jobTitle && r.form.field == c.field && r.form.workType == c.workType
            && r.form.employmentType == c.employmentType && r.form.description == c.description
            && r.form.responsibilities == c.responsibilities && r.form.requirements == c.requirements
  {
    Dialog(
      CareerForm(c.jobTitle, c.field, c.workType, c.employmentType, c.description, c.responsibilities, c.requirements),
      Some(c), d.tempResponsibility, d.tempRequirement, true)
  }

  /** A closed dialog cannot be submitted; adding bullet items never
      disables a submittable form; and a form loaded from a career is
      submittable exactly when every field of that career is filled. */
  lemma SubmitRule(d: Dialog, c: Career)
    ensures SubmitDisabled(CloseDialog(d).form)
    ensures !SubmitDisabled(d.form) ==> !SubmitDisabled(AddResponsibility(d).form)
    ensures !SubmitDisabled(d.form) ==> !SubmitDisabled(AddRequirement(d).form)
    ensures !SubmitDisabled(OpenForEdit(d, c).form) <==>
      && c.jobTitle != "" && c.field != "" && c.workType != "" && c.employmentType != ""
      && c.description != "" && |c.responsibilities| > 0 && |c.requirements| > 0
  {
  }

  /** Filling the text fields and adding one non-blank item to each list
      enables submission. */
  lemma FilledFormEnablesSubmit(d: Dialog)
    requires d.form.jobTitle != "" && d.form.field != "" && d.form.workType != ""
    requires d.form.employmentType != "" && d.form.description != ""
    requires !Strings.AllWhitespace(d.tempResponsibility) && !Strings.AllWhitespace(d.tempRequirement)
    ensures !SubmitDisabled(AddRequirement(AddResponsibility(d)).form)
  {
  }

  // ---------------------------------------------------------------------------
  // The list of careers

  ghost predicate UniqueIds(careers: seq<Career>) {
    forall i, j :: 0 <= i < j < |careers| ==> careers[i].id != careers[j].id
  }

  /** `careers.map(c => c._id === id ? replacement : c)` */
  function ReplaceById(careers: seq<Career>, id: string, replacement: Career): (r: seq<Career>)
    ensures |r| == |careers|
    ensures forall k :: 0 <= k < |r| && careers[k].id != id ==> r[k] == careers[k]
    ensures forall k :: 0 <= k < |r| && careers[k].id == id ==> r[k] == replacement
  {
    seq(|careers|, k requires 0 <= k < |careers| => if careers[k].id == id then replacement else careers[k])
  }

  /** With unique ids, replacing by id changes exactly the one position that
      carries the id, or nothing when no career does. */
  lemma ReplaceByIdChangesOne(careers: seq<Career>, id: string, replacement: Career)
    requires UniqueIds(careers)
    ensures forall i :: 0 <= i < |careers| && careers[i].id == id ==>
      ReplaceById(careers, id, replacement) == careers[i := replacement]
    ensures (forall i :: 0 <= i < |careers| ==> careers[i].id != id) ==>
      ReplaceById(careers, id, replacement) == careers
  {
  }

  /** `careers.filter(c => c._id !== id)` */
  function RemoveById(careers: seq<Career>, id: string): (r: seq<Career>)
    ensures |r| <= |careers|
    ensures forall k :: 0 <= k < |r| ==> r[k].id != id
    ensures (forall k :: 0 <= k < |careers| ==> careers[k].id != id) ==> r == careers
  {
    if |careers| == 0 then []
    else
      var rest := RemoveById(careers[1..], id);
      if careers[0].id == id then rest
      else
        assert forall k :: 0 <= k < |careers[1..]| ==> careers[1..][k] == careers[k + 1];
        [careers[0]] + rest
  }

  /** The survivors of a delete are exactly the careers without the id. */
  lemma {:induction false} RemoveByIdMembers(careers: seq<Career>, id: string, c: Career)
    ensures c in RemoveById(careers, id) <==> c in careers && c.id != id
    decreases |careers|
  {
    if |careers| > 0 {
      RemoveByIdMembers(careers[1..], id, c);
      assert careers == [careers[0]] + careers[1..];
    }
  }

  /** The filter keeps every copy of a career with another id and drops every
      copy of one with the id: duplicates are neither merged nor lost. */
  lemma {:induction false} RemoveByIdCounts(careers: seq<Career>, id: string, c: Career)
    ensures multiset(RemoveById(careers, id))[c] == if c.id == id then 0 else multiset(careers)[c]
    decreases |careers|
  {
    if |careers| > 0 {
      RemoveByIdCounts(careers[1..], id, c);
      assert careers == [careers[0]] + careers[1..];
      assert multiset(careers) == multiset{careers[0]} + multiset(careers[1..]);
    }
  }

  /** The survivors of a delete keep their relative order. */
  lemma {:induction false} RemoveByIdKeepsOrder(careers: seq<Career>, id: string)
    ensures Sequences.IsSubsequence(RemoveById(careers, id), careers)
    decreases |careers|
  {
    if |careers| > 0 {
      var rest := RemoveById(careers[1..], id);
      RemoveByIdKeepsOrder(careers[1..], id);
      if careers[0].id == id {
        Sequences.SubsequenceDropHead(rest, careers);
      } else {
        assert ([careers[0]] + rest)[1..] == rest;
      }
    }
  }

  /** With unique ids, deleting a present id removes exactly that position. */
  lemma RemoveByIdRemovesOne(careers: seq<Career>, id: string, i: int)
    requires UniqueIds(careers) && 0 <= i < |careers| && careers[i].id == id
    ensures RemoveById(careers, id) == careers[..i] + careers[i + 1..]
  {
    forall k | 0 <= k < |careers| && k != i ensures careers[k].id != id {
      if k < i { assert careers[k].id != careers[i].id; }
      else { assert careers[i].id != careers[k].id; }
    }
    RemoveOnlyHolder(careers, id, i);
  }

  /** Deleting an id that only position `i` carries removes that position. */
  lemma {:induction false} RemoveOnlyHolder(careers: seq<Career>, id: string, i: int)
    requires 0 <= i < |careers| && careers[i].id == id
    requires forall k :: 0 <= k < |careers| && k != i ==> careers[k].id != id
    ensures RemoveById(careers, id) == careers[..i] + careers[i + 1..]
    decreases |careers|
  {
    var tail := careers[1..];
    if i > 0 {
      RemoveOnlyHolder(tail, id, i - 1);
      assert careers[..i] == [careers[0]] + tail[..i - 1];
      assert careers[i + 1..] == tail[i..];
    } else {
      assert forall k :: 0 <= k < |tail| ==> tail[k] == careers[k + 1];
    }
  }

  // ---------------------------------------------------------------------------
  // The page

  /** What the server answered to a save, a delete or a toggle. */
  datatype Answer<T> = Succeeded(value: T) | Failed(message: string)

  datatype Page = Page(careers: seq<Career>, dialog: Dialog)

  /** `handleSubmit` after its `fetch`. The handler's closure captured the
      page as it was when the user submitted (`submitted`); the answer
      arrives on the page as it is now (`latest`). An edit maps the captured
      list with the captured career's id; a new career is put at the front
      of the latest list through the functional updater; either way the
      dialog then closes. A failure changes nothing. */
  function AfterSave(submitted: Page, latest: Page, answer: Answer<Career>): (r: Page)
    ensures answer.Failed? ==> r == latest
    ensures answer.Succeeded? && submitted.dialog.current.None? ==>
      r.careers == [answer.value] + latest.careers
    ensures answer.Succeeded? && submitted.dialog.current.Some? ==>
      r.careers == ReplaceById(submitted.careers, submitted.dialog.current.value.id, answer.value)
    ensures answer.Succeeded? ==> r.dialog == CloseDialog(latest.dialog)
  {
    match answer
    case Failed(_) => latest
    case Succeeded(data) =>
      var careers :=
        if submitted.dialog.current.Some? then ReplaceById(submitted.careers, submitted.dialog.current.value.id, data)
        else [data] + latest.careers;
      Page(careers, CloseDialog(latest.dialog))
  }

  /** `handleDelete(careerId)` after its `fetch`. */
  function AfterDelete(careers: seq<Career>, careerId: string, answer: Answer<()>): (r: seq<Career>)
    ensures answer.Failed? ==> r == careers
    ensures answer.Succeeded? ==> r == RemoveById(careers, careerId)
  {
    if answer.Succeeded? then RemoveById(careers, careerId) else careers
  }

  /** `toggleActiveStatus(careerId)` after its `fetch`. */
  function AfterToggle(careers: seq<Career>, careerId: string, answer: Answer<Career>): (r: seq<Career>)
    ensures answer.Failed? ==> r == careers
    ensures answer.Succeeded? ==> r == ReplaceById(careers, careerId, answer.value)
  {
    if answer.Succeeded? then ReplaceById(careers, careerId, answer.value) else careers
  }

  /** A successful save of an edited career keeps the length of the list it
      captured and changes only the entries with that career's id. */
  lemma SaveEditKeepsOthers(submitted: Page, latest: Page, data: Career)
    requires submitted.dialog.current.Some?
    ensures |AfterSave(submitted, latest, Succeeded(data)).careers| == |submitted.careers|
    ensures forall k :: 0 <= k < |submitted.careers| && submitted.careers[k].id != submitted.dialog.current.value.id ==>
      AfterSave(submitted, latest, Succeeded(data)).careers[k] == submitted.careers[k]
  {
  }

  /** Deleting a newly saved career, whose id the list did not yet hold,
      gives back the list the save was applied to. */
  lemma SaveNewThenDelete(submitted: Page, latest: Page, data: Career)
    requires submitted.dialog.current.None?
    requires forall k :: 0 <= k < |latest.careers| ==> latest.careers[k].id != data.id
    ensures AfterDelete(AfterSave(submitted, latest, Succeeded(data)).careers, data.id, Succeeded(())) == latest.careers
  {
    var saved := AfterSave(submitted, latest, Succeeded(data)).careers;
    assert saved == [data] + latest.careers;
    assert saved[1..] == latest.careers;
  }

  /** The edit branch works on the list captured at submit time: a delete of
      another career that completes while the edit is in flight, followed by
      the dialog being cancelled, is undone when the edit's answer lands. */
  lemma EditSaveRestoresConcurrentDelete(a: Career, b: Career, data: Career, d: Dialog)
    requires d.current == Some(a) && a.id != b.id
    ensures
      var latest := Page(AfterDelete([a, b], b.id, Succeeded(())), CloseDialog(d));
      && latest.careers == [a]
      && latest.dialog.current.None?
      && AfterSave(Page([a, b], d), latest, Succeeded(data)).careers == [data, b]
  {
    var latest := Page(AfterDelete([a, b], b.id, Succeeded(())), CloseDialog(d));
    RemoveOnlyHolder([a, b], b.id, 1);
    assert [a, b][..1] + [a, b][2..] == [a];
    var r := AfterSave(Page([a, b], d), latest, Succeeded(data)).careers;
    assert r[0] == data && r[1] == b;
  }

  /** A successful delete removes every career with that id and keeps every
      copy of the others, in their order. */
  lemma DeleteKeepsOthers(careers: seq<Career>, careerId: string)
    ensures forall c :: c in AfterDelete(careers, careerId, Succeeded(())) <==> c in careers && c.id != careerId
    ensures forall c :: multiset(AfterDelete(careers, careerId, Succeeded(())))[c] ==
                        (if c.id == careerId then 0 else multiset(careers)[c])
    ensures Sequences.IsSubsequence(AfterDelete(careers, careerId, Succeeded(())), careers)
  {
    var r := AfterDelete(careers, careerId, Succeeded(()));
    assert r == RemoveById(careers, careerId);
    forall c ensures (c in r <==> c in careers && c.id != careerId)
      && multiset(r)[c] == if c.id == careerId then 0 else multiset(careers)[c]
    {
      RemoveByIdMembers(careers, careerId, c);
      RemoveByIdCounts(careers, careerId, c);
    }
    RemoveByIdKeepsOrder(careers, careerId);
  }
}
