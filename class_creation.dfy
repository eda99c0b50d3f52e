/** The class-creation form: the class fields, a growing list of subject
    drafts, and the create payload with a blank weekly template. */
module ClassCreation {
  import opened Common

  /** A subject being typed in. It is an object: `handleSubjectChange` writes
      into it in place, so every list holding it sees the change. */
  class SubjectDraft {
    var name: string
    var code: string

    constructor ()
      ensures name == "" && code == ""
    {
      name := "";
      code := "";
    }
  }

  /** The field of a subject draft being edited. */
  datatype SubjectField = Name | Code

  /** A subject draft as it is sent. */
  datatype SubjectEntry = SubjectEntry(name: string, code: string)

  /** The body of `POST /class/create`. */
  datatype CreatePayload = CreatePayload(
    className: string, totalStudents: string, adminPin: string,
    subjects: seq<SubjectEntry>, timetable: Template)

  /** What a successful create returns, kept for automatic login. */
  datatype Created = Created(token: string, classId: string)

  /** The values of a list of drafts. */
  function Entries(drafts: seq<SubjectDraft>): (es: seq<SubjectEntry>)
    reads drafts
    ensures |es| == |drafts|
    ensures forall i :: 0 <= i < |drafts| ==> es[i] == SubjectEntry(drafts[i].name, drafts[i].code)
  {
    if |drafts| == 0 then []
    else [SubjectEntry(drafts[0].name, drafts[0].code)] + Entries(drafts[1..])
  }

  /** The create payload: the form fields, the subjects as they are, and a
      blank Monday to Saturday template. */
  function BuildPayload(className: string, totalStudents: string, adminPin: string, subjects: seq<SubjectEntry>): (pl: CreatePayload)
    ensures pl.subjects == subjects
    ensures pl.timetable.Keys == set d | d in TemplateDays
    ensures forall d :: d in pl.timetable ==> pl.timetable[d] == []
    ensures pl.className == className && pl.totalStudents == totalStudents && pl.adminPin == adminPin
  {
    CreatePayload(className, totalStudents, adminPin, subjects, BlankWeek())
  }

  /** A field of the class form. */
  datatype FormField = ClassName | TotalStudents | AdminPin

  /** The create page's state. */
  class CreateForm {
    var loading: bool
    var className: string
    var totalStudents: string
    var adminPin: string
    var subjects: seq<SubjectDraft>

    /** Each subject draft is its own object. */
    ghost predicate Valid()
      reads this
    {
      forall i, j :: 0 <= i < j < |subjects| ==> subjects[i] != subjects[j]
    }

    /** The form starts with a single blank subject. */
    constructor ()
      ensures Valid()
      ensures !loading && className == "" && totalStudents == "" && adminPin == ""
      ensures |subjects| == 1 && fresh(subjects[0])
      ensures Entries(subjects) == [SubjectEntry("", "")]
    {
      loading := false;
      className := "";
      totalStudents := "";
      adminPin := "";
      var blank := new SubjectDraft();
      subjects := [blank];
    }

    /** Typing in one of the class fields. */
    method SetFormField(field: FormField, value: string)
      modifies this`className, this`totalStudents, this`adminPin
      ensures className == (if field == ClassName then value else old(className))
      ensures totalStudents == (if field == TotalStudents then value else old(totalStudents))
      ensures adminPin == (if field == AdminPin then value else old(adminPin))
    {
      match field
      case ClassName => className := value;
      case TotalStudents => totalStudents := value;
      case AdminPin => adminPin := value;
    }

    /** `addSubject`: one new blank subject at the end; the others are untouched. */
    method AddSubject()
      requires Valid()
      modifies this`subjects
      ensures Valid()
      ensures |subjects| == |old(subjects)| + 1
      ensures subjects[..|old(subjects)|] == old(subjects)
      ensures fresh(subjects[|old(subjects)|])
      ensures Entries(subjects) == old(Entries(subjects)) + [SubjectEntry("", "")]
    {
      var blank := new SubjectDraft();
      subjects := subjects + [blank];
    }

    /** `handleSubjectChange(index, field, value)`: the list keeps the same
        draft objects and the draft at `index` gets `value` in `field`. The
        write is in place, so the list value from before the call shows it too. */
    method HandleSubjectChange(index: int, field: SubjectField, value: string)
      requires Valid()
      requires 0 <= index < |subjects|
      modifies subjects[index]
      ensures Valid()
      ensures subjects == old(subjects)
      ensures field == Name ==> subjects[index].name == value && subjects[index].code == old(subjects[index].code)
      ensures field == Code ==> subjects[index].code == value && subjects[index].name == old(subjects[index].name)
      ensures forall j :: 0 <= j < |subjects| && j != index ==>
                Entries(subjects)[j] == old(Entries(subjects))[j]
      ensures |Entries(subjects)| == |old(Entries(subjects))|
    {
      var draft := subjects[index];
      match field
      case Name => draft.name := value;
      case Code => draft.code := value;
    }

    /** Submitting: the page shows it is busy and the payload is sent. The
        browser submits the form only when the button is enabled (not
        loading) and every `required` field is filled in: the class name,
        the student count, the PIN and each subject's name. */
    method BeginSubmit() returns (payload: CreatePayload)
      requires !loading
      requires className != "" && totalStudents != "" && adminPin != ""
      requires forall i :: 0 <= i < |subjects| ==> subjects[i].name != ""
      modifies this`loading
      ensures loading
      ensures payload == BuildPayload(className, totalStudents, adminPin, Entries(subjects))
    {
      loading := true;
      payload := BuildPayload(className, totalStudents, adminPin, Entries(subjects));
    }

    /** The request settled, with the created class or None on failure: the
        page stops being busy whatever the outcome (`finally`), and only a
        success yields the token and class id to keep. */
    method FinishSubmit(response: Option<Created>) returns (login: Option<Created>)
      modifies this`loading
      ensures !loading
      ensures login == response
    {
      loading := false;
      login := response;
    }
  }
}
