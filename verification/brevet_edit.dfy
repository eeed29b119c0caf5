/**
  The patent ("brevet") edit form: the state it keeps, how a fetched record
  is decoded into that state, how a change of the author multi-select
  updates it, and what a submit does. Network replies are inputs of each
  handler; the update request, the toast and the route change are outputs.
 */
module BrevetEdit {
  import opened Options
  import opened Delimited

  /** Separator between the author names of a record. */
  const AuthorSep := ", "
  /** Separator between the author ids of a record. */
  const IdSep := ","
  /** Where a successful update leads. */
  const PatentListRoute := "/dashboard/patent"

  const MembersLoadError := "Erreur lors de la récupération des membres"
  const RecordLoadError := "Erreur lors de la récupération du brevet"
  const NoAuthorError := "Veuillez sélectionner au moins un auteur."
  const UpdateSuccess := "Brevet mis à jour avec succès"
  const UpdateError := "Erreur lors de la mise à jour du brevet"

  /** A roster entry: `id` keys the option list, `userId` is what a record's id list refers to. */
  datatype Member = Member(id: int, userId: string, name: string)

  /**
    A patent record as the read endpoint returns it. `author` and `idUser`
    are None when the field is missing or not a string: calling `split` on
    it then throws.
   */
  datatype Record = Record(title: string, doi: string, author: Option<string>, idUser: Option<string>)

  /** The body of the update request. */
  datatype Payload = Payload(title: string, doi: string, author: string, idUser: string)

  /** An `<option>` of the author list: its text and its `data-id` attribute. */
  datatype AuthorChoice = AuthorChoice(text: string, dataId: string)

  /** The component's state. */
  datatype Form = Form(
    title: string,
    doi: string,
    members: seq<Member>,
    selectedAuthors: seq<string>,
    selectedAuthorIds: seq<string>,
    error: string)

  /** The reply to a read request. */
  datatype Reply<T> = Received(value: T) | ReadFailed

  /** The outcome of the update request. */
  datatype WriteOutcome = Written | WriteFailed

  /** A toast notification. */
  datatype Toast = SuccessToast(text: string) | ErrorToast(text: string)

  /**
    What one handler does: the next state, the update request it sends (if
    any), the toast it shows (if any) and the route it navigates to (if any).
   */
  datatype Step = Step(form: Form, request: Option<Payload>, toast: Option<Toast>, route: Option<string>)

  /** The state on mount: every field empty. */
  const InitialForm := Form("", "", [], [], [], "")

  /** Stay on the page, with `msg` as the error and as an error toast. */
  function Fail(f: Form, msg: string): Step {
    Step(f.(error := msg), None, Some(ErrorToast(msg)), None)
  }

  /** `fetchMembers`: the roster is replaced on success; a failure is reported and changes nothing else. */
  function LoadMembers(f: Form, reply: Reply<seq<Member>>): (st: Step)
    ensures st.request.None? && st.route.None?
    ensures st.form.(members := f.members, error := f.error) == f
    ensures reply.Received? ==> st.form.members == reply.value && st.form.error == f.error && st.toast.None?
    ensures reply.ReadFailed? ==> st.form.members == f.members
    ensures reply.ReadFailed? ==> st.form.error == MembersLoadError && st.toast == Some(ErrorToast(MembersLoadError))
  {
    match reply
    case Received(ms) => Step(f.(members := ms), None, None, None)
    case ReadFailed => Fail(f, MembersLoadError)
  }

  /** The record arrived and both of its lists are strings. */
  predicate Complete(reply: Reply<Record>) {
    reply.Received? && reply.value.author.Some? && reply.value.idUser.Some?
  }

  /**
    `fetchBrevetDetails`. A complete record fills the form: its lists are
    decoded into names and ids that re-encode to the stored strings (they
    are aligned only if the stored strings were), and neither list is empty. A failed read, or a list
    field that is not a string, reports the error; fields assigned before
    the failing `split` keep their new values.
   */
  function LoadRecord(f: Form, reply: Reply<Record>): (st: Step)
    ensures st.request.None? && st.route.None? && st.form.members == f.members
    ensures reply.Received? ==> st.form.title == reply.value.title && st.form.doi == reply.value.doi
    ensures reply.ReadFailed? ==> st.form == f.(error := RecordLoadError)
    ensures Complete(reply) ==> st.toast.None? && st.form.error == f.error
    ensures reply.Received? && reply.value.author.Some? ==>
      Join(st.form.selectedAuthors, AuthorSep) == reply.value.author.value
    ensures Complete(reply) ==> Join(st.form.selectedAuthorIds, IdSep) == reply.value.idUser.value
    ensures reply.Received? && reply.value.author.Some? ==> |st.form.selectedAuthors| >= 1
    ensures reply.Received? && reply.value.author.Some? ==> forall n <- st.form.selectedAuthors :: Free(n, AuthorSep)
    ensures Complete(reply) ==> |st.form.selectedAuthorIds| >= 1
    ensures Complete(reply) ==> forall u <- st.form.selectedAuthorIds :: Free(u, IdSep)
    ensures !Complete(reply) ==> st.form.error == RecordLoadError && st.toast == Some(ErrorToast(RecordLoadError))
    ensures !Complete(reply) ==> st.form.selectedAuthorIds == f.selectedAuthorIds
    ensures reply.Received? && reply.value.author.None? ==> st.form.selectedAuthors == f.selectedAuthors
  {
    match reply
    case ReadFailed => Fail(f, RecordLoadError)
    case Received(rec) =>
      var titled := f.(title := rec.title, doi := rec.doi);
      match rec.author
      case None => Fail(titled, RecordLoadError)
      case Some(a) =>
        JoinSplit(a, AuthorSep);
        var named := titled.(selectedAuthors := Split(a, AuthorSep));
        match rec.idUser
        case None => Fail(named, RecordLoadError)
        case Some(u) =>
          JoinSplit(u, IdSep);
          Step(named.(selectedAuthorIds := Split(u, IdSep)), None, None, None)
  }

  /** The options the author list shows: one per roster member, carrying its user id. */
  function RosterChoices(members: seq<Member>): (cs: seq<AuthorChoice>)
    ensures |cs| == |members|
    ensures forall i :: 0 <= i < |members| ==> cs[i] == AuthorChoice(members[i].name, members[i].userId)
  {
    seq(|members|, i requires 0 <= i < |members| => AuthorChoice(members[i].name, members[i].userId))
  }

  /**
    `handleAuthorSelection`: both lists are replaced wholesale by the texts
    and the ids of the selected options, in the order the control lists
    them; nothing else changes.
   */
  function SelectAuthors(f: Form, selected: seq<AuthorChoice>): (st: Step)
    ensures st.request.None? && st.toast.None? && st.route.None?
    ensures st.form.(selectedAuthors := f.selectedAuthors, selectedAuthorIds := f.selectedAuthorIds) == f
    ensures |st.form.selectedAuthors| == |selected| && |st.form.selectedAuthorIds| == |selected|
    ensures forall i :: 0 <= i < |selected| ==>
      st.form.selectedAuthors[i] == selected[i].text && st.form.selectedAuthorIds[i] == selected[i].dataId
  {
    var names := seq(|selected|, i requires 0 <= i < |selected| => selected[i].text);
    var ids := seq(|selected|, i requires 0 <= i < |selected| => selected[i].dataId);
    Step(f.(selectedAuthors := names, selectedAuthorIds := ids), None, None, None)
  }

  /**
    The update request body. Each list decodes back from its string exactly
    when it is non-empty and no element contains its separator.
   */
  function BuildPayload(f: Form): (p: Payload)
    ensures p.title == f.title && p.doi == f.doi
    ensures p.author == Join(f.selectedAuthors, AuthorSep) && p.idUser == Join(f.selectedAuthorIds, IdSep)
    ensures Split(p.author, AuthorSep) == f.selectedAuthors <==>
      |f.selectedAuthors| >= 1 && forall n <- f.selectedAuthors :: Free(n, AuthorSep)
    ensures Split(p.idUser, IdSep) == f.selectedAuthorIds <==>
      |f.selectedAuthorIds| >= 1 && forall u <- f.selectedAuthorIds :: Free(u, IdSep)
  {
    CommaSpaceIsBorderless();
    SingleCharIsBorderless(',');
    SplitJoin(f.selectedAuthors, AuthorSep);
    SplitJoin(f.selectedAuthorIds, IdSep);
    Payload(f.title, f.doi, Join(f.selectedAuthors, AuthorSep), Join(f.selectedAuthorIds, IdSep))
  }

  /**
    `handleSubmit`, with the outcome of the update request as an input. An
    empty id list is rejected before any request and only the error
    changes; otherwise the request is sent, whatever the name list holds.
    A written update navigates to the patent list; a failed one stays with
    the form intact and reports the error.
   */
  function Submit(f: Form, outcome: WriteOutcome): (st: Step)
    ensures st.request.Some? <==> |f.selectedAuthorIds| != 0
    ensures st.request.None? ==> st.form == f.(error := NoAuthorError) && st.toast == Some(ErrorToast(NoAuthorError))
    ensures st.request.Some? ==> st.request.value == BuildPayload(f)
    ensures st.route.Some? <==> st.request.Some? && outcome.Written?
    ensures st.route.Some? ==> st.route.value == PatentListRoute && st.form == f
    ensures st.route.Some? ==> st.toast == Some(SuccessToast(UpdateSuccess))
    ensures st.request.Some? && outcome.WriteFailed? ==>
      st.form == f.(error := UpdateError) && st.toast == Some(ErrorToast(UpdateError))
  {
    if |f.selectedAuthorIds| == 0 then
      Fail(f, NoAuthorError)
    else
      var p := BuildPayload(f);
      match outcome
      case Written => Step(f, Some(p), Some(SuccessToast(UpdateSuccess)), Some(PatentListRoute))
      case WriteFailed => Fail(f, UpdateError).(request := Some(p))
  }

  /**
    The record a read returns after `p` was written. This assumes that the
    server's read endpoint returns exactly the four fields its update
    endpoint stored; the server is not part of this model.
   */
  function Stored(p: Payload): Record {
    Record(p.title, p.doi, Some(p.author), Some(p.idUser))
  }

  /**
    The three facts `LoadRecord` promises about the names it loads from a
    string `a` (they join back to `a`, there is at least one, none contains
    ", ") leave only one possible list: `a.split(", ")`.
   */
  lemma NamesFixedBySplitFacts(names: seq<string>, a: string)
    requires Join(names, AuthorSep) == a && |names| >= 1
    requires forall n <- names :: Free(n, AuthorSep)
    ensures names == Split(a, AuthorSep)
  {
    CommaSpaceIsBorderless();
    SplitJoin(names, AuthorSep);
  }

  /**
    Whenever `author` is a string, the loaded names are `author.split(", ")`,
    even when `id_user` then fails.
   */
  lemma LoadedNamesAreSplit(f: Form, rec: Record)
    requires rec.author.Some?
    ensures LoadRecord(f, Received(rec)).form.selectedAuthors == Split(rec.author.value, AuthorSep)
  {
    NamesFixedBySplitFacts(LoadRecord(f, Received(rec)).form.selectedAuthors, rec.author.value);
  }

  /**
    On mount no author is selected, so a submit before the record has
    loaded is rejected: nothing is sent and only the error changes.
   */
  lemma SubmitBeforeLoadIsRejected(outcome: WriteOutcome)
    ensures InitialForm.selectedAuthors == [] && InitialForm.selectedAuthorIds == []
    ensures Submit(InitialForm, outcome).request.None? && Submit(InitialForm, outcome).route.None?
    ensures Submit(InitialForm, outcome).form == InitialForm.(error := NoAuthorError)
  {
  }

  /** A freshly loaded record always passes the "at least one author" check. */
  lemma LoadedRecordPassesGuard(f: Form, rec: Record, outcome: WriteOutcome)
    requires rec.author.Some? && rec.idUser.Some?
    ensures Submit(LoadRecord(f, Received(rec)).form, outcome).request.Some?
  {
  }

  /** Loading a record and saving it unmodified re-sends exactly the stored strings. */
  lemma LoadThenSaveResendsRecord(f: Form, rec: Record, outcome: WriteOutcome)
    requires rec.author.Some? && rec.idUser.Some?
    ensures Submit(LoadRecord(f, Received(rec)).form, outcome).request
         == Some(Payload(rec.title, rec.doi, rec.author.value, rec.idUser.value))
  {
  }

  /**
    Saving a selection and loading the stored record gives back the same
    aligned lists, when neither list is empty and no name contains ", "
    and no id contains ",".
   */
  lemma SaveThenLoadRestoresSelection(f: Form, outcome: WriteOutcome, g: Form)
    requires |f.selectedAuthors| >= 1 && |f.selectedAuthorIds| >= 1
    requires forall n <- f.selectedAuthors :: Free(n, AuthorSep)
    requires forall u <- f.selectedAuthorIds :: Free(u, IdSep)
    ensures Submit(f, outcome).request.Some?
    ensures var loaded := LoadRecord(g, Received(Stored(Submit(f, outcome).request.value))).form;
      loaded.selectedAuthors == f.selectedAuthors && loaded.selectedAuthorIds == f.selectedAuthorIds
  {
    var p := BuildPayload(f);
    var loaded := LoadRecord(g, Received(Stored(p))).form;
    assert loaded.selectedAuthors == Split(p.author, AuthorSep);
    assert loaded.selectedAuthorIds == Split(p.idUser, IdSep);
  }

  /** A rejected submit sends nothing, so the network outcome cannot matter. */
  lemma RejectionIgnoresOutcome(f: Form)
    requires |f.selectedAuthorIds| == 0
    ensures Submit(f, Written) == Submit(f, WriteFailed)
    ensures Submit(f, Written).route.None?
  {
  }

  /**
    A record whose `id_user` is "" loads as one empty id, passes the check
    and is saved with `id_user` "" again.
   */
  lemma EmptyIdListPassesGuard(f: Form, title: string, doi: string, author: string, outcome: WriteOutcome)
    ensures var loaded := LoadRecord(f, Received(Record(title, doi, Some(author), Some("")))).form;
      loaded.selectedAuthorIds == [""] && Submit(loaded, outcome).request.Some?
      && Submit(loaded, outcome).request.value.idUser == ""
  {
    var loaded := LoadRecord(f, Received(Record(title, doi, Some(author), Some("")))).form;
    assert Split("", IdSep) == [""] by {
      assert IndexFrom("", IdSep, 0).None?;
      assert ""[0..] == "";
    }
    assert loaded.selectedAuthorIds == [""];
  }

  /**
    The check looks only at the ids: with no names but one id the request is
    sent with `author` "", and reloading it yields one empty name.
   */
  lemma MisalignedListsAreSent(f: Form)
    requires f.selectedAuthors == [] && f.selectedAuthorIds == ["u1"]
    ensures Submit(f, Written).request == Some(Payload(f.title, f.doi, "", "u1"))
    ensures var loaded := LoadRecord(f, Received(Stored(Submit(f, Written).request.value))).form;
      loaded.selectedAuthors == [""] && loaded.selectedAuthorIds == ["u1"]
  {
    var loaded := LoadRecord(f, Received(Record(f.title, f.doi, Some(""), Some("u1")))).form;
    assert Split("", AuthorSep) == [""] by {
      assert IndexFrom("", AuthorSep, 0).None?;
      assert ""[0..] == "";
    }
    FreeOfFirstChar("u1", IdSep);
    SplitWhole("u1", IdSep);
  }

  /**
    A name containing ", " does not survive a save and a reload: the one
    author "Doe, John" comes back as two names against one id.
   */
  lemma NameWithSeparatorSplitsOnReload(f: Form)
    requires f.selectedAuthors == ["Doe, John"] && f.selectedAuthorIds == ["u1"]
    ensures var loaded := LoadRecord(f, Received(Stored(Submit(f, Written).request.value))).form;
      loaded.selectedAuthors == ["Doe", "John"] && loaded.selectedAuthorIds == ["u1"]
  {
    CommaSpaceIsBorderless();
    SingleCharIsBorderless(',');
    FreeOfFirstChar("Doe", AuthorSep);
    FreeOfFirstChar("John", AuthorSep);
    assert Join(["Doe", "John"], AuthorSep) == "Doe, John";
    SplitJoin(["Doe", "John"], AuthorSep);
    FreeOfFirstChar("u1", IdSep);
    SplitWhole("u1", IdSep);
  }

  /** A stored "A, B" / "1,2" record loads as the aligned lists ["A", "B"] and ["1", "2"]. */
  lemma DecodeTwoAuthors(f: Form)
    ensures var loaded := LoadRecord(f, Received(Record("T", "D", Some("A, B"), Some("1,2")))).form;
      loaded.selectedAuthors == ["A", "B"] && loaded.selectedAuthorIds == ["1", "2"]
  {
    CommaSpaceIsBorderless();
    SingleCharIsBorderless(',');
    assert Join(["A", "B"], AuthorSep) == "A, B";
    SplitJoin(["A", "B"], AuthorSep);
    assert Join(["1", "2"], IdSep) == "1,2";
    SplitJoin(["1", "2"], IdSep);
  }

  /** The roster of the session below: Alice (u1) and Bob (u2). */
  const SessionRoster := [Member(1, "u1", "Alice"), Member(2, "u2", "Bob")]

  /** Loading the roster and then the record "T"/"D"/"Alice"/"u1" selects Alice alone. */
  lemma SessionLoad()
    ensures LoadRecord(LoadMembers(InitialForm, Received(SessionRoster)).form,
                       Received(Record("T", "D", Some("Alice"), Some("u1")))).form
         == Form("T", "D", SessionRoster, ["Alice"], ["u1"], "")
  {
    FreeOfFirstChar("Alice", AuthorSep);
    SplitWhole("Alice", AuthorSep);
    FreeOfFirstChar("u1", IdSep);
    SplitWhole("u1", IdSep);
  }

  /** Selecting every roster option selects Alice and Bob, in roster order. */
  lemma SessionSelect(f: Form)
    ensures SelectAuthors(f, RosterChoices(SessionRoster)).form
         == f.(selectedAuthors := ["Alice", "Bob"], selectedAuthorIds := ["u1", "u2"])
  {
    assert RosterChoices(SessionRoster) == [AuthorChoice("Alice", "u1"), AuthorChoice("Bob", "u2")];
  }

  /** Alice and Bob, with ids u1 and u2, are sent as "Alice, Bob" and "u1,u2". */
  lemma SessionPayload()
    ensures BuildPayload(Form("T", "D", SessionRoster, ["Alice", "Bob"], ["u1", "u2"], ""))
         == Payload("T", "D", "Alice, Bob", "u1,u2")
  {
    assert Join(["Alice", "Bob"], AuthorSep) == "Alice, Bob";
    assert Join(["u1", "u2"], IdSep) == "u1,u2";
  }

  /**
    A whole session: the roster Alice/u1, Bob/u2 loads, the record
    "T"/"D"/"Alice"/"u1" loads, both members are selected, and a submit
    sends author "Alice, Bob" and id_user "u1,u2", then leaves for the
    patent list.
   */
  lemma AddSecondAuthorSession()
    ensures
      var f1 := LoadMembers(InitialForm, Received(SessionRoster)).form;
      var f2 := LoadRecord(f1, Received(Record("T", "D", Some("Alice"), Some("u1")))).form;
      var st := Submit(SelectAuthors(f2, RosterChoices(SessionRoster)).form, Written);
      st.request == Some(Payload("T", "D", "Alice, Bob", "u1,u2")) && st.route == Some(PatentListRoute)
  {
    SessionLoad();
    var f2 := Form("T", "D", SessionRoster, ["Alice"], ["u1"], "");
    SessionSelect(f2);
    SessionPayload();
  }

  /** Some member of `members` has this name and this user id. */
  ghost predicate SameMember(members: seq<Member>, name: string, id: string) {
    exists m <- members :: m.name == name && m.userId == id
  }

  /**
    Picking options from the rendered roster keeps names and ids aligned:
    each selected name and the id at the same position belong to one member.
   */
  lemma SelectionFromRosterIsAligned(f: Form, selected: seq<AuthorChoice>)
    requires forall c <- selected :: c in RosterChoices(f.members)
    ensures var g := SelectAuthors(f, selected).form;
      forall i :: 0 <= i < |selected| ==> SameMember(f.members, g.selectedAuthors[i], g.selectedAuthorIds[i])
  {
    var cs := RosterChoices(f.members);
    var g := SelectAuthors(f, selected).form;
    forall i | 0 <= i < |selected|
      ensures SameMember(f.members, g.selectedAuthors[i], g.selectedAuthorIds[i])
    {
      assert selected[i] in cs;
      var k :| 0 <= k < |cs| && cs[k] == selected[i];
      var m := f.members[k];
      assert m in f.members;
      assert m.name == g.selectedAuthors[i] && m.userId == g.selectedAuthorIds[i];
    }
  }
}
