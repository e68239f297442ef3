/** The submit rule of `src/pages/ContactPage.tsx`: validate, trim, tag
    the sender, save, reset the form. */
module Contact {
  import opened Wrappers
  import Text
  import opened Auth
  import opened Messages

  datatype Form = Form(name: string, email: string, subject: string, message: string, isSubmitting: bool)

  /** The "Missing fields" toast or the "Message sent!" toast. */
  datatype Outcome = MissingFields | MessageSent(record: ContactMessage)

  datatype Submission = Submission(form: Form, store: Store, outcome: Outcome)

  const EmptyForm: Form := Form("", "", "", "", false)

  /** `user?.role === 'donor' ? 'donor' : 'visitor'`. */
  function SenderRoleOf(user: Option<User>): (r: SenderRole)
    ensures r == DonorSender <==> user.Some? && user.value.role == Donor
  {
    if user.Some? && user.value.role == Donor then DonorSender else VisitorSender
  }

  /** `user?.id`. */
  function SenderIdOf(user: Option<User>): (r: Option<string>)
    ensures r.Some? <==> user.Some?
    ensures user.Some? ==> r.value == user.value.id
  {
    match user
    case Some(u) => Some(u.id)
    case None => None
  }

  /** Some field is empty once trimmed. */
  predicate HasBlankField(f: Form) {
    Text.IsBlank(f.name) || Text.IsBlank(f.email) || Text.IsBlank(f.subject) || Text.IsBlank(f.message)
  }

  /** Every field has a character that is not white space: exactly the
      forms that pass validation. */
  predicate Filled(f: Form) {
    Text.HasContent(f.name) && Text.HasContent(f.email) && Text.HasContent(f.subject) && Text.HasContent(f.message)
  }

  /** `handleSubmit`. `now` stands for the clock when the message is saved. */
  function HandleSubmit(f: Form, user: Option<User>, s: Store, now: nat): (r: Submission)
    ensures HasBlankField(f) ==> r == Submission(f, s, MissingFields)
    ensures !HasBlankField(f) ==>
      && r.outcome.MessageSent?
      && r.store == SaveMessage(s, Draft(Text.Trim(f.name), Text.Trim(f.email), Text.Trim(f.subject),
                                         Text.Trim(f.message), Some(SenderRoleOf(user)), SenderIdOf(user)), now).store
      && r.store.messages[|s.messages|] == r.outcome.record
      && r.form == EmptyForm
  {
    if HasBlankField(f) then Submission(f, s, MissingFields)
    else
      var d := Draft(Text.Trim(f.name), Text.Trim(f.email), Text.Trim(f.subject), Text.Trim(f.message),
                     Some(SenderRoleOf(user)), SenderIdOf(user));
      var saved := SaveMessage(s, d, now);
      Submission(EmptyForm, saved.store, MessageSent(saved.record))
  }

  // ---------------------------------------------------------------------------
  // Properties
  // ---------------------------------------------------------------------------

  /** The forms that pass validation are exactly those without a blank field. */
  lemma FilledIffNoBlankField(f: Form)
    ensures Filled(f) <==> !HasBlankField(f)
  {
    Text.HasContentIffNotBlank(f.name);
    Text.HasContentIffNotBlank(f.email);
    Text.HasContentIffNotBlank(f.subject);
    Text.HasContentIffNotBlank(f.message);
  }

  /** A form in which any one of the four fields is empty or all white
      space saves nothing and keeps the form as typed. */
  lemma BlankFieldSavesNothing(f: Form, user: Option<User>, s: Store, now: nat)
    requires !Filled(f)
    ensures HandleSubmit(f, user, s, now).store == s
    ensures HandleSubmit(f, user, s, now).outcome == MissingFields
    ensures HandleSubmit(f, user, s, now).form == f
  {
    FilledIffNoBlankField(f);
  }

  /** A submit saves a message exactly when every field has a character
      other than white space. */
  lemma SavesIffFilled(f: Form, user: Option<User>, s: Store, now: nat)
    ensures HandleSubmit(f, user, s, now).outcome.MessageSent? <==> Filled(f)
    ensures HandleSubmit(f, user, s, now).store != s <==> Filled(f)
  {
    FilledIffNoBlankField(f);
  }

  /** A successful submit appends one record carrying the four trimmed
      fields, none of them empty, with status New. */
  lemma SubmittedFields(f: Form, user: Option<User>, s: Store, now: nat)
    requires Filled(f)
    ensures var r := HandleSubmit(f, user, s, now);
      var m := r.outcome.record;
      && |r.store.messages| == |s.messages| + 1
      && r.store.messages[..|s.messages|] == s.messages
      && m.name == Text.Trim(f.name) && m.name != []
      && m.email == Text.Trim(f.email) && m.email != []
      && m.subject == Text.Trim(f.subject) && m.subject != []
      && m.message == Text.Trim(f.message) && m.message != []
      && m.status == New
  {
    Text.TrimOfNonBlank(f.name);
    Text.TrimOfNonBlank(f.email);
    Text.TrimOfNonBlank(f.subject);
    Text.TrimOfNonBlank(f.message);
  }

  /** A successful submit tags the record 'donor' exactly for a signed-in
      donor, 'visitor' otherwise, and records the signed-in user's id. */
  lemma SubmittedSender(f: Form, user: Option<User>, s: Store, now: nat)
    requires Filled(f)
    ensures var m := HandleSubmit(f, user, s, now).outcome.record;
      && (m.senderRole == Some(DonorSender) <==> user.Some? && user.value.role == Donor)
      && (m.senderRole == Some(VisitorSender) <==> user.None? || user.value.role != Donor)
      && (m.senderId.Some? <==> user.Some?)
      && (user.Some? ==> m.senderId == Some(user.value.id))
  {
  }

  /** Staff and anonymous senders are both tagged as visitors. */
  lemma StaffSendsAsVisitor(u: User)
    requires u.role == Staff
    ensures SenderRoleOf(Some(u)) == VisitorSender && SenderRoleOf(None) == VisitorSender
  {
  }
}
