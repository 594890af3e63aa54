/**
 * The student's password-reset page (frontend/src/pages/auth/student/StudentResetPassword.jsx):
 * the checks `handleSubmit` makes before the reset request, what a reply does
 * to the page, and which of the three views the page shows. The token comes
 * from the address; the request's reply is an input, and toasts, the request
 * and the delayed navigation are output values.
 */
module ResetPassword {
  import opened Common

  /** The form fields and the two flags of the page. */
  datatype Form = Form(password: string, confirmPassword: string, submitting: bool, success: bool)

  function Initial(): Form {
    Form("", "", false, false)
  }

  /** `searchParams.get('token')`: missing, or the text after `token=`; an empty token counts as missing. */
  predicate HasToken(token: Option<string>) {
    OrElse(token, "") != []
  }

  // ---------------------------------------------------------------------------
  // Submitting
  // ---------------------------------------------------------------------------

  /** The body of the reset request. */
  datatype ResetRequest = ResetRequest(token: string, password: string)

  /** How the request went: accepted, or failed with the server's message if it sent one. */
  datatype Reply = Done | Failed(message: Option<string>)

  /** What the submit shows: an error toast, or the success toast and a later move to the login page. */
  datatype Outcome =
    | Mismatch(error: string)
    | MissingToken(error: string)
    | Reset(notice: string, redirect: string, delayMs: nat)
    | Rejected(error: string)

  /** One submit: the page after it, the request it sent if any, and what it showed. */
  datatype Step = Step(form: Form, request: Option<ResetRequest>, outcome: Outcome)

  /**
   * `handleSubmit`. The passwords are compared first, then the token is
   * checked; only then is the request sent. `reply` is only consulted when a
   * request is sent, and `submitting` is cleared once it settles.
   */
  function Submit(st: Form, token: Option<string>, reply: Reply): (r: Step)
    ensures r.form.password == st.password && r.form.confirmPassword == st.confirmPassword
    ensures r.request.Some? ==> !r.form.submitting
    ensures r.request.None? ==> r.form == st
  {
    if st.password != st.confirmPassword then
      Step(st, None, Mismatch("Passwords do not match"))
    else if !HasToken(token) then
      Step(st, None, MissingToken("Invalid or missing reset token"))
    else
      var request := Some(ResetRequest(token.value, st.password));
      match reply
      case Done =>
        Step(st.(submitting := false, success := true), request, Reset("Password reset successfully!", "/login", 3000))
      case Failed(message) =>
        Step(st.(submitting := false), request, Rejected(OrElse(message, "Failed to reset password")))
  }

  /** The checks come in order: a mismatch is reported even without a token, and neither sends anything. */
  lemma ValidationOrder(st: Form, token: Option<string>, reply: Reply)
    ensures st.password != st.confirmPassword ==> Submit(st, token, reply).outcome == Mismatch("Passwords do not match")
    ensures st.password == st.confirmPassword && !HasToken(token) ==>
      Submit(st, token, reply).outcome == MissingToken("Invalid or missing reset token")
    ensures Submit(st, token, reply).outcome.Mismatch? || Submit(st, token, reply).outcome.MissingToken? ==>
      Submit(st, token, reply).request.None? && Submit(st, token, reply).form == st
  {
  }

  /** A request is sent exactly when the passwords match and a token is present, and it carries both. */
  lemma RequestSentIff(st: Form, token: Option<string>, reply: Reply)
    ensures Submit(st, token, reply).request.Some? <==> st.password == st.confirmPassword && HasToken(token)
    ensures Submit(st, token, reply).request.Some? ==>
      Submit(st, token, reply).request.value == ResetRequest(token.value, st.password) &&
      token.value != []
  {
  }

  /** Before a request, the reply does not matter. */
  lemma ReplyIgnoredWithoutRequest(st: Form, token: Option<string>, reply: Reply, other: Reply)
    requires Submit(st, token, reply).request.None?
    ensures Submit(st, token, reply) == Submit(st, token, other)
  {
  }

  /** A failed request leaves `success` as it was, reports the server's message or the default, and ends submitting. */
  lemma FailureKeepsForm(st: Form, token: Option<string>, message: Option<string>)
    requires st.password == st.confirmPassword && HasToken(token)
    ensures Submit(st, token, Failed(message)).form == st.(submitting := false)
    ensures Submit(st, token, Failed(message)).outcome.Rejected?
    ensures Submit(st, token, Failed(message)).outcome.error != []
    ensures message.Some? && message.value != [] ==> Submit(st, token, Failed(message)).outcome.error == message.value
    ensures message.None? ==> Submit(st, token, Failed(message)).outcome.error == "Failed to reset password"
  {
  }

  /** `success` is only ever set by an accepted request. */
  lemma SuccessOnlyFromReset(st: Form, token: Option<string>, reply: Reply)
    requires !st.success && Submit(st, token, reply).form.success
    ensures reply == Done && Submit(st, token, reply).request.Some?
    ensures Submit(st, token, reply).outcome == Reset("Password reset successfully!", "/login", 3000)
  {
  }

  /**
   * Pressing the form's submit button. The button is disabled while
   * submitting, and both password inputs are `required`, so the browser's
   * constraint validation stops an empty field before `handleSubmit` runs;
   * None is a press that submits nothing.
   */
  function PressSubmit(st: Form, token: Option<string>, reply: Reply): (r: Option<Step>)
    ensures r.None? <==> st.submitting || st.password == [] || st.confirmPassword == []
  {
    if st.submitting || st.password == [] || st.confirmPassword == [] then None
    else Some(Submit(st, token, reply))
  }

  /**
   * A press sends the reset request exactly when the button is enabled, the
   * two passwords are equal and non-empty, and a token is present; so an empty
   * password is never sent.
   */
  lemma PressSubmitSends(st: Form, token: Option<string>, reply: Reply)
    ensures var r := PressSubmit(st, token, reply);
      r.Some? && r.value.request.Some? <==>
        !st.submitting && st.password != [] && st.password == st.confirmPassword && HasToken(token)
    ensures var r := PressSubmit(st, token, reply);
      r.Some? && r.value.request.Some? ==> r.value.request.value.password != []
  {
    RequestSentIff(st, token, reply);
  }

  // ---------------------------------------------------------------------------
  // The three views
  // ---------------------------------------------------------------------------

  /** The rendered view and where its button leads; the form's button is disabled only while submitting. */
  datatype View =
    | InvalidLink(button: string)
    | SuccessView(button: string)
    | FormView(submitDisabled: bool)

  /** The render: the missing token first, then success, then the form. */
  function ViewOf(st: Form, token: Option<string>): (r: View)
    ensures r.InvalidLink? <==> !HasToken(token)
    ensures r.SuccessView? <==> HasToken(token) && st.success
  {
    if !HasToken(token) then InvalidLink("/student/forgot-password")
    else if st.success then SuccessView("/login")
    else FormView(st.submitting)
  }

  /** Without a token the invalid-link view is shown whatever the form holds. */
  lemma InvalidLinkRegardless(st: Form, other: Form, token: Option<string>)
    requires !HasToken(token)
    ensures ViewOf(st, token) == ViewOf(other, token) == InvalidLink("/student/forgot-password")
  {
  }

  /** An accepted request switches the page to the success view, whose button leads to the login page. */
  lemma ResetShowsSuccess(st: Form, token: Option<string>)
    requires st.password == st.confirmPassword && HasToken(token)
    ensures ViewOf(Submit(st, token, Done).form, token) == SuccessView("/login")
    ensures Submit(st, token, Done).outcome.redirect == ViewOf(Submit(st, token, Done).form, token).button
  {
  }

  /** A failed request from the form leaves the form shown, with its button enabled again. */
  lemma FailureShowsForm(st: Form, token: Option<string>, message: Option<string>)
    requires ViewOf(st, token).FormView? && st.password == st.confirmPassword
    ensures ViewOf(Submit(st, token, Failed(message)).form, token) == FormView(false)
  {
  }

  /**
   * The form is shown only with a token, so a submit from it never meets the
   * token check: the missing-token error cannot be seen on this page.
   */
  lemma FormNeverMissesToken(st: Form, token: Option<string>, reply: Reply)
    requires ViewOf(st, token).FormView?
    ensures HasToken(token)
    ensures !Submit(st, token, reply).outcome.MissingToken?
    ensures ViewOf(st, token).submitDisabled <==> st.submitting
  {
  }
}
