/**
 * The student's one-time-code page (frontend/src/pages/auth/student/StudentVerifyOTP.jsx):
 * the code field, the submit guards and outcome, and the resend countdown.
 * The timer and the two requests are events and replies given as inputs;
 * toasts and navigation are output values.
 */
module VerifyOtp {
  import opened Common
  import opened Text

  const CodeLength: nat := 6
  /** Seconds before a new code may be requested. */
  const ResendDelay: nat := 60

  /** The page state: the typed code, the submit flag and the resend countdown. */
  datatype Otp = Otp(code: string, submitting: bool, canResend: bool, countdown: nat)

  function Initial(): Otp {
    Otp("", false, false, ResendDelay)
  }

  // ---------------------------------------------------------------------------
  // The code field
  // ---------------------------------------------------------------------------

  /** The first `n` characters: what a field with `maxLength` lets through. */
  function Take(s: string, n: nat): (r: string)
    ensures |r| <= n && |r| <= |s|
  {
    if |s| <= n then s else s[..n]
  }

  /** `value.replace(/\D/g, '')` on a field of at most six characters. */
  function Sanitize(raw: string): (r: string)
    ensures |r| <= CodeLength
    ensures forall i :: 0 <= i < |r| ==> IsDigit(r[i])
  {
    var kept := Take(raw, CodeLength);
    FilterMembers(kept, IsDigitFn());
    Filter(kept, IsDigitFn())
  }

  function IsDigitFn(): char -> bool {
    (c: char) => IsDigit(c)
  }

  /** Sanitising is idempotent, and a code of at most six digits passes unchanged. */
  lemma SanitizeKeepsCodes(code: string)
    requires |code| <= CodeLength && forall i :: 0 <= i < |code| ==> IsDigit(code[i])
    ensures Sanitize(code) == code
  {
    FilterAll(code, IsDigitFn());
  }

  lemma SanitizeIdempotent(raw: string)
    ensures Sanitize(Sanitize(raw)) == Sanitize(raw)
  {
    SanitizeKeepsCodes(Sanitize(raw));
  }

  /** Every digit among the first six characters is kept, in order. */
  lemma SanitizeKeepsDigits(raw: string)
    ensures IsSubseq(Sanitize(raw), Take(raw, CodeLength))
    ensures forall i :: 0 <= i < |Take(raw, CodeLength)| && IsDigit(Take(raw, CodeLength)[i]) ==>
      Take(raw, CodeLength)[i] in Sanitize(raw)
  {
    var kept := Take(raw, CodeLength);
    FilterMembers(kept, IsDigitFn());
    forall i | 0 <= i < |kept| && IsDigit(kept[i]) ensures kept[i] in Sanitize(raw) {
      assert IsDigitFn()(kept[i]);
    }
  }

  function OnInput(st: Otp, raw: string): (r: Otp)
    ensures r.submitting == st.submitting && r.canResend == st.canResend && r.countdown == st.countdown
  {
    st.(code := Sanitize(raw))
  }

  // ---------------------------------------------------------------------------
  // Submitting
  // ---------------------------------------------------------------------------

  /** How the verify request went: the response's `resetToken`, or the error's server message. */
  datatype VerifyReply = Answered(resetToken: Option<string>) | Failed(message: Option<string>)

  datatype Outcome =
    | NoEmail(error: string, redirect: string)
    | WrongLength(error: string)
    | Verified(notice: string, redirect: string)
    | Rejected(error: string)

  /** The submit button is disabled while submitting and whenever the code is not six characters. */
  predicate SubmitDisabled(st: Otp) {
    st.submitting || |st.code| != CodeLength
  }

  /** The guards run before any request: the e-mail from the address, then the code length. */
  predicate SendsRequest(email: Option<string>, code: string) {
    OrElse(email, "") != [] && |code| == CodeLength
  }

  /**
   * `handleSubmit`. A reply without a reset token throws an error that has no
   * server response, so the generic message is shown, not the thrown text.
   * `reply` is only consulted when a request is sent; the guards return
   * before `submitting` is touched, and a sent request clears it when it settles.
   */
  function Submit(st: Otp, email: Option<string>, reply: VerifyReply): (r: (Otp, Outcome))
    ensures SendsRequest(email, st.code) ==> r.0 == st.(submitting := false)
    ensures !SendsRequest(email, st.code) ==> r.0 == st
  {
    if OrElse(email, "") == [] then
      (st, NoEmail("Email not found in request", "/student/forgot-password"))
    else if |st.code| != CodeLength then
      (st, WrongLength("Please enter the 6-digit OTP"))
    else
      var outcome := match reply
        case Answered(token) =>
          if OrElse(token, "") == [] then Rejected("Invalid or expired OTP")
          else Verified("OTP verified successfully!", "/student/reset-password?token=" + token.value)
        case Failed(message) => Rejected(OrElse(message, "Invalid or expired OTP"));
      (st.(submitting := false), outcome)
  }

  /** The guards: no e-mail wins over a bad code, and the reply matters only when a request is sent. */
  lemma SubmitGuards(st: Otp, email: Option<string>, reply: VerifyReply, other: VerifyReply)
    ensures OrElse(email, "") == [] ==> Submit(st, email, reply).1.NoEmail?
    ensures OrElse(email, "") != [] && |st.code| != CodeLength ==> Submit(st, email, reply).1.WrongLength?
    ensures !SendsRequest(email, st.code) ==> Submit(st, email, reply) == Submit(st, email, other)
  {
  }

  /** An enabled button never meets the length guard. */
  lemma EnabledSubmitHasCode(st: Otp, email: Option<string>, reply: VerifyReply)
    requires !SubmitDisabled(st)
    ensures !Submit(st, email, reply).1.WrongLength?
  {
  }

  /** Success needs a non-empty reset token, and the reset page is reached carrying exactly that token. */
  lemma VerifiedCarriesToken(st: Otp, email: Option<string>, reply: VerifyReply)
    requires Submit(st, email, reply).1.Verified?
    ensures SendsRequest(email, st.code)
    ensures reply.Answered? && reply.resetToken.Some? && reply.resetToken.value != []
    ensures Submit(st, email, reply).1.redirect[|"/student/reset-password?token="|..] == reply.resetToken.value
    ensures StartsWith(Submit(st, email, reply).1.redirect, "/student/reset-password?token=")
  {
    var prefix := "/student/reset-password?token=";
    var url := prefix + reply.resetToken.value;
    assert url[..|prefix|] == prefix;
    assert url[|prefix|..] == reply.resetToken.value;
  }

  // ---------------------------------------------------------------------------
  // Countdown and resend
  // ---------------------------------------------------------------------------

  /**
   * The countdown effect after a change of `countdown`: at zero it enables
   * resending. A state is settled when that effect has run.
   */
  function Settle(st: Otp): (r: Otp)
    ensures r.countdown == st.countdown && r.code == st.code && r.submitting == st.submitting
  {
    if st.countdown == 0 then st.(canResend := true) else st
  }

  /** One second passes: the pending timer, present only while the countdown is positive, decrements it. */
  function Tick(st: Otp): (r: Otp)
    ensures r.countdown == if st.countdown > 0 then st.countdown - 1 else 0
    ensures r.code == st.code && r.submitting == st.submitting
    ensures r.canResend <==> st.canResend || st.countdown == 1
  {
    if st.countdown > 0 then Settle(st.(countdown := st.countdown - 1)) else st
  }

  /** `n` seconds. */
  function Ticks(st: Otp, n: nat): Otp
    decreases n
  {
    if n == 0 then st else Ticks(Tick(st), n - 1)
  }

  datatype ResendReply = Sent | NotSent

  datatype Notice = Success(text: string) | Failure(text: string)

  /** `handleResend`: only when allowed; a sent code restarts the countdown and clears the field. */
  function Resend(st: Otp, reply: ResendReply): (r: (Otp, Option<Notice>))
    ensures !st.canResend ==> r == (st, None)
    ensures st.canResend && reply.Sent? ==>
      r.0 == Otp("", st.submitting, false, ResendDelay) && r.1 == Some(Success("New OTP sent to your email"))
    ensures st.canResend && reply.NotSent? ==> r == (st, Some(Failure("Failed to resend OTP")))
  {
    if !st.canResend then (st, None)
    else match reply
      case Sent => (Otp("", st.submitting, false, ResendDelay), Some(Success("New OTP sent to your email")))
      case NotSent => (st, Some(Failure("Failed to resend OTP")))
  }

  /** The countdown invariant: resending is allowed only at zero, and never more than the delay remains. */
  predicate Good(st: Otp) {
    st.countdown <= ResendDelay && (st.canResend ==> st.countdown == 0)
  }

  /** Every transition of the page keeps the countdown invariant. */
  lemma TransitionsKeepGood(st: Otp, raw: string, email: Option<string>, v: VerifyReply, r: ResendReply)
    requires Good(st)
    ensures Good(Initial())
    ensures Good(Tick(st))
    ensures Good(OnInput(st, raw))
    ensures Good(Submit(st, email, v).0)
    ensures Good(Resend(st, r).0)
  {
  }

  /** While the counter runs, `n` seconds take `n` off it, and resending opens exactly when it reaches zero. */
  lemma {:induction false} CountdownFromStart(st: Otp, n: nat)
    requires !st.canResend && 0 < st.countdown && n <= st.countdown
    ensures Ticks(st, n).countdown == st.countdown - n
    ensures Ticks(st, n).canResend <==> n == st.countdown
    ensures Ticks(st, n).code == st.code
    decreases n
  {
    if n > 0 {
      var t := Tick(st);
      assert Ticks(st, n) == Ticks(t, n - 1);
      if st.countdown - 1 == 0 {
        assert n == 1;
        assert Ticks(t, 0) == t;
      } else {
        CountdownFromStart(t, n - 1);
      }
    }
  }

  /** The page opens with resending closed, and sixty seconds later it opens. */
  lemma ResendOpensAfterDelay()
    ensures !Initial().canResend
    ensures !Ticks(Initial(), ResendDelay - 1).canResend
    ensures Ticks(Initial(), ResendDelay).canResend && Ticks(Initial(), ResendDelay).countdown == 0
  {
    CountdownFromStart(Initial(), ResendDelay - 1);
    CountdownFromStart(Initial(), ResendDelay);
  }

  /** After a successful resend the countdown starts over: resending closes again for sixty seconds. */
  lemma ResendRestarts(st: Otp)
    requires st.canResend
    ensures var next := Resend(st, Sent).0;
      next.code == "" && !Ticks(next, ResendDelay - 1).canResend && Ticks(next, ResendDelay).canResend
  {
    var next := Resend(st, Sent).0;
    CountdownFromStart(next, ResendDelay - 1);
    CountdownFromStart(next, ResendDelay);
  }
}
