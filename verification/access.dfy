/**
 * The "Download Post" action (app.py:148-229): the URL gate, then one
 * anonymous attempt, and a single credentialed retry only when the anonymous
 * attempt was refused for privacy or missing login and the login form was
 * submitted. instaloader's calls are not modelled; what they answer is an
 * input, the Environment.
 */
module Access {
  import opened Builtins
  import opened Shortcode
  import opened Media

  /** The exceptions the action tells apart. */
  datatype Failure =
    | PrivateProfileNotFollowed      // instaloader.exceptions.PrivateProfileNotFollowedException
    | LoginRequired                  // instaloader.exceptions.LoginRequiredException
    | OtherError(message: string)    // any other exception

  /** What one attempt (fetch the post, then display it) ends in. */
  datatype Attempt = Fetched(post: Post) | Raised(failure: Failure)

  datatype Credentials = Credentials(username: string, password: string)

  /** The world the action runs against, for the shortcode at hand: the
      anonymous attempt's answer, the login form (None when it is not
      submitted), and the answer of the login followed by the fetch with the
      submitted credentials. */
  datatype Environment = Environment(anonymous: Attempt, form: Option<Credentials>, credentialed: Attempt)

  datatype Stage = AnonymousStage | CredentialedStage

  /** How the action ends: the post shown ("Downloaded without login." or
      "Downloaded after login."), an error reported, or a login form left
      unsubmitted. */
  datatype Outcome =
    | Shown(post: Post, afterLogin: bool)
    | Failed(stage: Stage, failure: Failure)
    | FormNotSubmitted(cause: Failure)

  datatype Phase =
    | Anonymous
    | AwaitingCredentials(cause: Failure)
    | Authenticating(credentials: Credentials)
    | Done(outcome: Outcome)

  /** The two failures for which a login form is offered. */
  predicate AccessDenied(f: Failure)
  {
    f == PrivateProfileNotFollowed || f == LoginRequired
  }

  /** One transition of the action. It makes progress out of every
      unfinished phase and leaves a finished one alone; a login form is
      offered only after the anonymous attempt was refused for access, and
      credentials are used only after a form was submitted with them. */
  function Step(phase: Phase, env: Environment): (next: Phase)
    ensures !phase.Done? ==> Rank(next) < Rank(phase)
    ensures phase.Done? ==> next == phase
    ensures next.AwaitingCredentials? ==>
              phase == Anonymous && env.anonymous == Raised(next.cause) && AccessDenied(next.cause)
    ensures next.Authenticating? ==>
              phase.AwaitingCredentials? && env.form == Some(next.credentials)
  {
    match phase
    case Anonymous =>
      (match env.anonymous
       case Fetched(post) => Done(Shown(post, false))
       case Raised(f) => if AccessDenied(f) then AwaitingCredentials(f) else Done(Failed(AnonymousStage, f)))
    case AwaitingCredentials(cause) =>
      (match env.form
       case None => Done(FormNotSubmitted(cause))
       case Some(credentials) => Authenticating(credentials))
    case Authenticating(_) =>
      // `except Exception` after the login: every failure ends the action.
      (match env.credentialed
       case Fetched(post) => Done(Shown(post, true))
       case Raised(f) => Done(Failed(CredentialedStage, f)))
    case Done(_) => phase
  }

  /** How many transitions at most remain before the action is done. */
  function Rank(phase: Phase): (n: nat)
    ensures n == 0 <==> phase.Done?
  {
    match phase
    case Anonymous => 3
    case AwaitingCredentials(_) => 2
    case Authenticating(_) => 1
    case Done(_) => 0
  }

  /** The phases the action goes through from `phase` until it is done: each
      one follows from the previous by Step, only the last is Done, and there
      are at most Rank(phase) transitions. */
  function Run(phase: Phase, env: Environment): (trace: seq<Phase>)
    ensures 1 <= |trace| <= Rank(phase) + 1
    ensures trace[0] == phase && trace[|trace| - 1].Done?
    ensures forall i :: 0 <= i < |trace| - 1 ==> !trace[i].Done? && trace[i + 1] == Step(trace[i], env)
    decreases Rank(phase)
  {
    if phase.Done? then [phase]
    else [phase] + Run(Step(phase, env), env)
  }

  /** The whole escalation, which always starts anonymously. */
  function Escalate(env: Environment): (trace: seq<Phase>)
    ensures 2 <= |trace| <= 4 && trace[0] == Anonymous
  {
    Run(Anonymous, env)
  }

  /** The outcome the action ends with: that of the last phase of its trace. */
  function OutcomeOf(env: Environment): Outcome
  {
    var trace := Escalate(env);
    trace[|trace| - 1].outcome
  }

  /** The escalation runs one of exactly four traces, chosen by the anonymous
      answer and the form. */
  lemma {:induction false} EscalationTraces(env: Environment)
    ensures env.anonymous.Fetched? ==>
              Escalate(env) == [Anonymous, Done(Shown(env.anonymous.post, false))]
    ensures env.anonymous.Raised? && !AccessDenied(env.anonymous.failure) ==>
              Escalate(env) == [Anonymous, Done(Failed(AnonymousStage, env.anonymous.failure))]
    ensures env.anonymous.Raised? && AccessDenied(env.anonymous.failure) && env.form.None? ==>
              Escalate(env) == [Anonymous, AwaitingCredentials(env.anonymous.failure),
                                Done(FormNotSubmitted(env.anonymous.failure))]
    ensures env.anonymous.Raised? && AccessDenied(env.anonymous.failure) && env.form.Some? ==>
              Escalate(env) == [Anonymous, AwaitingCredentials(env.anonymous.failure),
                                Authenticating(env.form.value), Step(Authenticating(env.form.value), env)]
  {
    var p1 := Step(Anonymous, env);
    assert Escalate(env) == [Anonymous] + Run(p1, env);
    if !p1.Done? {
      var p2 := Step(p1, env);
      assert Run(p1, env) == [p1] + Run(p2, env);
      if !p2.Done? {
        var p3 := Step(p2, env);
        assert Run(p2, env) == [p2] + Run(p3, env);
        assert Run(p3, env) == [p3];
      }
    }
  }

  /** A credentialed attempt happens only after the anonymous attempt was
      refused as private or login-required and the form was submitted, with
      the submitted credentials, and never more than once. */
  lemma LoginOnlyAfterAccessDenied(env: Environment, i: int)
    requires 0 <= i < |Escalate(env)| && Escalate(env)[i].Authenticating?
    ensures env.anonymous.Raised? && AccessDenied(env.anonymous.failure)
    ensures env.form == Some(Escalate(env)[i].credentials)
    ensures i == 2 && Escalate(env)[1] == AwaitingCredentials(env.anonymous.failure)
    ensures forall j :: 0 <= j < |Escalate(env)| && j != i ==> !Escalate(env)[j].Authenticating?
  {
    EscalationTraces(env);
  }

  /** An anonymous failure other than the two access failures ends the action
      at once, with that error and without a login. */
  lemma OtherFailureIsTerminal(env: Environment)
    requires env.anonymous.Raised? && !AccessDenied(env.anonymous.failure)
    ensures |Escalate(env)| == 2
    ensures OutcomeOf(env) == Failed(AnonymousStage, env.anonymous.failure)
    ensures forall j :: 0 <= j < |Escalate(env)| ==>
              !Escalate(env)[j].AwaitingCredentials? && !Escalate(env)[j].Authenticating?
  {
    EscalationTraces(env);
  }

  /** A failure of the login or of the credentialed fetch ends the action with
      that error: nothing is retried. */
  lemma LoginFailureIsTerminal(env: Environment)
    requires env.anonymous.Raised? && AccessDenied(env.anonymous.failure) && env.form.Some?
    requires env.credentialed.Raised?
    ensures |Escalate(env)| == 4
    ensures OutcomeOf(env) == Failed(CredentialedStage, env.credentialed.failure)
  {
    EscalationTraces(env);
  }

  /** The post is shown exactly in two situations: the anonymous fetch
      succeeded (and no login took place), or it was refused for access, the
      form was submitted and the credentialed fetch succeeded. */
  lemma ShownIff(env: Environment, post: Post, afterLogin: bool)
    ensures OutcomeOf(env) == Shown(post, afterLogin) <==>
              (!afterLogin && env.anonymous == Fetched(post)) ||
              (afterLogin && env.anonymous.Raised? && AccessDenied(env.anonymous.failure) &&
               env.form.Some? && env.credentialed == Fetched(post))
  {
    EscalationTraces(env);
  }

  /** What the "Download Post" button does with a URL: stop at the gate, or
      run the escalation for the extracted shortcode. */
  datatype Action = Rejected(gate: Gate) | Attempted(shortcode: string, trace: seq<Phase>)

  /** No instaloader call is made unless the URL passes all three checks; when
      it does, the shortcode handed on is the extracted one and the action
      starts with the anonymous attempt. */
  function DownloadPost(url: string, env: Environment): (a: Action)
    ensures a.Rejected? <==> !CheckUrl(url).Accepted?
    ensures a.Rejected? ==> a.gate == CheckUrl(url)
    ensures a.Attempted? ==> ExtractShortcode(url) == Some(a.shortcode) && IsShortcode(a.shortcode)
    ensures a.Attempted? ==> a.trace == Escalate(env)
    ensures a.Attempted? ==> |a.trace| >= 2 && a.trace[0] == Anonymous && a.trace[|a.trace| - 1].Done?
  {
    match CheckUrl(url)
    case Accepted(code) => Attempted(code, Escalate(env))
    case _ => Rejected(CheckUrl(url))
  }
}
