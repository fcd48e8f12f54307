/**
 The authentication and onboarding states of a window (app/src/root_view.rs), native build.

 Workspaces and accepted onboarding settings are numbered as they come up. `Step` is what one event
 does, `RootView` does it in place, and the ledger records what became of every workspace, of every
 accepted settings and of the tutorial that each of them asks for. What the program reads from
 outside while it handles an event (the signed-in user, flags, a preference that all windows share)
 is the event's `Env`, and may be anything each time.
 */
module Onboarding {
  import opened Wrappers

  type WorkspaceId = nat

  /** The settings of a workspace that is yet to be created: the window's own, or empty ones. */
  datatype WorkspaceArgs = Own | Empty

  datatype Target = ToCreate(args: WorkspaceArgs) | Existing(workspace: WorkspaceId)

  datatype State =
    | Auth(args: WorkspaceArgs)
    | ConfirmIncomingAuth(args: WorkspaceArgs)
    | NeedsSsoLink(target: Target)
    | Onboarding(target: Target)
    | LoginSlide(target: Target)
    | Terminal(workspace: WorkspaceId)

  datatype User = User(needsSsoLink: bool, isOnboarded: bool, isAnonymous: bool)

  /** Credentials may be there before the user is. */
  datatype Env = Env(
    user: Option<User>, isLoggedIn: bool, completedLocally: bool, agentOnboarding: bool,
    newSettingsModes: bool, debugFeatures: bool, variantOne: bool)
  {
    function NeedsSsoLink(): Option<bool> {
      if user.Some? then Some(user.value.needsSsoLink) else None
    }

    function IsOnboarded(): Option<bool> {
      if user.Some? then Some(user.value.isOnboarded) else None
    }

    function IsAnonymous(): Option<bool> {
      if user.Some? then Some(user.value.isAnonymous) else None
    }
  }

  datatype Event =
    | AuthComplete | AccountDisabled | SkippedLogin | LoginOverrideDetected
    | BackToOnboarding | LoginLaterConfirmed
    | OnboardingCompleted(ai: bool, warpDrive: bool) | OnboardingSkipped
    | PrivacySettingsRequested | LoginFromWelcomeRequested
    | InitialLoadCompleted | LogOut | OverrideModalClosed | DebugEnterOnboarding

  /** What became of workspaces, settings and tutorials, each in order. */
  datatype Ledger = Ledger(
    created: nat, dropped: seq<WorkspaceId>,
    accepted: nat, applied: seq<nat>, discarded: seq<nat>, replaced: seq<nat>,
    delivered: seq<nat>, withdrawn: seq<nat>, thrown: seq<nat>)

  datatype World = World(state: State, tutorial: Option<nat>, settings: Option<nat>, ledger: Ledger)

  function OrElse(value: Option<bool>, default: bool): bool {
    if value.Some? then value.value else default
  }

  function Listed(value: Option<nat>): seq<nat> {
    if value.Some? then [value.value] else []
  }

  /** A terminal with a new workspace. */
  function Created(w: World): World {
    w.(state := Terminal(w.ledger.created), ledger := w.ledger.(created := w.ledger.created + 1))
  }

  /** A terminal with the workspace of a target. */
  function ToWorkspace(w: World, target: Target): World {
    match target
    case Existing(workspace) => w.(state := Terminal(workspace))
    case ToCreate(_) => Created(w)
  }

  function TryOpenOnboardingSlides(state: State): State {
    match state
    case Auth(args) => State.Onboarding(ToCreate(args))
    case ConfirmIncomingAuth(args) => State.Onboarding(ToCreate(args))
    case Terminal(workspace) => State.Onboarding(Existing(workspace))
    case _ => state
  }

  predicate ShowsOnboarding(env: Env) {
    && !OrElse(env.IsOnboarded(), true) && !OrElse(env.IsAnonymous(), false)
    && !env.completedLocally && env.agentOnboarding
  }

  function CompleteAuth(w: World, env: Env): World {
    var state := if ShowsOnboarding(env) then TryOpenOnboardingSlides(w.state) else w.state;
    match state
    case Auth(_) => Created(w)
    case ConfirmIncomingAuth(_) => Created(w)
    case LoginSlide(target) => ToWorkspace(w, target)
    case _ => w.(state := state)
  }

  function ShowNeedsSsoLink(state: State): State {
    match state
    case Auth(args) => NeedsSsoLink(ToCreate(args))
    case ConfirmIncomingAuth(args) => NeedsSsoLink(ToCreate(args))
    case Terminal(workspace) => NeedsSsoLink(Existing(workspace))
    case _ => state
  }

  function LoggedOut(w: World): World {
    match w.state
    case ConfirmIncomingAuth(args) => w.(state := Auth(args))
    case NeedsSsoLink(ToCreate(args)) => w.(state := Auth(args))
    case Terminal(workspace) =>
      w.(state := Auth(Empty), ledger := w.ledger.(dropped := w.ledger.dropped + [workspace]))
    case _ => w
  }

  /** A tutorial is taken; it is delivered to the workspace, or thrown away when there is none. */
  function StartPendingTutorial(w: World): World {
    if w.tutorial.None? then w
    else if w.state.Terminal? then
      w.(tutorial := None, ledger := w.ledger.(delivered := w.ledger.delivered + [w.tutorial.value]))
    else
      w.(tutorial := None, ledger := w.ledger.(thrown := w.ledger.thrown + [w.tutorial.value]))
  }

  function ApplyPending(w: World): World {
    w.(settings := None, ledger := w.ledger.(applied := w.ledger.applied + Listed(w.settings)))
  }

  /** The next settings are accepted, and their tutorial takes the place of a pending one. */
  function Accepted(w: World): World {
    w.(tutorial := Some(w.ledger.accepted),
       ledger := w.ledger.(accepted := w.ledger.accepted + 1, thrown := w.ledger.thrown + Listed(w.tutorial)))
  }

  predicate RequiresLogin(ai: bool, warpDrive: bool, env: Env) {
    !env.isLoggedIn && (ai || warpDrive) && env.newSettingsModes
  }

  /** The handling of `AuthComplete` before the experiment's extra completion. */
  function AuthCompleted(w: World, env: Env): World {
    if OrElse(env.NeedsSsoLink(), false) then w.(state := ShowNeedsSsoLink(w.state))
    else match w.state
      case Auth(_) => StartPendingTutorial(CompleteAuth(w, env))
      case ConfirmIncomingAuth(_) => StartPendingTutorial(CompleteAuth(w, env))
      case LoginSlide(_) => StartPendingTutorial(CompleteAuth(w, env))
      case NeedsSsoLink(target) =>
        if env.NeedsSsoLink() == Some(false) then ToWorkspace(w, target) else w
      case _ => w
  }

  function LeaveLoginSlide(w: World, target: Target): World {
    StartPendingTutorial(ApplyPending(ToWorkspace(w, target)))
  }

  function Completed(w: World, target: Target, ai: bool, warpDrive: bool, env: Env): World {
    var id := w.ledger.accepted;
    if RequiresLogin(ai, warpDrive, env) then
      var v := Accepted(w);
      v.(state := LoginSlide(target), settings := Some(id),
         ledger := v.ledger.(replaced := v.ledger.replaced + Listed(w.settings)))
    else
      var v := ToWorkspace(w, target);
      var u := Accepted(v.(ledger := v.ledger.(applied := v.ledger.applied + [id])));
      StartPendingTutorial(u)
  }

  function Step(w: World, e: Event, env: Env): World {
    match e
    case AuthComplete =>
      var v := AuthCompleted(w, env);
      if env.variantOne then CompleteAuth(v, env) else v
    case AccountDisabled => LoggedOut(w)
    case SkippedLogin =>
      (match w.state
       case Auth(_) => StartPendingTutorial(CompleteAuth(w, env))
       case ConfirmIncomingAuth(_) => StartPendingTutorial(CompleteAuth(w, env))
       case LoginSlide(target) => LeaveLoginSlide(w, target)
       case _ => w)
    case LoginOverrideDetected =>
      (match w.state
       case Auth(args) => w.(state := ConfirmIncomingAuth(args))
       case _ => w)
    case BackToOnboarding =>
      if w.state.LoginSlide? then
        World(State.Onboarding(w.state.target), None, None,
              w.ledger.(discarded := w.ledger.discarded + Listed(w.settings),
                        withdrawn := w.ledger.withdrawn + Listed(w.tutorial)))
      else w
    case LoginLaterConfirmed =>
      if w.state.LoginSlide? then LeaveLoginSlide(w, w.state.target) else w
    case OnboardingCompleted(ai, warpDrive) =>
      if w.state.Onboarding? then Completed(w, w.state.target, ai, warpDrive, env) else w
    case OnboardingSkipped =>
      if w.state.Onboarding? then ToWorkspace(w, w.state.target) else w
    case PrivacySettingsRequested =>
      if w.state.Onboarding? then w.(state := LoginSlide(w.state.target)) else w
    case LoginFromWelcomeRequested =>
      if w.state.Onboarding? then w.(state := LoginSlide(w.state.target)) else w
    case InitialLoadCompleted => ApplyPending(w)
    case LogOut => LoggedOut(w)
    case OverrideModalClosed =>
      if w.state.ConfirmIncomingAuth? then LoggedOut(w) else w
    case DebugEnterOnboarding =>
      if env.debugFeatures && env.agentOnboarding then w.(state := TryOpenOnboardingSlides(w.state)) else w
  }

  const NO_LEDGER := Ledger(0, [], 0, [], [], [], [], [], [])

  /** A new window. */
  function Start(env: Env, forceLogin: bool, skipAnonymousUser: bool): World {
    var w := World(Auth(Own), None, None, NO_LEDGER);
    if env.isLoggedIn then Created(w)
    else if forceLogin then w
    else if env.newSettingsModes && env.agentOnboarding && !env.completedLocally then
      w.(state := State.Onboarding(ToCreate(Own)))
    else if skipAnonymousUser then Created(w)
    else w
  }

  class RootView {
    var authOnboardingState: State
    var pendingTutorial: Option<nat>
    var pendingPostAuthOnboardingSettings: Option<nat>
    var nextWorkspace: WorkspaceId
    var nextSettings: nat
    ghost var ledger: Ledger

    ghost predicate Valid()
      reads this
    {
      ledger.created == nextWorkspace && ledger.accepted == nextSettings
    }

    ghost function View(): World
      reads this
    {
      World(authOnboardingState, pendingTutorial, pendingPostAuthOnboardingSettings, ledger)
    }

    constructor (env: Env, forceLogin: bool, skipAnonymousUser: bool)
      ensures Valid() && View() == Start(env, forceLogin, skipAnonymousUser)
    {
      pendingTutorial, pendingPostAuthOnboardingSettings := None, None;
      nextWorkspace, nextSettings, ledger := 0, 0, NO_LEDGER;
      authOnboardingState := Auth(Own);
      new;
      if env.isLoggedIn {
        CreateWorkspace();
      } else if !forceLogin {
        if env.newSettingsModes && env.agentOnboarding && !env.completedLocally {
          authOnboardingState := State.Onboarding(ToCreate(Own));
        } else if skipAnonymousUser {
          CreateWorkspace();
        }
      }
    }

    method CreateWorkspace()
      requires Valid()
      modifies this
      ensures Valid() && View() == Created(old(View()))
    {
      authOnboardingState := Terminal(nextWorkspace);
      nextWorkspace := nextWorkspace + 1;
      ledger := ledger.(created := ledger.created + 1);
    }

    method EnterWorkspace(target: Target)
      requires Valid()
      modifies this
      ensures Valid() && View() == ToWorkspace(old(View()), target)
    {
      match target
      case Existing(workspace) => authOnboardingState := Terminal(workspace);
      case ToCreate(_) => CreateWorkspace();
    }

    method TryOpenSlides()
      requires Valid()
      modifies this`authOnboardingState
      ensures View() == old(View()).(state := TryOpenOnboardingSlides(old(authOnboardingState)))
    {
      var target;
      match authOnboardingState {
        case Auth(args) => target := ToCreate(args);
        case ConfirmIncomingAuth(args) => target := ToCreate(args);
        case Terminal(workspace) => target := Existing(workspace);
        case _ => return;
      }
      authOnboardingState := State.Onboarding(target);
    }

    method CompleteAuthAndCreateWorkspace(env: Env)
      requires Valid()
      modifies this
      ensures Valid() && View() == CompleteAuth(old(View()), env)
    {
      if ShowsOnboarding(env) {
        TryOpenSlides();
      }
      match authOnboardingState
      case Auth(_) => CreateWorkspace();
      case ConfirmIncomingAuth(_) => CreateWorkspace();
      case LoginSlide(target) => EnterWorkspace(target);
      case _ =>
    }

    method ShowNeedsSsoLinkView()
      requires Valid()
      modifies this`authOnboardingState
      ensures View() == old(View()).(state := ShowNeedsSsoLink(old(authOnboardingState)))
    {
      match authOnboardingState
      case Auth(args) => authOnboardingState := NeedsSsoLink(ToCreate(args));
      case ConfirmIncomingAuth(args) => authOnboardingState := NeedsSsoLink(ToCreate(args));
      case Terminal(workspace) => authOnboardingState := NeedsSsoLink(Existing(workspace));
      case _ =>
    }

    method DoLogOut()
      requires Valid()
      modifies this
      ensures Valid() && View() == LoggedOut(old(View()))
    {
      match authOnboardingState
      case ConfirmIncomingAuth(args) => authOnboardingState := Auth(args);
      case NeedsSsoLink(target) =>
        match target {
          case ToCreate(args) => authOnboardingState := Auth(args);
          case Existing(_) =>
        }
      case Terminal(workspace) =>
        ledger := ledger.(dropped := ledger.dropped + [workspace]);
        authOnboardingState := Auth(Empty);
      case _ =>
    }

    method StartTutorial()
      requires Valid()
      modifies this
      ensures Valid() && View() == StartPendingTutorial(old(View()))
    {
      if pendingTutorial.None? {
        return;
      }
      var tutorial := pendingTutorial.value;
      pendingTutorial := None;
      if !authOnboardingState.Terminal? {
        ledger := ledger.(thrown := ledger.thrown + [tutorial]);
        return;
      }
      ledger := ledger.(delivered := ledger.delivered + [tutorial]);
    }

    method ApplyPendingSettings()
      requires Valid()
      modifies this
      ensures Valid() && View() == ApplyPending(old(View()))
    {
      ledger := ledger.(applied := ledger.applied + Listed(pendingPostAuthOnboardingSettings));
      pendingPostAuthOnboardingSettings := None;
    }

    method HandleAuthComplete(env: Env)
      requires Valid()
      modifies this
      ensures Valid() && View() == Step(old(View()), AuthComplete, env)
    {
      if OrElse(env.NeedsSsoLink(), false) {
        ShowNeedsSsoLinkView();
      } else if authOnboardingState.Auth? || authOnboardingState.ConfirmIncomingAuth? {
        CompleteAuthAndCreateWorkspace(env);
        StartTutorial();
      } else if authOnboardingState.LoginSlide? {
        CompleteAuthAndCreateWorkspace(env);
        StartTutorial();
      } else if authOnboardingState.NeedsSsoLink? {
        if env.NeedsSsoLink() == Some(false) {
          EnterWorkspace(authOnboardingState.target);
        }
      }
      if env.variantOne {
        CompleteAuthAndCreateWorkspace(env);
      }
    }

    method HandleSkippedLogin(env: Env)
      requires Valid()
      modifies this
      ensures Valid() && View() == Step(old(View()), SkippedLogin, env)
    {
      match authOnboardingState
      case Auth(_) =>
        CompleteAuthAndCreateWorkspace(env);
        StartTutorial();
      case ConfirmIncomingAuth(_) =>
        CompleteAuthAndCreateWorkspace(env);
        StartTutorial();
      case LoginSlide(target) =>
        EnterWorkspace(target);
        ApplyPendingSettings();
        StartTutorial();
      case _ =>
    }

    method HandleLoginOverrideDetected(env: Env)
      requires Valid()
      modifies this`authOnboardingState
      ensures Valid() && View() == Step(old(View()), LoginOverrideDetected, env)
    {
      match authOnboardingState
      case Auth(args) => authOnboardingState := ConfirmIncomingAuth(args);
      case ConfirmIncomingAuth(args) => authOnboardingState := ConfirmIncomingAuth(args);
      case _ =>
    }

    method HandleAccountDisabled(env: Env)
      requires Valid()
      modifies this
      ensures Valid() && View() == Step(old(View()), AccountDisabled, env)
    {
      DoLogOut();
    }

    method HandleOverrideModalClosed(env: Env)
      requires Valid()
      modifies this
      ensures Valid() && View() == Step(old(View()), OverrideModalClosed, env)
    {
      if authOnboardingState.ConfirmIncomingAuth? {
        DoLogOut();
      }
    }

    method HandleLoginSlideEvent(event: Event, env: Env)
      requires Valid() && (event.BackToOnboarding? || event.LoginLaterConfirmed?)
      modifies this
      ensures Valid() && View() == Step(old(View()), event, env)
    {
      if !authOnboardingState.LoginSlide? {
        return;
      }
      var target := authOnboardingState.target;
      if event.BackToOnboarding? {
        authOnboardingState := State.Onboarding(target);
        ledger := ledger.(discarded := ledger.discarded + Listed(pendingPostAuthOnboardingSettings),
                          withdrawn := ledger.withdrawn + Listed(pendingTutorial));
        pendingTutorial := None;
        pendingPostAuthOnboardingSettings := None;
      } else {
        EnterWorkspace(target);
        ApplyPendingSettings();
        StartTutorial();
      }
    }

    method HandleOnboardingCompleted(ai: bool, warpDrive: bool, env: Env)
      requires Valid()
      modifies this
      ensures Valid() && View() == Step(old(View()), OnboardingCompleted(ai, warpDrive), env)
    {
      if !authOnboardingState.Onboarding? {
        return;
      }
      var target := authOnboardingState.target;
      var selectedSettings := nextSettings;
      if RequiresLogin(ai, warpDrive, env) {
        AcceptSettings();
        ledger := ledger.(replaced := ledger.replaced + Listed(pendingPostAuthOnboardingSettings));
        pendingPostAuthOnboardingSettings := Some(selectedSettings);
        authOnboardingState := LoginSlide(target);
        return;
      }
      ledger := ledger.(applied := ledger.applied + [selectedSettings]);
      EnterWorkspace(target);
      AcceptSettings();
      StartTutorial();
    }

    method AcceptSettings()
      requires Valid()
      modifies this
      ensures Valid() && View() == Accepted(old(View()))
    {
      ledger := ledger.(accepted := ledger.accepted + 1, thrown := ledger.thrown + Listed(pendingTutorial));
      pendingTutorial := Some(nextSettings);
      nextSettings := nextSettings + 1;
    }

    method HandleOnboardingSkipped(env: Env)
      requires Valid()
      modifies this
      ensures Valid() && View() == Step(old(View()), OnboardingSkipped, env)
    {
      if authOnboardingState.Onboarding? {
        EnterWorkspace(authOnboardingState.target);
      }
    }

    method HandleLoginSlideRequested(event: Event, env: Env)
      requires Valid() && (event.PrivacySettingsRequested? || event.LoginFromWelcomeRequested?)
      modifies this`authOnboardingState
      ensures Valid() && View() == Step(old(View()), event, env)
    {
      if authOnboardingState.Onboarding? {
        authOnboardingState := LoginSlide(authOnboardingState.target);
      }
    }

    method HandleInitialLoadCompleted(env: Env)
      requires Valid()
      modifies this
      ensures Valid() && View() == Step(old(View()), InitialLoadCompleted, env)
    {
      ApplyPendingSettings();
    }

    method HandleLogOut(env: Env)
      requires Valid()
      modifies this
      ensures Valid() && View() == Step(old(View()), Event.LogOut, env)
    {
      DoLogOut();
    }

    method DebugEnterOnboardingState(env: Env)
      requires Valid()
      modifies this`authOnboardingState
      ensures Valid() && View() == Step(old(View()), DebugEnterOnboarding, env)
    {
      if env.debugFeatures && env.agentOnboarding {
        TryOpenSlides();
      }
    }
  }

  // Runs.

  datatype Stimulus = Stimulus(event: Event, env: Env)

  ghost function RunFrom(w: World, steps: seq<Stimulus>): World {
    if steps == [] then w
    else
      var last := steps[|steps| - 1];
      Step(RunFrom(w, steps[..|steps| - 1]), last.event, last.env)
  }

  // Where events lead, from each state.

  ghost predicate LacksSsoLink(env: Env) {
    env.user.Some? && env.user.value.needsSsoLink
  }

  /** A user who is known not to have been onboarded, neither by the server nor on this machine. */
  ghost predicate IsNewUser(env: Env) {
    && env.user.Some? && !env.user.value.isOnboarded && !env.user.value.isAnonymous
    && !env.completedLocally && env.agentOnboarding
  }

  predicate LogsOut(e: Event) {
    e.LogOut? || e.AccountDisabled?
  }

  /** The workspace that a target leads to: its own, or the next to be created. */
  ghost function WorkspaceOf(w: World, target: Target): WorkspaceId {
    match target
    case Existing(workspace) => workspace
    case ToCreate(_) => w.ledger.created
  }

  /** From the two states before a sign-in: signing in leads to onboarding exactly for a new user, and else
      to a terminal with a new workspace, unless an SSO link is missing; skipping the sign-in likewise. */
  lemma FromSignIn(w: World, e: Event, env: Env)
    requires w.state.Auth? || w.state.ConfirmIncomingAuth?
    ensures var args := w.state.args;
            Step(w, e, env).state ==
            if e.AuthComplete? && LacksSsoLink(env) then NeedsSsoLink(ToCreate(args))
            else if e.AuthComplete? || e.SkippedLogin? then
              if IsNewUser(env) then State.Onboarding(ToCreate(args)) else Terminal(w.ledger.created)
            else if e.LoginOverrideDetected? then ConfirmIncomingAuth(args)
            else if LogsOut(e) || e.OverrideModalClosed? then Auth(args)
            else if e.DebugEnterOnboarding? && env.debugFeatures && env.agentOnboarding then
              State.Onboarding(ToCreate(args))
            else w.state
  {
  }

  /** From a missing SSO link: only a sign-in with the link leads on, and only a log-out back. */
  lemma FromSsoLink(w: World, e: Event, env: Env)
    requires w.state.NeedsSsoLink?
    ensures var target := w.state.target;
            Step(w, e, env).state ==
            if e.AuthComplete? && env.user.Some? && !LacksSsoLink(env) then
              if env.variantOne && IsNewUser(env) then State.Onboarding(Existing(WorkspaceOf(w, target)))
              else Terminal(WorkspaceOf(w, target))
            else if LogsOut(e) && target.ToCreate? then Auth(target.args)
            else w.state
  {
  }

  /** From onboarding: completing it leads to the terminal of its target, or to the login slide first when
      the settings need a sign-in; skipping it, to the terminal. */
  lemma FromOnboarding(w: World, e: Event, env: Env)
    requires w.state.Onboarding?
    ensures var target := w.state.target;
            Step(w, e, env).state ==
            if e.OnboardingCompleted? && !env.isLoggedIn && (e.ai || e.warpDrive) && env.newSettingsModes then
              LoginSlide(target)
            else if e.OnboardingCompleted? || e.OnboardingSkipped? then Terminal(WorkspaceOf(w, target))
            else if e.PrivacySettingsRequested? || e.LoginFromWelcomeRequested? then LoginSlide(target)
            else w.state
  {
  }

  /** From the login slide: going back leads to onboarding, and every way on to the terminal of its target,
      which for a new user in the experiment is onboarding again; a missing SSO link stops only a window
      outside the experiment. */
  lemma FromLoginSlide(w: World, e: Event, env: Env)
    requires w.state.LoginSlide?
    ensures var target := w.state.target;
            Step(w, e, env).state ==
            if e.BackToOnboarding? then State.Onboarding(target)
            else if e.SkippedLogin? || e.LoginLaterConfirmed? then Terminal(WorkspaceOf(w, target))
            else if e.AuthComplete? && LacksSsoLink(env) && !env.variantOne then w.state
            else if e.AuthComplete? && !LacksSsoLink(env) && env.variantOne && IsNewUser(env) then
              State.Onboarding(Existing(WorkspaceOf(w, target)))
            else if e.AuthComplete? then Terminal(WorkspaceOf(w, target))
            else w.state
  {
  }

  /** From the terminal: a sign-in without the SSO link locks it, logging out closes it, and onboarding
      opens over it for a new user in the experiment or on demand. */
  lemma FromTerminal(w: World, e: Event, env: Env)
    requires w.state.Terminal?
    ensures var workspace := w.state.workspace;
            Step(w, e, env).state ==
            if LogsOut(e) then Auth(Empty)
            else if e.AuthComplete? && LacksSsoLink(env) then NeedsSsoLink(Existing(workspace))
            else if e.AuthComplete? && env.variantOne && IsNewUser(env) then State.Onboarding(Existing(workspace))
            else if e.DebugEnterOnboarding? && env.debugFeatures && env.agentOnboarding then
              State.Onboarding(Existing(workspace))
            else w.state
  {
  }

  /** Where a window starts: in onboarding exactly when nobody is signed in or forced to, the modes are new
      and nothing was completed here; else in the terminal when somebody is signed in, or may go without;
      and nothing waits. */
  lemma WhereWindowsStart(env: Env, forceLogin: bool, skipAnonymousUser: bool)
    ensures var w := Start(env, forceLogin, skipAnonymousUser);
            var onboards := !env.isLoggedIn && !forceLogin && env.newSettingsModes && env.agentOnboarding
                            && !env.completedLocally;
            var enters := env.isLoggedIn || (skipAnonymousUser && !forceLogin && !onboards);
            && w.state == (if onboards then State.Onboarding(ToCreate(Own))
                           else if enters then Terminal(0) else Auth(Own))
            && w.tutorial == None && w.settings == None
            && w.ledger == Ledger(if enters then 1 else 0, [], 0, [], [], [], [], [], [])
  {
  }

  // Workspaces.

  ghost function Held(state: State): Option<WorkspaceId> {
    match state
    case Terminal(workspace) => Some(workspace)
    case NeedsSsoLink(Existing(workspace)) => Some(workspace)
    case Onboarding(Existing(workspace)) => Some(workspace)
    case LoginSlide(Existing(workspace)) => Some(workspace)
    case _ => None
  }

  ghost function Ids(n: nat): seq<nat> {
    seq(n, i => i)
  }

  /** Every workspace that was created has been dropped, in order, but for the one that is held. */
  ghost predicate OneWorkspace(w: World) {
    Ids(w.ledger.created) == w.ledger.dropped + Listed(Held(w.state))
  }

  /** Nothing is dropped, a workspace held stays held, and one may be created where none was. */
  ghost predicate KeepsTheWorkspace(w: World, v: World) {
    && v.ledger.dropped == w.ledger.dropped
    && (Held(w.state).Some? ==> Held(v.state) == Held(w.state) && v.ledger.created == w.ledger.created)
    && (Held(w.state).None? ==>
          || (Held(v.state).None? && v.ledger.created == w.ledger.created)
          || (Held(v.state) == Some(w.ledger.created) && v.ledger.created == w.ledger.created + 1))
  }

  lemma CompletionKeepsTheWorkspace(w: World, env: Env)
    ensures KeepsTheWorkspace(w, CompleteAuth(w, env))
    ensures KeepsTheWorkspace(w, StartPendingTutorial(w))
    ensures StartPendingTutorial(w).state == w.state
    ensures StartPendingTutorial(w).ledger.created == w.ledger.created
  {
  }

  lemma AuthKeepsTheWorkspace(w: World, env: Env)
    ensures KeepsTheWorkspace(w, AuthCompleted(w, env))
  {
    hide CompleteAuth, StartPendingTutorial;
    CompletionKeepsTheWorkspace(w, env);
    CompletionKeepsTheWorkspace(CompleteAuth(w, env), env);
  }

  lemma SigningInKeepsTheWorkspace(w: World, env: Env)
    ensures KeepsTheWorkspace(w, AuthCompleted(w, env))
    ensures KeepsTheWorkspace(w, CompleteAuth(AuthCompleted(w, env), env))
    ensures KeepsTheWorkspace(w, StartPendingTutorial(CompleteAuth(w, env)))
  {
    hide CompleteAuth, AuthCompleted, StartPendingTutorial;
    AuthKeepsTheWorkspace(w, env);
    CompletionKeepsTheWorkspace(AuthCompleted(w, env), env);
    CompletionKeepsTheWorkspace(w, env);
    CompletionKeepsTheWorkspace(CompleteAuth(w, env), env);
  }

  lemma LeavingTheSlideKeepsTheWorkspace(w: World, env: Env)
    requires w.state.LoginSlide?
    ensures KeepsTheWorkspace(w, LeaveLoginSlide(w, w.state.target))
  {
    hide StartPendingTutorial;
    CompletionKeepsTheWorkspace(ApplyPending(ToWorkspace(w, w.state.target)), env);
  }

  lemma CompletingKeepsTheWorkspace(w: World, ai: bool, warpDrive: bool, env: Env)
    requires w.state.Onboarding?
    ensures KeepsTheWorkspace(w, Completed(w, w.state.target, ai, warpDrive, env))
  {
  }

  /** What one event does to the workspace held: it stays, or logging out drops it from the terminal. */
  lemma StepAndTheWorkspace(w: World, e: Event, env: Env)
    ensures var v := Step(w, e, env);
            if w.state.Terminal? && LogsOut(e) then
              && Held(v.state) == None
              && v.ledger.dropped == w.ledger.dropped + [w.state.workspace]
              && v.ledger.created == w.ledger.created
            else
              KeepsTheWorkspace(w, v)
  {
    hide CompleteAuth, AuthCompleted, StartPendingTutorial, LeaveLoginSlide, Completed;
    SigningInKeepsTheWorkspace(w, env);
    if w.state.LoginSlide? {
      LeavingTheSlideKeepsTheWorkspace(w, env);
    } else if w.state.Onboarding? && e.OnboardingCompleted? {
      CompletingKeepsTheWorkspace(w, e.ai, e.warpDrive, env);
    }
  }

  lemma StepKeepsOneWorkspace(w: World, e: Event, env: Env)
    requires OneWorkspace(w)
    ensures OneWorkspace(Step(w, e, env))
  {
    StepAndTheWorkspace(w, e, env);
    hide Step;
    var v := Step(w, e, env);
    assert Ids(w.ledger.created + 1) == Ids(w.ledger.created) + [w.ledger.created];
    assert w.ledger.dropped + [] == w.ledger.dropped;
  }

  /** In every run of a window at most one workspace is held, and no other is undropped. */
  lemma {:induction false} OneWorkspaceInEveryRun(w: World, steps: seq<Stimulus>)
    requires OneWorkspace(w)
    ensures OneWorkspace(RunFrom(w, steps))
  {
    if steps != [] {
      var last := steps[|steps| - 1];
      OneWorkspaceInEveryRun(w, steps[..|steps| - 1]);
      StepKeepsOneWorkspace(RunFrom(w, steps[..|steps| - 1]), last.event, last.env);
    }
  }

  lemma WindowsStartWithOneWorkspace(env: Env, forceLogin: bool, skipAnonymousUser: bool)
    ensures OneWorkspace(Start(env, forceLogin, skipAnonymousUser))
  {
    assert Ids(0) == [] && Ids(1) == [0];
  }

  /** No step of the run logs out of a terminal. */
  ghost predicate NeverLogsOut(w: World, steps: seq<Stimulus>) {
    forall k :: 0 <= k < |steps| ==>
      !(LogsOut(steps[k].event) && RunFrom(w, steps[..k]).state.Terminal?)
  }

  /** A workspace that is held stays held, through SSO and onboarding and back, until a log-out from
      the terminal; so when the terminal is next there it is the terminal of the same workspace. */
  lemma {:induction false} TheWorkspaceComesBack(w: World, steps: seq<Stimulus>)
    requires Held(w.state).Some? && NeverLogsOut(w, steps)
    ensures Held(RunFrom(w, steps).state) == Held(w.state)
    ensures RunFrom(w, steps).state.Terminal? ==> RunFrom(w, steps).state == Terminal(Held(w.state).value)
  {
    hide Step;
    if steps != [] {
      var before, last := steps[..|steps| - 1], steps[|steps| - 1];
      forall k | 0 <= k < |before|
        ensures !(LogsOut(before[k].event) && RunFrom(w, before[..k]).state.Terminal?)
      {
        assert before[..k] == steps[..k] && before[k] == steps[k];
      }
      TheWorkspaceComesBack(w, before);
      StepAndTheWorkspace(RunFrom(w, before), last.event, last.env);
    }
  }

  // Settings.

  /** Every accepted settings is in exactly one place: applied, discarded, replaced or pending. */
  ghost predicate SettingsConserved(w: World) {
    multiset(Ids(w.ledger.accepted)) ==
    multiset(w.ledger.applied) + multiset(w.ledger.discarded) + multiset(w.ledger.replaced)
    + multiset(Listed(w.settings))
  }

  /** The settings and what became of them are the same. */
  ghost predicate LeavesTheSettings(w: World, v: World) {
    && v.settings == w.settings && v.ledger.accepted == w.ledger.accepted
    && v.ledger.applied == w.ledger.applied && v.ledger.discarded == w.ledger.discarded
    && v.ledger.replaced == w.ledger.replaced
  }

  lemma CompletionLeavesTheSettings(w: World, env: Env)
    ensures LeavesTheSettings(w, CompleteAuth(w, env))
    ensures LeavesTheSettings(w, StartPendingTutorial(w))
  {
  }

  lemma AuthLeavesTheSettings(w: World, env: Env)
    ensures LeavesTheSettings(w, AuthCompleted(w, env))
  {
    hide CompleteAuth, StartPendingTutorial;
    CompletionLeavesTheSettings(w, env);
    CompletionLeavesTheSettings(CompleteAuth(w, env), env);
  }

  /** The settings that wait, if any, join one of the lists. */
  ghost predicate PendingGoesTo(w: World, m: Ledger, applied: seq<nat>, discarded: seq<nat>, replaced: seq<nat>) {
    && m.applied == w.ledger.applied + applied
    && m.discarded == w.ledger.discarded + discarded
    && m.replaced == w.ledger.replaced + replaced
  }

  /** Nothing is accepted, and the settings that wait go on waiting. */
  ghost predicate AreLeft(w: World, v: World) {
    v.settings == w.settings && v.ledger.accepted == w.ledger.accepted && PendingGoesTo(w, v.ledger, [], [], [])
  }

  /** Nothing is accepted, and the settings that wait are applied. */
  ghost predicate AreApplied(w: World, v: World) {
    && v.settings == None && v.ledger.accepted == w.ledger.accepted
    && PendingGoesTo(w, v.ledger, Listed(w.settings), [], [])
  }

  /** Nothing is accepted, and the settings that wait are discarded. */
  ghost predicate AreDiscarded(w: World, v: World) {
    && v.settings == None && v.ledger.accepted == w.ledger.accepted
    && PendingGoesTo(w, v.ledger, [], Listed(w.settings), [])
  }

  /** New settings are accepted to wait in the place of those that do. */
  ghost predicate AreReplaced(w: World, v: World) {
    && v.settings == Some(w.ledger.accepted) && v.ledger.accepted == w.ledger.accepted + 1
    && PendingGoesTo(w, v.ledger, [], [], Listed(w.settings))
  }

  /** New settings are accepted and applied at once, past those that wait. */
  ghost predicate ArePassed(w: World, v: World) {
    && v.settings == w.settings && v.ledger.accepted == w.ledger.accepted + 1
    && PendingGoesTo(w, v.ledger, [w.ledger.accepted], [], [])
  }

  lemma CompletingAndTheSettings(w: World, target: Target, ai: bool, warpDrive: bool, env: Env)
    ensures var v := Completed(w, target, ai, warpDrive, env);
            if !env.isLoggedIn && (ai || warpDrive) && env.newSettingsModes then AreReplaced(w, v)
            else ArePassed(w, v)
  {
  }

  lemma LeavingTheSlideAndTheSettings(w: World, target: Target, env: Env)
    ensures AreApplied(w, LeaveLoginSlide(w, target))
  {
    hide StartPendingTutorial;
    CompletionLeavesTheSettings(ApplyPending(ToWorkspace(w, target)), env);
  }

  lemma SigningInAndTheSettings(w: World, env: Env)
    ensures AreLeft(w, AuthCompleted(w, env)) && AreLeft(w, CompleteAuth(AuthCompleted(w, env), env))
    ensures AreLeft(w, StartPendingTutorial(CompleteAuth(w, env)))
  {
    hide CompleteAuth, AuthCompleted, StartPendingTutorial;
    AuthLeavesTheSettings(w, env);
    CompletionLeavesTheSettings(AuthCompleted(w, env), env);
    CompletionLeavesTheSettings(w, env);
    CompletionLeavesTheSettings(CompleteAuth(w, env), env);
  }

  /** What one event does to the settings. Completing the onboarding accepts new ones: they wait, in the
      place of any that do, for a sign-in if nobody is signed in and they use AI or Warp Drive, in the new
      settings modes, and are applied past them otherwise. Going back from the login slide discards those
      that wait; leaving it without signing in, and the initial load wherever it comes, apply them. Nothing
      else touches them. */
  lemma StepAndTheSettings(w: World, e: Event, env: Env)
    ensures var v := Step(w, e, env);
            if e.OnboardingCompleted? && w.state.Onboarding? then
              if !env.isLoggedIn && (e.ai || e.warpDrive) && env.newSettingsModes then AreReplaced(w, v)
              else ArePassed(w, v)
            else if e.BackToOnboarding? && w.state.LoginSlide? then AreDiscarded(w, v)
            else if e.InitialLoadCompleted? || ((e.SkippedLogin? || e.LoginLaterConfirmed?) && w.state.LoginSlide?)
            then AreApplied(w, v)
            else AreLeft(w, v)
  {
    hide CompleteAuth, AuthCompleted, StartPendingTutorial, LeaveLoginSlide, Completed;
    SigningInAndTheSettings(w, env);
    if e.OnboardingCompleted? && w.state.Onboarding? {
      CompletingAndTheSettings(w, w.state.target, e.ai, e.warpDrive, env);
    } else if w.state.LoginSlide? {
      LeavingTheSlideAndTheSettings(w, w.state.target, env);
    }
  }

  lemma IdsGrow(n: nat)
    ensures multiset(Ids(n + 1)) == multiset(Ids(n)) + multiset([n])
  {
    assert Ids(n + 1) == Ids(n) + [n];
  }

  lemma Joins(list: seq<nat>, more: seq<nat>)
    ensures multiset(list + more) == multiset(list) + multiset(more)
    ensures multiset(list + []) == multiset(list)
  {
    assert list + [] == list;
  }

  lemma LeavingConserves(w: World, v: World)
    requires SettingsConserved(w) && AreLeft(w, v)
    ensures SettingsConserved(v)
  {
    hide Ids;
    Joins(w.ledger.applied, []);
    Joins(w.ledger.discarded, []);
    Joins(w.ledger.replaced, []);
  }

  lemma ApplyingConserves(w: World, v: World)
    requires SettingsConserved(w) && AreApplied(w, v)
    ensures SettingsConserved(v)
  {
    hide Ids;
    Joins(w.ledger.applied, Listed(w.settings));
    Joins(w.ledger.discarded, []);
    Joins(w.ledger.replaced, []);
  }

  lemma DiscardingConserves(w: World, v: World)
    requires SettingsConserved(w) && AreDiscarded(w, v)
    ensures SettingsConserved(v)
  {
    hide Ids;
    Joins(w.ledger.applied, []);
    Joins(w.ledger.discarded, Listed(w.settings));
    Joins(w.ledger.replaced, []);
  }

  lemma ReplacingConserves(w: World, v: World)
    requires SettingsConserved(w) && AreReplaced(w, v)
    ensures SettingsConserved(v)
  {
    hide Ids;
    IdsGrow(w.ledger.accepted);
    Joins(w.ledger.applied, []);
    Joins(w.ledger.discarded, []);
    Joins(w.ledger.replaced, Listed(w.settings));
  }

  lemma PassingConserves(w: World, v: World)
    requires SettingsConserved(w) && ArePassed(w, v)
    ensures SettingsConserved(v)
  {
    hide Ids;
    IdsGrow(w.ledger.accepted);
    Joins(w.ledger.applied, [w.ledger.accepted]);
    Joins(w.ledger.discarded, []);
    Joins(w.ledger.replaced, []);
  }

  lemma StepConservesSettings(w: World, e: Event, env: Env)
    requires SettingsConserved(w)
    ensures SettingsConserved(Step(w, e, env))
  {
    hide Step, SettingsConserved, AreLeft, AreApplied, AreDiscarded, AreReplaced, ArePassed;
    var v := Step(w, e, env);
    StepAndTheSettings(w, e, env);
    if AreLeft(w, v) {
      LeavingConserves(w, v);
    } else if AreApplied(w, v) {
      ApplyingConserves(w, v);
    } else if AreDiscarded(w, v) {
      DiscardingConserves(w, v);
    } else if AreReplaced(w, v) {
      ReplacingConserves(w, v);
    } else {
      PassingConserves(w, v);
    }
  }

  /** In every run every accepted settings is applied at most once, and is at any time exactly one of
      applied, pending, discarded by going back, or replaced by newer ones. */
  lemma {:induction false} SettingsAreConserved(env: Env, forceLogin: bool, skip: bool, steps: seq<Stimulus>)
    ensures SettingsConserved(RunFrom(Start(env, forceLogin, skip), steps))
    ensures var l := RunFrom(Start(env, forceLogin, skip), steps).ledger;
            forall id :: multiset(l.applied)[id] <= 1
  {
    hide Step;
    var start := Start(env, forceLogin, skip);
    if steps == [] {
      assert Ids(0) == [];
    } else {
      var last := steps[|steps| - 1];
      SettingsAreConserved(env, forceLogin, skip, steps[..|steps| - 1]);
      StepConservesSettings(RunFrom(start, steps[..|steps| - 1]), last.event, last.env);
    }
    var l := RunFrom(start, steps).ledger;
    IdsAreDistinct(l.accepted);
    assert forall id :: multiset(l.applied)[id] <= multiset(Ids(l.accepted))[id];
  }

  lemma {:induction false} IdsAreDistinct(n: nat)
    ensures forall id :: multiset(Ids(n))[id] <= 1
    ensures forall id :: n <= id ==> id !in multiset(Ids(n))
  {
    if n == 0 {
      assert Ids(0) == [];
    } else {
      IdsAreDistinct(n - 1);
      assert Ids(n) == Ids(n - 1) + [n - 1];
    }
  }

  // Tutorials.

  /** The tutorial of every accepted settings is in exactly one place, too. */
  ghost predicate TutorialsConserved(w: World) {
    multiset(Ids(w.ledger.accepted)) ==
    multiset(w.ledger.delivered) + multiset(w.ledger.withdrawn) + multiset(w.ledger.thrown)
    + multiset(Listed(w.tutorial))
  }

  /** The tutorial and what became of the others are the same. */
  ghost predicate LeavesTheTutorial(w: World, v: World) {
    && v.tutorial == w.tutorial && v.ledger.accepted == w.ledger.accepted
    && v.ledger.delivered == w.ledger.delivered && v.ledger.withdrawn == w.ledger.withdrawn
    && v.ledger.thrown == w.ledger.thrown
  }

  lemma TheRestLeavesTheTutorial(w: World, env: Env)
    ensures LeavesTheTutorial(w, CompleteAuth(w, env))
    ensures LeavesTheTutorial(w, ApplyPending(w))
  {
  }

  lemma StartingConservesTutorials(w: World)
    requires TutorialsConserved(w)
    ensures TutorialsConserved(StartPendingTutorial(w))
  {
    hide Ids;
    Joins(w.ledger.delivered, Listed(w.tutorial));
    Joins(w.ledger.thrown, Listed(w.tutorial));
  }

  lemma AcceptingConservesTutorials(w: World)
    requires TutorialsConserved(w)
    ensures TutorialsConserved(Accepted(w))
  {
    hide Ids;
    IdsGrow(w.ledger.accepted);
    Joins(w.ledger.thrown, Listed(w.tutorial));
  }

  lemma WithdrawingConservesTutorials(w: World)
    requires TutorialsConserved(w)
    ensures TutorialsConserved(w.(tutorial := None,
              ledger := w.ledger.(withdrawn := w.ledger.withdrawn + Listed(w.tutorial))))
  {
    hide Ids;
    Joins(w.ledger.withdrawn, Listed(w.tutorial));
  }

  lemma LeftAlone(w: World, v: World)
    requires TutorialsConserved(w) && LeavesTheTutorial(w, v)
    ensures TutorialsConserved(v) && TutorialsConserved(StartPendingTutorial(v)) && TutorialsConserved(Accepted(v))
  {
    StartingConservesTutorials(v);
    AcceptingConservesTutorials(v);
  }

  lemma AuthConservesTutorials(w: World, env: Env)
    requires TutorialsConserved(w)
    ensures TutorialsConserved(AuthCompleted(w, env))
  {
    hide CompleteAuth, StartPendingTutorial, TutorialsConserved;
    TheRestLeavesTheTutorial(w, env);
    LeftAlone(w, CompleteAuth(w, env));
    LeftAlone(w, w.(state := ShowNeedsSsoLink(w.state)));
    if w.state.NeedsSsoLink? {
      LeftAlone(w, ToWorkspace(w, w.state.target));
    }
  }

  lemma LeavingTheSlideConservesTutorials(w: World, target: Target)
    requires TutorialsConserved(w)
    ensures TutorialsConserved(LeaveLoginSlide(w, target))
  {
    hide StartPendingTutorial, TutorialsConserved;
    LeftAlone(w, ApplyPending(ToWorkspace(w, target)));
  }

  lemma CompletingConservesTutorials(w: World, target: Target, ai: bool, warpDrive: bool, env: Env)
    requires TutorialsConserved(w)
    ensures TutorialsConserved(Completed(w, target, ai, warpDrive, env))
  {
    hide StartPendingTutorial, RequiresLogin, TutorialsConserved;
    AcceptingConservesTutorials(w);
    var v := ToWorkspace(w, target);
    var u := v.(ledger := v.ledger.(applied := v.ledger.applied + [w.ledger.accepted]));
    LeftAlone(w, u);
    StartingConservesTutorials(Accepted(u));
    if RequiresLogin(ai, warpDrive, env) {
      LeftAlone(Accepted(w), Completed(w, target, ai, warpDrive, env));
    }
  }

  lemma StepConservesTutorials(w: World, e: Event, env: Env)
    requires TutorialsConserved(w)
    ensures TutorialsConserved(Step(w, e, env))
  {
    hide CompleteAuth, StartPendingTutorial, Accepted, AuthCompleted, LeaveLoginSlide, Completed, TutorialsConserved;
    match e
    case AuthComplete =>
      AuthConservesTutorials(w, env);
      TheRestLeavesTheTutorial(AuthCompleted(w, env), env);
      LeftAlone(AuthCompleted(w, env), CompleteAuth(AuthCompleted(w, env), env));
    case SkippedLogin =>
      TheRestLeavesTheTutorial(w, env);
      LeftAlone(w, CompleteAuth(w, env));
      if w.state.LoginSlide? {
        LeavingTheSlideConservesTutorials(w, w.state.target);
      }
    case LoginLaterConfirmed =>
      if w.state.LoginSlide? {
        LeavingTheSlideConservesTutorials(w, w.state.target);
      }
    case OnboardingCompleted(ai, warpDrive) =>
      if w.state.Onboarding? {
        CompletingConservesTutorials(w, w.state.target, ai, warpDrive, env);
      }
    case BackToOnboarding =>
      WithdrawingConservesTutorials(w);
      if w.state.LoginSlide? {
        var v := w.(tutorial := None, ledger := w.ledger.(withdrawn := w.ledger.withdrawn + Listed(w.tutorial)));
        LeftAlone(v, Step(w, e, env));
      }
    case _ =>
      LeftAlone(w, Step(w, e, env));
  }

  /** In every run every tutorial is delivered, withdrawn by going back, thrown away, or waiting. */
  lemma {:induction false} TutorialsAreConserved(env: Env, forceLogin: bool, skip: bool, steps: seq<Stimulus>)
    ensures TutorialsConserved(RunFrom(Start(env, forceLogin, skip), steps))
  {
    hide Step;
    if steps == [] {
      assert Ids(0) == [];
    } else {
      var last := steps[|steps| - 1];
      TutorialsAreConserved(env, forceLogin, skip, steps[..|steps| - 1]);
      StepConservesTutorials(RunFrom(Start(env, forceLogin, skip), steps[..|steps| - 1]), last.event, last.env);
    }
  }

  /** What waited and what is new goes to the lists given, and `waiting` waits now. */
  ghost predicate TutorialGoesTo(w: World, v: World, waiting: Option<nat>,
                                 delivered: seq<nat>, withdrawn: seq<nat>, thrown: seq<nat>) {
    && v.tutorial == waiting
    && v.ledger.delivered == w.ledger.delivered + delivered
    && v.ledger.withdrawn == w.ledger.withdrawn + withdrawn
    && v.ledger.thrown == w.ledger.thrown + thrown
  }

  lemma StartingAndTheTutorial(w: World)
    ensures TutorialGoesTo(w, StartPendingTutorial(w), None, if w.state.Terminal? then Listed(w.tutorial) else [], [],
                           if w.state.Terminal? then [] else Listed(w.tutorial))
  {
  }

  lemma CompletingAndTheTutorial(w: World, target: Target, ai: bool, warpDrive: bool, env: Env)
    ensures var v, id := Completed(w, target, ai, warpDrive, env), w.ledger.accepted;
            if !env.isLoggedIn && (ai || warpDrive) && env.newSettingsModes
            then TutorialGoesTo(w, v, Some(id), [], [], Listed(w.tutorial))
            else TutorialGoesTo(w, v, None, [id], [], Listed(w.tutorial))
  {
  }

  lemma LeavingTheSlideAndTheTutorial(w: World, target: Target, env: Env)
    ensures TutorialGoesTo(w, LeaveLoginSlide(w, target), None, Listed(w.tutorial), [], [])
  {
  }

  lemma SigningInAndTheTutorial(w: World, env: Env)
    ensures var v := AuthCompleted(w, env);
            if LacksSsoLink(env) || !(w.state.Auth? || w.state.ConfirmIncomingAuth? || w.state.LoginSlide?)
            then LeavesTheTutorial(w, v)
            else if IsNewUser(env) && !w.state.LoginSlide?
            then TutorialGoesTo(w, v, None, [], [], Listed(w.tutorial))
            else TutorialGoesTo(w, v, None, Listed(w.tutorial), [], [])
    ensures LeavesTheTutorial(AuthCompleted(w, env), CompleteAuth(AuthCompleted(w, env), env))
  {
    hide StartPendingTutorial;
    StartingAndTheTutorial(CompleteAuth(w, env));
    TheRestLeavesTheTutorial(w, env);
    TheRestLeavesTheTutorial(AuthCompleted(w, env), env);
  }

  /** An event starts the tutorial that waits: a sign-in that needs no SSO link, skipping it, or leaving the
      login slide without one. */
  ghost predicate StartsTheTutorial(w: World, e: Event, env: Env) {
    || ((e.SkippedLogin? || (e.AuthComplete? && !LacksSsoLink(env)))
        && (w.state.Auth? || w.state.ConfirmIncomingAuth? || w.state.LoginSlide?))
    || (e.LoginLaterConfirmed? && w.state.LoginSlide?)
  }

  /** What one event does to the tutorial that waits. Completing the onboarding throws it away: the new one
      waits in its place or is delivered past it. Going back from the login slide withdraws it. An event
      that starts it delivers it, but throws it away where a new user is led to onboarding instead of the
      terminal. Nothing else touches it. */
  lemma StepAndTheTutorial(w: World, e: Event, env: Env)
    ensures var v, id, waiting := Step(w, e, env), w.ledger.accepted, Listed(w.tutorial);
            if e.OnboardingCompleted? && w.state.Onboarding? then
              if !env.isLoggedIn && (e.ai || e.warpDrive) && env.newSettingsModes
              then TutorialGoesTo(w, v, Some(id), [], [], waiting)
              else TutorialGoesTo(w, v, None, [id], [], waiting)
            else if e.BackToOnboarding? && w.state.LoginSlide? then TutorialGoesTo(w, v, None, [], waiting, [])
            else if StartsTheTutorial(w, e, env) then
              if IsNewUser(env) && !w.state.LoginSlide?
              then TutorialGoesTo(w, v, None, [], [], waiting)
              else TutorialGoesTo(w, v, None, waiting, [], [])
            else LeavesTheTutorial(w, v)
  {
    hide AuthCompleted, StartPendingTutorial, LeaveLoginSlide, Completed;
    SigningInAndTheTutorial(w, env);
    StartingAndTheTutorial(CompleteAuth(w, env));
    TheRestLeavesTheTutorial(w, env);
    if e.OnboardingCompleted? && w.state.Onboarding? {
      CompletingAndTheTutorial(w, w.state.target, e.ai, e.warpDrive, env);
    } else if w.state.LoginSlide? {
      LeavingTheSlideAndTheTutorial(w, w.state.target, env);
    }
  }

  /** A tutorial waits only while the login slide shows, and none was ever lost. */
  ghost predicate TutorialWaitsForLogin(w: World) {
    (w.tutorial.Some? ==> w.state.LoginSlide?) && w.ledger.thrown == []
  }

  /** A tutorial is let out of the login slide: the experiment's extra completion runs after a sign-in that
      finds an SSO link missing, which the slide does not block. */
  predicate LetsTheTutorialOut(w: World, e: Event, env: Env) {
    && w.state.LoginSlide? && w.tutorial.Some?
    && e.AuthComplete? && env.variantOne && env.NeedsSsoLink() == Some(true)
  }

  lemma StepAndTheWaitingTutorial(w: World, e: Event, env: Env)
    requires TutorialWaitsForLogin(w)
    ensures TutorialWaitsForLogin(Step(w, e, env)) <==> !LetsTheTutorialOut(w, e, env)
  {
  }

  /** Throughout a run a tutorial waits only while the login slide shows, and none is thrown away, exactly
      when no step lets one out. */
  lemma {:induction false} WhenTutorialsWait(env: Env, forceLogin: bool, skip: bool, steps: seq<Stimulus>)
    ensures var start := Start(env, forceLogin, skip);
            (forall n :: 0 <= n <= |steps| ==> TutorialWaitsForLogin(RunFrom(start, steps[..n]))) <==>
            (forall k :: 0 <= k < |steps| ==>
               !LetsTheTutorialOut(RunFrom(start, steps[..k]), steps[k].event, steps[k].env))
  {
    hide Step, TutorialWaitsForLogin, LetsTheTutorialOut;
    var start := Start(env, forceLogin, skip);
    StartsWithoutATutorial(env, forceLogin, skip);
    if forall k :: 0 <= k < |steps| ==> !LetsTheTutorialOut(RunFrom(start, steps[..k]), steps[k].event, steps[k].env) {
      forall n | 0 <= n <= |steps|
        ensures TutorialWaitsForLogin(RunFrom(start, steps[..n]))
      {
        WaitsUntilLetOut(start, steps, n);
      }
    } else {
      var k :| 0 <= k < |steps| && LetsTheTutorialOut(RunFrom(start, steps[..k]), steps[k].event, steps[k].env);
      RunSteps(start, steps, k);
      if TutorialWaitsForLogin(RunFrom(start, steps[..k])) {
        StepAndTheWaitingTutorial(RunFrom(start, steps[..k]), steps[k].event, steps[k].env);
      }
    }
  }

  lemma StartsWithoutATutorial(env: Env, forceLogin: bool, skip: bool)
    ensures TutorialWaitsForLogin(Start(env, forceLogin, skip))
  {
  }

  lemma RunSteps(w: World, steps: seq<Stimulus>, k: nat)
    requires k < |steps|
    ensures RunFrom(w, steps[..k + 1]) == Step(RunFrom(w, steps[..k]), steps[k].event, steps[k].env)
  {
    hide Step;
    assert steps[..k + 1][..k] == steps[..k];
  }

  lemma {:induction false} WaitsUntilLetOut(w: World, steps: seq<Stimulus>, n: nat)
    requires n <= |steps| && TutorialWaitsForLogin(w)
    requires forall k :: 0 <= k < n ==> !LetsTheTutorialOut(RunFrom(w, steps[..k]), steps[k].event, steps[k].env)
    ensures TutorialWaitsForLogin(RunFrom(w, steps[..n]))
  {
    hide Step, TutorialWaitsForLogin, LetsTheTutorialOut;
    if n > 0 {
      WaitsUntilLetOut(w, steps, n - 1);
      RunSteps(w, steps, n - 1);
      StepAndTheWaitingTutorial(RunFrom(w, steps[..n - 1]), steps[n - 1].event, steps[n - 1].env);
    } else {
      assert steps[..0] == [];
    }
  }

  ghost predicate WithoutTheExperiment(steps: seq<Stimulus>) {
    forall k :: 0 <= k < |steps| ==> !steps[k].env.variantOne
  }

  lemma {:induction false} TutorialWaitsWithoutTheExperiment(env: Env, forceLogin: bool, skip: bool,
                                                            steps: seq<Stimulus>)
    requires WithoutTheExperiment(steps)
    ensures TutorialWaitsForLogin(RunFrom(Start(env, forceLogin, skip), steps))
  {
    hide TutorialWaitsForLogin, RunFrom;
    WhenTutorialsWait(env, forceLogin, skip, steps);
    assert steps[..|steps|] == steps;
  }

  /** Nobody is signed in and nothing has been onboarded, with everything switched on. */
  const NEWCOMER := Env(None, false, false, true, true, false, true)

  /** The same person after signing in, whose account needs an SSO link. */
  const SIGNED_IN := Env(Some(User(true, false, false)), true, true, true, true, false, true)

  /** Settings that need an account, then a sign-in that finds an SSO link missing. */
  const LETS_OUT: seq<Stimulus> :=
    [Stimulus(OnboardingCompleted(true, false), NEWCOMER), Stimulus(AuthComplete, SIGNED_IN)]

  /** So a tutorial gets out: the window is in a terminal, without the SSO link that the account needs,
      and the tutorial still waits. */
  lemma TutorialLeavesTheSlide()
    ensures var w := RunFrom(Start(NEWCOMER, false, false), LETS_OUT);
            w.state.Terminal? && w.tutorial.Some? && !TutorialWaitsForLogin(w)
    ensures SIGNED_IN.NeedsSsoLink() == Some(true)
  {
    var start := Start(NEWCOMER, false, false);
    var first := LETS_OUT[..1];
    assert first[..0] == [];
    assert RunFrom(start, first) == Step(start, OnboardingCompleted(true, false), NEWCOMER);
  }

  // SSO.

  /** What unlocks a window that needs an SSO link. */
  predicate Unlocks(target: Target, e: Event, env: Env) {
    || (e.AuthComplete? && env.NeedsSsoLink() == Some(false))
    || (LogsOut(e) && target.ToCreate?)
  }

  /** A window that needs an SSO link stays as it is on every event but those that unlock it: one
      leads to the terminal of its target, the other to the sign-in. */
  lemma OnlyUnlockingUnlocks(w: World, e: Event, env: Env)
    requires w.state.NeedsSsoLink?
    ensures Step(w, e, env).state == w.state <==> !Unlocks(w.state.target, e, env)
    ensures Unlocks(w.state.target, e, env) ==>
              if LogsOut(e) then Step(w, e, env).state == Auth(w.state.target.args)
              else Held(Step(w, e, env).state).Some?
    ensures Unlocks(w.state.target, e, env) && !LogsOut(e) && !env.variantOne ==> Step(w, e, env).state.Terminal?
  {
  }

  /** Once an SSO link is needed, no run changes anything until an event that unlocks the window. */
  lemma {:induction false} LockedUntilUnlocked(w: World, steps: seq<Stimulus>)
    requires w.state.NeedsSsoLink?
    requires forall k :: 0 <= k < |steps| ==> !Unlocks(w.state.target, steps[k].event, steps[k].env)
    ensures RunFrom(w, steps).state == w.state
  {
    hide Step;
    if steps != [] {
      var last := steps[|steps| - 1];
      LockedUntilUnlocked(w, steps[..|steps| - 1]);
      OnlyUnlockingUnlocks(RunFrom(w, steps[..|steps| - 1]), last.event, last.env);
    }
  }

  /** An authentication that finds an SSO link missing locks every window but those in onboarding or
      on the login slide. */
  lemma WhichWindowsAreLocked(w: World, env: Env)
    requires env.NeedsSsoLink() == Some(true)
    ensures Step(w, AuthComplete, env).state.NeedsSsoLink? <==>
            !w.state.Onboarding? && !w.state.LoginSlide?
  {
  }
}
