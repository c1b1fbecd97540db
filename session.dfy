// menu/menu.go: the message loop that drives the per-state screens, and the
// callback router; with the callbacks of the compliance and wait screens,
// which re-enter the loop through ContinueMenuProcessing.
//
// A pass of the loop reads the user (a new one is bootstrapped), merges the
// sender's profile, applies the global commands and runs the handler of the
// state the user is in; the loop goes round again while the stored state
// differs from the one the handler ran for. A nil *User dereferenced after
// FindUser panics and ends the process: such a pass is a `Crash`.
module Session {
  import opened Wrappers
  import opened Text
  import opened Locale
  import opened Objects
  import opened Tables
  import opened Repository
  import opened Broker
  import opened Contact
  import opened Screens
  import opened Language
  import Fanout

  // ---------------------------------------------------------------------
  // The user a pass starts from

  /** The record HandleMessage starts from for a user it does not find. */
  function Bootstrap(userId: int): User
  {
    User(userId, MenuUSComplianceCheck, "", "", "", "en", 0.0, 0.0, None, "")
  }

  /**
   * The stored user with the sender's profile merged in: a non-empty name
   * field replaces the stored one; the language is taken only for a new
   * user, and only when the sender has one.
   */
  function Merged(u: User, p: Profile, isNew: bool): User
  {
    u.(username := if p.username != "" then p.username else u.username,
       firstName := if p.firstName != "" then p.firstName else u.firstName,
       lastName := if p.lastName != "" then p.lastName else u.lastName,
       languageCode := if isNew && p.languageCode != "" then p.languageCode else u.languageCode)
  }

  /** Whether some field of the sender's profile is non-empty and differs from the stored one. */
  predicate NeedsUpdate(u: User, p: Profile, isNew: bool)
  {
    (p.username != "" && u.username != p.username)
    || (p.firstName != "" && u.firstName != p.firstName)
    || (p.lastName != "" && u.lastName != p.lastName)
    || (isNew && p.languageCode != "" && u.languageCode != p.languageCode)
  }

  /**
   * The profile update of HandleMessage, one field at a time: the merged
   * user, and whether anything changed (and so has to be saved).
   */
  method MergeProfile(u: User, p: Profile, isNew: bool) returns (r: User, needsUpdate: bool)
    ensures r == Merged(u, p, isNew)
    ensures needsUpdate == NeedsUpdate(u, p, isNew)
  {
    r := u;
    needsUpdate := false;
    if p.username != "" && r.username != p.username {
      r := r.(username := p.username);
      needsUpdate := true;
    }
    if p.firstName != "" && r.firstName != p.firstName {
      r := r.(firstName := p.firstName);
      needsUpdate := true;
    }
    if p.lastName != "" && r.lastName != p.lastName {
      r := r.(lastName := p.lastName);
      needsUpdate := true;
    }
    if isNew && p.languageCode != "" && r.languageCode != p.languageCode {
      r := r.(languageCode := p.languageCode);
      needsUpdate := true;
    }
  }

  /** A save happens exactly when the merge changes something. */
  lemma MergeOnlyChanged(u: User, p: Profile, isNew: bool)
    ensures NeedsUpdate(u, p, isNew) <==> Merged(u, p, isNew) != u
  {
    if !NeedsUpdate(u, p, isNew) {
      assert Merged(u, p, isNew) == u;
    }
  }

  /** Merging the same profile twice changes nothing more, and asks for no second save. */
  lemma MergeIdempotent(u: User, p: Profile, isNew: bool)
    ensures Merged(Merged(u, p, isNew), p, isNew) == Merged(u, p, isNew)
    ensures !NeedsUpdate(Merged(u, p, isNew), p, isNew)
  {
  }

  /**
   * An empty field never overwrites a stored one, a non-empty one always
   * wins; a returning user keeps its language; the state, location, radius
   * and phone are not touched.
   */
  lemma MergeFields(u: User, p: Profile, isNew: bool)
    ensures var r := Merged(u, p, isNew);
      (p.username == "" ==> r.username == u.username) && (p.username != "" ==> r.username == p.username)
      && (p.firstName == "" ==> r.firstName == u.firstName) && (p.firstName != "" ==> r.firstName == p.firstName)
      && (p.lastName == "" ==> r.lastName == u.lastName) && (p.lastName != "" ==> r.lastName == p.lastName)
      && (!isNew ==> r.languageCode == u.languageCode)
      && (isNew && p.languageCode != "" ==> r.languageCode == p.languageCode)
      && r.userId == u.userId && r.menuId == u.menuId && r.lat == u.lat && r.lon == u.lon
      && r.searchRadiusKm == u.searchRadiusKm && r.phoneNumber == u.phoneNumber
  {
  }

  /**
   * What a pass works with once the profile is merged and /start and
   * /location are applied: the user, the text left for the handler, and the
   * users saved on the way, in order.
   */
  datatype Start = Start(user: User, text: string, saves: seq<User>)

  /** /start (exact): back to the compliance check, the text consumed, the user saved. */
  function StartCommand(s: Start): Start
  {
    if s.text == "/start" then
      var u := s.user.(menuId := MenuUSComplianceCheck);
      Start(u, "", s.saves + [u])
    else s
  }

  /** /location (any case): on to radius selection, the text consumed, the user saved. */
  function LocationCommand(s: Start): Start
  {
    if ToLower(s.text) == "/location" then
      var u := s.user.(menuId := MenuSelectRadius);
      Start(u, "", s.saves + [u])
    else s
  }

  /** The start of a pass, for what FindUser returned. */
  function Prepared(found: Option<User>, userId: int, msg: Incoming): Start
  {
    var isNew := found.None?;
    var u0 := if isNew then Bootstrap(userId) else found.value;
    var merge := msg.from.Some? && NeedsUpdate(u0, msg.from.value, isNew);
    var u1 := if merge then Merged(u0, msg.from.value, isNew) else u0;
    LocationCommand(StartCommand(Start(u1, msg.text, if merge then [u1] else [])))
  }

  /** The users table after the saves of a pass, one after the other. */
  function SavedAll(t: UserTable, failing: set<Op>, saves: seq<User>): UserTable
    decreases |saves|
  {
    if saves == [] then t else AfterSave(SavedAll(t, failing, saves[..|saves| - 1]), failing, saves[|saves| - 1])
  }

  lemma SavedAllAppend(t: UserTable, failing: set<Op>, saves: seq<User>, u: User)
    ensures SavedAll(t, failing, saves + [u]) == AfterSave(SavedAll(t, failing, saves), failing, u)
  {
    assert (saves + [u])[..|saves|] == saves;
  }

  /** With the upsert failing nothing is saved; otherwise the last user saved reads back. */
  lemma {:induction false} SavedAllEffect(t: UserTable, failing: set<Op>, saves: seq<User>)
    ensures SaveUserOp in failing ==> SavedAll(t, failing, saves) == t
    ensures SaveUserOp !in failing && saves != [] ==>
      UserIn(SavedAll(t, failing, saves).rows, saves[|saves| - 1].userId) == Some(saves[|saves| - 1])
    decreases |saves|
  {
    if saves != [] {
      SavedAllEffect(t, failing, saves[..|saves| - 1]);
    }
  }

  /** The follow-up messages of the loop and of ContinueMenuProcessing: nothing to merge or to consume. */
  predicate FollowUp(msg: Incoming)
  {
    msg == EmptyMessage || msg == IdOnlyMessage
  }

  lemma PreparedFollowUp(found: Option<User>, userId: int, msg: Incoming)
    requires FollowUp(msg)
    ensures Prepared(found, userId, msg) == Start(if found.None? then Bootstrap(userId) else found.value, "", [])
  {
  }

  /**
   * /start clears the text and moves the user to the compliance check; a
   * working save stores exactly that user. The match is exact.
   */
  lemma StartCommandResets(found: Option<User>, userId: int, msg: Incoming, t: UserTable, failing: set<Op>)
    requires msg.text == "/start"
    ensures var s := Prepared(found, userId, msg);
      s.user.menuId == MenuUSComplianceCheck && s.text == "" && s.saves != [] && s.saves[|s.saves| - 1] == s.user
      && (SaveUserOp !in failing ==> UserIn(SavedAll(t, failing, s.saves).rows, s.user.userId) == Some(s.user))
  {
    var s := Prepared(found, userId, msg);
    assert ToLower("") == "";
    SavedAllEffect(t, failing, s.saves);
  }

  /** /location in any case clears the text and moves the user to radius selection, saved. */
  lemma LocationCommandMoves(found: Option<User>, userId: int, msg: Incoming, t: UserTable, failing: set<Op>)
    requires ToLower(msg.text) == "/location"
    ensures var s := Prepared(found, userId, msg);
      s.user.menuId == MenuSelectRadius && s.text == "" && s.saves != [] && s.saves[|s.saves| - 1] == s.user
      && (SaveUserOp !in failing ==> UserIn(SavedAll(t, failing, s.saves).rows, s.user.userId) == Some(s.user))
  {
    var s := Prepared(found, userId, msg);
    assert ToLower("/start") == "/start";
    SavedAllEffect(t, failing, s.saves);
  }

  /**
   * Without a command and without a profile change, a found user is used
   * as stored and nothing is saved.
   */
  lemma PreparedQuiet(u: User, userId: int, msg: Incoming)
    requires msg.text != "/start" && ToLower(msg.text) != "/location"
    requires msg.from.None? || !NeedsUpdate(u, msg.from.value, false)
    ensures Prepared(Some(u), userId, msg) == Start(u, msg.text, [])
  {
  }

  /**
   * A user that is not found starts at the compliance check (unless a
   * command moves it), in English unless the sender reports a language,
   * with no location, radius or phone.
   */
  lemma UnknownUserBootstrapped(userId: int, msg: Incoming)
    requires ToLower(msg.text) != "/location"
    ensures var u := Prepared(None, userId, msg).user;
      u.userId == userId && u.menuId == MenuUSComplianceCheck
      && u.languageCode == (if msg.from.Some? && msg.from.value.languageCode != "" then msg.from.value.languageCode else "en")
      && u.lat == 0.0 && u.lon == 0.0 && u.searchRadiusKm.None? && u.phoneNumber == ""
  {
    if msg.text == "/start" {
      assert ToLower("") == "";
    }
  }

  /** Prepare's part of the pass: lookup, bootstrap, profile merge, /start and /location. */
  method Prepare(ctx: Context, userId: int, msg: Incoming) returns (s: Start)
    requires ctx.Valid()
    modifies ctx.repo`users, ctx.repo`userOrder
    ensures ctx.Valid()
    ensures s == Prepared(old(ctx.repo.FoundUser(userId)), userId, msg)
    ensures TableOf(ctx.repo) == SavedAll(old(TableOf(ctx.repo)), ctx.repo.failing, s.saves)
  {
    var found := ctx.repo.FindUser(userId);
    var isNew := found.None?;
    var u := if isNew then Bootstrap(userId) else found.value;
    var saves: seq<User> := [];
    if msg.from.Some? {
      var merged, needsUpdate := MergeProfile(u, msg.from.value, isNew);
      if needsUpdate {
        u := merged;
        var _ := Persist(ctx, u);
        saves := [u];
        SavedAllAppend(old(TableOf(ctx.repo)), ctx.repo.failing, [], u);
      }
    }
    var text := msg.text;
    if text == "/start" {
      u := u.(menuId := MenuUSComplianceCheck);
      text := "";
      var _ := Persist(ctx, u);
      SavedAllAppend(old(TableOf(ctx.repo)), ctx.repo.failing, saves, u);
      saves := saves + [u];
    }
    if ToLower(text) == "/location" {
      u := u.(menuId := MenuSelectRadius);
      text := "";
      var _ := Persist(ctx, u);
      SavedAllAppend(old(TableOf(ctx.repo)), ctx.repo.failing, saves, u);
      saves := saves + [u];
    }
    s := Start(u, text, saves);
  }

  // ---------------------------------------------------------------------
  // One pass of the loop

  datatype Outcome = Stop | Crash | Handled(state: int)

  /** Whether a pass returns from HandleMessage: /language, /exchange, or a state without a loop handler. */
  predicate Stops(s: Start)
  {
    s.text == "/language" || s.text == "/exchange" || s.user.menuId !in HandlerStates
  }

  /** /exchange needs coordinates (neither of them 0) and a radius. */
  predicate Initialized(u: User)
  {
    u.lat != 0.0 && u.lon != 0.0 && u.searchRadiusKm.Some?
  }

  function NotInitialized(u: User): Message
  {
    Plain(u.userId, [Loc("exchange_command.not_initialized")], Lang(u))
  }

  /** What a pass that returns publishes. */
  function StopOutput(s: Start): seq<Envelope>
  {
    var u := s.user;
    if s.text == "/language" then [TgMessage(PickerMessage(u, PickerRows(PickerLanguages, u.languageCode)), PrioritySend)]
    else if s.text == "/exchange" then
      if Initialized(u) then [TgMessage(MainMenu(u.(menuId := MenuMain)), PrioritySend)]
      else [TgMessage(NotInitialized(u), PrioritySend)]
    else if u.menuId == MenuMain then [TgMessage(MainMenu(u), PrioritySend)]
    else []
  }

  /** The users table a pass that returns leaves, from the one after the preparation's saves. */
  function StopTable(t: UserTable, failing: set<Op>, s: Start): UserTable
  {
    if s.text == "/exchange" && Initialized(s.user) then AfterSave(t, failing, s.user.(menuId := MenuMain)) else t
  }

  /**
   * The one message a screen that waits for the user publishes when its
   * handler gets a bare message; none for the screens that move on by
   * themselves (Init, the fanout execution) or have no loop handler.
   */
  function Shown(u: User): (r: Option<Envelope>)
    ensures r.Some? ==> u.menuId in HandlerStates
  {
    if u.menuId == MenuUSComplianceCheck then Some(TgMessage(ComplianceQuestion(u), PrioritySend))
    else if u.menuId == MenuBlocked then Some(TgMessage(BlockedNotice(u), PrioritySend))
    else if u.menuId == MenuAskLocation then Some(TgMessage(LocationPrompt(u), PrioritySend))
    else if u.menuId == MenuSelectRadius then Some(TgMessage(RadiusPrompt(u), PrioritySend))
    else if u.menuId == MenuAskPhone then Some(TgMessage(PhonePrompt(u), PrioritySend))
    else if u.menuId == MenuHistoricalFanoutWait then Some(TgMessage(ContinuePrompt(u), PriorityContinue))
    else None
  }

  /** The /exchange command: the error message when not initialized, else state Main, saved, and its menu. */
  method ExchangeCommand(ctx: Context, u: User)
    requires ctx.Valid()
    modifies ctx`attempted, ctx.repo`users, ctx.repo`userOrder
    ensures ctx.Valid()
    ensures Initialized(u) ==>
      Left(ctx, [TgMessage(MainMenu(u.(menuId := MenuMain)), PrioritySend)], AfterSave(old(TableOf(ctx.repo)), ctx.repo.failing, u.(menuId := MenuMain)))
    ensures !Initialized(u) ==> Left(ctx, [TgMessage(NotInitialized(u), PrioritySend)], old(TableOf(ctx.repo)))
  {
    if !Initialized(u) {
      ctx.Send(NotInitialized(u));
      return;
    }
    var u1 := u.(menuId := MenuMain);
    var _ := Persist(ctx, u1);
    MainHandle(ctx, u1);
  }

  /** A pass that returns: the command or the screen that ends HandleMessage. */
  method Finish(ctx: Context, s: Start)
    requires ctx.Valid()
    requires Stops(s)
    modifies ctx`attempted, ctx.repo`users, ctx.repo`userOrder
    ensures ctx.Valid()
    ensures Left(ctx, StopOutput(s), StopTable(old(TableOf(ctx.repo)), ctx.repo.failing, s))
  {
    var u := s.user;
    if s.text == "/language" {
      ShowLanguageSelection(ctx, u);
    } else if s.text == "/exchange" {
      ExchangeCommand(ctx, u);
    } else if u.menuId == MenuMain {
      MainHandle(ctx, u);
    }
  }

  /**
   * The handler of a loop state, then the user read back; a user that is
   * not found then is the nil dereference of menu.go. On a bare message a
   * waiting screen only shows its prompt, and a stored user never moves
   * back.
   */
  method RunHandler(ctx: Context, userId: int, u: User, msg: Incoming, w: World) returns (out: Outcome)
    requires ctx.Valid()
    requires u.userId == userId && u.menuId in HandlerStates
    modifies ctx`attempted, ctx.repo`users, ctx.repo`userOrder, ctx.repo`dismissed, ctx.repo`history
    ensures ctx.Valid()
    ensures !out.Stop?
    ensures out.Handled? ==> out.state == u.menuId && ctx.repo.FoundUser(userId).Some?
    ensures Bare(msg) && Shown(u).Some? ==> Only(ctx, [Shown(u).value])
    ensures Bare(msg) && old(ctx.repo.FoundUser(userId)) == Some(u) ==>
      (Shown(u).Some? ==> out.Handled?)
      && (out.Handled? ==> ctx.repo.FoundUser(userId).value.menuId >= out.state)
    ensures HasPrefix(ctx.attempted, old(ctx.attempted))
  {
    var crashed := Dispatch(ctx, u, msg, w);
    if Bare(msg) && u.menuId == MenuAskPhone {
      assert msg.text != SkipLabel(ctx.cats, u);
    }
    if crashed {
      return Crash;
    }
    var after := ctx.repo.FindUser(userId);
    if after.None? {
      return Crash;
    }
    out := Handled(u.menuId);
  }

  /**
   * The commands that return and the handler switch, once the pass is
   * prepared; `found` is what the pass's lookup returned.
   */
  method Proceed(ctx: Context, userId: int, s: Start, msg: Incoming, w: World, ghost found: Option<User>) returns (out: Outcome)
    requires ctx.Valid()
    requires s.user.userId == userId
    requires FollowUp(msg) ==>
      s == Start(if found.None? then Bootstrap(userId) else found.value, "", []) && ctx.repo.FoundUser(userId) == found
    modifies ctx`attempted, ctx.repo`users, ctx.repo`userOrder, ctx.repo`dismissed, ctx.repo`history
    ensures ctx.Valid()
    ensures out.Stop? <==> Stops(s)
    ensures Stops(s) ==> Left(ctx, StopOutput(s), StopTable(old(TableOf(ctx.repo)), ctx.repo.failing, s))
    ensures out.Handled? ==> out.state == s.user.menuId && ctx.repo.FoundUser(userId).Some?
    ensures FollowUp(msg) ==>
      (out.Stop? ==> TableOf(ctx.repo) == old(TableOf(ctx.repo)))
      && (out.Handled? ==> found.Some? && out.state == found.value.menuId && ctx.repo.FoundUser(userId).value.menuId >= out.state)
      && (found.Some? && Shown(found.value).Some? ==> out == Handled(found.value.menuId) && Only(ctx, [Shown(found.value).value]))
    ensures HasPrefix(ctx.attempted, old(ctx.attempted))
  {
    if Stops(s) {
      Finish(ctx, s);
      AppendedHasPrefix(old(ctx.attempted), StopOutput(s));
      return Stop;
    }
    out := RunHandler(ctx, userId, s.user, msg.(text := s.text), w);
  }

  /** A found user carries the id it was found under. */
  lemma FoundUnderItsId(repo: Store, userId: int)
    requires repo.Valid()
    ensures repo.FoundUser(userId).Some? ==> repo.FoundUser(userId).value.userId == userId
  {
  }

  /**
   * One pass of HandleMessage's loop. A pass returns exactly when it meets
   * /language, /exchange or a state without a loop handler, and then its
   * effect is fixed by the preparation; a handled pass leaves the user
   * stored. On a follow-up message nothing is saved before the handler, a
   * stored user never moves back, and a screen that waits for the user
   * shows its prompt once.
   */
  method Round(ctx: Context, userId: int, msg: Incoming, w: World) returns (out: Outcome, ghost s: Start)
    requires ctx.Valid()
    modifies ctx`attempted, ctx.repo`users, ctx.repo`userOrder, ctx.repo`dismissed, ctx.repo`history
    ensures ctx.Valid()
    ensures s == Prepared(old(ctx.repo.FoundUser(userId)), userId, msg)
    ensures (out.Stop? <==> Stops(s))
      && (Stops(s) ==> Left(ctx, StopOutput(s), StopTable(SavedAll(old(TableOf(ctx.repo)), ctx.repo.failing, s.saves), ctx.repo.failing, s)))
      && (out.Handled? ==> out.state == s.user.menuId && ctx.repo.FoundUser(userId).Some?)
    ensures var f := old(ctx.repo.FoundUser(userId));
      FollowUp(msg) ==>
      (out.Stop? ==> TableOf(ctx.repo) == old(TableOf(ctx.repo)))
      && (out.Handled? ==> f.Some? && out.state == f.value.menuId && ctx.repo.FoundUser(userId).value.menuId >= out.state)
      && (f.Some? && Shown(f.value).Some? ==> out == Handled(f.value.menuId) && Only(ctx, [Shown(f.value).value]))
    ensures HasPrefix(ctx.attempted, old(ctx.attempted))
  {
    ghost var found := ctx.repo.FoundUser(userId);
    FoundUnderItsId(ctx.repo, userId);
    var start := Prepare(ctx, userId, msg);
    s := start;
    ghost var midAttempted, midDismissed, midHistory := ctx.attempted, ctx.repo.dismissed, ctx.repo.history;
    assert midAttempted == old(ctx.attempted) && midDismissed == old(ctx.repo.dismissed) && midHistory == old(ctx.repo.history);
    if FollowUp(msg) {
      PreparedFollowUp(found, userId, msg);
      assert TableOf(ctx.repo) == old(TableOf(ctx.repo));
      assert ctx.repo.FoundUser(userId) == found;
    }
    out := Proceed(ctx, userId, start, msg, w, found);
    assert Stops(s) ==> ctx.attempted == midAttempted + StopOutput(s) && ctx.repo.dismissed == midDismissed && ctx.repo.history == midHistory;
  }

  // ---------------------------------------------------------------------
  // The loop

  /** isStateChanged: a missing user counts as changed. */
  predicate StateChanged(found: Option<User>, previous: int)
  {
    found.None? || found.value.menuId != previous
  }

  method IsStateChanged(ctx: Context, previous: int, userId: int) returns (changed: bool)
    ensures changed == StateChanged(ctx.repo.FoundUser(userId), previous)
  {
    var user := ctx.repo.FindUser(userId);
    if user.None? {
      return true;
    }
    changed := user.value.menuId != previous;
  }

  /** The number of loop-handler states up to s; it grows along the menu order. */
  function Rank(s: int): (r: nat)
    ensures r <= 8
    ensures s in HandlerStates ==> r >= 1
  {
    (if s >= MenuUSComplianceCheck then 1 else 0) + (if s >= MenuBlocked then 1 else 0)
    + (if s >= MenuInit then 1 else 0) + (if s >= MenuAskLocation then 1 else 0)
    + (if s >= MenuSelectRadius then 1 else 0) + (if s >= MenuAskPhone then 1 else 0)
    + (if s >= MenuHistoricalFanoutExecute then 1 else 0) + (if s >= MenuHistoricalFanoutWait then 1 else 0)
  }

  lemma RankIncreases(s: int, t: int)
    requires s in HandlerStates && t in HandlerStates && s < t
    ensures Rank(s) < Rank(t)
  {
  }

  /**
   * The loop of HandleMessage after its first pass: the message is now
   * empty, and the loop goes on while the stored state differs from the
   * one the last handler ran for. Only the first of these passes can start
   * below that state (when the first pass's saves failed); from then on
   * every pass starts from a later loop-handler state, so there are at
   * most nine. A stored user that had not moved back never ends earlier
   * than it started.
   */
  method FollowRounds(ctx: Context, userId: int, first: int, w: World) returns (crashed: bool, more: nat)
    requires ctx.Valid()
    requires first in HandlerStates && ctx.repo.FoundUser(userId).Some?
    modifies ctx`attempted, ctx.repo`users, ctx.repo`userOrder, ctx.repo`dismissed, ctx.repo`history
    ensures ctx.Valid()
    ensures !StateChanged(old(ctx.repo.FoundUser(userId)), first) ==> more == 0 && !crashed && Left(ctx, [], old(TableOf(ctx.repo)))
    ensures old(ctx.repo.FoundUser(userId)).value.menuId >= first && !crashed ==>
      ctx.repo.FoundUser(userId).Some? && ctx.repo.FoundUser(userId).value.menuId >= old(ctx.repo.FoundUser(userId)).value.menuId
    ensures more <= 9
    ensures HasPrefix(ctx.attempted, old(ctx.attempted))
  {
    ghost var f := ctx.repo.FoundUser(userId).value;
    var previous := first;
    more := 0;
    crashed := false;
    assert ctx.attempted == ctx.attempted + [];
    var changed := IsStateChanged(ctx, previous, userId);
    while changed
      invariant ctx.Valid()
      invariant previous in HandlerStates && ctx.repo.FoundUser(userId).Some?
      invariant changed == StateChanged(ctx.repo.FoundUser(userId), previous)
      invariant more == 0 ==> previous == first && Left(ctx, [], old(TableOf(ctx.repo))) && ctx.repo.FoundUser(userId) == Some(f)
      invariant more > 0 ==> ctx.repo.FoundUser(userId).value.menuId >= previous && more <= Rank(previous)
      invariant more > 0 && f.menuId >= first ==> previous >= f.menuId
      invariant more > 0 ==> StateChanged(Some(f), first)
      invariant HasPrefix(ctx.attempted, old(ctx.attempted))
      decreases if more == 0 then 900 else 300 - previous
    {
      ghost var before := ctx.attempted;
      ghost var last := previous;
      var out, _ := Round(ctx, userId, EmptyMessage, w);
      PrefixTrans(ctx.attempted, before, old(ctx.attempted));
      more := more + 1;
      if !out.Handled? {
        crashed := out.Crash?;
        return;
      }
      previous := out.state;
      if more >= 2 {
        RankIncreases(last, previous);
      }
      changed := IsStateChanged(ctx, previous, userId);
    }
  }

  /**
   * HandleMessage, with the loop's first pass written out: the loop starts
   * from MenuBan, so a user stored there gets no pass at all. A first pass
   * that returns has exactly the effect of its commands. When FindUser
   * fails, the single pass crashes unless it returns. On a follow-up
   * message a waiting screen is shown once and the loop ends, and a stored
   * user never moves back.
   */
  method HandleMessage(ctx: Context, userId: int, msg: Incoming, w: World) returns (crashed: bool, rounds: nat)
    requires ctx.Valid()
    modifies ctx`attempted, ctx.repo`users, ctx.repo`userOrder, ctx.repo`dismissed, ctx.repo`history
    ensures ctx.Valid()
    ensures !StateChanged(old(ctx.repo.FoundUser(userId)), MenuBan) ==>
      rounds == 0 && !crashed && Left(ctx, [], old(TableOf(ctx.repo)))
    ensures var s := Prepared(old(ctx.repo.FoundUser(userId)), userId, msg);
      StateChanged(old(ctx.repo.FoundUser(userId)), MenuBan) && Stops(s) ==>
      rounds == 1 && !crashed
      && Left(ctx, StopOutput(s), StopTable(SavedAll(old(TableOf(ctx.repo)), ctx.repo.failing, s.saves), ctx.repo.failing, s))
    ensures FindUserOp in ctx.repo.failing ==> rounds == 1 && crashed == !Stops(Prepared(None, userId, msg))
    ensures var f := old(ctx.repo.FoundUser(userId));
      FollowUp(msg) && f.Some? && Shown(f.value).Some? ==> rounds == 1 && !crashed && Only(ctx, [Shown(f.value).value])
    ensures var f := old(ctx.repo.FoundUser(userId));
      FollowUp(msg) && f.Some? && !crashed ==>
      ctx.repo.FoundUser(userId).Some? && ctx.repo.FoundUser(userId).value.menuId >= f.value.menuId
    ensures rounds <= 10
    ensures HasPrefix(ctx.attempted, old(ctx.attempted))
  {
    var changed := IsStateChanged(ctx, MenuBan, userId);
    if !changed {
      assert ctx.attempted == old(ctx.attempted) + [];
      return false, 0;
    }
    var out, _ := Round(ctx, userId, msg, w);
    if !out.Handled? {
      return out.Crash?, 1;
    }
    ghost var mid := ctx.attempted;
    var more;
    crashed, more := FollowRounds(ctx, userId, out.state, w);
    PrefixTrans(ctx.attempted, mid, old(ctx.attempted));
    rounds := 1 + more;
  }

  /** ContinueMenuProcessing: the loop again, on a message whose sender carries only the user's id. */
  method ContinueMenuProcessing(ctx: Context, userId: int, w: World) returns (crashed: bool)
    requires ctx.Valid()
    modifies ctx`attempted, ctx.repo`users, ctx.repo`userOrder, ctx.repo`dismissed, ctx.repo`history
    ensures ctx.Valid()
    ensures var f := old(ctx.repo.FoundUser(userId));
      f.Some? && Shown(f.value).Some? ==> !crashed && Only(ctx, [Shown(f.value).value])
    ensures var f := old(ctx.repo.FoundUser(userId));
      f.Some? && f.value.menuId == MenuMain ==> !crashed && Only(ctx, [TgMessage(MainMenu(f.value), PrioritySend)])
    ensures var f := old(ctx.repo.FoundUser(userId));
      f.Some? && !crashed ==> ctx.repo.FoundUser(userId).Some? && ctx.repo.FoundUser(userId).value.menuId >= f.value.menuId
    ensures FindUserOp in ctx.repo.failing ==> crashed
    ensures HasPrefix(ctx.attempted, old(ctx.attempted))
  {
    PreparedFollowUp(ctx.repo.FoundUser(userId), userId, IdOnlyMessage);
    PreparedFollowUp(None, userId, IdOnlyMessage);
    var rounds;
    crashed, rounds := HandleMessage(ctx, userId, IdOnlyMessage, w);
  }

  // ---------------------------------------------------------------------
  // menu/us_compliance_menu.go: the answer to the compliance question

  /** The question edited in place, its keyboard removed. */
  function QuestionEdit(cb: Callback, u: User): Envelope
  {
    EditText(u.userId, cb.messageId, [Loc("us_compliance.question")], Lang(u), "HTML", PriorityEdit)
  }

  /** The answer's state saved (a failed save is only logged) and the question edited. */
  method AnswerCompliance(ctx: Context, cb: Callback, u: User, next: int)
    requires ctx.Valid()
    modifies ctx`attempted, ctx.repo`users, ctx.repo`userOrder
    ensures ctx.Valid()
    ensures Left(ctx, [QuestionEdit(cb, u)], AfterSave(old(TableOf(ctx.repo)), ctx.repo.failing, u.(menuId := next)))
  {
    var u1 := u.(menuId := next);
    var _ := Persist(ctx, u1);
    var _ := ctx.EditMessage(u1.userId, cb.messageId, [Loc("us_compliance.question")], Lang(u1), "HTML");
  }

  /**
   * HandleCallback of the compliance screen: the press is answered first;
   * yes saves Blocked and no saves Init, the question loses its buttons and
   * the loop shows the new state. With the save failing the user is still
   * at the question, which is shown again; any other payload is only
   * answered.
   */
  method ComplianceCallback(ctx: Context, cb: Callback, u: User, w: World) returns (crashed: bool)
    requires ctx.Valid()
    modifies ctx`attempted, ctx.repo`users, ctx.repo`userOrder, ctx.repo`dismissed, ctx.repo`history
    ensures ctx.Valid()
    ensures HasPrefix(ctx.attempted, old(ctx.attempted) + [Ack(cb)])
    ensures ComplianceNext(cb.data).None? ==> !crashed && Only(ctx, [Ack(cb)])
    ensures ComplianceNext(cb.data).Some? ==> HasPrefix(ctx.attempted, old(ctx.attempted) + [Ack(cb), QuestionEdit(cb, u)])
    ensures ComplianceNext(cb.data).Some? && FindUserOp in ctx.repo.failing ==> crashed
    ensures var u1 := u.(menuId := MenuBlocked);
      cb.data == "us_compliance_yes" && SaveUserOp !in ctx.repo.failing && FindUserOp !in ctx.repo.failing ==>
      !crashed && Left(ctx, [Ack(cb), QuestionEdit(cb, u), TgMessage(BlockedNotice(u1), PrioritySend)],
                       AfterSave(old(TableOf(ctx.repo)), ctx.repo.failing, u1))
    ensures cb.data == "us_compliance_no" && SaveUserOp !in ctx.repo.failing && !crashed ==>
      ctx.repo.FoundUser(u.userId).Some? && ctx.repo.FoundUser(u.userId).value.menuId >= MenuInit
    ensures var retry := ComplianceNext(cb.data).Some? && SaveUserOp in ctx.repo.failing;
      retry && old(ctx.repo.FoundUser(u.userId)) == Some(u) && u.menuId == MenuUSComplianceCheck ==>
      !crashed && Only(ctx, [Ack(cb), QuestionEdit(cb, u), TgMessage(ComplianceQuestion(u), PrioritySend)])
  {
    var _ := ctx.AnswerCallbackQuery(cb.id, "");
    var next := ComplianceNext(cb.data);
    if next.None? {
      return false;
    }
    ghost var answered := ctx.attempted;
    AnswerCompliance(ctx, cb, u, next.value);
    ghost var edited := ctx.attempted;
    assert edited == old(ctx.attempted) + [Ack(cb), QuestionEdit(cb, u)];
    crashed := ContinueMenuProcessing(ctx, u.userId, w);
    PrefixTrans(ctx.attempted, edited, old(ctx.attempted) + [Ack(cb)]);
  }

  // ---------------------------------------------------------------------
  // menu/historical_fanout_wait_menu.go: leaving the wait screen

  /**
   * transitionToMain: state Main, saved; a failed save ends it there,
   * otherwise the loop runs and, Main having no loop handler, shows the
   * main menu.
   */
  method WaitToMain(ctx: Context, u: User, w: World) returns (crashed: bool)
    requires ctx.Valid()
    modifies ctx`attempted, ctx.repo`users, ctx.repo`userOrder, ctx.repo`dismissed, ctx.repo`history
    ensures ctx.Valid()
    ensures var u1 := u.(menuId := MenuMain);
      !SaveSucceeds(ctx.repo.failing) ==> !crashed && Left(ctx, [], AfterSave(old(TableOf(ctx.repo)), ctx.repo.failing, u1))
    ensures var u1 := u.(menuId := MenuMain);
      SaveSucceeds(ctx.repo.failing) && FindUserOp !in ctx.repo.failing ==>
      !crashed && Left(ctx, [TgMessage(MainMenu(u1), PrioritySend)], AfterSave(old(TableOf(ctx.repo)), ctx.repo.failing, u1))
    ensures crashed <==> SaveSucceeds(ctx.repo.failing) && FindUserOp in ctx.repo.failing
    ensures HasPrefix(ctx.attempted, old(ctx.attempted))
  {
    var u1 := u.(menuId := MenuMain);
    var ok := Persist(ctx, u1);
    if !ok {
      assert ctx.attempted == old(ctx.attempted) + [];
      return false;
    }
    crashed := ContinueMenuProcessing(ctx, u1.userId, w);
  }

  /** A contact button on the wait screen: Main first, then the contact request for the user at Main. */
  method WaitContact(ctx: Context, cb: Callback, u: User, w: World) returns (crashed: bool)
    requires ctx.Valid()
    modifies ctx`attempted, ctx.repo`users, ctx.repo`userOrder, ctx.repo`dismissed, ctx.repo`history, ctx.repo`contactRequests
    ensures ctx.Valid()
    ensures var u1 := u.(menuId := MenuMain);
      SaveSucceeds(ctx.repo.failing) && FindUserOp !in ctx.repo.failing ==>
      !crashed && HasPrefix(ctx.attempted, old(ctx.attempted) + [TgMessage(MainMenu(u1), PrioritySend), Ack(cb)])
    ensures !SaveSucceeds(ctx.repo.failing) ==> !crashed && HasPrefix(ctx.attempted, old(ctx.attempted) + [Ack(cb)])
    ensures crashed <==> SaveSucceeds(ctx.repo.failing) && FindUserOp in ctx.repo.failing
    ensures HasPrefix(ctx.attempted, old(ctx.attempted))
  {
    crashed := WaitToMain(ctx, u, w);
    if crashed {
      return;
    }
    ghost var moved := ctx.attempted;
    HandleContactRequest(ctx, cb, u.(menuId := MenuMain));
    ghost var rest := ctx.attempted[|moved| + 1..];
    assert ctx.attempted == moved + [Ack(cb)] + rest;
    AppendedHasPrefix(moved + [Ack(cb)], rest);
    PrefixTrans(ctx.attempted, moved + [Ack(cb)], moved);
    PrefixTrans(ctx.attempted, moved, old(ctx.attempted));
  }

  /**
   * HandleCallback of the wait screen: the continue button is answered
   * and leads to Main; a contact button leads to Main and is then handled
   * as a contact request, for the user at Main even when the save failed;
   * any other press is dropped without an answer.
   */
  method WaitCallback(ctx: Context, cb: Callback, u: User, w: World) returns (crashed: bool)
    requires ctx.Valid()
    modifies ctx`attempted, ctx.repo`users, ctx.repo`userOrder, ctx.repo`dismissed, ctx.repo`history, ctx.repo`contactRequests
    ensures ctx.Valid()
    ensures var u1 := u.(menuId := MenuMain);
      cb.data == ContinuePayload && SaveSucceeds(ctx.repo.failing) && FindUserOp !in ctx.repo.failing ==>
      !crashed && Left(ctx, [Ack(cb), TgMessage(MainMenu(u1), PrioritySend)], AfterSave(old(TableOf(ctx.repo)), ctx.repo.failing, u1))
      && ctx.repo.contactRequests == old(ctx.repo.contactRequests)
    ensures cb.data == ContinuePayload ==> HasPrefix(ctx.attempted, old(ctx.attempted) + [Ack(cb)])
    ensures var u1 := u.(menuId := MenuMain);
      HasPrefix(cb.data, "contact:") && SaveSucceeds(ctx.repo.failing) && FindUserOp !in ctx.repo.failing ==>
      !crashed && HasPrefix(ctx.attempted, old(ctx.attempted) + [TgMessage(MainMenu(u1), PrioritySend), Ack(cb)])
    ensures HasPrefix(cb.data, "contact:") && !SaveSucceeds(ctx.repo.failing) ==>
      !crashed && HasPrefix(ctx.attempted, old(ctx.attempted) + [Ack(cb)])
    ensures cb.data != ContinuePayload && !HasPrefix(cb.data, "contact:") ==>
      !crashed && Only(ctx, []) && ctx.repo.contactRequests == old(ctx.repo.contactRequests)
    ensures var moves := cb.data == ContinuePayload || HasPrefix(cb.data, "contact:");
      crashed <==> moves && SaveSucceeds(ctx.repo.failing) && FindUserOp in ctx.repo.failing
    ensures HasPrefix(ctx.attempted, old(ctx.attempted))
  {
    if cb.data == ContinuePayload {
      DiffersAt(cb.data, "contact:", 0);
      var _ := ctx.AnswerCallbackQuery(cb.id, "");
      ghost var answered := ctx.attempted;
      crashed := WaitToMain(ctx, u, w);
      PrefixTrans(ctx.attempted, answered, old(ctx.attempted));
      return;
    }
    if HasPrefix(cb.data, "contact:") {
      crashed := WaitContact(ctx, cb, u, w);
      return;
    }
    crashed := false;
    assert ctx.attempted == old(ctx.attempted) + [];
  }

  // ---------------------------------------------------------------------
  // menu/menu.go: HandleCallback

  /** Which handler HandleCallback gives a press of a found user's button. */
  datatype Route =
    | LanguageRoute | ComplianceRoute | RadiusRoute | WaitRoute
    | MainRoute | ContinueRoute | AmountRoute | ContactRoute | DeleteRoute | Unhandled

  /** lang_ first from any state, then the three states with their own callbacks, then the payload prefixes. */
  function RouteOf(u: User, data: string): Route
  {
    if HasPrefix(data, LanguagePrefix) then LanguageRoute
    else if u.menuId == MenuUSComplianceCheck then ComplianceRoute
    else if u.menuId == MenuSelectRadius then RadiusRoute
    else if u.menuId == MenuHistoricalFanoutWait then WaitRoute
    else if HasPrefix(data, "main:") then MainRoute
    else if data == ContinuePayload then ContinueRoute
    else if HasPrefix(data, "amount:") then AmountRoute
    else if HasPrefix(data, "contact:") then ContactRoute
    else if HasPrefix(data, "delete:") then DeleteRoute
    else Unhandled
  }

  /** The states whose own callback takes every press that is not a language choice. */
  predicate OwnCallback(u: User)
  {
    u.menuId == MenuUSComplianceCheck || u.menuId == MenuSelectRadius || u.menuId == MenuHistoricalFanoutWait
  }

  /** A language button is taken as a language choice in every state. */
  lemma LanguageButtonsRoute(u: User, code: string)
    ensures RouteOf(u, LanguagePrefix + code) == LanguageRoute
  {
    AppendedHasPrefix(LanguagePrefix, code);
  }

  /** Outside the three states, the main menu's buttons reach the main-menu callback. */
  lemma MainButtonsRoute(u: User, dir: string)
    requires !OwnCallback(u)
    ensures RouteOf(u, MainPayload(dir)) == MainRoute
  {
    DiffersAt(MainPayload(dir), LanguagePrefix, 0);
    AppendedHasPrefix("main:", dir);
  }

  /** Outside the three states, the amount menu's buttons reach the amount callback. */
  lemma AmountButtonsRoute(u: User, choice: string)
    requires !OwnCallback(u)
    ensures RouteOf(u, AmountPayload(choice)) == AmountRoute
  {
    var p := AmountPayload(choice);
    DiffersAt(p, LanguagePrefix, 0);
    DiffersAt(p, "main:", 0);
    AppendedHasPrefix("amount:", choice);
  }

  /** Outside the three states, a notification's buttons reach the contact and the delete callbacks. */
  lemma NotificationButtonsRoute(u: User, exchangeId: int)
    requires !OwnCallback(u)
    ensures RouteOf(u, Fanout.ContactPayload(exchangeId)) == ContactRoute
    ensures RouteOf(u, Fanout.DeletePayload(exchangeId)) == DeleteRoute
  {
    var c := Fanout.ContactPayload(exchangeId);
    DiffersAt(c, LanguagePrefix, 0);
    DiffersAt(c, "main:", 0);
    DiffersAt(c, "amount:", 0);
    AppendedHasPrefix("contact:", IntToString(exchangeId));
    var d := Fanout.DeletePayload(exchangeId);
    DiffersAt(d, LanguagePrefix, 0);
    DiffersAt(d, "main:", 0);
    DiffersAt(d, "amount:", 0);
    DiffersAt(d, "contact:", 0);
    AppendedHasPrefix("delete:", IntToString(exchangeId));
  }

  /**
   * The continue button goes to the wait screen's callback while the user
   * waits, and to the router's own continue branch from any state outside
   * the three.
   */
  lemma ContinueButtonRoute(u: User)
    ensures u.menuId == MenuHistoricalFanoutWait ==> RouteOf(u, ContinuePayload) == WaitRoute
    ensures !OwnCallback(u) ==> RouteOf(u, ContinuePayload) == ContinueRoute
  {
    DiffersAt(ContinuePayload, LanguagePrefix, 0);
    DiffersAt(ContinuePayload, "main:", 0);
  }

  /**
   * While the user waits, a notification's delete button goes to the wait
   * screen's callback, which takes neither the continue payload nor a
   * contact payload: the press is dropped.
   */
  lemma WaitDropsDelete(u: User, exchangeId: int)
    requires u.menuId == MenuHistoricalFanoutWait
    ensures var d := Fanout.DeletePayload(exchangeId);
      RouteOf(u, d) == WaitRoute && d != ContinuePayload && !HasPrefix(d, "contact:")
  {
    var d := Fanout.DeletePayload(exchangeId);
    DiffersAt(d, LanguagePrefix, 0);
    DiffersAt(d, "contact:", 0);
    DiffersAt(d, ContinuePayload, 0);
  }

  /** At the compliance question, a stale main-menu button is taken by the compliance callback and ignored. */
  lemma ComplianceIgnoresMenu(u: User, dir: string)
    requires u.menuId == MenuUSComplianceCheck
    ensures RouteOf(u, MainPayload(dir)) == ComplianceRoute && ComplianceNext(MainPayload(dir)).None?
  {
    DiffersAt(MainPayload(dir), LanguagePrefix, 0);
    DiffersAt(MainPayload(dir), "us_compliance_yes", 0);
    DiffersAt(MainPayload(dir), "us_compliance_no", 0);
  }

  /** The continue button's message edited in place, its button removed. */
  function ContinueEdit(cb: Callback, u: User): Envelope
  {
    EditText(u.userId, cb.messageId, [Loc("historical_fanout.message")], Lang(u), "HTML", PriorityEdit)
  }

  /** The press was answered among what was published after `before`, which stays a prefix. */
  predicate Answered(after: seq<Envelope>, before: seq<Envelope>, cb: Callback)
  {
    HasPrefix(after, before) && Ack(cb) in after[|before|..]
  }

  /** Neither the published messages nor anything stored changed. */
  twostate predicate Untouched(ctx: Context)
    reads ctx, ctx.repo
  {
    Only(ctx, []) && ctx.repo.exchanges == old(ctx.repo.exchanges) && ctx.repo.timeline == old(ctx.repo.timeline)
    && ctx.repo.contactRequests == old(ctx.repo.contactRequests)
  }

  /** An answer published between `before` and `post` answers the press. */
  lemma AckAnswers(before: seq<Envelope>, pre: seq<Envelope>, cb: Callback, post: seq<Envelope>)
    ensures Answered(before + pre + [Ack(cb)] + post, before, cb)
  {
    var after := before + pre + [Ack(cb)] + post;
    assert after[..|before|] == before;
    assert after[|before|..][|pre|] == Ack(cb);
  }

  /** The payload-prefix routes of HandleCallback, for a user outside the three states. */
  method PrefixCallback(ctx: Context, cb: Callback, u: User, w: World)
    requires ctx.Valid()
    requires !OwnCallback(u) && !HasPrefix(cb.data, LanguagePrefix)
    modifies ctx`attempted, ctx.repo`users, ctx.repo`userOrder, ctx.repo`exchanges, ctx.repo`timeline, ctx.repo`contactRequests
    ensures ctx.Valid()
    ensures RouteOf(u, cb.data) == Unhandled ==> Untouched(ctx)
    ensures RouteOf(u, cb.data) == ContinueRoute ==>
      Only(ctx, [Ack(cb), ContinueEdit(cb, u), TgMessage(MainMenu(u), PrioritySend)])
      && ctx.repo.exchanges == old(ctx.repo.exchanges) && ctx.repo.timeline == old(ctx.repo.timeline)
      && ctx.repo.contactRequests == old(ctx.repo.contactRequests)
    ensures RouteOf(u, cb.data) != Unhandled ==> Answered(ctx.attempted, old(ctx.attempted), cb)
  {
    if HasPrefix(cb.data, "main:") {
      MainCallback(ctx, cb, u, w);
      var dir := MainDirection(cb.data);
      if dir.None? {
        AckAnswers(old(ctx.attempted), [], cb, []);
      } else {
        AckAnswers(old(ctx.attempted), [DirectionConfirmed(cb, u, dir.value)], cb, [TgMessage(AmountMenu(u.(menuId := MenuAmount)), PrioritySend)]);
      }
    } else if cb.data == ContinuePayload {
      var _ := ctx.AnswerCallbackQuery(cb.id, "");
      var _ := ctx.EditMessage(u.userId, cb.messageId, [Loc("historical_fanout.message")], Lang(u), "HTML");
      MainHandle(ctx, u);
      AckAnswers(old(ctx.attempted), [], cb, [ContinueEdit(cb, u), TgMessage(MainMenu(u), PrioritySend)]);
    } else if HasPrefix(cb.data, "amount:") {
      AmountPressed(ctx, cb, u, w);
    } else {
      NotificationCallback(ctx, cb, u, w);
    }
  }

  /** The amount menu's callback; every press of it is answered. */
  method AmountPressed(ctx: Context, cb: Callback, u: User, w: World)
    requires ctx.Valid()
    modifies ctx`attempted, ctx.repo`users, ctx.repo`userOrder, ctx.repo`exchanges
    ensures ctx.Valid()
    ensures Answered(ctx.attempted, old(ctx.attempted), cb)
  {
    ghost var last := LastListing(ctx.repo.exchanges, ctx.repo.failing, u.userId);
    ghost var users, order := ctx.repo.users, ctx.repo.userOrder;
    AmountCallback(ctx, cb, u, w);
    var c := AmountChoiceOf(cb.data);
    if c.None? || last.None? {
      AckAnswers(old(ctx.attempted), [], cb, []);
    } else {
      var e1 := Chosen(last.value, c.value);
      var fan := if c.value.PostAmount? then ExchangeFanout(users, order, ctx.repo.geo, ctx.repo.failing, e1, w.dist) else [];
      AckAnswers(old(ctx.attempted), fan + [EditText(cb.chatId, cb.messageId, AmountConfirmation(c.value), Lang(u), "HTML", PriorityEdit)],
        cb, [TgMessage(MainMenu(u.(menuId := MenuMain)), PrioritySend)]);
    }
  }

  /** The contact and delete buttons of a notification; any other payload is left alone. */
  method NotificationCallback(ctx: Context, cb: Callback, u: User, w: World)
    requires ctx.Valid()
    requires !OwnCallback(u) && !HasPrefix(cb.data, LanguagePrefix)
    requires !HasPrefix(cb.data, "main:") && cb.data != ContinuePayload && !HasPrefix(cb.data, "amount:")
    modifies ctx`attempted, ctx.repo`exchanges, ctx.repo`timeline, ctx.repo`contactRequests
    ensures ctx.Valid()
    ensures RouteOf(u, cb.data) == Unhandled ==> Untouched(ctx)
    ensures RouteOf(u, cb.data) != Unhandled ==> Answered(ctx.attempted, old(ctx.attempted), cb)
  {
    if HasPrefix(cb.data, "contact:") {
      HandleContactRequest(ctx, cb, u);
      AckAnswers(old(ctx.attempted), [], cb, ctx.attempted[|old(ctx.attempted)| + 1..]);
    } else if HasPrefix(cb.data, "delete:") {
      HandleDeleteExchange(ctx, cb, u, w.now);
      AckAnswers(old(ctx.attempted), [], cb, ctx.attempted[|old(ctx.attempted)| + 1..]);
    } else {
      assert ctx.attempted == old(ctx.attempted) + [];
    }
  }

  /**
   * HandleCallback: a press from an unknown user is dropped; otherwise the
   * press goes where RouteOf sends it. Language choices and the payload
   * routes answer it; the three states with their own callbacks decide for
   * themselves.
   */
  method HandleCallback(ctx: Context, userId: int, cb: Callback, w: World, langs: seq<LanguageEntry>) returns (crashed: bool)
    requires ctx.Valid()
    modifies ctx`attempted, ctx.repo`users, ctx.repo`userOrder, ctx.repo`dismissed, ctx.repo`history
    modifies ctx.repo`exchanges, ctx.repo`timeline, ctx.repo`contactRequests
    ensures ctx.Valid()
    ensures old(ctx.repo.FoundUser(userId)).None? ==> !crashed && Untouched(ctx)
    ensures var f := old(ctx.repo.FoundUser(userId));
      f.Some? && RouteOf(f.value, cb.data) == Unhandled ==> !crashed && Untouched(ctx)
    ensures var f := old(ctx.repo.FoundUser(userId));
      f.Some? && RouteOf(f.value, cb.data) == ContinueRoute ==>
      !crashed && Only(ctx, [Ack(cb), ContinueEdit(cb, f.value), TgMessage(MainMenu(f.value), PrioritySend)])
    ensures var f := old(ctx.repo.FoundUser(userId));
      f.Some? && RouteOf(f.value, cb.data) in {MainRoute, ContinueRoute, AmountRoute, ContactRoute, DeleteRoute} ==>
      !crashed && Answered(ctx.attempted, old(ctx.attempted), cb)
    ensures var f := old(ctx.repo.FoundUser(userId));
      f.Some? && RouteOf(f.value, cb.data) == LanguageRoute && SaveSucceeds(ctx.repo.failing) ==>
      var u1 := f.value.(languageCode := TrimPrefix(cb.data, LanguagePrefix));
      HasPrefix(ctx.attempted, old(ctx.attempted) + [Ack(cb), Confirmation(cb, u1, langs)])
    ensures var f := old(ctx.repo.FoundUser(userId));
      f.Some? && RouteOf(f.value, cb.data) == ComplianceRoute ==> HasPrefix(ctx.attempted, old(ctx.attempted) + [Ack(cb)])
    ensures var f := old(ctx.repo.FoundUser(userId));
      f.Some? && RouteOf(f.value, cb.data) == RadiusRoute ==> !crashed && RadiusDone(ctx, cb, f.value)
    ensures var f := old(ctx.repo.FoundUser(userId));
      f.Some? && RouteOf(f.value, cb.data) == WaitRoute && cb.data != ContinuePayload && !HasPrefix(cb.data, "contact:") ==>
      !crashed && Untouched(ctx)
  {
    var found := ctx.repo.FindUser(userId);
    if found.None? {
      assert ctx.attempted == old(ctx.attempted) + [];
      return false;
    }
    var u := found.value;
    crashed := false;
    if HasPrefix(cb.data, LanguagePrefix) {
      crashed := HandleLanguageSelection(ctx, cb, u, w, langs);
    } else if u.menuId == MenuUSComplianceCheck {
      crashed := ComplianceCallback(ctx, cb, u, w);
    } else if u.menuId == MenuSelectRadius {
      SelectRadiusCallback(ctx, cb, u);
    } else if u.menuId == MenuHistoricalFanoutWait {
      crashed := WaitCallback(ctx, cb, u, w);
    } else {
      PrefixCallback(ctx, cb, u, w);
    }
  }
}
