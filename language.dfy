// menu/language_selection.go: the /language picker, the lang_<code> press
// and the re-display of the current screen in the new language.
module Language {
  import opened Wrappers
  import opened Text
  import opened Locale
  import opened Objects
  import opened Tables
  import opened Repository
  import opened Broker
  import opened Screens

  /** One entry of the picker's table: a code and its name in that language. */
  datatype LanguageEntry = LanguageEntry(code: string, name: string)

  /** The codes of supportedLanguages, in the order the picker shows them. */
  const PickerCodes: seq<string> := ["en", "ru", "es", "pt", "fr", "de", "it", "pl", "uk", "tr", "ar", "fa", "he", "hi",
    "id", "vi", "th", "my", "kk", "az", "bg", "ro", "fil", "zh", "zh-TW", "zh-HK", "zh-CN"]

  /** Their native names, in the same order. */
  const PickerNames: seq<string> := ["English", "Русский", "Español", "Português", "Français", "Deutsch", "Italiano",
    "Polski", "Українська", "Türkçe", "العربية", "فارسی", "עברית", "हिन्दी", "Bahasa Indonesia", "Tiếng Việt", "ไทย",
    "မြန်မာ", "Қазақша", "Azərbaycan", "Български", "Română", "Filipino", "中文", "繁體中文(台灣)", "繁體中文(香港)", "简体中文"]

  /** Two columns side by side, as long as the shorter one. */
  function Zip(codes: seq<string>, names: seq<string>): (r: seq<LanguageEntry>)
    ensures |r| == if |codes| < |names| then |codes| else |names|
    ensures forall i | 0 <= i < |r| :: r[i] == LanguageEntry(codes[i], names[i])
  {
    if codes == [] || names == [] then [] else [LanguageEntry(codes[0], names[0])] + Zip(codes[1..], names[1..])
  }

  /** supportedLanguages: each code with its native name. */
  const PickerLanguages: seq<LanguageEntry> := Zip(PickerCodes, PickerNames)

  const LanguagePrefix: string := "lang_"

  const PickerText: string := "🌐 Select your language\nCurrent language: %s"

  function Codes(langs: seq<LanguageEntry>): (r: seq<string>)
    ensures |r| == |langs|
    ensures forall i | 0 <= i < |langs| :: r[i] == langs[i].code
  {
    seq(|langs|, i requires 0 <= i < |langs| => langs[i].code)
  }

  predicate Distinct(s: seq<string>)
  {
    forall i, j | 0 <= i < j < |s| :: s[i] != s[j]
  }

  lemma PickerColumnSizes()
    ensures |PickerCodes| == 27 && |PickerNames| == 27
  {
  }

  /** Two lists without repeats and without a common element make a list without repeats. */
  lemma DistinctConcat(a: seq<string>, b: seq<string>)
    requires Distinct(a) && Distinct(b) && forall x | x in a :: x !in b
    ensures Distinct(a + b)
  {
    var s := a + b;
    forall i, j | 0 <= i < j < |s|
      ensures s[i] != s[j]
    {
      if i >= |a| {
        assert s[i] == b[i - |a|] && s[j] == b[j - |a|];
      } else if j >= |a| {
        assert s[i] in a && s[j] == b[j - |a|];
      }
    }
  }

  lemma PickerCodesDistinct()
    ensures Distinct(PickerCodes)
  {
    var a := ["en", "ru", "es", "pt", "fr", "de", "it", "pl", "uk"];
    var b := ["tr", "ar", "fa", "he", "hi", "id", "vi", "th", "my"];
    var c := ["kk", "az", "bg", "ro", "fil", "zh", "zh-TW", "zh-HK", "zh-CN"];
    assert PickerCodes == a + b + c;
    assert Distinct(a) && Distinct(b) && Distinct(c);
    DistinctConcat(a, b);
    DistinctConcat(a + b, c);
  }

  lemma PickerNamesNonEmpty()
    ensures forall i | 0 <= i < |PickerNames| :: PickerNames[i] != ""
  {
  }

  lemma PickerCodesSupported()
    ensures forall x :: x in PickerCodes <==> x in SupportedLanguages
  {
  }

  /** What Zip keeps of its columns: the length, distinct codes, non-empty names and the set of codes. */
  lemma ZipColumns(codes: seq<string>, names: seq<string>)
    requires |codes| == |names|
    ensures |Zip(codes, names)| == |codes|
    ensures Distinct(codes) ==> Distinct(Codes(Zip(codes, names)))
    ensures (forall i | 0 <= i < |names| :: names[i] != "") ==> forall i | 0 <= i < |codes| :: Zip(codes, names)[i].name != ""
    ensures forall x :: (exists i | 0 <= i < |codes| :: Zip(codes, names)[i].code == x) <==> x in codes
  {
    var z := Zip(codes, names);
    forall x
      ensures (exists i | 0 <= i < |codes| :: z[i].code == x) <==> x in codes
    {
      if x in codes {
        var i :| 0 <= i < |codes| && codes[i] == x;
        assert z[i].code == x;
      }
    }
  }

  /** The table lists 27 languages, each with a name, no code twice, and its codes are exactly the ones with a catalog. */
  lemma PickerTable()
    ensures |PickerLanguages| == 27
    ensures Distinct(Codes(PickerLanguages))
    ensures forall i | 0 <= i < |PickerLanguages| :: PickerLanguages[i].name != ""
    ensures forall x :: (exists i | 0 <= i < |PickerLanguages| :: PickerLanguages[i].code == x) <==> x in SupportedLanguages
  {
    PickerColumnSizes();
    PickerCodesDistinct();
    PickerNamesNonEmpty();
    PickerCodesSupported();
    ZipColumns(PickerCodes, PickerNames);
  }

  /** A picker button: the native name, marked when it is the user's code, sending lang_<code>. */
  function PickerButton(e: LanguageEntry, current: string): Button
  {
    Button([Lit(if e.code == current then "✅ " + e.name else e.name)], LanguagePrefix + e.code)
  }

  /** The keyboard: the table two entries per row, the last row alone when the count is odd. */
  function PickerRows(langs: seq<LanguageEntry>, current: string): seq<seq<Button>>
    decreases |langs|
  {
    if |langs| == 0 then []
    else if |langs| == 1 then [[PickerButton(langs[0], current)]]
    else [[PickerButton(langs[0], current), PickerButton(langs[1], current)]] + PickerRows(langs[2..], current)
  }

  function Flatten(rows: seq<seq<Button>>): seq<Button>
  {
    if rows == [] then [] else rows[0] + Flatten(rows[1..])
  }

  function PickerMessage(u: User, rows: seq<seq<Button>>): Message
  {
    Message(u.userId, [Fmt([Lit(PickerText)], [StrArg(LanguageName(u.languageCode))])], Lang(u), "Markdown",
      Inline(rows), false)
  }

  /**
   * The layout: ⌈n/2⌉ rows of one or two buttons, only the last row short,
   * and read row by row the buttons are the table's entries in order, each
   * marked exactly when its code is the user's.
   */
  lemma {:induction false} PickerLayout(langs: seq<LanguageEntry>, current: string)
    ensures |PickerRows(langs, current)| == (|langs| + 1) / 2
    ensures forall r | 0 <= r < |PickerRows(langs, current)| ::
      |PickerRows(langs, current)[r]| == (if 2 * r + 1 == |langs| then 1 else 2)
    ensures |Flatten(PickerRows(langs, current))| == |langs|
    ensures forall k | 0 <= k < |langs| :: Flatten(PickerRows(langs, current))[k] == PickerButton(langs[k], current)
    decreases |langs|
  {
    if |langs| >= 2 {
      var rest := langs[2..];
      PickerLayout(rest, current);
      var rows := PickerRows(langs, current);
      assert rows[1..] == PickerRows(rest, current);
      forall r | 0 <= r < |rows|
        ensures |rows[r]| == (if 2 * r + 1 == |langs| then 1 else 2)
      {
        if r > 0 {
          assert rows[r] == PickerRows(rest, current)[r - 1];
        }
      }
      var flat := Flatten(rows);
      assert flat == rows[0] + Flatten(PickerRows(rest, current));
      forall k | 0 <= k < |langs|
        ensures flat[k] == PickerButton(langs[k], current)
      {
        if k >= 2 {
          assert flat[k] == Flatten(PickerRows(rest, current))[k - 2];
          assert rest[k - 2] == langs[k];
        }
      }
    } else if |langs| == 1 {
      assert Flatten(PickerRows(langs, current)) == [PickerButton(langs[0], current)] + Flatten([]);
    }
  }

  /**
   * On a table without repeated codes, the k-th button reads the k-th
   * name, marked exactly when its code is the user's, and sends
   * lang_<code>; no other button is marked then.
   */
  lemma CheckmarkOnCurrent(langs: seq<LanguageEntry>, current: string, k: nat)
    requires Distinct(Codes(langs)) && k < |langs|
    ensures |Flatten(PickerRows(langs, current))| == |langs|
    ensures var b := Flatten(PickerRows(langs, current))[k];
      b.caption == [Lit(if langs[k].code == current then "✅ " + langs[k].name else langs[k].name)]
      && b.data == LanguagePrefix + langs[k].code
    ensures langs[k].code == current ==> forall j | 0 <= j < |langs| && j != k :: langs[j].code != current
  {
    PickerLayout(langs, current);
    if langs[k].code == current {
      forall j | 0 <= j < |langs| && j != k
        ensures langs[j].code != current
      {
        assert Codes(langs)[j] != Codes(langs)[k];
      }
    }
  }

  /** The rows of ShowLanguageSelection's `for i := 0; i < len; i += 2` loop. */
  method BuildPickerRows(langs: seq<LanguageEntry>, current: string) returns (rows: seq<seq<Button>>)
    ensures rows == PickerRows(langs, current)
  {
    rows := [];
    var i := 0;
    while i < |langs|
      invariant 0 <= i <= |langs| + 1
      invariant i <= |langs| ==> rows + PickerRows(langs[i..], current) == PickerRows(langs, current)
      invariant i > |langs| ==> rows == PickerRows(langs, current)
      decreases |langs| + 1 - i
    {
      var row;
      if i + 1 < |langs| {
        row := [PickerButton(langs[i], current), PickerButton(langs[i + 1], current)];
        assert langs[i..][0] == langs[i] && langs[i..][1] == langs[i + 1];
        assert langs[i..][2..] == langs[i + 2..];
        assert PickerRows(langs[i..], current) == [row] + PickerRows(langs[i + 2..], current);
      } else {
        row := [PickerButton(langs[i], current)];
        assert langs[i..] == [langs[i]];
        assert PickerRows(langs[i..], current) == [row];
      }
      rows := rows + [row];
      i := i + 2;
    }
  }

  /** ShowLanguageSelection: the picker in Markdown with the current language's English name; no state changes. */
  method ShowLanguageSelection(ctx: Context, u: User)
    modifies ctx`attempted
    ensures ctx.attempted == old(ctx.attempted) + [TgMessage(PickerMessage(u, PickerRows(PickerLanguages, u.languageCode)), PrioritySend)]
  {
    var rows := BuildPickerRows(PickerLanguages, u.languageCode);
    ctx.Send(PickerMessage(u, rows));
  }

  /** The first table entry with the code, scanning in table order. */
  function NativeName(langs: seq<LanguageEntry>, code: string): (r: Option<string>)
    ensures r.None? <==> forall i | 0 <= i < |langs| :: langs[i].code != code
    ensures r.Some? ==> exists i | 0 <= i < |langs| ::
      langs[i].code == code && r.value == langs[i].name && forall j | 0 <= j < i :: langs[j].code != code
    decreases |langs|
  {
    if langs == [] then None
    else if langs[0].code == code then Some(langs[0].name)
    else
      var r := NativeName(langs[1..], code);
      assert forall i | 1 <= i < |langs| :: langs[i] == langs[1..][i - 1];
      if r.Some? then
        var i :| 0 <= i < |langs[1..]| && langs[1..][i].code == code && r.value == langs[1..][i].name
          && forall j | 0 <= j < i :: langs[1..][j].code != code;
        assert langs[i + 1].code == code && forall j | 0 <= j < i + 1 :: langs[j].code != code;
        r
      else r
  }

  /** The name the confirmation shows: the table's, or "English" for a code the table lacks. */
  function ChosenName(langs: seq<LanguageEntry>, code: string): (r: string)
    ensures r != ""
  {
    var n := NativeName(langs, code);
    if n.Some? && n.value != "" then n.value else "English"
  }

  /** HandleLanguageSelection's scan: the first entry with the code gives its name; none gives "". */
  method FindNativeName(langs: seq<LanguageEntry>, code: string) returns (name: string)
    ensures name == match NativeName(langs, code) case Some(n) => n case None => ""
  {
    name := "";
    var i := 0;
    while i < |langs|
      invariant 0 <= i <= |langs|
      invariant NativeName(langs, code) == NativeName(langs[i..], code)
    {
      if langs[i].code == code {
        name := langs[i].name;
        return;
      }
      i := i + 1;
    }
  }

  /**
   * On a table without repeated codes and with every name non-empty, an
   * unlisted code falls back to "English" and a listed one gets its name.
   */
  lemma ChosenNameCases(langs: seq<LanguageEntry>, code: string)
    requires Distinct(Codes(langs)) && forall i | 0 <= i < |langs| :: langs[i].name != ""
    ensures (forall i | 0 <= i < |langs| :: langs[i].code != code) ==> ChosenName(langs, code) == "English"
    ensures forall i | 0 <= i < |langs| && langs[i].code == code :: ChosenName(langs, code) == langs[i].name
  {
    var n := NativeName(langs, code);
    forall i | 0 <= i < |langs| && langs[i].code == code
      ensures ChosenName(langs, code) == langs[i].name
    {
      var j :| 0 <= j < |langs| && langs[j].code == code && n.value == langs[j].name
        && forall m | 0 <= m < j :: langs[m].code != code;
      assert Codes(langs)[i] == Codes(langs)[j];
    }
  }

  /**
   * RegenerateCurrentMenu: the handler of the current state runs again on
   * an empty message, so a screen that only shows something shows it again
   * (now in the new language); Main and Amount redraw their menu; any other
   * state does nothing.
   */
  method RegenerateCurrentMenu(ctx: Context, u: User, w: World) returns (crashed: bool)
    requires ctx.Valid()
    modifies ctx`attempted, ctx.repo`users, ctx.repo`userOrder, ctx.repo`dismissed, ctx.repo`history
    ensures ctx.Valid()
    ensures u.menuId == MenuUSComplianceCheck ==> Only(ctx, [TgMessage(ComplianceQuestion(u), PrioritySend)]) && !crashed
    ensures u.menuId == MenuBlocked ==> Only(ctx, [TgMessage(BlockedNotice(u), PrioritySend)]) && !crashed
    ensures u.menuId == MenuInit ==> InitDone(ctx, u) && ctx.repo.history == old(ctx.repo.history) && !crashed
    ensures u.menuId == MenuAskLocation ==> Only(ctx, [TgMessage(LocationPrompt(u), PrioritySend)]) && !crashed
    ensures u.menuId == MenuSelectRadius ==> Only(ctx, [TgMessage(RadiusPrompt(u), PrioritySend)]) && !crashed
    ensures u.menuId == MenuAskPhone ==>
      Only(ctx, [TgMessage(PhonePrompt(u), PrioritySend)]) && crashed == ctx.repo.FoundUser(u.userId).None?
    ensures u.menuId == MenuHistoricalFanoutExecute ==> ExecuteDone(ctx, u, w) && ctx.repo.dismissed == old(ctx.repo.dismissed) && !crashed
    ensures u.menuId == MenuHistoricalFanoutWait ==>
      Only(ctx, [TgMessage(ContinuePrompt(u), PriorityContinue)]) && crashed == ctx.repo.FoundUser(u.userId).None?
    ensures u.menuId == MenuMain ==> Only(ctx, [TgMessage(MainMenu(u), PrioritySend)]) && !crashed
    ensures u.menuId == MenuAmount ==> Only(ctx, [TgMessage(AmountMenu(u), PrioritySend)]) && !crashed
    ensures u.menuId !in HandlerStates && u.menuId != MenuMain && u.menuId != MenuAmount ==> Only(ctx, []) && !crashed
    ensures HasPrefix(ctx.attempted, old(ctx.attempted))
  {
    if u.menuId < MenuAskPhone {
      crashed := RegenerateEarly(ctx, u, w);
    } else {
      crashed := RegenerateLate(ctx, u, w);
    }
  }

  /** RegenerateCurrentMenu for the states before the phone question: their handlers show their prompt again. */
  method RegenerateEarly(ctx: Context, u: User, w: World) returns (crashed: bool)
    requires u.menuId < MenuAskPhone
    requires ctx.Valid()
    modifies ctx`attempted, ctx.repo`users, ctx.repo`userOrder, ctx.repo`dismissed, ctx.repo`history
    ensures ctx.Valid()
    ensures u.menuId == MenuUSComplianceCheck ==> Only(ctx, [TgMessage(ComplianceQuestion(u), PrioritySend)]) && !crashed
    ensures u.menuId == MenuBlocked ==> Only(ctx, [TgMessage(BlockedNotice(u), PrioritySend)]) && !crashed
    ensures u.menuId == MenuInit ==> InitDone(ctx, u) && ctx.repo.history == old(ctx.repo.history) && !crashed
    ensures u.menuId == MenuAskLocation ==> Only(ctx, [TgMessage(LocationPrompt(u), PrioritySend)]) && !crashed
    ensures u.menuId == MenuSelectRadius ==> Only(ctx, [TgMessage(RadiusPrompt(u), PrioritySend)]) && !crashed
    ensures u.menuId !in HandlerStates ==> Only(ctx, []) && !crashed
    ensures HasPrefix(ctx.attempted, old(ctx.attempted))
  {
    AppendsKeepPrefix(ctx.attempted);
    if u.menuId < MenuAskLocation {
      crashed := DispatchEarly(ctx, u, IdOnlyMessage, w);
    } else {
      crashed := DispatchLocation(ctx, u, IdOnlyMessage, w);
    }
  }

  /** RegenerateCurrentMenu from the phone question on: Main and Amount redraw their menu. */
  method RegenerateLate(ctx: Context, u: User, w: World) returns (crashed: bool)
    requires u.menuId >= MenuAskPhone
    requires ctx.Valid()
    modifies ctx`attempted, ctx.repo`users, ctx.repo`userOrder, ctx.repo`dismissed, ctx.repo`history
    ensures ctx.Valid()
    ensures u.menuId == MenuAskPhone ==>
      Only(ctx, [TgMessage(PhonePrompt(u), PrioritySend)]) && crashed == ctx.repo.FoundUser(u.userId).None?
    ensures u.menuId == MenuHistoricalFanoutExecute ==> ExecuteDone(ctx, u, w) && ctx.repo.dismissed == old(ctx.repo.dismissed) && !crashed
    ensures u.menuId == MenuHistoricalFanoutWait ==>
      Only(ctx, [TgMessage(ContinuePrompt(u), PriorityContinue)]) && crashed == ctx.repo.FoundUser(u.userId).None?
    ensures u.menuId == MenuMain ==> Only(ctx, [TgMessage(MainMenu(u), PrioritySend)]) && !crashed
    ensures u.menuId == MenuAmount ==> Only(ctx, [TgMessage(AmountMenu(u), PrioritySend)]) && !crashed
    ensures u.menuId !in HandlerStates && u.menuId != MenuMain && u.menuId != MenuAmount ==> Only(ctx, []) && !crashed
    ensures HasPrefix(ctx.attempted, old(ctx.attempted))
  {
    AppendsKeepPrefix(ctx.attempted);
    crashed := false;
    if u.menuId == MenuMain {
      MainHandle(ctx, u);
    } else if u.menuId == MenuAmount {
      AmountHandle(ctx, u);
    } else {
      if u.menuId == MenuAskPhone {
        EmptyTextIsNotSkip(ctx.cats, u);
        assert IdOnlyMessage.text == EmptyMessage.text;
      }
      crashed := DispatchLate(ctx, u, IdOnlyMessage, w);
    }
  }


  /** The confirmation the picker message becomes: "language.changed" with the chosen language's native name. */
  function Confirmation(cb: Callback, u1: User, langs: seq<LanguageEntry>): Envelope
  {
    EditText(cb.chatId, cb.messageId, [Fmt([Loc("language.changed")], [StrArg(ChosenName(langs, u1.languageCode))])],
      Lang(u1), "", PriorityEdit)
  }

  /** The press is answered, then the picker message is edited into the confirmation. */
  method ConfirmLanguage(ctx: Context, cb: Callback, u1: User, langs: seq<LanguageEntry>)
    modifies ctx`attempted
    ensures ctx.attempted == old(ctx.attempted) + [Ack(cb), Confirmation(cb, u1, langs)]
  {
    var _ := ctx.AnswerCallbackQuery(cb.id, "");
    var name := FindNativeName(langs, u1.languageCode);
    if name == "" {
      name := "English";
    }
    var _ := ctx.EditMessage(cb.chatId, cb.messageId, [Fmt([Loc("language.changed")], [StrArg(name)])], Lang(u1), "");
  }

  /**
   * The current screen of u1 shown again in its language, from a state in
   * which `before` had been published and the users table was t1, exactly
   * as RegenerateCurrentMenu shows it.
   */
  predicate Redrawn(ctx: Context, before: seq<Envelope>, t1: UserTable, dismissed: set<(int, string)>,
                    history: map<int, seq<HistoryEntry>>, exchanges: seq<Exchange>, u1: User, w: World, crashed: bool)
    reads ctx, ctx.repo
  {
    if u1.menuId < MenuAskPhone then RedrawnEarly(ctx, before, t1, dismissed, history, u1, crashed)
    else RedrawnLate(ctx, before, t1, dismissed, history, exchanges, u1, w, crashed)
  }

  predicate RedrawnEarly(ctx: Context, before: seq<Envelope>, t1: UserTable, dismissed: set<(int, string)>,
                         history: map<int, seq<HistoryEntry>>, u1: User, crashed: bool)
    reads ctx, ctx.repo
  {
    var f := ctx.repo.failing;
    var m := u1.menuId;
    var kept := TableOf(ctx.repo) == t1 && ctx.repo.dismissed == dismissed && ctx.repo.history == history;
    !crashed &&
    if m == MenuUSComplianceCheck then ctx.attempted == before + [TgMessage(ComplianceQuestion(u1), PrioritySend)] && kept
    else if m == MenuBlocked then ctx.attempted == before + [TgMessage(BlockedNotice(u1), PrioritySend)] && kept
    else if m == MenuInit then
      var due := AdminDue(dismissed, f, u1.userId);
      ctx.attempted == before + [TgMessage(Welcome(u1), PrioritySend)]
        + (if due then [TgMessage(AdminNotice(ctx.adminChatId, u1), PriorityAdmin)] else [])
      && ctx.repo.dismissed == (if due && DismissCalloutOp !in f then dismissed + {(u1.userId, AdminFeature)} else dismissed)
      && TableOf(ctx.repo) == AfterSave(t1, f, u1.(menuId := MenuSelectRadius))
      && ctx.repo.history == history
    else if m == MenuAskLocation then ctx.attempted == before + [TgMessage(LocationPrompt(u1), PrioritySend)] && kept
    else if m == MenuSelectRadius then ctx.attempted == before + [TgMessage(RadiusPrompt(u1), PrioritySend)] && kept
    else ctx.attempted == before && kept
  }

  predicate RedrawnLate(ctx: Context, before: seq<Envelope>, t1: UserTable, dismissed: set<(int, string)>,
                        history: map<int, seq<HistoryEntry>>, exchanges: seq<Exchange>, u1: User, w: World, crashed: bool)
    reads ctx, ctx.repo
  {
    var f := ctx.repo.failing;
    var m := u1.menuId;
    var kept := TableOf(ctx.repo) == t1 && ctx.repo.dismissed == dismissed && ctx.repo.history == history;
    if m == MenuAskPhone then
      ctx.attempted == before + [TgMessage(PhonePrompt(u1), PrioritySend)] && kept && crashed == (FindUserOp in f)
    else if m == MenuHistoricalFanoutExecute then
      var broadcast := FanoutDue(f, history, exchanges, ctx.repo.geo, u1, w.now) && FindUserOp !in f;
      ctx.attempted == before
        + (if broadcast then HistoricalFanout(exchanges, ctx.repo.geo, t1.rows, u1, u1.lat, u1.lon, w.now, w.dist) else [])
      && TableOf(ctx.repo) == AfterSave(t1, f, u1.(menuId := if broadcast then MenuHistoricalFanoutWait else MenuMain))
      && ctx.repo.dismissed == dismissed && ctx.repo.history == history && !crashed
    else if m == MenuHistoricalFanoutWait then
      ctx.attempted == before + [TgMessage(ContinuePrompt(u1), PriorityContinue)] && kept && crashed == (FindUserOp in f)
    else if m == MenuMain then ctx.attempted == before + [TgMessage(MainMenu(u1), PrioritySend)] && kept && !crashed
    else if m == MenuAmount then ctx.attempted == before + [TgMessage(AmountMenu(u1), PrioritySend)] && kept && !crashed
    else ctx.attempted == before && kept && !crashed
  }

  /**
   * RegenerateCurrentMenu for a user stored as u1: the redraw above, and
   * the stored row keeps u1's language whatever state the screen saves.
   */
  method Redraw(ctx: Context, u1: User, w: World) returns (crashed: bool)
    requires ctx.Valid()
    requires UserIn(ctx.repo.users, u1.userId) == Some(u1)
    modifies ctx`attempted, ctx.repo`users, ctx.repo`userOrder, ctx.repo`dismissed, ctx.repo`history
    ensures ctx.Valid()
    ensures Redrawn(ctx, old(ctx.attempted), old(TableOf(ctx.repo)), old(ctx.repo.dismissed), old(ctx.repo.history),
      old(ctx.repo.exchanges), u1, w, crashed)
    ensures SaveUserOp !in ctx.repo.failing ==>
      UserIn(ctx.repo.users, u1.userId).Some? && UserIn(ctx.repo.users, u1.userId).value.languageCode == u1.languageCode
    ensures HasPrefix(ctx.attempted, old(ctx.attempted))
  {
    if u1.menuId < MenuAskPhone {
      crashed := RedrawEarly(ctx, u1, w);
    } else {
      crashed := RedrawLate(ctx, u1, w);
    }
  }

  method RedrawEarly(ctx: Context, u1: User, w: World) returns (crashed: bool)
    requires ctx.Valid()
    requires u1.menuId < MenuAskPhone
    requires UserIn(ctx.repo.users, u1.userId) == Some(u1)
    modifies ctx`attempted, ctx.repo`users, ctx.repo`userOrder, ctx.repo`dismissed, ctx.repo`history
    ensures ctx.Valid()
    ensures RedrawnEarly(ctx, old(ctx.attempted), old(TableOf(ctx.repo)), old(ctx.repo.dismissed), old(ctx.repo.history), u1, crashed)
    ensures SaveUserOp !in ctx.repo.failing ==>
      UserIn(ctx.repo.users, u1.userId).Some? && UserIn(ctx.repo.users, u1.userId).value.languageCode == u1.languageCode
    ensures HasPrefix(ctx.attempted, old(ctx.attempted))
  {
    crashed := RegenerateEarly(ctx, u1, w);
  }

  method RedrawLate(ctx: Context, u1: User, w: World) returns (crashed: bool)
    requires ctx.Valid()
    requires u1.menuId >= MenuAskPhone
    requires UserIn(ctx.repo.users, u1.userId) == Some(u1)
    modifies ctx`attempted, ctx.repo`users, ctx.repo`userOrder, ctx.repo`dismissed, ctx.repo`history
    ensures ctx.Valid()
    ensures RedrawnLate(ctx, old(ctx.attempted), old(TableOf(ctx.repo)), old(ctx.repo.dismissed), old(ctx.repo.history),
      old(ctx.repo.exchanges), u1, w, crashed)
    ensures SaveUserOp !in ctx.repo.failing ==>
      UserIn(ctx.repo.users, u1.userId).Some? && UserIn(ctx.repo.users, u1.userId).value.languageCode == u1.languageCode
    ensures HasPrefix(ctx.attempted, old(ctx.attempted))
  {
    crashed := RegenerateLate(ctx, u1, w);
  }

  /**
   * HandleLanguageSelection: the code is the payload after "lang_", taken
   * as it is. A failed save stops before anything is sent; otherwise the
   * press is answered, the picker becomes the confirmation in the new
   * language, and the current screen is shown again. The language table is
   * the package-level one, passed in as `langs`.
   */
  method HandleLanguageSelection(ctx: Context, cb: Callback, u: User, w: World, langs: seq<LanguageEntry>) returns (crashed: bool)
    requires ctx.Valid()
    modifies ctx`attempted, ctx.repo`users, ctx.repo`userOrder, ctx.repo`dismissed, ctx.repo`history
    ensures ctx.Valid()
    ensures var u1 := u.(languageCode := TrimPrefix(cb.data, LanguagePrefix));
      !SaveSucceeds(ctx.repo.failing) ==>
      ctx.attempted == old(ctx.attempted) && TableOf(ctx.repo) == AfterSave(old(TableOf(ctx.repo)), ctx.repo.failing, u1)
      && ctx.repo.dismissed == old(ctx.repo.dismissed) && ctx.repo.history == old(ctx.repo.history) && !crashed
    ensures var u1 := u.(languageCode := TrimPrefix(cb.data, LanguagePrefix));
      SaveSucceeds(ctx.repo.failing) ==>
      HasPrefix(ctx.attempted, old(ctx.attempted) + [Ack(cb), Confirmation(cb, u1, langs)])
    ensures var u1 := u.(languageCode := TrimPrefix(cb.data, LanguagePrefix));
      SaveSucceeds(ctx.repo.failing) ==>
      Redrawn(ctx, old(ctx.attempted) + [Ack(cb), Confirmation(cb, u1, langs)], AfterSave(old(TableOf(ctx.repo)), ctx.repo.failing, u1),
        old(ctx.repo.dismissed), old(ctx.repo.history), old(ctx.repo.exchanges), u1, w, crashed)
    ensures SaveSucceeds(ctx.repo.failing) ==>
      UserIn(ctx.repo.users, u.userId).Some? && UserIn(ctx.repo.users, u.userId).value.languageCode == TrimPrefix(cb.data, LanguagePrefix)
  {
    crashed := false;
    var code := TrimPrefix(cb.data, LanguagePrefix);
    var u1 := u.(languageCode := code);
    var ok := Persist(ctx, u1);
    if !ok {
      return;
    }
    assert ctx.attempted == old(ctx.attempted);
    assert UserIn(ctx.repo.users, u1.userId) == Some(u1);
    ConfirmLanguage(ctx, cb, u1, langs);
    crashed := Redraw(ctx, u1, w);
  }
}
