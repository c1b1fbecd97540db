// The records the bot keeps: the per-user session record with its menu
// state, the exchange listing and the timeline record of one fanout
// message, with their constants, constructors and the language-code
// normalisation that picks a user's translation catalog.
module Objects {
  import opened Wrappers
  import opened Text

  // Menu states, in the numeric order the session moves through them.
  const MenuUSComplianceCheck: int := 50
  const MenuBlocked: int := 60
  const MenuInit: int := 100
  const MenuAskLocation: int := 200
  const MenuSelectRadius: int := 250
  const MenuAskPhone: int := 275
  const MenuHistoricalFanoutExecute: int := 290
  const MenuHistoricalFanoutWait: int := 295
  const MenuMain: int := 400
  const MenuAmount: int := 500
  const MenuBan: int := 999999

  /** The menu states in declaration order; each is larger than the one before. */
  const MenuOrder: seq<int> := [MenuUSComplianceCheck, MenuBlocked, MenuInit, MenuAskLocation,
    MenuSelectRadius, MenuAskPhone, MenuHistoricalFanoutExecute, MenuHistoricalFanoutWait,
    MenuMain, MenuAmount, MenuBan]

  lemma MenuIdsIncrease()
    ensures forall i, j :: 0 <= i < j < |MenuOrder| ==> MenuOrder[i] < MenuOrder[j]
  {
  }

  /**
   * A user as the Go code holds it after FindUser: latitude and longitude
   * are 0 when the stored location is NULL, the radius is optional and the
   * phone number is "" when unknown.
   */
  datatype User = User(
    userId: int,
    menuId: int,
    username: string,
    firstName: string,
    lastName: string,
    languageCode: string,
    lon: real,
    lat: real,
    searchRadiusKm: Option<int>,
    phoneNumber: string)

  /** The languages that have a translation catalog. */
  const SupportedLanguages: set<string> := {"en", "ru", "id", "pt", "es", "hi", "tr", "ar", "vi",
    "fr", "fa", "uk", "kk", "it", "de", "he", "th", "my", "az", "bg", "ro", "pl", "zh", "zh-CN",
    "zh-TW", "zh-HK", "fil"}

  /** Case and script variants of Chinese, keyed by the lower-cased code. */
  const ChineseMappings: map<string, string> := map["zh-cn" := "zh-CN", "zh-tw" := "zh-TW",
    "zh-hk" := "zh-HK", "zh-hans" := "zh-CN", "zh-hant" := "zh-TW"]

  /** Regional variants of Portuguese, keyed by the lower-cased code. */
  const PortugueseMappings: map<string, string> := map["pt-br" := "pt", "pt-pt" := "pt",
    "pt-ao" := "pt", "pt-mz" := "pt"]

  /**
   * User.GetSupportedLanguageCode: the catalog a Telegram language code is
   * served from. The Chinese and Portuguese variant tables are consulted on
   * the lower-cased code first; then an exact (case-sensitive) match; then
   * the first two characters; then any other zh-* or pt-*; else English.
   */
  function SupportedLanguageCode(code: string): (r: string)
    ensures r in SupportedLanguages
  {
    var lang := ToLower(code);
    if lang in ChineseMappings then ChineseMappings[lang]
    else if lang in PortugueseMappings then PortugueseMappings[lang]
    else if code in SupportedLanguages then code
    else if |code| >= 2 && code[..2] in SupportedLanguages then code[..2]
    else if HasPrefix(lang, "zh-") then "zh"
    else if HasPrefix(lang, "pt-") then "pt"
    else "en"
  }

  /** A supported code is served unchanged. */
  lemma SupportedLanguageCodeKeepsSupported(code: string)
    requires code in SupportedLanguages
    ensures SupportedLanguageCode(code) == code
  {
    if |code| == 5 {
      SupportedWithDash(code);
      ChineseRegionsKept();
    } else {
      var lang := ToLower(code);
      assert |lang| != 5 && |lang| != 7;
      assert lang !in ChineseMappings && lang !in PortugueseMappings;
    }
  }

  /** Normalisation is idempotent. */
  lemma SupportedLanguageCodeIdempotent(code: string)
    ensures SupportedLanguageCode(SupportedLanguageCode(code)) == SupportedLanguageCode(code)
  {
    SupportedLanguageCodeKeepsSupported(SupportedLanguageCode(code));
  }

  lemma LowerCharIs(c: char, lower: char, upper: char)
    requires 'a' <= lower <= 'z' && upper == (lower as int - 32) as char && lower != 'i' && lower != 'k'
    ensures LowerChar(c) == lower <==> c == lower || c == upper
  {
  }

  /** Two characters that lower-case to "zh" or "pt" name a supported code only as "zh" or "pt". */
  lemma TwoLetterFamily(code: string, family: string)
    requires family == "zh" || family == "pt"
    requires |code| >= 3 && ToLower(code)[..3] == family + "-"
    ensures code[..2] in SupportedLanguages <==> code[..2] == family
  {
    ToLowerAt(code, 0);
    ToLowerAt(code, 1);
    assert LowerChar(code[0]) == family[0] && LowerChar(code[1]) == family[1];
    FamilyPair(code[0], code[1], family);
    assert code[..2] == [code[0], code[1]];
  }

  /** Two characters lower-casing to "zh" or "pt" are a supported code only when already lower case. */
  lemma FamilyPair(c0: char, c1: char, family: string)
    requires family == "zh" || family == "pt"
    requires LowerChar(c0) == family[0] && LowerChar(c1) == family[1]
    ensures [c0, c1] in SupportedLanguages <==> [c0, c1] == family
  {
    LowerCharIs(c0, family[0], (family[0] as int - 32) as char);
    LowerCharIs(c1, family[1], (family[1] as int - 32) as char);
    var two := [c0, c1];
    if two in SupportedLanguages {
      SupportedPairsLower(two);
    } else {
      assert family in SupportedLanguages;
    }
  }

  /** The two-letter supported codes are lower case. */
  lemma SupportedPairsLower(c: string)
    requires c in SupportedLanguages && |c| == 2
    ensures 'a' <= c[0] <= 'z' && 'a' <= c[1] <= 'z'
  {
  }

  /** The only supported codes with a '-' in third position are the three Chinese regions. */
  lemma SupportedWithDash(code: string)
    requires code in SupportedLanguages && |code| >= 3 && code[2] == '-'
    ensures code == "zh-CN" || code == "zh-TW" || code == "zh-HK"
  {
  }

  /** A code whose lower case starts with "xy-" starts with a '-' in third position. */
  lemma DashAtTwo(code: string)
    requires |code| >= 3 && ToLower(code)[2] == '-'
    ensures code[2] == '-'
  {
    ToLowerAt(code, 2);
  }

  lemma SupportedDashIsChinese(code: string)
    requires |code| >= 3 && code[2] == '-'
    ensures code in SupportedLanguages ==> code[0] == 'z' && ToLower(code) in ChineseMappings
  {
    if code in SupportedLanguages {
      SupportedWithDash(code);
      ChineseRegionsMapped();
    }
  }

  lemma ChineseRegionsMapped()
    ensures ToLower("zh-CN") in ChineseMappings && ToLower("zh-TW") in ChineseMappings && ToLower("zh-HK") in ChineseMappings
  {
    assert ToLower("zh-CN") == "zh-cn";
    assert ToLower("zh-TW") == "zh-tw";
    assert ToLower("zh-HK") == "zh-hk";
  }

  /** The three regional Chinese codes are served unchanged. */
  lemma ChineseRegionsKept()
    ensures SupportedLanguageCode("zh-CN") == "zh-CN"
    ensures SupportedLanguageCode("zh-TW") == "zh-TW"
    ensures SupportedLanguageCode("zh-HK") == "zh-HK"
  {
    assert ToLower("zh-CN") == "zh-cn";
    assert ToLower("zh-TW") == "zh-tw";
    assert ToLower("zh-HK") == "zh-hk";
  }

  lemma NotChineseMapped(lang: string)
    requires |lang| >= 1 && lang[0] == 'p'
    ensures lang !in ChineseMappings
  {
  }

  lemma NotPortugueseMapped(lang: string)
    requires |lang| >= 1 && lang[0] == 'z'
    ensures lang !in PortugueseMappings
  {
  }

  /**
   * Chinese codes, whatever their case: zh-cn and zh-hans are Simplified,
   * zh-tw and zh-hant Traditional, zh-hk Hong Kong, any other zh-* is zh.
   */
  lemma ChineseVariants(code: string)
    requires HasPrefix(ToLower(code), "zh-")
    ensures ToLower(code) in ChineseMappings ==> SupportedLanguageCode(code) == ChineseMappings[ToLower(code)]
    ensures ToLower(code) !in ChineseMappings ==> SupportedLanguageCode(code) == "zh"
  {
    var lang := ToLower(code);
    assert lang[0] == 'z' && lang[2] == '-' by { assert lang[..3] == "zh-"; }
    if lang !in ChineseMappings {
      NotPortugueseMapped(lang);
      DashAtTwo(code);
      SupportedDashIsChinese(code);
      TwoLetterFamily(code, "zh");
    }
  }

  /** Portuguese codes, whatever their case: every pt-* variant is pt. */
  lemma PortugueseVariants(code: string)
    requires HasPrefix(ToLower(code), "pt-")
    ensures SupportedLanguageCode(code) == "pt"
  {
    var lang := ToLower(code);
    assert lang[0] == 'p' && lang[2] == '-' by { assert lang[..3] == "pt-"; }
    NotChineseMapped(lang);
    if lang in PortugueseMappings {
      assert PortugueseMappings[lang] == "pt";
    } else {
      DashAtTwo(code);
      SupportedDashIsChinese(code);
      ToLowerAt(code, 0);
      TwoLetterFamily(code, "pt");
      PortugueseFallback(code);
    }
  }

  lemma PortugueseFallback(code: string)
    requires HasPrefix(ToLower(code), "pt-") && ToLower(code)[0] == 'p'
    requires ToLower(code) !in ChineseMappings && ToLower(code) !in PortugueseMappings
    requires code !in SupportedLanguages
    requires code[..2] in SupportedLanguages <==> code[..2] == "pt"
    ensures SupportedLanguageCode(code) == "pt"
  {
  }

  /**
   * Anything that is not a variant of Chinese or Portuguese, not supported
   * as written and whose first two characters are not supported is served
   * in English; so is the empty code.
   */
  lemma UnsupportedIsEnglish(code: string)
    requires code !in SupportedLanguages
    requires ToLower(code) !in ChineseMappings && ToLower(code) !in PortugueseMappings
    requires !HasPrefix(ToLower(code), "zh-") && !HasPrefix(ToLower(code), "pt-")
    requires |code| < 2 || code[..2] !in SupportedLanguages
    ensures SupportedLanguageCode(code) == "en"
  {
  }

  /** The language family rule: "ru-RU" is served in Russian. */
  lemma RegionalVariantUsesFamily()
    ensures SupportedLanguageCode("ru-RU") == "ru"
  {
    assert ToLower("ru-RU") == "ru-ru";
    assert "ru-RU"[..2] == "ru";
  }

  /** The exact match is case-sensitive: "RU" is served in English. */
  lemma UpperCaseIsNotSupported()
    ensures SupportedLanguageCode("RU") == "en"
  {
    assert ToLower("RU") == "ru";
    assert "RU"[..2] == "RU";
  }

  /** English names of the supported languages. */
  const LanguageNames: map<string, string> := map[
    "en" := "English", "ru" := "Russian", "id" := "Indonesian", "pt" := "Portuguese",
    "es" := "Spanish", "hi" := "Hindi", "tr" := "Turkish", "ar" := "Arabic",
    "vi" := "Vietnamese", "fr" := "French", "fa" := "Persian", "uk" := "Ukrainian",
    "kk" := "Kazakh", "it" := "Italian", "de" := "German", "he" := "Hebrew",
    "th" := "Thai", "my" := "Burmese", "az" := "Azerbaijani", "bg" := "Bulgarian",
    "ro" := "Romanian", "pl" := "Polish", "zh" := "Chinese",
    "zh-CN" := "Chinese (Simplified)", "zh-TW" := "Chinese (Traditional)",
    "zh-HK" := "Chinese (Hong Kong)", "fil" := "Filipino"]

  /** User.GetLanguageName: the English name of the catalog the user is served from. */
  function LanguageName(code: string): (r: string)
    ensures r != ""
  {
    var lang := SupportedLanguageCode(code);
    if lang in LanguageNames then LanguageNames[lang] else "English"
  }

  /** Every supported code has a name, so the "English" fallback is reached only through "en". */
  lemma LanguageNameTotal(code: string)
    ensures SupportedLanguageCode(code) in LanguageNames
    ensures LanguageName(code) == LanguageNames[SupportedLanguageCode(code)]
    ensures LanguageName(code) == "English" <==> SupportedLanguageCode(code) == "en"
  {
    var lang := SupportedLanguageCode(code);
    NamesCoverSupported(lang);
  }

  lemma NamesCoverSupported(lang: string)
    requires lang in SupportedLanguages
    ensures lang in LanguageNames
  {
  }

  const DirectionCashToCrypto: string := "cash_to_crypto"
  const DirectionCryptoToCash: string := "crypto_to_cash"

  const ExchangeStatusInitiated: string := "initiated"
  const ExchangeStatusPosted: string := "posted"
  const ExchangeStatusCanceled: string := "canceled"

  /** A listing. Times are seconds; updated_at is not modelled. */
  datatype Exchange = Exchange(
    id: int,
    userId: int,
    direction: string,
    status: string,
    amountUsd: Option<int>,
    lat: real,
    lon: real,
    isDeleted: bool,
    deletedAt: Option<int>,
    createdAt: int)

  /** NewExchange: a fresh, initiated, undeleted listing without an amount, created now. */
  function NewExchange(userId: int, direction: string, lat: real, lon: real, now: int): (e: Exchange)
    ensures e.status == ExchangeStatusInitiated && !e.isDeleted
    ensures e.amountUsd == None && e.deletedAt == None
    ensures e.userId == userId && e.direction == direction && e.lat == lat && e.lon == lon
    ensures e.createdAt == now && e.id == 0
  {
    Exchange(0, userId, direction, ExchangeStatusInitiated, None, lat, lon, false, None, now)
  }

  lemma ExchangeConstantsDistinct()
    ensures DirectionCashToCrypto != DirectionCryptoToCash
    ensures |{ExchangeStatusInitiated, ExchangeStatusPosted, ExchangeStatusCanceled}| == 3
  {
  }

  const TimelineStatusPending: string := "pending"
  const TimelineStatusSent: string := "sent"
  const TimelineStatusFailed: string := "failed"
  const TimelineStatusDeleted: string := "deleted"

  /** One fanout message about an exchange, as delivered (or not) to one recipient. */
  datatype TimelineRecord = TimelineRecord(
    id: int,
    exchangeId: int,
    recipientUserId: int,
    telegramMessageId: Option<int>,
    status: string,
    isDeleted: bool,
    deletedAt: Option<int>,
    createdAt: int)

  /** NewTimelineRecord: a pending, undeleted record with no message id yet. */
  function NewTimelineRecord(exchangeId: int, recipientUserId: int, now: int): (t: TimelineRecord)
    ensures t.status == TimelineStatusPending && !t.isDeleted
    ensures t.telegramMessageId == None && t.deletedAt == None
    ensures t.exchangeId == exchangeId && t.recipientUserId == recipientUserId
    ensures t.createdAt == now && t.id == 0
  {
    TimelineRecord(0, exchangeId, recipientUserId, None, TimelineStatusPending, false, None, now)
  }

  lemma TimelineStatusesDistinct()
    ensures |{TimelineStatusPending, TimelineStatusSent, TimelineStatusFailed, TimelineStatusDeleted}| == 4
  {
  }
}
