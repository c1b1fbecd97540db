// Localised text. A translation catalog maps a language code to the
// msgid -> msgstr entries of its PO file; Get is gotext's Po.Get with no
// arguments. fmt.Sprintf is modelled for the verbs the bot's templates use
// (%d, %s, %v and %%), with Go's error markers for a missing argument, an
// argument of the wrong kind, a trailing '%' and unused arguments.
//
// Message text is kept as a sequence of pieces (a literal, a catalog key in
// the recipient's language, a key looked up in a named language, a
// formatted template) so that what a message is made of stays visible;
// Render yields the exact string the Go code builds with Get, Sprintf and +.
module Locale {
  import opened Text

  type Catalogs = map<string, map<string, string>>

  /**
   * Po.Get(key) on the catalog of `lang`: the stored translation when there
   * is a non-empty one, otherwise the key itself (also when the language
   * has no catalog at all, as for a PO file that failed to load).
   */
  function Get(cats: Catalogs, lang: string, key: string): (r: string)
    ensures r == key || (lang in cats && key in cats[lang] && r == cats[lang][key] && r != "")
    ensures key != "" ==> r != ""
    ensures lang !in cats ==> r == key
  {
    if lang in cats && key in cats[lang] && cats[lang][key] != "" then cats[lang][key] else key
  }

  /** A value handed to Sprintf: Go's int or string. */
  datatype FmtArg = FInt(n: int) | FStr(s: string)

  /** One verb applied to one argument: its natural form, or Go's %!verb(type=value). */
  function FormatVerb(v: char, a: FmtArg): string
  {
    match a
    case FInt(n) => if v == 'd' || v == 'v' then IntToString(n) else "%!" + [v] + "(int=" + IntToString(n) + ")"
    case FStr(s) => if v == 's' || v == 'v' then s else "%!" + [v] + "(string=" + s + ")"
  }

  /** The output for format f and the arguments it did not use. */
  function Expand(f: string, args: seq<FmtArg>): (string, seq<FmtArg>)
    decreases |f|
  {
    if f == [] then ("", args)
    else if f[0] != '%' then
      var (o, rest) := Expand(f[1..], args);
      ([f[0]] + o, rest)
    else if |f| == 1 then ("%!(NOVERB)", args)
    else if f[1] == '%' then
      var (o, rest) := Expand(f[2..], args);
      ("%" + o, rest)
    else if args == [] then
      var (o, rest) := Expand(f[2..], args);
      ("%!" + [f[1]] + "(MISSING)" + o, rest)
    else
      var (o, rest) := Expand(f[2..], args[1..]);
      (FormatVerb(f[1], args[0]) + o, rest)
  }

  function TypedValue(a: FmtArg): string
  {
    match a
    case FInt(n) => "int=" + IntToString(n)
    case FStr(s) => "string=" + s
  }

  function TypedValues(args: seq<FmtArg>): string
    decreases |args|
  {
    if args == [] then ""
    else if |args| == 1 then TypedValue(args[0])
    else TypedValue(args[0]) + ", " + TypedValues(args[1..])
  }

  /** fmt.Sprintf: the expanded format, then %!(EXTRA ...) for unused arguments. */
  function Sprintf(f: string, args: seq<FmtArg>): string
  {
    var (o, rest) := Expand(f, args);
    if rest == [] then o else o + "%!(EXTRA " + TypedValues(rest) + ")"
  }

  /** Text without '%' passes through Expand unchanged and uses no argument. */
  lemma {:induction false} ExpandLiteralPrefix(p: string, f: string, args: seq<FmtArg>)
    requires '%' !in p
    ensures Expand(p + f, args) == (p + Expand(f, args).0, Expand(f, args).1)
    decreases |p|
  {
    if p != [] {
      var s := p + f;
      assert s[0] == p[0] && p[0] != '%';
      assert s[1..] == p[1..] + f;
      assert Expand(s, args) == ([s[0]] + Expand(s[1..], args).0, Expand(s[1..], args).1);
      ExpandLiteralPrefix(p[1..], f, args);
      var o := Expand(f, args).0;
      assert [p[0]] + p[1..] == p;
      assert [p[0]] + (p[1..] + o) == ([p[0]] + p[1..]) + o;
    } else {
      assert p + f == f;
      assert p + Expand(f, args).0 == Expand(f, args).0;
    }
  }

  /** A template without verbs and without arguments is printed as is. */
  lemma SprintfLiteral(p: string)
    requires '%' !in p
    ensures Sprintf(p, []) == p
  {
    ExpandLiteralPrefix(p, "", []);
    assert p + "" == p;
  }

  /** One %s (or %d) between literal text is replaced by its argument. */
  lemma SprintfOneVerb(p: string, v: char, q: string, a: FmtArg)
    requires '%' !in p && '%' !in q && v != '%'
    ensures Sprintf(p + ['%', v] + q, [a]) == p + FormatVerb(v, a) + q
  {
    var g := ['%', v] + q;
    ExpandLiteralPrefix(p, g, [a]);
    assert g[2..] == q;
    ExpandLiteralPrefix(q, "", []);
    assert q + "" == q;
    assert Expand(q, []) == (q, []);
    assert g[0] == '%' && g[1] == v && [a][1..] == [];
    assert Expand(g, [a]) == (FormatVerb(v, a) + q, []);
    assert p + ['%', v] + q == p + g;
    assert Expand(p + g, [a]) == (p + (FormatVerb(v, a) + q), []);
  }

  /** A translation that has no verb keeps Go's trace of the unused argument. */
  lemma SprintfUnusedArgument(p: string, a: FmtArg)
    requires '%' !in p
    ensures Sprintf(p, [a]) == p + "%!(EXTRA " + TypedValue(a) + ")"
  {
    ExpandLiteralPrefix(p, "", [a]);
    assert p + "" == p;
  }

  /** An argument of a formatted piece. */
  datatype Arg = IntArg(n: int) | StrArg(s: string) | TextArg(t: seq<Piece>)

  /**
   * Lit: fixed text. Loc: a catalog key in the language the message is
   * rendered in. LocIn: a key looked up in a named language. Fmt: Sprintf of
   * a rendered template with rendered arguments.
   */
  datatype Piece =
    | Lit(s: string)
    | Loc(key: string)
    | LocIn(lang: string, key: string)
    | Fmt(template: seq<Piece>, args: seq<Arg>)

  function Render(cats: Catalogs, lang: string, t: seq<Piece>): string
    decreases t
  {
    if t == [] then "" else RenderPiece(cats, lang, t[0]) + Render(cats, lang, t[1..])
  }

  function RenderPiece(cats: Catalogs, lang: string, p: Piece): string
    decreases p
  {
    match p
    case Lit(s) => s
    case Loc(k) => Get(cats, lang, k)
    case LocIn(l, k) => Get(cats, l, k)
    case Fmt(template, args) => Sprintf(Render(cats, lang, template), RenderArgs(cats, lang, args))
  }

  function RenderArgs(cats: Catalogs, lang: string, args: seq<Arg>): seq<FmtArg>
    decreases args
  {
    if args == [] then [] else [RenderArg(cats, lang, args[0])] + RenderArgs(cats, lang, args[1..])
  }

  function RenderArg(cats: Catalogs, lang: string, a: Arg): FmtArg
    decreases a
  {
    match a
    case IntArg(n) => FInt(n)
    case StrArg(s) => FStr(s)
    case TextArg(t) => FStr(Render(cats, lang, t))
  }

  /** The catalog keys a text looks up, in reading order. */
  function Keys(t: seq<Piece>): seq<string>
    decreases t
  {
    if t == [] then [] else PieceKeys(t[0]) + Keys(t[1..])
  }

  function PieceKeys(p: Piece): seq<string>
    decreases p
  {
    match p
    case Lit(_) => []
    case Loc(k) => [k]
    case LocIn(_, k) => [k]
    case Fmt(template, args) => Keys(template) + ArgKeys(args)
  }

  function ArgKeys(args: seq<Arg>): seq<string>
    decreases args
  {
    if args == [] then []
    else (match args[0] case TextArg(t) => Keys(t) case _ => []) + ArgKeys(args[1..])
  }

  lemma {:induction false} KeysConcat(a: seq<Piece>, b: seq<Piece>)
    ensures Keys(a + b) == Keys(a) + Keys(b)
    decreases |a|
  {
    if a == [] {
      assert a + b == b;
    } else {
      assert (a + b)[0] == a[0];
      assert (a + b)[1..] == a[1..] + b;
      KeysConcat(a[1..], b);
    }
  }

  /** Rendering distributes over concatenation of texts ("+" in the Go code). */
  lemma {:induction false} RenderConcat(cats: Catalogs, lang: string, a: seq<Piece>, b: seq<Piece>)
    ensures Render(cats, lang, a + b) == Render(cats, lang, a) + Render(cats, lang, b)
    decreases |a|
  {
    if a == [] {
      assert a + b == b;
    } else {
      assert (a + b)[0] == a[0];
      assert (a + b)[1..] == a[1..] + b;
      RenderConcat(cats, lang, a[1..], b);
    }
  }

  /** With no catalog loaded every key renders as itself, as in the Go tests. */
  lemma RenderKeyWithoutCatalog(lang: string, key: string)
    ensures Render(map[], lang, [Loc(key)]) == key
  {
  }
}
