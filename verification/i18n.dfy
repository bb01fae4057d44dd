/** The translation service of `src/lib/i18n/i18n.svelte.ts`: its
    configuration, the locale state, flattening of nested translation
    files into dot-separated keys, and the lookup `t` with `{{name}}`
    placeholders. Loading a file is asynchronous I/O: the loaded tree is
    passed in. */
module I18n {
  import opened Wrappers
  import opened JsString

  datatype Dir = Rtl | Ltr

  /** A loader entry; the loading function itself is external. */
  datatype Loader = Loader(locale: string, dir: Option<Dir>)

  datatype Config = Config(defaultLocale: string, loaders: seq<Loader>)

  predicate Normalized(cfg: Config) {
    forall i :: 0 <= i < |cfg.loaders| ==> cfg.loaders[i].dir.Some?
  }

  /** `normalizeConfig`: a loader without `dir` gets `'ltr'`, an explicit
      `dir` is kept, and nothing else changes. */
  function NormalizeConfig(cfg: Config): (r: Config)
    ensures Normalized(r)
    ensures r.defaultLocale == cfg.defaultLocale && |r.loaders| == |cfg.loaders|
    ensures forall i :: 0 <= i < |cfg.loaders| ==> r.loaders[i].locale == cfg.loaders[i].locale
    ensures forall i :: 0 <= i < |cfg.loaders| && cfg.loaders[i].dir.Some? ==> r.loaders[i].dir == cfg.loaders[i].dir
    ensures forall i :: 0 <= i < |cfg.loaders| && cfg.loaders[i].dir.None? ==> r.loaders[i].dir == Some(Ltr)
  {
    Config(cfg.defaultLocale,
      seq(|cfg.loaders|, i requires 0 <= i < |cfg.loaders| =>
        Loader(cfg.loaders[i].locale, Some(cfg.loaders[i].dir.GetOr(Ltr)))))
  }

  /** Normalising twice is normalising once. */
  lemma NormalizeIdempotent(cfg: Config)
    ensures NormalizeConfig(NormalizeConfig(cfg)) == NormalizeConfig(cfg)
  {
  }

  /** The `locales` getter: the loaders' locales, in order. */
  function Locales(cfg: Config): (r: seq<string>)
    ensures |r| == |cfg.loaders|
    ensures forall i :: 0 <= i < |r| ==> r[i] == cfg.loaders[i].locale
  {
    seq(|cfg.loaders|, i requires 0 <= i < |cfg.loaders| => cfg.loaders[i].locale)
  }

  /** `loaders.find(l => l.locale === locale)`. */
  function FindLoader(loaders: seq<Loader>, locale: string): (r: Option<Loader>)
    ensures r.None? <==> forall i :: 0 <= i < |loaders| ==> loaders[i].locale != locale
    ensures r.Some? ==> r.value.locale == locale
    ensures r.Some? ==> exists i :: (0 <= i < |loaders| && loaders[i] == r.value &&
                                     forall j :: 0 <= j < i ==> loaders[j].locale != locale)
  {
    if |loaders| == 0 then None
    else if loaders[0].locale == locale then Some(loaders[0])
    else
      var r := FindLoader(loaders[1..], locale);
      assert forall i :: 1 <= i < |loaders| ==> loaders[i] == loaders[1..][i - 1];
      if r.Some? then
        var i :| 0 <= i < |loaders[1..]| && loaders[1..][i] == r.value &&
                  forall j :: 0 <= j < i ==> loaders[1..][j].locale != locale;
        assert loaders[i + 1] == r.value;
        r
      else r
  }

  /** `isLocaleSupported(locale)`: some loader serves it. */
  function IsLocaleSupported(cfg: Config, locale: string): (r: bool)
    ensures r <==> locale in Locales(cfg)
  {
    FindLoader(cfg.loaders, locale).Some?
  }

  /** `getLanguageName(lang)`: the display name, or the code when there is
      none. The table of names is a parameter. */
  function GetLanguageName(names: map<string, string>, code: string): (r: string)
    ensures code in names && names[code] != "" ==> r == names[code]
    ensures code !in names || names[code] == "" ==> r == code
    ensures code != "" ==> r != ""
  {
    if code in names && names[code] != "" then names[code] else code
  }

  // ----------------------------------------------------------------- state

  datatype State = State(config: Config, translations: map<string, string>, locale: string, dir: Dir)

  predicate Valid(st: State) {
    Normalized(st.config)
  }

  /** `new i18n(config)`: normalised configuration, default locale, no translations. */
  function NewI18n(cfg: Config): (st: State)
    ensures Valid(st)
    ensures st.locale == cfg.defaultLocale && st.dir == Ltr && st.translations == map[]
    ensures Locales(st.config) == Locales(cfg)
  {
    State(NormalizeConfig(cfg), map[], cfg.defaultLocale, Ltr)
  }

  function UnsupportedMessage(locale: string): string {
    "Locale " + locale + " not supported"
  }

  /** The state part of `setLocale(locale)`: an empty locale does
      nothing, an unsupported one throws, and a supported one becomes the
      locale with its loader's direction. Loading its translations is
      started without being awaited; see `LoadTranslations`. */
  function SetLocale(st: State, locale: string): (r: Result<State>)
    requires Valid(st)
    ensures locale == "" ==> r == Ok(st)
    ensures locale != "" && locale !in Locales(st.config) ==> r == Throw(UnsupportedMessage(locale))
    ensures locale != "" && locale in Locales(st.config) ==> r.Ok? && r.value.locale == locale
    ensures r.Ok? ==> Valid(r.value) && r.value.config == st.config && r.value.translations == st.translations
    ensures locale == st.locale && locale in Locales(st.config) ==> r == Ok(st)
    ensures r.Ok? && r.value.locale != st.locale ==>
              exists i :: 0 <= i < |st.config.loaders| && st.config.loaders[i].locale == locale
                          && st.config.loaders[i].dir == Some(r.value.dir)
                          && forall j :: 0 <= j < i ==> st.config.loaders[j].locale != locale
  {
    if locale == "" then Ok(st)
    else match FindLoader(st.config.loaders, locale)
      case None => Throw(UnsupportedMessage(locale))
      case Some(loader) =>
        if locale != st.locale then Ok(st.(locale := locale, dir := loader.dir.GetOr(Ltr)))
        else Ok(st)
  }

  /** `setLocale` succeeds exactly for the empty locale and the supported
      ones, and repeating a successful call changes nothing. */
  lemma SetLocaleIdempotent(st: State, locale: string)
    requires Valid(st)
    ensures SetLocale(st, locale).Ok? <==> locale == "" || IsLocaleSupported(st.config, locale)
    ensures SetLocale(st, locale).Ok? ==> SetLocale(SetLocale(st, locale).value, locale) == SetLocale(st, locale)
  {
  }

  /** The direction belongs to the locale: the current locale's loader,
      when there is one, gives the current direction. */
  predicate DirMatchesLocale(st: State) {
    var loader := FindLoader(st.config.loaders, st.locale);
    loader.Some? ==> Some(st.dir) == loader.value.dir
  }

  /** `setLocale` keeps the direction in step with the locale, and
      switching to another locale puts it in step even when it was not,
      as after the constructor, which starts at `ltr` whatever the
      default locale's direction. */
  lemma SetLocaleKeepsDir(st: State, locale: string)
    requires Valid(st) && (DirMatchesLocale(st) || (locale != "" && locale != st.locale))
    requires SetLocale(st, locale).Ok?
    ensures DirMatchesLocale(SetLocale(st, locale).value)
  {
    if locale != "" && locale != st.locale {
      var loader := FindLoader(st.config.loaders, locale).value;
      var i :| 0 <= i < |st.config.loaders| && st.config.loaders[i] == loader;
      assert loader.dir.Some?;
    }
  }

  // ---------------------------------------------------------- translations

  /** A translation file: a JSON object whose values are strings or nested objects. */
  datatype Tree = Leaf(text: string) | Node(entries: seq<Entry>)
  datatype Entry = Entry(key: string, value: Tree)

  /** `flattenTranslations(translations, prefix)` from entry `i` on, as the
      source's `reduce` does it: nested objects are merged in with
      `{...acc, ...nested}`, leaves are assigned, later keys win. */
  function FlattenFrom(acc: map<string, string>, t: Tree, i: nat, prefix: string): map<string, string>
    requires t.Node? && i <= |t.entries|
    decreases t, |t.entries| - i
  {
    if i == |t.entries| then acc
    else
      var e := t.entries[i];
      assert e in t.entries;
      var next := match e.value
        case Node(_) => acc + FlattenFrom(map[], e.value, 0, prefix + e.key + ".")
        case Leaf(text) => acc[prefix + e.key := text];
      FlattenFrom(next, t, i + 1, prefix)
  }

  function Flatten(t: Tree): map<string, string>
    requires t.Node?
  {
    FlattenFrom(map[], t, 0, "")
  }

  /** Reference: every leaf with the path of keys leading to it, in
      document order. */
  function LeafPaths(t: Tree, i: nat, path: seq<string>): seq<(seq<string>, string)>
    requires t.Node? && i <= |t.entries|
    decreases t, |t.entries| - i
  {
    if i == |t.entries| then []
    else
      var e := t.entries[i];
      assert e in t.entries;
      var here := match e.value
        case Node(_) => LeafPaths(e.value, 0, path + [e.key])
        case Leaf(text) => [(path + [e.key], text)];
      here + LeafPaths(t, i + 1, path)
  }

  /** The dotted key of a path of keys, `k1.k2.….kn`. */
  function DottedKey(path: seq<string>): string {
    Join(path, '.')
  }

  /** Reference: assign the pairs left to right, later keys winning. */
  function Assign(acc: map<string, string>, pairs: seq<(seq<string>, string)>): (r: map<string, string>)
    ensures forall k :: k in r <==> k in acc || exists i :: 0 <= i < |pairs| && DottedKey(pairs[i].0) == k
    decreases |pairs|
  {
    if |pairs| == 0 then acc
    else
      var r := Assign(acc[DottedKey(pairs[0].0) := pairs[0].1], pairs[1..]);
      assert forall i :: 1 <= i < |pairs| ==> pairs[i] == pairs[1..][i - 1];
      r
  }

  /** The key prefix the source builds for a path: `k1.k2.….kn.`. */
  function DotPrefix(path: seq<string>): string {
    if |path| == 0 then "" else path[0] + "." + DotPrefix(path[1..])
  }

  lemma {:induction false} DotPrefixAppend(path: seq<string>, k: string)
    ensures DotPrefix(path + [k]) == DotPrefix(path) + k + "."
    ensures DottedKey(path + [k]) == DotPrefix(path) + k
    decreases |path|
  {
    if |path| > 0 {
      assert (path + [k])[1..] == path[1..] + [k];
      DotPrefixAppend(path[1..], k);
      if |path| == 1 {
        assert path[1..] + [k] == [k];
      }
    }
  }

  lemma {:induction false} AssignAppend(acc: map<string, string>, xs: seq<(seq<string>, string)>, ys: seq<(seq<string>, string)>)
    ensures Assign(acc, xs + ys) == Assign(Assign(acc, xs), ys)
    decreases |xs|
  {
    if |xs| > 0 {
      assert (xs + ys)[1..] == xs[1..] + ys;
      AssignAppend(acc[DottedKey(xs[0].0) := xs[0].1], xs[1..], ys);
    } else {
      assert xs + ys == ys;
    }
  }

  lemma {:induction false} AssignMerge(acc: map<string, string>, pairs: seq<(seq<string>, string)>)
    ensures Assign(acc, pairs) == acc + Assign(map[], pairs)
    decreases |pairs|
  {
    if |pairs| > 0 {
      var k, v := DottedKey(pairs[0].0), pairs[0].1;
      var later := Assign(map[], pairs[1..]);
      calc {
        Assign(acc, pairs);
        Assign(acc[k := v], pairs[1..]);
        { AssignMerge(acc[k := v], pairs[1..]); }
        acc[k := v] + later;
        { UpdateThenUnion(acc, k, v, later); }
        acc + (map[k := v] + later);
        { AssignMerge(map[k := v], pairs[1..]); }
        acc + Assign(map[k := v], pairs[1..]);
      }
    }
  }

  lemma UpdateThenUnion(acc: map<string, string>, k: string, v: string, later: map<string, string>)
    ensures acc[k := v] + later == acc + (map[k := v] + later)
  {
  }

  /** Flattening assigns every leaf to the dot-joined path of its keys,
      in document order. */
  lemma {:induction false} FlattenFromIsAssign(acc: map<string, string>, t: Tree, i: nat, path: seq<string>)
    requires t.Node? && i <= |t.entries|
    ensures FlattenFrom(acc, t, i, DotPrefix(path)) == Assign(acc, LeafPaths(t, i, path))
    decreases t, |t.entries| - i
  {
    if i < |t.entries| {
      var e := t.entries[i];
      assert e in t.entries;
      DotPrefixAppend(path, e.key);
      var here := match e.value
        case Node(_) => LeafPaths(e.value, 0, path + [e.key])
        case Leaf(text) => [(path + [e.key], text)];
      var next := match e.value
        case Node(_) => acc + FlattenFrom(map[], e.value, 0, DotPrefix(path) + e.key + ".")
        case Leaf(text) => acc[DotPrefix(path) + e.key := text];
      if e.value.Node? {
        FlattenFromIsAssign(map[], e.value, 0, path + [e.key]);
        AssignMerge(acc, here);
      }
      assert next == Assign(acc, here);
      FlattenFromIsAssign(next, t, i + 1, path);
      AssignAppend(acc, here, LeafPaths(t, i + 1, path));
    }
  }

  /** A key is in the flattened translations exactly when some leaf's
      path dot-joins to it. */
  lemma FlattenKeys(t: Tree, key: string)
    requires t.Node?
    ensures key in Flatten(t) <==> exists i :: 0 <= i < |LeafPaths(t, 0, [])| && DottedKey(LeafPaths(t, 0, [])[i].0) == key
  {
    FlattenFromIsAssign(map[], t, 0, []);
  }

  function MissingLoaderMessage(locale: string): string {
    "Loader for locale " + locale + " not found"
  }

  /** `loadTranslations(locale)` once the loader's file is in: nothing to
      do for the current locale when translations are loaded, an error
      when no loader serves the locale, and otherwise the flattened file
      replaces the translations (the locale itself is not changed). */
  function LoadTranslations(st: State, locale: string, file: Tree): (r: Result<State>)
    requires file.Node?
    ensures locale == st.locale && |st.translations| != 0 ==> r == Ok(st)
    ensures !(locale == st.locale && |st.translations| != 0) && locale !in Locales(st.config) ==>
              r == Throw(MissingLoaderMessage(locale))
    ensures !(locale == st.locale && |st.translations| != 0) && locale in Locales(st.config) ==>
              r == Ok(st.(translations := Assign(map[], LeafPaths(file, 0, []))))
  {
    if locale == st.locale && |st.translations| != 0 then Ok(st)
    else match FindLoader(st.config.loaders, locale)
      case None => Throw(MissingLoaderMessage(locale))
      case Some(_) =>
        FlattenFromIsAssign(map[], file, 0, []);
        Ok(st.(translations := Flatten(file)))
  }

  // ------------------------------------------------------------------- t()

  /** A parameter value as JavaScript sees it. */
  datatype Param = PString(s: string) | PNumber(n: int) | PBool(b: bool) | PNull

  predicate Truthy(v: Param) {
    match v
    case PString(s) => s != ""
    case PNumber(n) => n != 0
    case PBool(b) => b
    case PNull => false
  }

  function DigitChar(d: nat): char
    requires d < 10
  {
    ('0' as int + d) as char
  }

  function NatToDecimal(n: nat): (r: string)
    ensures |r| > 0 && forall i :: 0 <= i < |r| ==> '0' <= r[i] <= '9'
  {
    if n < 10 then [DigitChar(n)] else NatToDecimal(n / 10) + [DigitChar(n % 10)]
  }

  /** `String(v)`. */
  function ParamString(v: Param): string {
    match v
    case PString(s) => s
    case PNumber(n) => if n < 0 then "-" + NatToDecimal(-n) else NatToDecimal(n)
    case PBool(b) => if b then "true" else "false"
    case PNull => "null"
  }

  /** `String(params?.[name] || '')`. */
  function Render(params: Option<map<string, Param>>, name: string): (r: string)
    ensures params.None? || name !in params.value || !Truthy(params.value[name]) ==> r == ""
    ensures params.Some? && name in params.value && Truthy(params.value[name]) ==> r == ParamString(params.value[name])
  {
    if params.Some? && name in params.value && Truthy(params.value[name]) then ParamString(params.value[name])
    else ""
  }

  /** Length of the run of ASCII letters and digits at position `i`. */
  function AlnumRun(s: string, i: nat): (n: nat)
    requires i <= |s|
    ensures i + n <= |s|
    ensures forall j :: i <= j < i + n ==> IsAsciiAlnum(s[j])
    ensures i + n < |s| ==> !IsAsciiAlnum(s[i + n])
    decreases |s| - i
  {
    if i < |s| && IsAsciiAlnum(s[i]) then 1 + AlnumRun(s, i + 1) else 0
  }

  /** A match of `/\{{([a-zA-Z0-9]+)\}}/` at the start of `s`: the name
      and the length of the match. */
  function PlaceholderAt(s: string): (r: Option<(string, nat)>)
    ensures r.Some? ==> 4 < r.value.1 <= |s| && s[..r.value.1] == "{{" + r.value.0 + "}}"
    ensures r.Some? ==> forall j :: 0 <= j < |r.value.0| ==> IsAsciiAlnum(r.value.0[j])
  {
    if |s| >= 2 && s[0] == '{' && s[1] == '{' then
      var n := AlnumRun(s, 2);
      if n > 0 && 2 + n + 2 <= |s| && s[2 + n] == '}' && s[3 + n] == '}' then
        assert s[..4 + n] == "{{" + s[2..2 + n] + "}}";
        Some((s[2..2 + n], 4 + n))
      else None
    else None
  }

  /** The global `replace`: scanning left to right, each placeholder is
      replaced by its rendered parameter and scanning resumes after it. */
  function Substitute(s: string, params: Option<map<string, Param>>): string
    decreases |s|
  {
    if |s| == 0 then ""
    else match PlaceholderAt(s)
      case Some((name, len)) => Render(params, name) + Substitute(s[len..], params)
      case None => [s[0]] + Substitute(s[1..], params)
  }

  /** A placeholder is replaced by its parameter. */
  lemma PlaceholderReplaced(name: string, rest: string, params: Option<map<string, Param>>)
    requires |name| > 0 && forall j :: 0 <= j < |name| ==> IsAsciiAlnum(name[j])
    ensures Substitute("{{" + name + "}}" + rest, params) == Render(params, name) + Substitute(rest, params)
  {
    var s := "{{" + name + "}}" + rest;
    assert s[2..2 + |name|] == name;
    assert forall j :: 2 <= j < 2 + |name| ==> s[j] == name[j - 2];
    var n := AlnumRun(s, 2);
    assert s[2 + |name|] == '}' && !IsAsciiAlnum('}');
    assert n == |name|;
    assert PlaceholderAt(s) == Some((name, 4 + |name|));
    assert s[4 + |name|..] == rest;
  }

  /** Text without an opening brace is copied as it is. */
  lemma {:induction false} TextWithoutBraceKept(pre: string, s: string, params: Option<map<string, Param>>)
    requires '{' !in pre
    ensures Substitute(pre + s, params) == pre + Substitute(s, params)
    decreases |pre|
  {
    if |pre| > 0 {
      var x := pre + s;
      assert x[0] == pre[0] && x[1..] == pre[1..] + s;
      assert pre == [pre[0]] + pre[1..];
      calc {
        Substitute(x, params);
        { CopyFirst(x, params); }
        [pre[0]] + Substitute(pre[1..] + s, params);
        { TextWithoutBraceKept(pre[1..], s, params); }
        [pre[0]] + (pre[1..] + Substitute(s, params));
        pre + Substitute(s, params);
      }
    } else {
      assert pre + s == s;
    }
  }

  /** A first character other than `{` is copied as it is. */
  lemma CopyFirst(x: string, params: Option<map<string, Param>>)
    requires |x| > 0 && x[0] != '{'
    ensures Substitute(x, params) == [x[0]] + Substitute(x[1..], params)
  {
    assert PlaceholderAt(x).None?;
  }

  /** A translation without braces comes back unchanged. */
  lemma NoPlaceholderUnchanged(s: string, params: Option<map<string, Param>>)
    requires forall j :: 0 <= j < |s| ==> s[j] != '{'
    ensures Substitute(s, params) == s
  {
    TextWithoutBraceKept(s, "", params);
    assert s + "" == s;
  }

  /** `t(key, params)`: the key itself when nothing is loaded or the key
      is missing or empty, else the translation with its placeholders
      substituted. */
  function T(st: State, key: string, params: Option<map<string, Param>>): (r: string)
    ensures |st.translations| == 0 ==> r == key
    ensures key !in st.translations || st.translations[key] == "" ==> r == key
    ensures |st.translations| != 0 && key in st.translations && st.translations[key] != "" ==>
              r == Substitute(st.translations[key], params)
  {
    if |st.translations| == 0 then key
    else if key in st.translations && st.translations[key] != "" then Substitute(st.translations[key], params)
    else key
  }

  /** A loaded translation with one placeholder between brace-free text,
      such as `Hello {{name}}!`, comes back with the parameter rendered in
      its place. */
  lemma OnePlaceholder(st: State, key: string, pre: string, name: string, post: string, params: Option<map<string, Param>>)
    requires key in st.translations && st.translations[key] == pre + "{{" + name + "}}" + post
    requires |name| > 0 && forall j :: 0 <= j < |name| ==> IsAsciiAlnum(name[j])
    requires forall j :: 0 <= j < |pre| ==> pre[j] != '{'
    requires forall j :: 0 <= j < |post| ==> post[j] != '{'
    ensures T(st, key, params) == pre + Render(params, name) + post
  {
    var tail := "{{" + name + "}}" + post;
    assert st.translations[key] == pre + tail;
    assert |st.translations| != 0 && st.translations[key] != "";
    calc {
      T(st, key, params);
      Substitute(pre + tail, params);
      { TextWithoutBraceKept(pre, tail, params); }
      pre + Substitute(tail, params);
      { PlaceholderReplaced(name, post, params); }
      pre + (Render(params, name) + Substitute(post, params));
      { NoPlaceholderUnchanged(post, params); }
      pre + Render(params, name) + post;
    }
  }
}
