/**
 * `get_config_cookie` (flaskr/functions.py): the user-preferences cookie
 * holds `base64(utf8("<perPage>,<sortOption>"))`. A cookie that decodes to
 * a per-page count and a sorting option from the configured lists is used;
 * anything else falls back to the configured defaults. The answer always
 * carries the re-encoded cookie and an expiry ten years after `now`.
 */
module Preferences {
  import opened Wrappers
  import opened Text
  import Bytes
  import Base64
  import Utf8

  datatype Prefs = Prefs(perPage: int, sortOption: string)

  /** The dictionary `get_config_cookie` returns; `expires` is in seconds on the clock `now` reads. */
  datatype ConfigCookie = ConfigCookie(cookie: string, expires: int, perPage: int, sortOption: string)

  /** `datetime.timedelta(days=365*10)`, in seconds. */
  const TenYears: int := 365 * 10 * 24 * 60 * 60

  /**
   * The preferences in the decoded text: its first two comma-separated
   * fields, the first read by `int`, both checked against the option lists.
   */
  function ParsePrefsText(text: string, perPageOptions: seq<int>, sortValues: seq<string>): (r: Option<Prefs>)
    ensures r.Some? ==> r.value.perPage in perPageOptions && r.value.sortOption in sortValues
    ensures r.Some? ==> ',' !in r.value.sortOption
  {
    var fields := Split(text, ',');
    SplitPiecesLackSep(text, ',');
    if |fields| < 2 then None
    else
      match ParseInt(fields[0])
      case None => None
      case Some(n) =>
        if n in perPageOptions && fields[1] in sortValues then Some(Prefs(n, fields[1])) else None
  }

  /** The preferences a cookie holds, or None where the source's `try` block raises. */
  function DecodePrefs(cookie: Option<string>, perPageOptions: seq<int>, sortValues: seq<string>): Option<Prefs> {
    match cookie
    case None => None
    case Some(c) =>
      match Base64.Decode(c)
      case None => None
      case Some(octets) =>
        match Utf8.Decode(octets)
        case None => None
        case Some(text) => ParsePrefsText(text, perPageOptions, sortValues)
  }

  /** The text the cookie holds: `','.join(str(x) for x in user_config)`. */
  function PrefsText(p: Prefs): string {
    IntToString(p.perPage) + "," + p.sortOption
  }

  /** The cookie value written back: the Base64 of the text's UTF-8. */
  function EncodePrefs(p: Prefs): string {
    Base64.Encode(Utf8.Encode(PrefsText(p)))
  }

  /** `get_config_cookie`; `cookie` is None when the request carries no preferences cookie. */
  function GetConfigCookie(
    cookie: Option<string>, perPageOptions: seq<int>, sortValues: seq<string>, defaults: Prefs, now: int)
    : (r: ConfigCookie)
    ensures var decoded := DecodePrefs(cookie, perPageOptions, sortValues);
      Prefs(r.perPage, r.sortOption) == (if decoded.Some? then decoded.value else defaults)
    ensures r.cookie == EncodePrefs(Prefs(r.perPage, r.sortOption))
    ensures r.expires == now + TenYears
  {
    var p := match DecodePrefs(cookie, perPageOptions, sortValues) case Some(q) => q case None => defaults;
    ConfigCookie(EncodePrefs(p), now + TenYears, p.perPage, p.sortOption)
  }

  /** The written text splits back into the count and the option. */
  lemma SplitPrefsText(p: Prefs)
    requires ',' !in p.sortOption
    ensures Split(PrefsText(p), ',') == [IntToString(p.perPage), p.sortOption]
  {
    var n := IntToString(p.perPage);
    if ',' in n {
      IntToStringChars(p.perPage, ',');
    }
    SplitAtFirst(n, ',', p.sortOption);
    SplitNoSep(p.sortOption, ',');
    assert PrefsText(p) == n + [','] + p.sortOption;
  }

  /**
   * Round trip: the cookie written for a count and an option from the lists
   * reads back as the same preferences, provided the option has no comma;
   * one outside the lists reads back as a failure.
   */
  lemma DecodeEncodePrefs(p: Prefs, perPageOptions: seq<int>, sortValues: seq<string>)
    requires ',' !in p.sortOption
    ensures DecodePrefs(Some(EncodePrefs(p)), perPageOptions, sortValues) ==
      if p.perPage in perPageOptions && p.sortOption in sortValues then Some(p) else None
  {
    Base64.DecodeEncode(Utf8.Encode(PrefsText(p)));
    Utf8.DecodeEncode(PrefsText(p));
    SplitPrefsText(p);
    ParseIntOfIntToString(p.perPage);
  }

  /**
   * Fixpoint: sending back the cookie the function wrote gives the same
   * preferences and the same cookie, whatever cookie came first, provided the
   * default sorting option has no comma.
   */
  lemma GetConfigCookieFixpoint(
    cookie: Option<string>, perPageOptions: seq<int>, sortValues: seq<string>, defaults: Prefs,
    now: int, later: int)
    requires ',' !in defaults.sortOption
    ensures var r := GetConfigCookie(cookie, perPageOptions, sortValues, defaults, now);
      var r2 := GetConfigCookie(Some(r.cookie), perPageOptions, sortValues, defaults, later);
      r2.perPage == r.perPage && r2.sortOption == r.sortOption && r2.cookie == r.cookie
  {
    var r := GetConfigCookie(cookie, perPageOptions, sortValues, defaults, now);
    var p := Prefs(r.perPage, r.sortOption);
    DecodeEncodePrefs(p, perPageOptions, sortValues);
  }

  /**
   * Two comma-free fields: the text reads as the count and the option
   * exactly when the first field is an integer in the count list and the
   * second is in the option list.
   */
  lemma ParseTwoFields(a: string, b: string, perPageOptions: seq<int>, sortValues: seq<string>)
    requires ',' !in a && ',' !in b
    ensures ParsePrefsText(a + "," + b, perPageOptions, sortValues) ==
      if ParseInt(a).Some? && ParseInt(a).value in perPageOptions && b in sortValues
      then Some(Prefs(ParseInt(a).value, b)) else None
  {
    SplitAtFirst(a, ',', b);
    SplitNoSep(b, ',');
    assert a + "," + b == a + [','] + b;
  }

  /** Fields after the second one are ignored. */
  lemma ExtraFieldsIgnored(a: string, b: string, extra: string, perPageOptions: seq<int>, sortValues: seq<string>)
    requires ',' !in a && ',' !in b
    ensures ParsePrefsText(a + "," + b + "," + extra, perPageOptions, sortValues) ==
            ParsePrefsText(a + "," + b, perPageOptions, sortValues)
  {
    SplitAtFirst(a, ',', b + "," + extra);
    SplitAtFirst(b, ',', extra);
    SplitAtFirst(a, ',', b);
    SplitNoSep(b, ',');
    assert a + "," + b + "," + extra == a + [','] + (b + [','] + extra);
    assert a + "," + b == a + [','] + b;
  }

  /** A well-encoded cookie whose text has fewer than two fields gives the defaults. */
  lemma SingleFieldGivesDefaults(
    text: string, perPageOptions: seq<int>, sortValues: seq<string>, defaults: Prefs, now: int)
    requires ',' !in text
    ensures var r := GetConfigCookie(Some(Base64.Encode(Utf8.Encode(text))), perPageOptions, sortValues, defaults, now);
      r.perPage == defaults.perPage && r.sortOption == defaults.sortOption
  {
    Base64.DecodeEncode(Utf8.Encode(text));
    Utf8.DecodeEncode(text);
    SplitNoSep(text, ',');
  }
}
