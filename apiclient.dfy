/** The cookie reader and the request interceptor of forumClient/src/services/apiClient.ts. */
module ApiClient {

  import opened Base
  import opened Strings
  import opened Errors

  /** `decodeURIComponent`, left uninterpreted: `None` when it throws a URIError. */
  type Decoder = string -> Option<string>

  /** What every `decodeURIComponent` does: text without '%' comes back unchanged. */
  ghost predicate DecodesPlain(decode: Decoder)
  {
    forall s :: '%' !in s ==> decode(s) == Some(s)
  }

  const MalformedUri := "URI malformed"
  const CsrfCookieName := "csrf_token"
  const CsrfHeaderName := "X-CSRF-Token"

  /** The position of the first entry that starts with `prefix` (`Array.prototype.find`), or -1. */
  function FirstStartingWith(entries: seq<string>, prefix: string): (k: int)
    ensures -1 <= k < |entries|
    ensures k >= 0 ==> StartsWith(entries[k], prefix)
    ensures forall j :: 0 <= j < |entries| && (k < 0 || j < k) ==> !StartsWith(entries[j], prefix)
  {
    if |entries| == 0 then -1
    else if StartsWith(entries[0], prefix) then 0
    else
      var k := FirstStartingWith(entries[1..], prefix);
      assert forall j :: 1 <= j < |entries| ==> entries[j] == entries[1..][j - 1];
      if k < 0 then -1 else k + 1
  }

  /** The text of a cookie entry between its first '=' and the next one (or the end), which
      `split('=')[1]` reads; `None` when the entry has no '='. */
  function ValueText(entry: string): (v: Option<string>)
    ensures v.Some? <==> '=' in entry
    ensures v.Some? ==> '=' !in v.value
  {
    FindChar(entry, '=');
    var i := Find(entry, "=");
    if i < 0 then None
    else
      var rest := entry[i + 1..];
      FindChar(rest, '=');
      var j := Find(rest, "=");
      Some(if j >= 0 then rest[..j] else rest)
  }

  /** `getCookie(name)` on the text of `document.cookie`: the entries are split on "; " and the
      first one starting with `name=` is taken. No such entry gives `null` (`None`); otherwise
      its `ValueText` is decoded, and a failing decode throws the URIError. */
  function GetCookie(documentCookie: string, name: string, decode: Decoder): (r: Result<Option<string>>)
    ensures r.Err? ==> r.error == PlainError(MalformedUri)
    ensures FirstStartingWith(Split(documentCookie, "; "), name + "=") < 0 <==> r == Ok(None)
    ensures var entries := Split(documentCookie, "; ");
      var k := FirstStartingWith(entries, name + "=");
      k >= 0 ==> ValueText(entries[k]).Some? && r == Decoded(decode(ValueText(entries[k]).value))
  {
    var entries := Split(documentCookie, "; ");
    var k := FirstStartingWith(entries, name + "=");
    if k < 0 then Ok(None)
    else
      var entry := entries[k];
      assert entry[|name|] == '=';
      PartIsValueText(entry);
      Decoded(decode(Part(entry, "=", 1).value))
  }

  /** The outcome of `decodeURIComponent`: its text, or the URIError it throws. */
  function Decoded(d: Option<string>): (r: Result<Option<string>>)
    ensures r.Ok? <==> d.Some?
    ensures r.Ok? ==> r.value == d
    ensures r.Err? ==> r.error == PlainError(MalformedUri)
  {
    match d
    case None => Err(PlainError(MalformedUri))
    case Some(v) => Ok(Some(v))
  }

  /** `split('=')[1]` is the value text. */
  lemma PartIsValueText(entry: string)
    requires '=' in entry
    ensures Part(entry, "=", 1) == ValueText(entry)
  {
    SplitCharParts(entry, '=');
    var rest := entry[Find(entry, "=") + 1..];
    SplitCharParts(rest, '=');
  }

  /** The entry `name=v` followed by nothing or by a further '=': the value text is `v`. */
  lemma ValueTextOf(name: string, v: string, tail: string)
    requires '=' !in name && '=' !in v && (tail == "" || tail[0] == '=')
    ensures ValueText(name + "=" + v + tail) == Some(v)
  {
    var e := name + "=" + v + tail;
    assert e == name + ['='] + v + tail;
    FirstTwoPieces(name, v, tail, '=');
    PartIsValueText(e);
  }

  /** The jar read back: when the cookie texts hold no ';' and the first entry starting with
      `name=` is `name=v` (then nothing or a further '='), the result is `v` decoded, and a
      failing decode is the URIError. */
  lemma GetCookieDecodes(entries: seq<string>, k: nat, name: string, v: string, tail: string, decode: Decoder)
    requires k < |entries| && entries[k] == name + "=" + v + tail
    requires forall j :: 0 <= j < |entries| ==> ';' !in entries[j]
    requires forall j :: 0 <= j < k ==> !StartsWith(entries[j], name + "=")
    requires '=' !in name && '=' !in v && (tail == "" || tail[0] == '=')
    ensures GetCookie(Join(entries, "; "), name, decode) == Decoded(decode(v))
  {
    var s := Join(entries, "; ");
    SplitJoin(entries, "; ");
    FirstMatch(entries, k, name, v, tail);
    ValueTextOf(name, v, tail);
    GetCookieAt(s, entries, k, name, decode);
  }

  /** The result when the entries and the position of the first match are known. */
  lemma GetCookieAt(s: string, entries: seq<string>, k: nat, name: string, decode: Decoder)
    requires Split(s, "; ") == entries && k < |entries| && FirstStartingWith(entries, name + "=") == k
    ensures ValueText(entries[k]).Some?
    ensures GetCookie(s, name, decode) == Decoded(decode(ValueText(entries[k]).value))
  {
    var r := GetCookie(s, name, decode);
  }

  /** The entry `name=...` after entries that do not start with `name=` is the one found. */
  lemma FirstMatch(entries: seq<string>, k: nat, name: string, v: string, tail: string)
    requires k < |entries| && entries[k] == name + "=" + v + tail
    requires forall j :: 0 <= j < k ==> !StartsWith(entries[j], name + "=")
    ensures FirstStartingWith(entries, name + "=") == k
  {
    assert entries[k][..|name + "="|] == name + "=";
  }

  /** A value holding '=' is cut at the entry's second '=': `name=a=b` reads as `a`. */
  lemma GetCookieCutsAtSecondEquals(entries: seq<string>, k: nat, name: string, a: string, b: string,
                                    decode: Decoder)
    requires k < |entries| && entries[k] == name + "=" + a + "=" + b
    requires forall j :: 0 <= j < |entries| ==> ';' !in entries[j]
    requires forall j :: 0 <= j < k ==> !StartsWith(entries[j], name + "=")
    requires '=' !in name && '=' !in a
    requires decode(a).Some?
    ensures GetCookie(Join(entries, "; "), name, decode) == Ok(decode(a))
  {
    EqualsThen(name + "=" + a, b);
    GetCookieDecodes(entries, k, name, a, "=" + b, decode);
  }

  /** Regrouping a concatenation around an "=", proved on its own: in the context of the
      cookie lemmas the same step is far costlier. */
  lemma EqualsThen(x: string, y: string)
    ensures x + "=" + y == x + ("=" + y)
  {
  }

  /** With a `decodeURIComponent` that keeps text without '%', a plain `v` comes back as it
      is. */
  lemma GetCookieFinds(entries: seq<string>, k: nat, name: string, v: string, decode: Decoder)
    requires DecodesPlain(decode)
    requires k < |entries| && entries[k] == name + "=" + v
    requires forall j :: 0 <= j < |entries| ==> ';' !in entries[j]
    requires forall j :: 0 <= j < k ==> !StartsWith(entries[j], name + "=")
    requires '=' !in name && '=' !in v && '%' !in v
    ensures GetCookie(Join(entries, "; "), name, decode) == Ok(Some(v))
  {
    assert entries[k] == name + "=" + v + "";
    GetCookieDecodes(entries, k, name, v, "", decode);
    assert decode(v) == Some(v);
  }

  /** An empty `document.cookie`, or one with no entry for the name, reads as `null`. */
  lemma GetCookieAbsent(entries: seq<string>, name: string, decode: Decoder)
    requires |entries| >= 1
    requires forall j :: 0 <= j < |entries| ==> ';' !in entries[j] && !StartsWith(entries[j], name + "=")
    ensures GetCookie(Join(entries, "; "), name, decode) == Ok(None)
  {
    SplitJoin(entries, "; ");
  }

  /** Whether the interceptor sets the header for a cookie value and a request method:
      the token must be non-empty and the method present and not 'get' in any case. */
  predicate SendsToken(csrfToken: Option<string>, verb: Option<string>)
  {
    csrfToken.Some? && csrfToken.value != "" && verb.Some? && verb.value != ""
    && ToLower(verb.value) != "get"
  }

  /** The request configuration the interceptor receives and returns. */
  class RequestConfig {
    var verb: Option<string>
    var headers: map<string, string>

    constructor (verb: Option<string>, headers: map<string, string>)
      ensures this.verb == verb && this.headers == headers
    {
      this.verb := verb;
      this.headers := headers;
    }
  }

  /** The request interceptor: the cookie is read first, so a failing decode rejects every
      request, reads included; otherwise the header is set exactly when `SendsToken` holds and
      the same configuration object is returned. */
  method Intercept(config: RequestConfig, documentCookie: string, decode: Decoder)
    returns (r: Result<RequestConfig>)
    modifies config
    ensures config.verb == old(config.verb)
    ensures var c := GetCookie(documentCookie, CsrfCookieName, decode);
      && (c.Err? ==> r == Err(c.error) && config.headers == old(config.headers))
      && (c.Ok? ==> r == Ok(config))
      && (c.Ok? ==> config.headers == (if SendsToken(c.value, config.verb)
                                       then old(config.headers)[CsrfHeaderName := c.value.value]
                                       else old(config.headers)))
  {
    var cookie := GetCookie(documentCookie, CsrfCookieName, decode);
    if cookie.Err? {
      return Err(cookie.error);
    }
    var csrfToken := cookie.value;
    if SendsToken(csrfToken, config.verb) {
      config.headers := config.headers[CsrfHeaderName := csrfToken.value];
    }
    return Ok(config);
  }

  /** Reads never carry the header, whatever the case of the method name. */
  lemma GetNeverSends(csrfToken: Option<string>)
    ensures !SendsToken(csrfToken, Some("get"))
    ensures !SendsToken(csrfToken, Some("GET"))
    ensures !SendsToken(csrfToken, Some("Get"))
  {
    assert ToLower("GET") == "get";
    assert ToLower("Get") == "get";
  }

  /** A present token is sent with every other method. */
  lemma PostSends(t: string)
    requires t != ""
    ensures SendsToken(Some(t), Some("post")) && SendsToken(Some(t), Some("DELETE"))
  {
    assert ToLower("post") == "post";
    assert ToLower("DELETE") == "delete";
  }
}
