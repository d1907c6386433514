/** The double-submit round trip across files: login stores the signed CSRF token in the
    `csrf_token` cookie (forumApi/features/auth/auth.service.js), the client copies that
    cookie into `X-CSRF-Token` (forumClient/src/services/apiClient.ts), and the route
    middleware compares the two (forumApi/middleware/csrf.middleware.js), while the verifier
    of forumApi/features/auth/utils/csrf.js expects the raw token in the header. */
module CsrfFlow {

  import opened Base
  import opened Strings
  import opened Errors
  import Csrf
  import CsrfMiddleware
  import ApiClient

  /** The signed token holds no '=', ';' or '%', so it travels through the cookie jar and
      `decodeURIComponent` unchanged (`encodeURIComponent`, applied when the cookie is set,
      leaves hex digits and '.' as they are). */
  lemma SignedIsPlain(hmac: Csrf.Hmac, random: seq<byte>)
    requires |random| == 32
    ensures var s := Csrf.GenerateCsrfToken(hmac, random).signed;
      '=' !in s && ';' !in s && '%' !in s && s != ""
  {
    var g := Csrf.GenerateCsrfToken(hmac, random);
    var sig := Csrf.Signature(hmac, g.token);
    HexHasNo(g.token, '='); HexHasNo(g.token, ';'); HexHasNo(g.token, '%');
    HexHasNo(sig, '='); HexHasNo(sig, ';'); HexHasNo(sig, '%');
    assert g.signed == g.token + "." + sig;
  }

  /** In a browser whose cookie jar holds the login's `csrf_token` (other cookies hold no ';'
      and no earlier one is named `csrf_token`), every state-changing request carries the
      signed token as its header; the route middleware accepts that pair, the verifier
      rejects it, and the pair the verifier accepts (the raw token as header) the middleware
      rejects. */
  lemma DoubleSubmitDisagrees(hmac: Csrf.Hmac, random: seq<byte>, before: seq<string>, after: seq<string>,
                              decode: ApiClient.Decoder, verb: string, signedCookie: Value)
    requires |random| == 32
    requires ApiClient.DecodesPlain(decode)
    requires forall k :: 0 <= k < |before| ==> ';' !in before[k] && !StartsWith(before[k], "csrf_token=")
    requires forall k :: 0 <= k < |after| ==> ';' !in after[k]
    requires verb != "" && ToLower(verb) != "get"
    ensures var g := Csrf.GenerateCsrfToken(hmac, random);
      var jar := Join(before + ["csrf_token=" + g.signed] + after, "; ");
      && ApiClient.GetCookie(jar, ApiClient.CsrfCookieName, decode) == Ok(Some(g.signed))
      && ApiClient.SendsToken(Some(g.signed), Some(verb))
      && CsrfMiddleware.Check(Str(g.signed), signedCookie, Str(g.signed)) == CsrfMiddleware.Next
      && !Csrf.VerifyCsrfToken(hmac, Some(g.signed), Some(g.signed))
      && Csrf.VerifyCsrfToken(hmac, Some(g.token), Some(g.signed))
      && CsrfMiddleware.Check(Str(g.signed), signedCookie, Str(g.token)).Reject?
  {
    var g := Csrf.GenerateCsrfToken(hmac, random);
    SignedIsPlain(hmac, random);
    JarReads(g.signed, before, after, decode);
    assert ApiClient.SendsToken(Some(g.signed), Some(verb));
    CsrfMiddleware.EqualPairPasses(g.signed, signedCookie);
    Csrf.SignedHeaderRejected(hmac, random, Some(g.signed));
    Csrf.GeneratedTokenVerifies(hmac, random);
    assert |g.token| < |g.signed|;
  }

  /** The client reads a plain `csrf_token` value back from such a jar. */
  lemma JarReads(v: string, before: seq<string>, after: seq<string>, decode: ApiClient.Decoder)
    requires '=' !in v && ';' !in v && '%' !in v
    requires ApiClient.DecodesPlain(decode)
    requires forall k :: 0 <= k < |before| ==> ';' !in before[k] && !StartsWith(before[k], "csrf_token=")
    requires forall k :: 0 <= k < |after| ==> ';' !in after[k]
    ensures ApiClient.GetCookie(Join(before + ["csrf_token=" + v] + after, "; "), ApiClient.CsrfCookieName, decode)
         == Ok(Some(v))
  {
    var name := ApiClient.CsrfCookieName;
    assert name + "=" == "csrf_token=";
    var entry := name + "=" + v;
    assert ';' !in name + "=";
    assert ';' !in entry;
    var entries := before + [entry] + after;
    assert entries == before + ["csrf_token=" + v] + after;
    forall k | 0 <= k < |entries| ensures ';' !in entries[k] {
      if k < |before| {
        assert entries[k] == before[k];
      } else if k > |before| {
        assert entries[k] == after[k - |before| - 1];
      }
    }
    forall k | 0 <= k < |before| ensures !StartsWith(entries[k], name + "=") {
      assert entries[k] == before[k];
    }
    NamePlain();
    ApiClient.GetCookieFinds(entries, |before|, name, v, decode);
  }

  /** The cookie name holds no '=' and no ';'. */
  lemma NamePlain()
    ensures '=' !in ApiClient.CsrfCookieName && ';' !in ApiClient.CsrfCookieName
  {
    var n := ApiClient.CsrfCookieName;
    assert n == ['c', 's', 'r', 'f', '_', 't', 'o', 'k', 'e', 'n'];
  }
}
