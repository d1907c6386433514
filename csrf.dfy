/** The CSRF token issuer and verifier of forumApi/features/auth/utils/csrf.js. */
module Csrf {

  import opened Base
  import opened Strings

  /** An HMAC-SHA256 digest: 32 bytes. */
  type Digest = d: seq<byte> | |d| == 32 witness seq(32, _ => 0 as byte)

  /** HMAC-SHA256 keyed with the server's CSRF secret, left uninterpreted: any deterministic
      function from the message to a digest. */
  type Hmac = string -> Digest

  /** `createHmac('sha256', CSRF_SECRET).update(m).digest('hex')`. */
  function Signature(hmac: Hmac, m: string): (sig: string)
    ensures |sig| == 64 && IsHex(sig) && '.' !in sig
  {
    HexHasNo(ToHex(hmac(m)), '.');
    ToHex(hmac(m))
  }

  /** What `generateCsrfToken` returns: the raw token and its signed form. */
  datatype CsrfToken = CsrfToken(token: string, signed: string)

  /** `generateCsrfToken()`, with the 32 bytes of `crypto.randomBytes(32)` as input. */
  function GenerateCsrfToken(hmac: Hmac, random: seq<byte>): (g: CsrfToken)
    requires |random| == 32
    ensures |g.token| == 64 && IsHex(g.token) && '.' !in g.token
    ensures g.signed == g.token + "." + Signature(hmac, g.token)
    ensures '.' in g.signed
  {
    var token := ToHex(random);
    HexHasNo(token, '.');
    var signed := token + "." + Signature(hmac, token);
    assert signed[64] == '.';
    CsrfToken(token, signed)
  }

  /** `verifyCsrfToken(headerToken, cookieToken)`; `None` is `undefined`. The cookie is split on
      '.' and only its first two pieces are read. */
  function VerifyCsrfToken(hmac: Hmac, headerToken: Option<string>, cookieToken: Option<string>): (ok: bool)
    ensures headerToken.None? || headerToken == Some("") ==> !ok
    ensures cookieToken.None? || cookieToken == Some("") ==> !ok
    ensures cookieToken.Some? ==>
      (Part(cookieToken.value, ".", 0) == Some("") || Part(cookieToken.value, ".", 1).None?
       || Part(cookieToken.value, ".", 1) == Some("")) ==> !ok
  {
    if headerToken.None? || headerToken.value == "" || cookieToken.None? || cookieToken.value == "" then false
    else
      var cookieTokenValue := Part(cookieToken.value, ".", 0).value;
      var signature := Part(cookieToken.value, ".", 1);
      if cookieTokenValue == "" || signature.None? || signature.value == "" then false
      else headerToken.value == cookieTokenValue && signature.value == Signature(hmac, cookieTokenValue)
  }

  /** Any cookie text with a second piece is its first piece, '.', its second piece, and a tail
      that is empty or starts with '.'. */
  lemma CookieDecompose(c: string)
    requires Part(c, ".", 1).Some?
    ensures var raw := Part(c, ".", 0).value;
      var sig := Part(c, ".", 1).value;
      && '.' !in raw && '.' !in sig
      && StartsWith(c, raw + "." + sig)
      && (|c| == |raw + "." + sig| || c[|raw + "." + sig|] == '.')
  {
    SplitCharParts(c, '.');
    FindChar(c, '.');
    var i := Find(c, ".");
    var rest := c[i + 1..];
    SplitCharParts(rest, '.');
    FindChar(rest, '.');
    var j := Find(rest, ".");
    var sig := if j >= 0 then rest[..j] else rest;
    DotPrefix(c, i, sig);
  }

  /** Splitting step of `CookieDecompose`: with '.' at `i`, a prefix `sig` of what follows it
      gives a prefix of `c` too. */
  lemma DotPrefix(c: string, i: int, sig: string)
    requires 0 <= i < |c| && c[i] == '.'
    requires StartsWith(c[i + 1..], sig)
    ensures StartsWith(c, c[..i] + "." + sig)
  {
    assert c[..i + 1 + |sig|] == c[..i] + "." + sig;
  }

  /** The verifier accepts exactly a non-empty, dot-free header `h` with a cookie that begins
      with `h`, '.', the signature of `h`, and then ends or goes on with '.'. */
  lemma VerifyCharacterized(hmac: Hmac, header: Option<string>, cookie: Option<string>)
    ensures VerifyCsrfToken(hmac, header, cookie) <==>
      header.Some? && cookie.Some? &&
      var h := header.value;
      var full := h + "." + Signature(hmac, h);
      && h != "" && '.' !in h
      && StartsWith(cookie.value, full)
      && (|cookie.value| == |full| || cookie.value[|full|] == '.')
  {
    if header.Some? && cookie.Some? {
      var h := header.value;
      var c := cookie.value;
      var sig := Signature(hmac, h);
      var full := h + "." + sig;
      if VerifyCsrfToken(hmac, header, cookie) {
        CookieDecompose(c);
      }
      if h != "" && '.' !in h && StartsWith(c, full) && (|c| == |full| || c[|full|] == '.') {
        var tail := c[|full|..];
        assert c == h + "." + sig + tail;
        FirstTwoPieces(h, sig, tail, '.');
      }
    }
  }

  /** Round trip: the raw token verifies against its own signed form. */
  lemma GeneratedTokenVerifies(hmac: Hmac, random: seq<byte>)
    requires |random| == 32
    ensures var g := GenerateCsrfToken(hmac, random);
      VerifyCsrfToken(hmac, Some(g.token), Some(g.signed))
  {
    var g := GenerateCsrfToken(hmac, random);
    VerifyCharacterized(hmac, Some(g.token), Some(g.signed));
  }

  /** Pieces after the second one are ignored: "raw.sig.extra" verifies exactly like "raw.sig". */
  lemma ExtraPiecesIgnored(hmac: Hmac, header: Option<string>, raw: string, sig: string, extra: string)
    requires '.' !in raw && '.' !in sig
    ensures VerifyCsrfToken(hmac, header, Some(raw + "." + sig + "." + extra))
         == VerifyCsrfToken(hmac, header, Some(raw + "." + sig))
  {
    assert raw + "." + sig + "." + extra == raw + "." + sig + ("." + extra);
    FirstTwoPieces(raw, sig, "." + extra, '.');
    assert raw + "." + sig == raw + "." + sig + "";
    FirstTwoPieces(raw, sig, "", '.');
  }

  /** Echoing the signed form in the header always fails: it holds a '.', the raw part cannot. */
  lemma SignedHeaderRejected(hmac: Hmac, random: seq<byte>, cookie: Option<string>)
    requires |random| == 32
    ensures !VerifyCsrfToken(hmac, Some(GenerateCsrfToken(hmac, random).signed), cookie)
  {
    VerifyCharacterized(hmac, Some(GenerateCsrfToken(hmac, random).signed), cookie);
  }
}

/** The route-level CSRF check of forumApi/middleware/csrf.middleware.js. */
module CsrfMiddleware {

  import opened Base

  const InvalidMessage := "Token CSRF invalide ou manquant."

  /** Either `next()` is called, or a response is sent and `next` is not called. */
  datatype Outcome = Next | Reject(status: int, message: string)

  /** The cookie the middleware reads: `req.cookies.csrf_token || req.signedCookies.csrf_token`. */
  function CsrfCookie(cookie: Value, signedCookie: Value): Value
  {
    Or(cookie, signedCookie)
  }

  /** `csrfMiddleware`: a plain equality test of cookie and header, with no HMAC check. */
  function Check(cookie: Value, signedCookie: Value, header: Value): (d: Outcome)
    ensures d.Next? <==> Truthy(CsrfCookie(cookie, signedCookie)) && Truthy(header)
                         && CsrfCookie(cookie, signedCookie) == header
    ensures d.Reject? ==> d == Reject(403, InvalidMessage)
  {
    var csrfCookie := CsrfCookie(cookie, signedCookie);
    if !Truthy(csrfCookie) || !Truthy(header) || csrfCookie != header then Reject(403, InvalidMessage)
    else Next
  }

  /** Any equal, non-empty cookie and header pass, whatever they hold. */
  lemma EqualPairPasses(s: string, signedCookie: Value)
    requires s != ""
    ensures Check(Str(s), signedCookie, Str(s)) == Next
  {
  }

  /** A missing header, or a missing cookie on both sides, is refused. */
  lemma MissingRejected(cookie: Value, signedCookie: Value, header: Value)
    requires !Truthy(header) || (!Truthy(cookie) && !Truthy(signedCookie))
    ensures Check(cookie, signedCookie, header) == Reject(403, InvalidMessage)
  {
  }

  /** A present unsigned cookie hides the signed one. */
  lemma UnsignedFirst(cookie: Value, signed1: Value, signed2: Value, header: Value)
    requires Truthy(cookie)
    ensures Check(cookie, signed1, header) == Check(cookie, signed2, header)
  {
  }
}
