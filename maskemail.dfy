/** `maskEmail` of forumApi/utils/maskEmail.js, the server's masker used for public profiles. */
module ServerMaskEmail {

  import opened Base
  import opened Strings
  import opened Errors

  /** The message of the RangeError `'*'.repeat(-1)` throws. */
  const RepeatRangeError := "Invalid count value: -1"

  function Max(a: int, b: int): int { if a >= b then a else b }

  /** The masking of the local part. An empty local part makes the short branch call
      `'*'.repeat(-1)`, which throws. */
  function MaskLocal(local: string): (r: Result<string>)
    ensures r.Err? <==> local == ""
    ensures r.Err? ==> r.error == PlainError(RepeatRangeError)
  {
    if |local| <= 2 then
      if |local| == 0 then Err(PlainError(RepeatRangeError))
      else Ok([local[0]] + Repeat('*', |local| - 1))
    else
      Ok(local[..2] + Repeat('*', Max(1, |local| - 4)) + local[|local| - 2..])
  }

  /** What the masked local part shows: a short one keeps only its first character and its
      length; a longer one keeps its first two and last two characters around at least one
      asterisk, so its length is kept from 5 characters on and is 5 for 3 or 4. */
  lemma MaskLocalShape(local: string)
    requires local != ""
    ensures var m := MaskLocal(local).value;
      && m[0] == local[0]
      && (|local| <= 2 ==> |m| == |local| && forall i :: 1 <= i < |m| ==> m[i] == '*')
      && (|local| > 2 ==> |m| == (if |local| >= 5 then |local| else 5))
      && (|local| > 2 ==> m[..2] == local[..2] && m[|m| - 2..] == local[|local| - 2..])
      && (|local| > 2 ==> forall i :: 2 <= i < |m| - 2 ==> m[i] == '*')
  {
  }

  /** `maskEmail(email)`. A falsy value, a non-string or a string without '@' comes back as it
      is. Otherwise the string is split on '@': the result is the masked first piece, '@', and
      the second piece only. */
  function MaskEmail(email: Value): (r: Result<Value>)
    ensures !(email.Str? && email.s != "" && '@' in email.s) ==> r == Ok(email)
    ensures email.Str? && '@' in email.s ==>
      var s := email.s;
      var at := Find(s, "@");
      var domain := Part(s[at + 1..], "@", 0).value;
      (at == 0 ==> r == Err(PlainError(RepeatRangeError)))
      && (at > 0 ==> r == Ok(Str(MaskLocal(s[..at]).value + "@" + domain)))
  {
    if !Truthy(email) || !email.Str? || '@' !in email.s then Ok(email)
    else
      var s := email.s;
      SplitCharParts(s, '@');
      FindChar(s, '@');
      var localPart := Part(s, "@", 0).value;
      var domainPart := Part(s, "@", 1).value;
      match MaskLocal(localPart)
      case Err(e) => Err(e)
      case Ok(masked) => Ok(Str(masked + "@" + domainPart))
  }

  /** With exactly one '@' the domain is copied verbatim after the masked local part. */
  lemma SingleAtKeepsDomain(local: string, domain: string)
    requires local != "" && '@' !in local && '@' !in domain
    ensures MaskEmail(Str(local + "@" + domain)) == Ok(Str(MaskLocal(local).value + "@" + domain))
  {
    var s := local + "@" + domain;
    assert s == Join([local, domain], "@");
    SplitJoin([local, domain], "@");
    assert '@' in s by { assert s[|local|] == '@'; }
  }

  /** Every piece after the second '@' is dropped: 'ab@c@d' masks like 'ab@c'. */
  lemma LaterPiecesDropped(local: string, domain: string, later: string)
    requires local != "" && '@' !in local && '@' !in domain && '@' !in later
    ensures MaskEmail(Str(local + "@" + domain + "@" + later))
         == MaskEmail(Str(local + "@" + domain))
  {
    var s := local + "@" + domain + "@" + later;
    assert [local, domain, later][1..] == [domain, later];
    assert Join([domain, later], "@") == domain + "@" + later;
    assert s == Join([local, domain, later], "@");
    SplitJoin([local, domain, later], "@");
    assert '@' in s by { assert s[|local|] == '@'; }
    SingleAtKeepsDomain(local, domain);
  }

  /** An address that starts with '@' makes the masker throw. */
  lemma EmptyLocalThrows(rest: string)
    ensures MaskEmail(Str("@" + rest)) == Err(PlainError(RepeatRangeError))
  {
    var s := "@" + rest;
    FindChar(s, '@');
    assert s[0] == '@';
    SplitCharParts(s, '@');
  }
}

/** `maskEmail` of forumClient/src/composables/useMaskEmail.ts, the client's masker. */
module ClientMaskEmail {

  import opened Base
  import opened Strings

  /** `maskEmail(email)`: a falsy or non-string value gives ''; with no '@' or an '@' at index
      0 or 1 the input comes back; otherwise everything before the first '@' is masked. */
  function MaskEmail(email: Value): (r: Value)
    ensures !(email.Str? && email.s != "") ==> r == Str("")
    ensures email.Str? && email.s != "" && Find(email.s, "@") <= 1 ==> r == email
    ensures r.Str?
  {
    if !Truthy(email) || !email.Str? then Str("")
    else
      var s := email.s;
      var at := Find(s, "@");
      if at <= 1 then email
      else
        var local := s[..at];
        var domain := s[at..];
        var masked := if |local| > 2 then local[..2] + Repeat('*', |local| - 2) else Repeat('*', |local|);
        Str(masked + domain)
  }

  /** When masking happens, the length is kept, everything from the first '@' on (later '@'
      included) is kept verbatim, a local part of two becomes "**", and a longer one keeps
      its first two characters and turns the rest into asterisks. */
  lemma MaskShape(s: string)
    requires Find(s, "@") > 1
    ensures var at := Find(s, "@");
      var m := MaskEmail(Str(s)).s;
      && |m| == |s|
      && m[at..] == s[at..]
      && (at == 2 ==> m[..at] == "**")
      && (at > 2 ==> m[..2] == s[..2])
      && (forall i :: (if at > 2 then 2 else 0) <= i < at ==> m[i] == '*')
  {
    var at := Find(s, "@");
    var m := MaskEmail(Str(s)).s;
    assert s != "";
    var local := s[..at];
    if at > 2 {
      assert local[..2] == s[..2];
      assert m == local[..2] + Repeat('*', at - 2) + s[at..];
      StarsBetween(s[..2], at - 2, s[at..]);
    } else {
      assert m == Repeat('*', at) + s[at..];
      assert [] + Repeat('*', at) + s[at..] == m;
      assert Repeat('*', 2) == "**";
      StarsBetween([], at, s[at..]);
    }
  }

  /** A kept prefix, `n` asterisks, and a kept tail. */
  lemma StarsBetween(prefix: string, n: nat, rest: string)
    ensures var m := prefix + Repeat('*', n) + rest;
      && |m| == |prefix| + n + |rest|
      && m[..|prefix|] == prefix
      && m[|prefix| + n..] == rest
      && forall i :: |prefix| <= i < |prefix| + n ==> m[i] == '*'
  {
    var m := prefix + Repeat('*', n) + rest;
    forall i | |prefix| <= i < |prefix| + n ensures m[i] == '*' {
      assert m[i] == Repeat('*', n)[i - |prefix|];
    }
  }

  /** Masking leaves the position of the first '@' where it was. */
  lemma MaskKeepsFirstAt(s: string)
    requires Find(s, "@") > 1
    ensures Find(MaskEmail(Str(s)).s, "@") == Find(s, "@")
  {
    var at := Find(s, "@");
    var m := MaskEmail(Str(s)).s;
    MaskShape(s);
    FindChar(s, '@');
    assert m == m[..at] + "@" + m[at + 1..] by {
      assert m[at] == s[at];
    }
    assert '@' !in m[..at];
    FindAfterPiece(m[..at], "@", m[at + 1..]);
  }
}
