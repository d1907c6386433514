/** The JavaScript string operations the forum's code relies on, written out:
    `indexOf`, `split`, `startsWith`, `repeat`, `trim`, `toLowerCase`, `parseInt` and
    hexadecimal encoding of bytes. */
module Strings {

  import opened Base

  newtype byte = b: int | 0 <= b < 256

  // ---------------------------------------------------------------- searching

  /** `sep` occurs in `s` starting at index `j`. */
  predicate OccursAt(s: string, sep: string, j: int)
  {
    0 <= j && j + |sep| <= |s| && s[j..j + |sep|] == sep
  }

  lemma OccursAtTail(s: string, sep: string, j: int)
    requires |s| > 0 && 0 <= j
    ensures OccursAt(s, sep, j + 1) <==> OccursAt(s[1..], sep, j)
  {
    if j + 1 + |sep| <= |s| {
      assert s[j + 1..j + 1 + |sep|] == s[1..][j..j + |sep|];
    }
  }

  /** `s.indexOf(sep)`: the first index at which `sep` occurs, or -1. */
  function Find(s: string, sep: string): (i: int)
    requires |sep| > 0
    ensures -1 <= i <= |s| - |sep| || i == -1
    ensures i >= 0 ==> OccursAt(s, sep, i)
    ensures forall j :: 0 <= j && (i < 0 || j < i) ==> !OccursAt(s, sep, j)
    decreases |s|
  {
    if |s| < |sep| then -1
    else if s[..|sep|] == sep then 0
    else
      var k := Find(s[1..], sep);
      FindStep(s, sep, k);
      if k < 0 then -1 else k + 1
  }

  /** The step of `Find`: the first occurrence in `s`, when it is not at 0, is one past the first
      occurrence in `s[1..]`. */
  lemma FindStep(s: string, sep: string, k: int)
    requires |sep| > 0 && |s| >= |sep| && !OccursAt(s, sep, 0)
    requires -1 <= k <= |s| - 1 - |sep| || k == -1
    requires k >= 0 ==> OccursAt(s[1..], sep, k)
    requires forall j :: 0 <= j && (k < 0 || j < k) ==> !OccursAt(s[1..], sep, j)
    ensures var i := if k < 0 then -1 else k + 1;
      && (i >= 0 ==> OccursAt(s, sep, i))
      && forall j :: 0 <= j && (i < 0 || j < i) ==> !OccursAt(s, sep, j)
  {
    if k >= 0 {
      OccursAtTail(s, sep, k);
    }
    forall j | 0 < j && (k < 0 || j < k + 1) ensures !OccursAt(s, sep, j) {
      OccursAtTail(s, sep, j - 1);
    }
  }

  /** For a one-character separator, `Find` is the index of the first occurrence of that character. */
  lemma FindChar(s: string, c: char)
    ensures Find(s, [c]) >= 0 <==> c in s
    ensures Find(s, [c]) >= 0 ==> Find(s, [c]) < |s| && s[Find(s, [c])] == c && c !in s[..Find(s, [c])]
  {
    var i := Find(s, [c]);
    forall j | 0 <= j < |s| ensures OccursAt(s, [c], j) <==> s[j] == c {
      assert s[j..j + 1] == [s[j]];
    }
    if c in s {
      var j :| 0 <= j < |s| && s[j] == c;
      assert OccursAt(s, [c], j);
    }
    if i >= 0 {
      assert OccursAt(s, [c], i);
      forall j | 0 <= j < i ensures s[..i][j] != c {
        assert !OccursAt(s, [c], j);
      }
    }
  }

  lemma OccursAtHead(s: string, sep: string, j: int)
    requires |sep| > 0
    ensures OccursAt(s, sep, j) ==> j < |s| && s[j] == sep[0]
  {
    if OccursAt(s, sep, j) {
      assert s[j..j + |sep|][0] == s[j];
    }
  }

  /** No occurrence of `sep` starts inside `p` when `p` lacks the separator's first character. */
  lemma FindAfterPiece(p: string, sep: string, rest: string)
    requires |sep| > 0 && sep[0] !in p
    ensures Find(p + sep + rest, sep) == |p|
  {
    var s := p + sep + rest;
    assert s[|p|..|p| + |sep|] == sep;
    assert OccursAt(s, sep, |p|);
    forall j | 0 <= j < |p| ensures !OccursAt(s, sep, j) {
      assert s[j] == p[j];
      OccursAtHead(s, sep, j);
    }
  }

  lemma FindAbsent(s: string, sep: string)
    requires |sep| > 0 && sep[0] !in s
    ensures Find(s, sep) == -1
  {
    forall j | 0 <= j ensures !OccursAt(s, sep, j) {
      OccursAtHead(s, sep, j);
    }
  }

  // ---------------------------------------------------------------- split and join

  /** `s.split(sep)` for a non-empty separator: the pieces between the occurrences of `sep`. */
  function Split(s: string, sep: string): (parts: seq<string>)
    requires |sep| > 0
    ensures |parts| >= 1
    decreases |s|
  {
    var i := Find(s, sep);
    if i < 0 then [s] else [s[..i]] + Split(s[i + |sep|..], sep)
  }

  /** `parts.join(sep)`. */
  function Join(parts: seq<string>, sep: string): (s: string)
  {
    if |parts| == 0 then ""
    else if |parts| == 1 then parts[0]
    else parts[0] + sep + Join(parts[1..], sep)
  }

  /** Splitting undoes joining when no piece holds the separator's first character. */
  lemma {:induction false} SplitJoin(parts: seq<string>, sep: string)
    requires |parts| >= 1 && |sep| > 0
    requires forall k :: 0 <= k < |parts| ==> sep[0] !in parts[k]
    ensures Split(Join(parts, sep), sep) == parts
    decreases |parts|
  {
    if |parts| == 1 {
      FindAbsent(parts[0], sep);
    } else {
      var p := parts[0];
      var tail := parts[1..];
      var rest := Join(tail, sep);
      var s := Join(parts, sep);
      assert s == p + sep + rest;
      FindAfterPiece(p, sep, rest);
      assert s[..|p|] == p;
      assert s[|p| + |sep|..] == rest;
      assert Split(s, sep) == [p] + Split(rest, sep);
      assert forall k :: 0 <= k < |tail| ==> sep[0] !in tail[k] by {
        forall k | 0 <= k < |tail| ensures sep[0] !in tail[k] {
          assert tail[k] == parts[k + 1];
        }
      }
      SplitJoin(tail, sep);
      assert parts == [p] + tail;
    }
  }

  /** Joining a piece in front of at least one more. */
  lemma JoinCons(p: string, tail: seq<string>, sep: string)
    requires |tail| >= 1
    ensures Join([p] + tail, sep) == p + sep + Join(tail, sep)
  {
    assert ([p] + tail)[1..] == tail;
  }

  /** Joining undoes splitting. */
  lemma {:induction false} JoinSplit(s: string, sep: string)
    requires |sep| > 0
    ensures Join(Split(s, sep), sep) == s
    decreases |s|
  {
    var i := Find(s, sep);
    if i >= 0 {
      var rest := s[i + |sep|..];
      calc {
        Join(Split(s, sep), sep);
        Join([s[..i]] + Split(rest, sep), sep);
        { JoinCons(s[..i], Split(rest, sep), sep); }
        s[..i] + sep + Join(Split(rest, sep), sep);
        { JoinSplit(rest, sep); }
        s[..i] + sep + rest;
        { Around(s, sep, i); }
        s;
      }
    }
  }

  /** Text is what comes before an occurrence, the occurrence, and what follows it. */
  lemma Around(s: string, sep: string, i: int)
    requires OccursAt(s, sep, i)
    ensures s == s[..i] + sep + s[i + |sep|..]
  {
    assert s == s[..i] + s[i..i + |sep|] + s[i + |sep|..];
  }

  /** Piece `k` of `s.split(sep)`: what destructuring `const [a, b] = s.split(sep)` binds,
      `None` standing for `undefined`. */
  function Part(s: string, sep: string, k: nat): (r: Option<string>)
    requires |sep| > 0
    ensures r.Some? <==> k < |Split(s, sep)|
  {
    var parts := Split(s, sep);
    if k < |parts| then Some(parts[k]) else None
  }

  /** With one-character separator `c`, piece 0 is the text before the first `c`, and piece 1
      exists exactly when `c` occurs; it is then the text between the first and second `c`. */
  lemma SplitCharParts(s: string, c: char)
    ensures Part(s, [c], 0) == Some(if Find(s, [c]) >= 0 then s[..Find(s, [c])] else s)
    ensures Part(s, [c], 1).Some? <==> c in s
    ensures c in s ==> Part(s, [c], 1) == Part(s[Find(s, [c]) + 1..], [c], 0)
  {
    FindChar(s, c);
  }

  /** Text made of a `c`-free piece, `c`, another `c`-free piece and a tail that is empty or
      starts with `c` splits on `c` into those two pieces first. */
  lemma FirstTwoPieces(a: string, b: string, tail: string, c: char)
    requires c !in a && c !in b && (tail == "" || tail[0] == c)
    ensures Part(a + [c] + b + tail, [c], 0) == Some(a)
    ensures Part(a + [c] + b + tail, [c], 1) == Some(b)
  {
    var s := a + [c] + b + tail;
    assert s == a + [c] + (b + tail);
    FirstPieceAfter(a, b + tail, c);
    FirstPiece(b, tail, c);
  }

  /** The first piece of `a + [c] + rest` is `a`, and the second is the first piece of `rest`. */
  lemma FirstPieceAfter(a: string, rest: string, c: char)
    requires c !in a
    ensures Part(a + [c] + rest, [c], 0) == Some(a)
    ensures Part(a + [c] + rest, [c], 1) == Part(rest, [c], 0)
  {
    var s := a + [c] + rest;
    FindAfterPiece(a, [c], rest);
    assert s[..|a|] == a;
    assert s[|a|] == c;
    assert s[|a| + 1..] == rest;
    SplitCharParts(s, c);
  }

  /** The first piece of a `c`-free `b` followed by nothing or by `c` is `b`. */
  lemma FirstPiece(b: string, tail: string, c: char)
    requires c !in b && (tail == "" || tail[0] == c)
    ensures Part(b + tail, [c], 0) == Some(b)
  {
    SplitCharParts(b + tail, c);
    if tail == "" {
      assert b + tail == b;
      FindAbsent(b, [c]);
    } else {
      assert b + tail == b + [c] + tail[1..];
      FindAfterPiece(b, [c], tail[1..]);
      assert (b + tail)[..|b|] == b;
    }
  }

  // ---------------------------------------------------------------- prefixes, repetition

  /** `s.startsWith(p)`. */
  predicate StartsWith(s: string, p: string)
  {
    |p| <= |s| && s[..|p|] == p
  }

  /** `c.repeat(n)` for a one-character string `c` and a count `n >= 0`
      (a negative count throws, and callers model that themselves). */
  function Repeat(c: char, n: nat): (r: string)
    ensures |r| == n
    ensures forall i :: 0 <= i < n ==> r[i] == c
  {
    seq(n, _ => c)
  }

  // ---------------------------------------------------------------- case and white space

  /** `toLowerCase()` on the ASCII letters; every other character is left as it is. */
  function ToLower(s: string): (r: string)
    ensures |r| == |s|
    ensures forall i :: 0 <= i < |s| ==>
      r[i] == (if 'A' <= s[i] <= 'Z' then (s[i] as int + 32) as char else s[i])
  {
    seq(|s|, i requires 0 <= i < |s| => if 'A' <= s[i] <= 'Z' then (s[i] as int + 32) as char else s[i])
  }

  /** The characters `String.prototype.trim` removes: ECMAScript WhiteSpace and LineTerminator. */
  predicate IsSpace(c: char)
  {
    c == '\t' || c == '\n' || c == '\U{000B}' || c == '\U{000C}' || c == '\r' || c == ' '
    || c == '\U{00A0}' || c == '\U{1680}' || ('\U{2000}' <= c <= '\U{200A}')
    || c == '\U{2028}' || c == '\U{2029}' || c == '\U{202F}' || c == '\U{205F}'
    || c == '\U{3000}' || c == '\U{FEFF}'
  }

  function TrimStart(s: string): (r: string)
    ensures |r| <= |s| && r == s[|s| - |r|..]
    ensures r == "" || !IsSpace(r[0])
    ensures forall i :: 0 <= i < |s| - |r| ==> IsSpace(s[i])
  {
    if s == "" || !IsSpace(s[0]) then s else TrimStart(s[1..])
  }

  function TrimEnd(s: string): (r: string)
    ensures |r| <= |s| && r == s[..|r|]
    ensures r == "" || !IsSpace(r[|r| - 1])
    ensures forall i :: |r| <= i < |s| ==> IsSpace(s[i])
  {
    if s == "" || !IsSpace(s[|s| - 1]) then s else TrimEnd(s[..|s| - 1])
  }

  /** `s.trim()`. */
  function Trim(s: string): string
  {
    TrimEnd(TrimStart(s))
  }

  /** A string trims to the empty string exactly when every character in it is white space. */
  lemma TrimEmpty(s: string)
    ensures Trim(s) == "" <==> forall i :: 0 <= i < |s| ==> IsSpace(s[i])
  {
    var t := TrimStart(s);
    if t != "" {
      assert t[0] == s[|s| - |t|];
    }
  }

  // ---------------------------------------------------------------- hexadecimal

  function HexDigit(d: int): (c: char)
    requires 0 <= d < 16
    ensures '0' <= c <= '9' || 'a' <= c <= 'f'
  {
    if d < 10 then ('0' as int + d) as char else ('a' as int + d - 10) as char
  }

  predicate IsHex(s: string)
  {
    forall i :: 0 <= i < |s| ==> ('0' <= s[i] <= '9' || 'a' <= s[i] <= 'f')
  }

  /** `buffer.toString('hex')`: two lower-case hexadecimal digits per byte. */
  function ToHex(bytes: seq<byte>): (s: string)
    ensures |s| == 2 * |bytes| && IsHex(s)
  {
    if |bytes| == 0 then ""
    else [HexDigit(bytes[0] as int / 16), HexDigit(bytes[0] as int % 16)] + ToHex(bytes[1..])
  }

  /** A hexadecimal string holds no character outside `0-9a-f`, a dot among them. */
  lemma HexHasNo(s: string, c: char)
    requires IsHex(s) && !('0' <= c <= '9' || 'a' <= c <= 'f')
    ensures c !in s
  {
  }

  // ---------------------------------------------------------------- parseInt

  predicate IsDigit(c: char)
  {
    '0' <= c <= '9'
  }

  /** The longest prefix of `s` made of decimal digits. */
  function LeadingDigits(s: string): (d: string)
    ensures |d| <= |s| && d == s[..|d|]
    ensures forall i :: 0 <= i < |d| ==> IsDigit(d[i])
    ensures |d| == |s| || !IsDigit(s[|d|])
  {
    if s == "" || !IsDigit(s[0]) then "" else [s[0]] + LeadingDigits(s[1..])
  }

  /** The number a string of decimal digits denotes. */
  function DigitsValue(d: string): (n: nat)
    requires forall i :: 0 <= i < |d| ==> IsDigit(d[i])
  {
    if d == "" then 0
    else
      assert IsDigit(d[|d| - 1]);
      10 * DigitsValue(d[..|d| - 1]) + (d[|d| - 1] as int - '0' as int)
  }

  /** `parseInt(s, 10)`: leading white space is skipped, then an optional sign, then the longest
      run of digits; `None` is NaN, returned when that run is empty. */
  function ParseInt(s: string): (r: Option<int>)
  {
    var t := TrimStart(s);
    var negative := t != "" && t[0] == '-';
    var body := if t != "" && (t[0] == '-' || t[0] == '+') then t[1..] else t;
    var digits := LeadingDigits(body);
    if digits == "" then None
    else Some(if negative then -(DigitsValue(digits) as int) else DigitsValue(digits) as int)
  }

  /** `parseInt(v, 10)` on a JavaScript value: a number is kept, a string is parsed, and
      anything else (`undefined`, `null`, a boolean) converts to a non-numeric string: NaN. */
  function ParseIntValue(v: Value): Option<int>
  {
    match v
    case Num(n) => Some(n)
    case Str(s) => ParseInt(s)
    case _ => None
  }
}
