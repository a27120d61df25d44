/**
 * The bearer-header guard in front of every protected route (`authMiddleware`). Token
 * verification (signature, secret and expiry clock) is the abstract `verify`.
 */
module AuthMiddleware {
  import opened Wrappers

  /** The identity a session token carries, exposed to handlers as `req.user`. */
  datatype Payload = Payload(id: nat, nome: string)

  /** A rejection with its status and error text, or the single call of `next` with `req.user` set. */
  datatype Outcome = Reject(status: nat, error: string) | Next(user: Payload)

  const NoTokenError: string := "Acesso negado. Nenhum token fornecido."
  const FormatError: string := "Erro no formato do token."
  const MalformedError: string := "Token mal formatado."
  const InvalidError: string := "Token inválido ou expirado."

  /** `!authHeader`: the header is absent or empty. */
  predicate Missing(header: Option<string>) {
    header.None? || header.value == ""
  }

  function Count(s: string, c: char): nat {
    if s == [] then 0 else (if s[0] == c then 1 else 0) + Count(s[1..], c)
  }

  function Join(parts: seq<string>, sep: char): string {
    if |parts| == 0 then ""
    else if |parts| == 1 then parts[0]
    else parts[0] + [sep] + Join(parts[1..], sep)
  }

  /**
   * JavaScript `s.split(sep)` for a one-character separator: one part more than there are
   * separators, no part contains one, and joining the parts gives `s` back.
   */
  function Split(s: string, sep: char): (parts: seq<string>)
    ensures |parts| == Count(s, sep) + 1
    ensures forall p :: p in parts ==> sep !in p
    ensures Join(parts, sep) == s
  {
    if s == [] then [""]
    else
      var rest := Split(s[1..], sep);
      assert s == [s[0]] + s[1..];
      if s[0] == sep then
        [""] + rest
      else
        var parts := [[s[0]] + rest[0]] + rest[1..];
        assert parts[1..] == rest[1..];
        assert forall p :: p in rest[1..] ==> p in rest;
        parts
  }

  function UpperAscii(c: char): char {
    if 'a' <= c <= 'z' then (c as int - 32) as char else c
  }

  /**
   * `/^Bearer$/i.test(scheme)`. Without the `u` flag JavaScript folds case by upper-casing
   * and never maps a non-ASCII character onto an ASCII one, so only ASCII letters fold here.
   */
  predicate MatchesBearer(scheme: string): (b: bool)
    ensures b <==> |scheme| == 6 && forall i :: 0 <= i < 6 ==> scheme[i] == "Bearer"[i] || scheme[i] == "bEARER"[i]
  {
    |scheme| == 6 && forall i :: 0 <= i < 6 ==> UpperAscii(scheme[i]) == "BEARER"[i]
  }

  /** `authMiddleware`: the guards in source order; the first that fails decides the response. */
  function Authenticate(header: Option<string>, verify: string -> Option<Payload>): (o: Outcome)
    ensures o == Reject(401, NoTokenError) <==> Missing(header)
    ensures o == Reject(401, FormatError) <==> !Missing(header) && Count(header.value, ' ') != 1
    ensures o.Reject? ==> o.status == 401 || o.status == 403
  {
    if Missing(header) then Reject(401, NoTokenError)
    else
      var partes := Split(header.value, ' ');
      if |partes| != 2 then Reject(401, FormatError)
      else
        var scheme, token := partes[0], partes[1];
        if !MatchesBearer(scheme) then Reject(401, MalformedError)
        else match verify(token)
          case None => Reject(403, InvalidError)
          case Some(decoded) => Next(decoded)
  }

  lemma {:induction false} SplitOneSpace(scheme: string, token: string)
    requires ' ' !in scheme && ' ' !in token
    ensures Split(scheme + " " + token, ' ') == [scheme, token]
  {
    var s := scheme + " " + token;
    if scheme == [] {
      assert s == " " + token && s[1..] == token;
      SplitNoSeparator(token, ' ');
    } else {
      assert s[0] == scheme[0] && s[1..] == scheme[1..] + " " + token;
      SplitOneSpace(scheme[1..], token);
      assert [scheme[0]] + scheme[1..] == scheme;
    }
  }

  lemma {:induction false} SplitNoSeparator(s: string, sep: char)
    requires sep !in s
    ensures Split(s, sep) == [s]
  {
    if s != [] {
      SplitNoSeparator(s[1..], sep);
      assert [s[0]] + s[1..] == s;
    }
  }

  /** A non-empty header with exactly one space is a scheme and a token, neither with a space. */
  lemma OneSpaceDecomposes(h: string)
    requires Count(h, ' ') == 1
    ensures var parts := Split(h, ' ');
      h == parts[0] + " " + parts[1] && ' ' !in parts[0] && ' ' !in parts[1]
  {
    var parts := Split(h, ' ');
    assert parts[0] in parts && parts[1] in parts;
    assert Join(parts, ' ') == parts[0] + [' '] + Join(parts[1..], ' ');
  }

  /**
   * Every header of the form scheme, one space, token: a wrong scheme is "mal formatado"
   * (401), a token `verify` refuses is 403, and otherwise `next` runs with the decoded user.
   * With the two guards of `Authenticate`'s contract this decides every header.
   */
  lemma AuthenticateSingleSpace(scheme: string, token: string, verify: string -> Option<Payload>)
    requires ' ' !in scheme && ' ' !in token
    ensures Authenticate(Some(scheme + " " + token), verify) ==
      if !MatchesBearer(scheme) then Reject(401, MalformedError)
      else if verify(token).None? then Reject(403, InvalidError)
      else Next(verify(token).value)
  {
    SplitOneSpace(scheme, token);
    assert (scheme + " " + token) != "";
  }

  lemma {:induction false} CountAppend(a: string, b: string, c: char)
    ensures Count(a + b, c) == Count(a, c) + Count(b, c)
  {
    if a != [] {
      assert (a + b)[0] == a[0] && (a + b)[1..] == a[1..] + b;
      CountAppend(a[1..], b, c);
    } else {
      assert a + b == b;
    }
  }

  lemma {:induction false} CountAbsent(s: string, c: char)
    requires c !in s
    ensures Count(s, c) == 0
  {
    if s != [] {
      CountAbsent(s[1..], c);
    }
  }

  /** A double space between scheme and token makes three parts: "Erro no formato do token." */
  lemma DoubleSpaceIsFormatError(scheme: string, token: string, verify: string -> Option<Payload>)
    requires ' ' !in scheme && ' ' !in token
    ensures Authenticate(Some(scheme + "  " + token), verify) == Reject(401, FormatError)
  {
    CountAppend(scheme + "  ", token, ' ');
    CountAppend(scheme, "  ", ' ');
    CountAbsent(scheme, ' ');
    CountAbsent(token, ' ');
    assert "  "[1..] == " ";
  }

  /** "bearer" and "BEARER" pass the scheme test; "Basic" and "Bearer:" do not. */
  lemma SchemeExamples()
    ensures MatchesBearer("bearer") && MatchesBearer("BEARER") && MatchesBearer("Bearer")
    ensures !MatchesBearer("Basic") && !MatchesBearer("Bearer:")
  {
  }
}
