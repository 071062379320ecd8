/** The `authenticateToken` middleware: the bearer token is the second
    space-separated field of the `Authorization` header; no token gives 401,
    a token that fails verification gives 403, and a verified token passes its
    claims on to the handler. */
module Bearer {
  import opened Wrappers
  import opened Crypto

  /** JavaScript's `s.split(sep)` for a one-character separator: the fields
      between consecutive separators, empty ones included. The fields hold no
      separator and, joined back with it, give `s` again. */
  function Split(s: string, sep: char): (fields: seq<string>)
    ensures |fields| >= 1
    ensures forall i :: 0 <= i < |fields| ==> sep !in fields[i]
    ensures Join(fields, sep) == s
    ensures |fields| == 1 <==> sep !in s
    decreases |s|
  {
    if s == [] then [[]]
    else
      var rest := Split(s[1..], sep);
      if s[0] == sep then [[]] + rest
      else [[s[0]] + rest[0]] + rest[1..]
  }

  /** `fields.join(sep)`. */
  function Join(fields: seq<string>, sep: char): string
    requires |fields| >= 1
    decreases |fields|
  {
    if |fields| == 1 then fields[0] else fields[0] + [sep] + Join(fields[1..], sep)
  }

  /** A separator-free field followed by the separator starts the split. */
  lemma {:induction false} SplitAfterField(a: string, b: string, sep: char)
    requires sep !in a
    ensures Split(a + [sep] + b, sep) == [a] + Split(b, sep)
    decreases |a|
  {
    var s := a + [sep] + b;
    if a == [] {
      assert s[1..] == b;
    } else {
      assert s[1..] == a[1..] + [sep] + b;
      SplitAfterField(a[1..], b, sep);
      assert [a[0]] + a[1..] == a;
    }
  }

  /** A separator-free text followed by nothing or by a separator is the first field. */
  lemma FirstField(t: string, b: string, sep: char)
    requires sep !in t
    requires b == [] || b[0] == sep
    ensures Split(t + b, sep)[0] == t
  {
    if b == [] {
      assert t + b == t;
    } else {
      assert t + b == t + [sep] + b[1..];
      SplitAfterField(t, b[1..], sep);
    }
  }

  /** `authHeader && authHeader.split(' ')[1]`: no header gives no token; an
      empty header is falsy and short-circuits to the empty string itself;
      otherwise the second field, if there is one. */
  function BearerToken(header: Option<string>): (token: Option<string>)
    ensures token.None? <==> header.None? || (header.value != "" && ' ' !in header.value)
    ensures header == Some("") ==> token == Some("")
    ensures token.Some? ==> ' ' !in token.value
  {
    match header
    case None => None
    case Some(h) =>
      if h == "" then Some("")
      else
        var fields := Split(h, ' ');
        if |fields| >= 2 then Some(fields[1]) else None
  }

  /** The token is exactly the text between the first space and the next space
      or the end; in particular `Bearer <t>` yields `t`, and a double space
      after the scheme yields the empty string. */
  lemma {:induction false} BearerTokenOf(scheme: string, t: string, rest: string)
    requires ' ' !in scheme && ' ' !in t
    requires rest == [] || rest[0] == ' '
    ensures BearerToken(Some(scheme + " " + t + rest)) == Some(t)
  {
    var h := scheme + " " + t + rest;
    assert h == scheme + [' '] + (t + rest);
    SplitAfterField(scheme, t + rest, ' ');
    FirstField(t, rest, ' ');
  }

  /** The outcome of `authenticateToken`. */
  datatype Access = Unauthenticated | Forbidden | Granted(claims: Claims)

  /** 401 when there is no token, 403 when `jwt.verify` fails, the decoded
      claims otherwise. */
  function Authenticate(s: Scheme, header: Option<string>): (a: Access)
    ensures a == Unauthenticated <==> header.None? || (header.value != "" && ' ' !in header.value)
    ensures a.Granted? ==> s.verify(BearerToken(header).value) == Some(a.claims)
    ensures a == Forbidden ==> s.verify(BearerToken(header).value).None?
  {
    match BearerToken(header)
    case None => Unauthenticated
    case Some(token) =>
      match s.verify(token)
      case None => Forbidden
      case Some(claims) => Granted(claims)
  }

  /** A token the server signed, sent as `Bearer <token>`, is accepted with
      the claims it was signed with. */
  lemma SignedTokenGranted(s: Scheme, c: Claims)
    requires Sound(s)
    ensures Authenticate(s, Some("Bearer " + s.sign(c))) == Granted(c)
  {
    assert "Bearer " + s.sign(c) == "Bearer" + " " + s.sign(c) + [];
    BearerTokenOf("Bearer", s.sign(c), []);
  }
}
